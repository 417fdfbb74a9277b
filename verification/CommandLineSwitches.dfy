/**
 base/command_line.cc, POSIX: how switches are written to `argv_`, how `argv_` is read, and
 when reading gives back what was written.
 */
module CommandLineSwitches {
  import opened Common

  const SWITCH_TERMINATOR: string := "--"
  const VALUE_SEPARATOR: char := '='
  const LONG_PREFIX: string := "--"
  const SHORT_PREFIX: string := "-"

  datatype Switch = Switch(name: string, value: string)

  /** What InitFromArgv has made of the arguments so far. */
  datatype Parsed = Parsed(parseSwitches: bool, switches: map<string, string>, args: seq<string>)

  function Find(s: string, c: char): (r: int)
    ensures -1 <= r < |s|
    ensures 0 <= r ==> s[r] == c
    ensures forall i :: 0 <= i < (if r < 0 then |s| else r) ==> s[i] != c
  {
    if s == "" then -1
    else if s[0] == c then 0
    else var r := Find(s[1..], c); if r < 0 then -1 else r + 1
  }

  function SplitSwitch(body: string): Switch {
    var equals := Find(body, VALUE_SEPARATOR);
    if equals < 0 then Switch(body, "") else Switch(body[..equals], body[equals + 1..])
  }

  /** IsSwitch, with the longer prefix tried first. */
  function IsSwitch(arg: string): Option<Switch> {
    if LONG_PREFIX <= arg then Some(SplitSwitch(arg[2..]))
    else if SHORT_PREFIX <= arg then Some(SplitSwitch(arg[1..]))
    else None
  }

  function ParseArg(parsed: Parsed, arg: string): Parsed {
    if !parsed.parseSwitches then parsed.(args := parsed.args + [arg])
    else if arg == SWITCH_TERMINATOR then parsed.(parseSwitches := false)
    else
      match IsSwitch(arg)
      case Some(s) => parsed.(switches := parsed.switches[s.name := s.value])
      case None => parsed.(args := parsed.args + [arg])
  }

  function ParseArgs(start: Parsed, args: seq<string>): Parsed {
    if args == [] then start
    else ParseArg(ParseArgs(start, args[..|args|-1]), args[|args|-1])
  }

  const NOTHING_PARSED: Parsed := Parsed(true, map[], [])

  function Body(s: Switch): string {
    s.name + (if s.value != "" then [VALUE_SEPARATOR] + s.value else "")
  }

  function Render(s: Switch): string {
    LONG_PREFIX + Body(s)
  }

  function Rendered(switches: seq<Switch>): seq<string> {
    seq(|switches|, i requires 0 <= i < |switches| => Render(switches[i]))
  }

  function Folded(switches: seq<Switch>): map<string, string> {
    if switches == [] then map[]
    else
      var last := switches[|switches|-1];
      Folded(switches[..|switches|-1])[last.name := last.value]
  }

  lemma FoldedAppend(a: seq<Switch>, s: Switch)
    ensures Folded(a + [s]) == Folded(a)[s.name := s.value]
    ensures Rendered(a + [s]) == Rendered(a) + [Render(s)]
  {
    assert (a + [s])[..|a|] == a;
  }

  lemma {:induction false} FoldedConcat(a: seq<Switch>, b: seq<Switch>)
    ensures Folded(a + b) == Folded(a) + Folded(b)
  {
    if b == [] {
      assert a + b == a;
    } else {
      var init, last := b[..|b|-1], b[|b|-1];
      assert b == init + [last];
      Associative(a, init, [last]);
      FoldedConcat(a, init);
      FoldedAppend(a + init, last);
      FoldedAppend(init, last);
    }
  }

  lemma RenderedConcat(a: seq<Switch>, b: seq<Switch>)
    ensures Rendered(a + b) == Rendered(a) + Rendered(b)
  {
  }

  // ----- parsing piece by piece -----

  lemma FindIs(s: string, c: char, at: int)
    requires 0 <= at < |s| && s[at] == c && forall i :: 0 <= i < at ==> s[i] != c
    ensures Find(s, c) == at
  {
  }

  lemma BodySplits(s: Switch)
    requires VALUE_SEPARATOR !in s.name
    ensures SplitSwitch(Body(s)) == s
  {
    var body, equals := Body(s), Find(Body(s), VALUE_SEPARATOR);
    if s.value == "" {
      assert body == s.name && equals == -1;
    } else {
      assert forall i :: 0 <= i < |s.name| ==> body[i] == s.name[i];
      FindIs(body, VALUE_SEPARATOR, |s.name|);
    }
  }

  lemma SplitNameIsPlain(body: string)
    ensures VALUE_SEPARATOR !in SplitSwitch(body).name
  {
  }

  lemma RenderedIsSwitch(s: Switch)
    ensures Render(s) == SWITCH_TERMINATOR <==> s == Switch("", "")
    ensures IsSwitch(Render(s)) == Some(SplitSwitch(Body(s)))
    ensures VALUE_SEPARATOR !in SplitSwitch(Body(s)).name
    ensures VALUE_SEPARATOR !in s.name ==> IsSwitch(Render(s)) == Some(s)
  {
    assert |Render(s)| == 2 + |Body(s)| && Render(s)[2..] == Body(s);
    SplitNameIsPlain(Body(s));
    if VALUE_SEPARATOR !in s.name {
      BodySplits(s);
    }
  }

  lemma ParseOneMore(start: Parsed, args: seq<string>, arg: string)
    ensures ParseArgs(start, args + [arg]) == ParseArg(ParseArgs(start, args), arg)
  {
    assert (args + [arg])[..|args|] == args;
  }

  lemma {:induction false} ParseConcat(start: Parsed, a: seq<string>, b: seq<string>)
    ensures ParseArgs(start, a + b) == ParseArgs(ParseArgs(start, a), b)
  {
    if b == [] {
      assert a + b == a;
    } else {
      var init, last := b[..|b|-1], b[|b|-1];
      assert b == init + [last];
      Associative(a, init, [last]);
      ParseConcat(start, a, init);
      ParseOneMore(start, a + init, last);
    }
  }

  /** After the terminator everything is an argument. */
  lemma {:induction false} ParseNoMoreSwitches(start: Parsed, args: seq<string>)
    requires !start.parseSwitches
    ensures ParseArgs(start, args) == start.(args := start.args + args)
  {
    if args != [] {
      var init, last := args[..|args|-1], args[|args|-1];
      assert args == init + [last];
      ParseNoMoreSwitches(start, init);
      Associative(start.args, init, [last]);
    }
  }

  function Behind(start: Parsed, alone: Parsed): Parsed {
    Parsed(alone.parseSwitches, start.switches + alone.switches, start.args + alone.args)
  }

  lemma ParseArgBehind(start: Parsed, alone: Parsed, arg: string)
    ensures ParseArg(Behind(start, alone), arg) == Behind(start, ParseArg(alone, arg))
  {
    Associative(start.args, alone.args, [arg]);
    var s := IsSwitch(arg);
    if s.Some? {
      assert (start.switches + alone.switches)[s.value.name := s.value.value]
          == start.switches + alone.switches[s.value.name := s.value.value];
    }
  }

  /** What has been parsed before only adds to the result. */
  lemma {:induction false} ParseFrom(start: Parsed, args: seq<string>)
    requires start.parseSwitches
    ensures ParseArgs(start, args) == Behind(start, ParseArgs(NOTHING_PARSED, args))
  {
    if args == [] {
      assert start.switches + map[] == start.switches && start.args + [] == start.args;
    } else {
      ParseFrom(start, args[..|args|-1]);
      ParseArgBehind(start, ParseArgs(NOTHING_PARSED, args[..|args|-1]), args[|args|-1]);
    }
  }

  lemma PlainName(arg: string)
    ensures IsSwitch(arg).Some? ==> VALUE_SEPARATOR !in IsSwitch(arg).value.name
  {
    if LONG_PREFIX <= arg {
      SplitNameIsPlain(arg[2..]);
    } else if SHORT_PREFIX <= arg {
      SplitNameIsPlain(arg[1..]);
    }
  }

  lemma {:induction false} ParsedNames(args: seq<string>)
    ensures forall name :: name in ParseArgs(NOTHING_PARSED, args).switches ==> VALUE_SEPARATOR !in name
  {
    if args != [] {
      var init, last := args[..|args|-1], args[|args|-1];
      ParsedNames(init);
      PlainName(last);
    }
  }

  // ----- reading back what was appended -----

  /** The switches whose rendering is read back as the switch itself. */
  predicate ReadsBack(s: Switch) {
    VALUE_SEPARATOR !in s.name && (s.name != "" || s.value != "")
  }

  /** One switch more in `argv_` and in `switches_`: they still agree just when switches
      are still being read, the name has no '=', and the switch is not the terminator,
      unless that changes nothing. */
  predicate Fits(parsed: Parsed, s: Switch) {
    && parsed.parseSwitches && VALUE_SEPARATOR !in s.name
    && (s == Switch("", "") ==> "" in parsed.switches && parsed.switches[""] == "")
  }

  lemma AppendKeepsIff(tail: seq<string>, s: Switch)
    ensures
      var was, now := ParseArgs(NOTHING_PARSED, tail), ParseArgs(NOTHING_PARSED, tail + [Render(s)]);
      && (now.switches == was.switches[s.name := s.value] && now.args == was.args <==> Fits(was, s))
      && (Fits(was, s) ==> now.parseSwitches == (s != Switch("", "")))
  {
    var was := ParseArgs(NOTHING_PARSED, tail);
    ParseOneMore(NOTHING_PARSED, tail, Render(s));
    RenderedIsSwitch(s);
    ParsedNames(tail);
    if was.parseSwitches && s == Switch("", "") {
      assert was.switches[s.name := s.value] == was.switches <==> "" in was.switches && was.switches[""] == "";
    } else if was.parseSwitches && VALUE_SEPARATOR in s.name {
      var read := SplitSwitch(Body(s));
      assert s.name !in was.switches[read.name := read.value];
    }
  }

  /** The same for switches one after the other. */
  predicate AllFit(parsed: Parsed, added: seq<Switch>)
    decreases |added|
  {
    added == [] || (Fits(parsed, added[0])
                    && AllFit(Parsed(added[0] != Switch("", ""), parsed.switches[added[0].name := added[0].value],
                                     parsed.args), added[1..]))
  }

  lemma RenderedFirst(added: seq<Switch>)
    requires added != []
    ensures Rendered(added) == [Render(added[0])] + Rendered(added[1..])
    ensures Folded(added) == map[added[0].name := added[0].value] + Folded(added[1..])
  {
    assert added == [added[0]] + added[1..];
    FoldedConcat([added[0]], added[1..]);
    assert [added[0]][..0] == [];
    assert Folded([added[0]]) == map[added[0].name := added[0].value];
  }

  /** "--" ends the switches, and what is rendered behind it is read as arguments. */
  lemma {:induction false} Terminated(was: Parsed, rest: seq<Switch>)
    requires was.parseSwitches
    ensures ParseArgs(was, [SWITCH_TERMINATOR] + Rendered(rest))
            == Parsed(false, was.switches, was.args + Rendered(rest))
  {
    ParseConcat(was, [SWITCH_TERMINATOR], Rendered(rest));
    assert [SWITCH_TERMINATOR][..0] == [];
    ParseNoMoreSwitches(was.(parseSwitches := false), Rendered(rest));
  }

  /** If the first one does not fit, nothing that follows makes up for it. */
  lemma {:induction false} MisfitStays(tail: seq<string>, added: seq<Switch>)
    requires added != [] && !Fits(ParseArgs(NOTHING_PARSED, tail), added[0])
    ensures
      var was, now := ParseArgs(NOTHING_PARSED, tail), ParseArgs(NOTHING_PARSED, tail + Rendered(added));
      !(now.switches == was.switches + Folded(added) && now.args == was.args)
  {
    var was, s, rest := ParseArgs(NOTHING_PARSED, tail), added[0], added[1..];
    ParseConcat(NOTHING_PARSED, tail, Rendered(added));
    RenderedFirst(added);
    RenderedIsSwitch(s);
    if !was.parseSwitches {
      ParseNoMoreSwitches(was, Rendered(added));
    } else if VALUE_SEPARATOR in s.name {
      ParsedNames(tail + Rendered(added));
      assert s.name in Folded(added) && s.name in was.switches + Folded(added);
    } else {
      Terminated(was, rest);
      if rest == [] {
        assert Folded(added)[""] == "";
      }
    }
  }

  lemma MergeFirst(was: map<string, string>, s: Switch, rest: map<string, string>)
    ensures was[s.name := s.value] + rest == was + (map[s.name := s.value] + rest)
  {
  }

  /** Any switches appended to `argv_`, whatever it holds already: reading it gives just
      these and no new arguments, if and only if they all fit one after the other. */
  lemma {:induction false} AppendAllIff(tail: seq<string>, added: seq<Switch>)
    ensures
      var was, now := ParseArgs(NOTHING_PARSED, tail), ParseArgs(NOTHING_PARSED, tail + Rendered(added));
      now.switches == was.switches + Folded(added) && now.args == was.args <==> AllFit(was, added)
    decreases |added|
  {
    var was := ParseArgs(NOTHING_PARSED, tail);
    if added == [] {
      assert tail + [] == tail && was.switches + map[] == was.switches;
    } else if Fits(was, added[0]) {
      AppendKeepsIff(tail, added[0]);
      RenderedFirst(added);
      Associative(tail, [Render(added[0])], Rendered(added[1..]));
      AppendAllIff(tail + [Render(added[0])], added[1..]);
      MergeFirst(was.switches, added[0], Folded(added[1..]));
    } else {
      MisfitStays(tail, added);
    }
  }

  /** From a program alone: all switches fit if and only if no name contains '=' and none
      has both name and value empty. */
  lemma {:induction false} AllFitIff(parsed: Parsed, added: seq<Switch>)
    requires parsed.parseSwitches && ("" in parsed.switches ==> parsed.switches[""] != "")
    ensures AllFit(parsed, added) <==> forall i :: 0 <= i < |added| ==> ReadsBack(added[i])
    decreases |added|
  {
    if added != [] {
      var s := added[0];
      if Fits(parsed, s) {
        var now := Parsed(s != Switch("", ""), parsed.switches[s.name := s.value], parsed.args);
        AllFitIff(now, added[1..]);
        assert forall i :: 0 < i < |added| ==> added[i] == added[1..][i-1];
      } else {
        assert !ReadsBack(added[0]);
      }
    }
  }

  lemma ReparseIff(added: seq<Switch>)
    ensures
      var parsed := ParseArgs(NOTHING_PARSED, Rendered(added));
      parsed.switches == Folded(added) && parsed.args == []
      <==> forall i :: 0 <= i < |added| ==> ReadsBack(added[i])
  {
    AppendAllIff([], added);
    assert [] + Rendered(added) == Rendered(added) && map[] + Folded(added) == Folded(added);
    AllFitIff(NOTHING_PARSED, added);
  }

  /** A name with '=' in it, and the empty switch, do not come back. */
  lemma NotEverySwitchReparses()
    ensures
      var parsed := ParseArgs(NOTHING_PARSED, Rendered([Switch("a=b", "")]));
      !(parsed.switches == map["a=b" := ""] && parsed.args == [])
    ensures
      var parsed := ParseArgs(NOTHING_PARSED, Rendered([Switch("", "")]));
      !(parsed.switches == map["" := ""] && parsed.args == [])
  {
    var named, empty := Switch("a=b", ""), Switch("", "");
    FoldedAppend([], named);
    FoldedAppend([], empty);
    assert [] + [named] == [named] && [] + [empty] == [empty];
    assert !ReadsBack(named) by { assert named.name[1] == VALUE_SEPARATOR; }
    assert [named][0] == named && [empty][0] == empty;
    ReparseIff([named]);
    ReparseIff([empty]);
  }

  /** All of another command line behind this one, with its switches but, as the code has
      it, not its arguments merged: that agrees just when it had no arguments, or when
      nothing is read as a switch any more and there was nothing to add. */
  lemma MergeKeepsIff(tail: seq<string>, theirs: seq<string>)
    ensures
      var was, their := ParseArgs(NOTHING_PARSED, tail), ParseArgs(NOTHING_PARSED, theirs);
      var now := ParseArgs(NOTHING_PARSED, tail + theirs);
      now.switches == was.switches + their.switches && now.args == was.args
      <==> if was.parseSwitches then their.args == [] else theirs == []
  {
    var was := ParseArgs(NOTHING_PARSED, tail);
    ParseConcat(NOTHING_PARSED, tail, theirs);
    if was.parseSwitches {
      ParseFrom(was, theirs);
    } else {
      ParseNoMoreSwitches(was, theirs);
      assert was.switches + map[] == was.switches;
    }
  }

  // ----- the order of a map -----

  /** The switches but for those still to come, each once, in some order. */
  ghost predicate IsEachOnce(added: seq<Switch>, theirs: map<string, string>, todo: set<string>) {
    && (forall i :: 0 <= i < |added| ==>
          added[i].name in theirs && added[i].name !in todo && added[i].value == theirs[added[i].name])
    && (forall i, j :: 0 <= i < j < |added| ==> added[i].name != added[j].name)
    && (forall k :: k in theirs && k !in todo ==> Switch(k, theirs[k]) in added)
  }

  lemma EachOnceStep(added: seq<Switch>, theirs: map<string, string>, todo: set<string>, name: string)
    requires IsEachOnce(added, theirs, todo) && name in todo && name in theirs
    ensures IsEachOnce(added + [Switch(name, theirs[name])], theirs, todo - {name})
  {
  }

  /** Switches that are each in the map once make up the map. */
  lemma {:induction false} EachOnceFolds(added: seq<Switch>, theirs: map<string, string>)
    requires forall i :: 0 <= i < |added| ==> added[i].name in theirs && added[i].value == theirs[added[i].name]
    ensures forall k :: k in Folded(added) ==> k in theirs && Folded(added)[k] == theirs[k]
    ensures forall i :: 0 <= i < |added| ==> added[i].name in Folded(added)
  {
    if added != [] {
      var init, last := added[..|added|-1], added[|added|-1];
      assert added == init + [last];
      EachOnceFolds(init, theirs);
    }
  }

  lemma AllOnceFold(added: seq<Switch>, theirs: map<string, string>)
    requires IsEachOnce(added, theirs, {})
    ensures Folded(added) == theirs
  {
    EachOnceFolds(added, theirs);
    forall k | k in theirs
      ensures k in Folded(added)
    {
      assert Switch(k, theirs[k]) in added;
    }
  }

  lemma EachOnceReadsBack(added: seq<Switch>, theirs: map<string, string>)
    requires IsEachOnce(added, theirs, {})
    ensures (forall i :: 0 <= i < |added| ==> ReadsBack(added[i]))
            <==> forall k :: k in theirs ==> ReadsBack(Switch(k, theirs[k]))
  {
    assert forall k :: k in theirs ==> Switch(k, theirs[k]) in added;
    assert forall i :: 0 <= i < |added| ==> added[i] == Switch(added[i].name, theirs[added[i].name]);
  }

  function Copied(source: map<string, string>, names: seq<string>, n: nat): seq<Switch>
    requires n <= |names|
  {
    if n == 0 then []
    else if names[n-1] in source then Copied(source, names, n - 1) + [Switch(names[n-1], source[names[n-1]])]
    else Copied(source, names, n - 1)
  }

  /** The positions of the names that the source has. */
  function Positions(source: map<string, string>, names: seq<string>, n: nat): (at: seq<nat>)
    requires n <= |names|
    ensures forall i :: 0 <= i < |at| ==> at[i] < n && names[at[i]] in source
  {
    if n == 0 then []
    else Positions(source, names, n - 1) + if names[n-1] in source then [n - 1] else []
  }

  lemma {:induction false} PositionsAscend(source: map<string, string>, names: seq<string>, n: nat)
    requires n <= |names|
    ensures forall i, j :: 0 <= i < j < |Positions(source, names, n)| ==>
              Positions(source, names, n)[i] < Positions(source, names, n)[j]
    ensures forall k :: 0 <= k < n && names[k] in source ==> k in Positions(source, names, n)
  {
    if n > 0 {
      PositionsAscend(source, names, n - 1);
    }
  }

  /** What is copied: one switch for each of these positions, in order, with the value that
      the source has for the name there. */
  lemma {:induction false} CopiedIs(source: map<string, string>, names: seq<string>, n: nat)
    requires n <= |names|
    ensures
      var at := Positions(source, names, n);
      Copied(source, names, n)
      == seq(|at|, i requires 0 <= i < |at| => Switch(names[at[i]], source[names[at[i]]]))
  {
    if n > 0 {
      CopiedIs(source, names, n - 1);
    }
  }

  lemma {:induction false} CopiedFolds(source: map<string, string>, names: seq<string>, n: nat)
    requires n <= |names|
    ensures forall k :: k in Folded(Copied(source, names, n)) <==> k in source && k in names[..n]
    ensures forall k :: k in Folded(Copied(source, names, n)) ==> Folded(Copied(source, names, n))[k] == source[k]
  {
    if n > 0 {
      CopiedFolds(source, names, n - 1);
      assert names[..n] == names[..n-1] + [names[n-1]];
      if names[n-1] in source {
        FoldedAppend(Copied(source, names, n - 1), Switch(names[n-1], source[names[n-1]]));
      }
    }
  }
}
