/**
 base/command_line.cc, POSIX: what InitFromArgv makes of its arguments, from their positions
 and their characters alone.
 */
module CommandLineReading {
  import opened Common
  import opened CommandLineSwitches

  predicate HasDash(arg: string) {
    arg != "" && arg[0] == '-'
  }

  /** How many arguments there are before the first "--". */
  function SwitchesEnd(args: seq<string>): (end: nat)
    ensures end <= |args| && forall i :: 0 <= i < end ==> args[i] != "--"
    ensures end < |args| ==> args[end] == "--"
  {
    if args == [] || args[0] == "--" then 0 else 1 + SwitchesEnd(args[1..])
  }

  /** The arguments that do not begin with a dash, in order. */
  function WithoutDash(args: seq<string>): seq<string> {
    if args == [] then []
    else (if HasDash(args[0]) then [] else [args[0]]) + WithoutDash(args[1..])
  }

  ghost predicate IsForm(arg: string, prefix: string, n: string, v: string) {
    (v == "" && arg == prefix + n) || arg == prefix + n + "=" + v
  }

  /** The four forms of a switch: "--n", "--n=v", "-n" and "-n=v", where what begins with
      "--" is not of the last two. */
  ghost predicate Says(arg: string, n: string, v: string) {
    '=' !in n && (IsForm(arg, "--", n, v) || (!("--" <= arg) && IsForm(arg, "-", n, v)))
  }

  ghost predicate Names(arg: string, n: string) {
    exists v :: Says(arg, n, v)
  }

  /** Argument k is the last one before the first "--" that says anything of n. */
  ghost predicate LastSays(args: seq<string>, end: nat, n: string, v: string, k: nat)
    requires end <= |args|
  {
    k < end && Says(args[k], n, v) && forall j :: k < j < end ==> !Names(args[j], n)
  }

  ghost predicate MapsTo(switches: map<string, string>, n: string, v: string) {
    n in switches && switches[n] == v
  }

  ghost predicate IsGiven(args: seq<string>, end: nat, switches0: map<string, string>, n: string, v: string)
    requires end <= |args|
  {
    || (exists k: nat :: LastSays(args, end, n, v, k))
    || (MapsTo(switches0, n, v) && forall j :: 0 <= j < end ==> !Names(args[j], n))
  }

  ghost predicate SwitchesReadAs(args: seq<string>, end: nat, switches0: map<string, string>,
                                 switches: map<string, string>)
    requires end <= |args|
  {
    forall n, v :: MapsTo(switches, n, v) <==> IsGiven(args, end, switches0, n, v)
  }

  ghost function PlainOf(args: seq<string>): seq<string> {
    var end := SwitchesEnd(args);
    WithoutDash(args[..end]) + (if end < |args| then args[end + 1..] else [])
  }

  /** What InitFromArgv is to make of the arguments, on top of what there was. */
  ghost predicate ReadsAs(args: seq<string>, switches0: map<string, string>, args0: seq<string>,
                          switches: map<string, string>, plain: seq<string>)
  {
    plain == args0 + PlainOf(args) && SwitchesReadAs(args, SwitchesEnd(args), switches0, switches)
  }

  lemma JoinedSplits(n: string, v: string)
    requires VALUE_SEPARATOR !in n
    ensures SplitSwitch(n) == Switch(n, "")
    ensures SplitSwitch(n + ([VALUE_SEPARATOR] + v)) == Switch(n, v)
  {
    assert Find(n, VALUE_SEPARATOR) == -1;
    var body := n + ([VALUE_SEPARATOR] + v);
    assert forall i :: 0 <= i < |n| ==> body[i] == n[i];
    FindIs(body, VALUE_SEPARATOR, |n|);
    assert body[..|n|] == n && body[|n| + 1..] == v;
  }

  lemma SplitJoins(body: string)
    ensures
      var s := SplitSwitch(body);
      (s.value == "" && body == s.name) || body == s.name + ([VALUE_SEPARATOR] + s.value)
  {
    var at := Find(body, VALUE_SEPARATOR);
    if at >= 0 {
      assert body == body[..at] + ([VALUE_SEPARATOR] + body[at + 1..]);
    }
  }

  lemma JoinsIff(body: string, n: string, v: string)
    requires VALUE_SEPARATOR !in n
    ensures (v == "" && body == n) || body == n + ([VALUE_SEPARATOR] + v) <==> SplitSwitch(body) == Switch(n, v)
  {
    JoinedSplits(n, v);
    SplitJoins(body);
  }

  lemma BehindPrefix(arg: string, prefix: string, rest: string)
    ensures arg == prefix + rest <==> prefix <= arg && arg[|prefix|..] == rest
  {
    if prefix <= arg {
      assert arg == prefix + arg[|prefix|..];
    }
    assert (prefix + rest)[|prefix|..] == rest;
  }

  lemma FormIff(arg: string, prefix: string, n: string, v: string)
    requires VALUE_SEPARATOR !in n
    ensures IsForm(arg, prefix, n, v) <==> prefix <= arg && SplitSwitch(arg[|prefix|..]) == Switch(n, v)
  {
    BehindPrefix(arg, prefix, n);
    BehindPrefix(arg, prefix, n + ([VALUE_SEPARATOR] + v));
    assert prefix + n + "=" + v == prefix + (n + ([VALUE_SEPARATOR] + v));
    if prefix <= arg {
      JoinsIff(arg[|prefix|..], n, v);
    }
  }

  /** What the code reads of an argument is what one of the four forms says. */
  lemma SaysIff(arg: string, n: string, v: string)
    ensures Says(arg, n, v) <==> IsSwitch(arg) == Some(Switch(n, v))
  {
    PlainName(arg);
    if VALUE_SEPARATOR !in n {
      FormIff(arg, "--", n, v);
      FormIff(arg, "-", n, v);
    }
  }

  lemma NamesIff(arg: string, n: string)
    ensures Names(arg, n) <==> IsSwitch(arg).Some? && IsSwitch(arg).value.name == n
  {
    if v :| Says(arg, n, v) {
      SaysIff(arg, n, v);
    }
    if IsSwitch(arg).Some? && IsSwitch(arg).value.name == n {
      SaysIff(arg, n, IsSwitch(arg).value.value);
    }
  }

  lemma {:induction false} EndMore(args: seq<string>, arg: string)
    ensures
      var end := SwitchesEnd(args);
      SwitchesEnd(args + [arg]) == if end < |args| then end else if arg == "--" then |args| else |args| + 1
    decreases |args|
  {
    if args == [] {
      assert [arg][1..] == [];
    } else if args[0] != "--" {
      assert (args + [arg])[1..] == args[1..] + [arg];
      EndMore(args[1..], arg);
    }
  }

  lemma {:induction false} WithoutDashMore(args: seq<string>, arg: string)
    ensures WithoutDash(args + [arg]) == WithoutDash(args) + (if HasDash(arg) then [] else [arg])
    decreases |args|
  {
    if args == [] {
      assert [arg][1..] == [];
    } else {
      assert (args + [arg])[1..] == args[1..] + [arg];
      WithoutDashMore(args[1..], arg);
      Associative(if HasDash(args[0]) then [] else [args[0]], WithoutDash(args[1..]),
                  if HasDash(arg) then [] else [arg]);
    }
  }

  /** One argument more, still before any "--". */
  lemma SaysMore(args: seq<string>, arg: string, n: string, v: string)
    ensures
      var more := args + [arg];
      (exists k: nat :: LastSays(more, |more|, n, v, k))
      <==> Says(arg, n, v) || (!Names(arg, n) && exists k: nat :: LastSays(args, |args|, n, v, k))
    ensures
      var more := args + [arg];
      (forall j :: 0 <= j < |more| ==> !Names(more[j], n))
      <==> !Names(arg, n) && forall j :: 0 <= j < |args| ==> !Names(args[j], n)
  {
    var more := args + [arg];
    assert more[|args|] == arg && forall j :: 0 <= j < |args| ==> more[j] == args[j];
    if Says(arg, n, v) {
      assert LastSays(more, |more|, n, v, |args|);
    }
    if k: nat :| LastSays(args, |args|, n, v, k) && !Names(arg, n) {
      assert LastSays(more, |more|, n, v, k);
    }
    if k: nat :| LastSays(more, |more|, n, v, k) && k < |args| {
      assert LastSays(args, |args|, n, v, k) && !Names(more[|args|], n);
    }
  }

  lemma GivenMore(args: seq<string>, arg: string, switches0: map<string, string>, n: string, v: string)
    ensures
      var s := IsSwitch(arg);
      IsGiven(args + [arg], |args| + 1, switches0, n, v)
      <==> if s.Some? && s.value.name == n then s.value.value == v else IsGiven(args, |args|, switches0, n, v)
  {
    SaysMore(args, arg, n, v);
    SaysIff(arg, n, v);
    NamesIff(arg, n);
  }

  lemma SwitchesMore(args: seq<string>, arg: string, switches0: map<string, string>, was: map<string, string>,
                     now: map<string, string>)
    requires SwitchesReadAs(args, |args|, switches0, was)
    requires
      var s := IsSwitch(arg);
      now == if s.Some? then was[s.value.name := s.value.value] else was
    ensures SwitchesReadAs(args + [arg], |args| + 1, switches0, now)
  {
    forall n, v
      ensures MapsTo(now, n, v) <==> IsGiven(args + [arg], |args| + 1, switches0, n, v)
    {
      assert MapsTo(was, n, v) <==> IsGiven(args, |args|, switches0, n, v);
      GivenMore(args, arg, switches0, n, v);
    }
  }

  lemma SwitchesStay(args: seq<string>, more: seq<string>, end: nat, switches0: map<string, string>,
                     switches: map<string, string>)
    requires end <= |args| && args <= more && SwitchesReadAs(args, end, switches0, switches)
    ensures SwitchesReadAs(more, end, switches0, switches)
  {
    forall n, v
      ensures MapsTo(switches, n, v) <==> IsGiven(more, end, switches0, n, v)
    {
      assert MapsTo(switches, n, v) <==> IsGiven(args, end, switches0, n, v);
      assert forall k: nat :: LastSays(more, end, n, v, k) <==> LastSays(args, end, n, v, k);
    }
  }

  lemma {:induction false} PlainMore(args: seq<string>, arg: string)
    ensures
      var end := SwitchesEnd(args);
      PlainOf(args + [arg])
      == PlainOf(args) + if end < |args| || !(arg == "--" || HasDash(arg)) then [arg] else []
  {
    var more, end := args + [arg], SwitchesEnd(args);
    EndMore(args, arg);
    assert more[..end] == args[..end];
    if end < |args| {
      assert more[end + 1..] == args[end + 1..] + [arg];
      Associative(WithoutDash(args[..end]), args[end + 1..], [arg]);
    } else if arg == "--" {
      assert more[end + 1..] == [];
    } else {
      assert args[..end] == args && more[..end + 1] == more;
      WithoutDashMore(args, arg);
    }
  }

  lemma {:induction false} ReadsMore(args: seq<string>, arg: string, start: Parsed, was: Parsed)
    requires was.parseSwitches == (SwitchesEnd(args) == |args|)
    requires ReadsAs(args, start.switches, start.args, was.switches, was.args)
    ensures ReadsAs(args + [arg], start.switches, start.args, ParseArg(was, arg).switches, ParseArg(was, arg).args)
  {
    PlainMore(args, arg);
    Associative(start.args, PlainOf(args), [arg]);
    EndMore(args, arg);
    if was.parseSwitches && arg != "--" {
      SwitchesMore(args, arg, start.switches, was.switches, ParseArg(was, arg).switches);
    } else {
      SwitchesStay(args, args + [arg], SwitchesEnd(args), start.switches, was.switches);
    }
  }

  /** The arguments are those that have no dash before the first "--", and everything behind
      that; a switch has the value that the last of the four forms before it gives it, and
      there is no other. */
  lemma {:induction false} ParsedByPosition(start: Parsed, args: seq<string>)
    requires start.parseSwitches
    ensures
      var parsed := ParseArgs(start, args);
      && parsed.parseSwitches == (SwitchesEnd(args) == |args|)
      && ReadsAs(args, start.switches, start.args, parsed.switches, parsed.args)
  {
    if args == [] {
      assert start.args + PlainOf(args) == start.args;
    } else {
      var init, last := args[..|args|-1], args[|args|-1];
      assert args == init + [last];
      ParsedByPosition(start, init);
      EndMore(init, last);
      ReadsMore(init, last, start, ParseArgs(start, init));
    }
  }
}
