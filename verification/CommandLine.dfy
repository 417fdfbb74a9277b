/**
 base/command_line.cc, POSIX: `argv_` is kept beside the parsed `switches_` and
 `args_`, and the two are meant to say the same thing.
 */
module CommandLine {
  import opened Common
  import opened CommandLineReading
  import opened CommandLineSwitches

  /** `argv_` and `switches_` say that just these switches have been appended to a program. */
  ghost predicate IsBuilt(argv: seq<string>, switches: map<string, string>, args: seq<string>, all: seq<Switch>) {
    |argv| > 0 && argv[1..] == Rendered(all) && switches == Folded(all) && args == []
  }

  /** Behind what was there, just the switches `added` have been appended to both. */
  ghost predicate Extended(argv0: seq<string>, switches0: map<string, string>, added: seq<Switch>,
                           argv: seq<string>, switches: map<string, string>)
  {
    && |argv0| > 0 && |argv| > 0
    && argv[1..] == argv0[1..] + Rendered(added) && switches == switches0 + Folded(added)
  }

  lemma ExtendedTwice(argv0: seq<string>, switches0: map<string, string>, a: seq<Switch>,
                      argv1: seq<string>, switches1: map<string, string>, b: seq<Switch>,
                      argv2: seq<string>, switches2: map<string, string>)
    requires Extended(argv0, switches0, a, argv1, switches1) && Extended(argv1, switches1, b, argv2, switches2)
    ensures Extended(argv0, switches0, a + b, argv2, switches2)
  {
    FoldedConcat(a, b);
    RenderedConcat(a, b);
    Associative(argv0[1..], Rendered(a), Rendered(b));
  }

  lemma BuiltMore(argv0: seq<string>, switches0: map<string, string>, added: seq<Switch>,
                  argv: seq<string>, switches: map<string, string>, args: seq<string>)
    requires Extended(argv0, switches0, added, argv, switches)
    ensures forall all :: IsBuilt(argv0, switches0, args, all) ==> IsBuilt(argv, switches, args, all + added)
  {
    forall all | IsBuilt(argv0, switches0, args, all)
      ensures IsBuilt(argv, switches, args, all + added)
    {
      FoldedConcat(all, added);
      RenderedConcat(all, added);
    }
  }

  lemma TailOfConcat(whole: seq<string>, a: seq<string>, b: seq<string>)
    requires |a| > 0 && whole == a + b
    ensures whole[1..] == a[1..] + b && whole[0] == a[0]
  {
  }

  class CommandLine {
    var argv: seq<string>
    var switches: map<string, string>
    var args: seq<string>

    /** What InitFromArgv would make of `argv_` on its own. */
    ghost function Reparsed(): Parsed
      reads this
    {
      ParseArgs(NOTHING_PARSED, if |argv| > 0 then argv[1..] else [])
    }

    /** `argv_` says what `switches_` and `args_` say. */
    ghost predicate Consistent()
      reads this
    {
      |argv| > 0 && Reparsed().switches == switches && Reparsed().args == args
    }

    /** A program with just the switches `all`, appended in this order. */
    ghost predicate Built(all: seq<Switch>)
      reads this
    {
      IsBuilt(argv, switches, args, all)
    }

    /** Started with a program alone, the command line is consistent if and only if each
        switch appended since then reads back. */
    lemma StartedConsistentIff(program: string, all: seq<Switch>)
      requires Extended([program], map[], all, argv, switches) && args == []
      ensures Built(all)
      ensures Consistent() <==> forall i :: 0 <= i < |all| ==> ReadsBack(all[i])
    {
      assert [] + Rendered(all) == Rendered(all) && map[] + Folded(all) == Folded(all);
      ReparseIff(all);
    }

    lemma RebuiltConsistentIff(program: string, theirs: map<string, string>, added: seq<Switch>)
      requires Extended([program], map[], added, argv, switches) && args == [] && IsEachOnce(added, theirs, {})
      ensures switches == theirs
      ensures Consistent() <==> forall k :: k in theirs ==> ReadsBack(Switch(k, theirs[k]))
    {
      StartedConsistentIff(program, added);
      AllOnceFold(added, theirs);
      EachOnceReadsBack(added, theirs);
    }

    constructor (program: string)
      ensures argv == [program] && switches == map[] && args == [] && Consistent() && Reparsed() == NOTHING_PARSED
      ensures Built([])
    {
      argv, switches, args := [program], map[], [];
    }

    constructor FromArgv(argv: seq<string>)
      ensures this.argv == argv && switches == Reparsed().switches && args == Reparsed().args
      ensures |argv| > 0 ==> Consistent()
      ensures ReadsAs(if |argv| > 0 then argv[1..] else [], map[], [], switches, args)
    {
      this.argv, switches, args := argv, map[], [];
      new;
      InitFromArgv(argv);
    }

    method InitFromArgv(argv: seq<string>)
      modifies this
      ensures this.argv == argv
      ensures
        var parsed := ParseArgs(Parsed(true, old(switches), old(args)), if |argv| > 0 then argv[1..] else []);
        switches == parsed.switches && args == parsed.args
      ensures ReadsAs(if |argv| > 0 then argv[1..] else [], old(switches), old(args), switches, args)
    {
      this.argv := argv;
      ghost var start := Parsed(true, switches, args);
      var parseSwitches := true;
      var i := 1;
      while i < |argv|
        invariant 1 <= i && (|argv| > 0 ==> i <= |argv|) && this.argv == argv
        invariant Parsed(parseSwitches, switches, args)
                  == ParseArgs(start, if |argv| > 0 then argv[1..i] else [])
      {
        var arg := argv[i];
        assert argv[1..i+1][..i-1] == argv[1..i];
        if !parseSwitches {
          args := args + [arg];
        } else if arg == SWITCH_TERMINATOR {
          parseSwitches := false;
        } else {
          var s := IsSwitch(arg);
          if s.Some? {
            switches := switches[s.value.name := s.value.value];
          } else {
            args := args + [arg];
          }
        }
        i := i + 1;
      }
      assert |argv| > 0 ==> argv[1..i] == argv[1..];
      ParsedByPosition(start, if |argv| > 0 then argv[1..] else []);
    }

    lemma AppendedConsistent(argv0: seq<string>, switches0: map<string, string>, s: Switch)
      requires argv == argv0 + [Render(s)] && switches == switches0[s.name := s.value]
      ensures
        var was := ParseArgs(NOTHING_PARSED, if |argv0| > 0 then argv0[1..] else []);
        |argv0| > 0 && was.switches == switches0 && was.args == args ==> (Consistent() <==> Fits(was, s))
    {
      if |argv0| > 0 {
        AppendKeepsIff(argv0[1..], s);
        TailOfConcat(argv, argv0, [Render(s)]);
      }
    }

    lemma AppendedExtends(argv0: seq<string>, switches0: map<string, string>, s: Switch)
      requires |argv0| > 0 && argv == argv0 + [Render(s)] && switches == switches0[s.name := s.value]
      ensures Extended(argv0, switches0, [s], argv, switches)
      ensures forall all :: IsBuilt(argv0, switches0, args, all) ==> Built(all + [s])
    {
      TailOfConcat(argv, argv0, [Render(s)]);
      FoldedAppend([], s);
      assert [] + [s] == [s] && [] + [Render(s)] == [Render(s)];
      BuiltMore(argv0, switches0, [s], argv, switches, args);
    }

    method AppendSwitch(name: string)
      modifies `argv, `switches
      ensures argv == old(argv) + ["--" + name]
      ensures argv == old(argv) + [Render(Switch(name, ""))] && switches == old(switches)[name := ""]
      ensures old(Consistent()) ==> (Consistent() <==> Fits(old(Reparsed()), Switch(name, "")))
      ensures |old(argv)| > 0 ==> Extended(old(argv), old(switches), [Switch(name, "")], argv, switches)
      ensures forall all :: old(Built(all)) ==> Built(all + [Switch(name, "")])
    {
      assert LONG_PREFIX + name == Render(Switch(name, ""));
      argv := argv + [LONG_PREFIX + name];
      switches := switches[name := ""];
      AppendedConsistent(old(argv), old(switches), Switch(name, ""));
      if |old(argv)| > 0 {
        AppendedExtends(old(argv), old(switches), Switch(name, ""));
      }
    }

    method AppendSwitchNative(name: string, value: string)
      modifies `argv, `switches
      ensures argv == old(argv) + [if value == "" then "--" + name else "--" + name + "=" + value]
      ensures argv == old(argv) + [Render(Switch(name, value))] && switches == old(switches)[name := value]
      ensures old(Consistent()) ==> (Consistent() <==> Fits(old(Reparsed()), Switch(name, value)))
      ensures |old(argv)| > 0 ==> Extended(old(argv), old(switches), [Switch(name, value)], argv, switches)
      ensures forall all :: old(Built(all)) ==> Built(all + [Switch(name, value)])
    {
      var combined := LONG_PREFIX + name;
      if value != "" {
        combined := combined + ([VALUE_SEPARATOR] + value);
        assert combined == "--" + name + "=" + value;
      }
      assert combined == Render(Switch(name, value));
      argv := argv + [combined];
      switches := switches[name := value];
      AppendedConsistent(old(argv), old(switches), Switch(name, value));
      if |old(argv)| > 0 {
        AppendedExtends(old(argv), old(switches), Switch(name, value));
      }
    }

    /** Everything that `added` does to the two views. */
    ghost predicate Shows(argv0: seq<string>, switches0: map<string, string>, added: seq<Switch>)
      reads this
    {
      argv == argv0 + Rendered(added) && switches == switches0 + Folded(added)
    }

    lemma ShowsMore(argv0: seq<string>, switches0: map<string, string>, added: seq<Switch>, s: Switch)
      requires Shows(argv0, switches0, added)
      ensures argv + [Render(s)] == argv0 + Rendered(added + [s])
      ensures switches[s.name := s.value] == switches0 + Folded(added + [s])
    {
      FoldedAppend(added, s);
      Associative(argv0, Rendered(added), [Render(s)]);
    }

    lemma ShownConsistent(argv0: seq<string>, switches0: map<string, string>, added: seq<Switch>)
      requires Shows(argv0, switches0, added)
      ensures
        var was := ParseArgs(NOTHING_PARSED, if |argv0| > 0 then argv0[1..] else []);
        |argv0| > 0 && was.switches == switches0 && was.args == args ==> (Consistent() <==> AllFit(was, added))
    {
      if |argv0| > 0 {
        AppendAllIff(argv0[1..], added);
        TailOfConcat(argv, argv0, Rendered(added));
      }
    }

    lemma ShownExtends(argv0: seq<string>, switches0: map<string, string>, added: seq<Switch>)
      requires |argv0| > 0 && Shows(argv0, switches0, added)
      ensures Extended(argv0, switches0, added, argv, switches)
      ensures forall all :: IsBuilt(argv0, switches0, args, all) ==> Built(all + added)
    {
      TailOfConcat(argv, argv0, Rendered(added));
      BuiltMore(argv0, switches0, added, argv, switches, args);
    }

    /** Appends the other's switches, each once. */
    method AppendSwitches(other: CommandLine) returns (ghost added: seq<Switch>)
      modifies `argv, `switches
      ensures IsEachOnce(added, old(other.switches), {}) && Shows(old(argv), old(switches), added)
      ensures switches == old(switches) + old(other.switches)
      ensures old(Consistent()) ==> (Consistent() <==> AllFit(old(Reparsed()), added))
      ensures |old(argv)| > 0 ==> Extended(old(argv), old(switches), added, argv, switches)
      ensures forall all :: old(Built(all)) ==> Built(all + added)
    {
      var theirs := other.switches;
      var todo := theirs.Keys;
      added := [];
      while true
        invariant todo <= theirs.Keys && IsEachOnce(added, theirs, todo)
        invariant Shows(old(argv), old(switches), added)
        decreases todo
      {
        if name :| name in todo {
          EachOnceStep(added, theirs, todo, name);
          ShowsMore(old(argv), old(switches), added, Switch(name, theirs[name]));
          AppendSwitchNative(name, theirs[name]);
          added := added + [Switch(name, theirs[name])];
          todo := todo - {name};
        } else {
          break;
        }
      }
      assert todo == {};
      AllOnceFold(added, theirs);
      ShownConsistent(old(argv), old(switches), added);
      if |old(argv)| > 0 {
        ShownExtends(old(argv), old(switches), added);
      }
    }

    /** Copies those of the named switches that the source has. */
    method CopySwitchesFrom(source: CommandLine, names: seq<string>) returns (ghost added: seq<Switch>)
      modifies `argv, `switches
      ensures added == Copied(old(source.switches), names, |names|) && Shows(old(argv), old(switches), added)
      ensures old(Consistent()) ==> (Consistent() <==> AllFit(old(Reparsed()), added))
      ensures |old(argv)| > 0 ==> Extended(old(argv), old(switches), added, argv, switches)
      ensures forall all :: old(Built(all)) ==> Built(all + added)
      ensures forall k :: k in switches <==> k in old(switches) || (k in old(source.switches) && k in names)
      ensures forall k :: k in switches ==>
                switches[k] == if k in old(source.switches) && k in names then old(source.switches)[k]
                               else old(switches)[k]
    {
      ghost var theirs := source.switches;
      added := [];
      var i := 0;
      while i < |names|
        invariant 0 <= i <= |names|
        invariant source.switches == theirs && added == Copied(theirs, names, i)
        invariant Shows(old(argv), old(switches), added)
      {
        if names[i] in source.switches {
          ShowsMore(old(argv), old(switches), added, Switch(names[i], theirs[names[i]]));
          AppendSwitchNative(names[i], source.switches[names[i]]);
          added := added + [Switch(names[i], theirs[names[i]])];
        }
        i := i + 1;
      }
      CopiedFolds(theirs, names, |names|);
      assert names[..|names|] == names;
      ShownConsistent(old(argv), old(switches), added);
      if |old(argv)| > 0 {
        ShownExtends(old(argv), old(switches), added);
      }
    }

    /** The loop of AppendArguments: all of `theirs` but the program. */
    method PushArguments(theirs: seq<string>)
      requires |theirs| > 0
      modifies `argv
      ensures argv == old(argv) + theirs[1..]
    {
      var i := 1;
      while i < |theirs|
        invariant 1 <= i <= |theirs|
        invariant argv == old(argv) + theirs[1..i]
      {
        argv := argv + [theirs[i]];
        i := i + 1;
      }
    }

    /** Appended to itself the command line would grow for ever. */
    method AppendArguments(other: CommandLine, includeProgram: bool)
      requires |argv| > 0 && |other.argv| > 0 && other != this
      requires includeProgram == (other.argv[0] != "")
      modifies `argv, `switches
      ensures argv == (if includeProgram then old(argv)[0 := other.argv[0]] else old(argv)) + other.argv[1..]
      ensures switches == old(switches) + other.switches
      ensures old(Consistent()) && other.Consistent() ==>
                (Consistent() <==> if old(Reparsed()).parseSwitches then other.args == [] else |other.argv| == 1)
      ensures forall theirs :: other.Built(theirs) ==> Extended(old(argv), old(switches), theirs, argv, switches)
      ensures forall all, theirs :: old(Built(all)) && other.Built(theirs) ==> Built(all + theirs)
    {
      MergeKeepsIff(argv[1..], other.argv[1..]);
      if includeProgram {
        argv := argv[0 := other.argv[0]];
      }
      ghost var mine := argv;
      assert mine[1..] == old(argv)[1..];
      PushArguments(other.argv);
      TailOfConcat(argv, mine, other.argv[1..]);
      switches := switches + other.switches;
      forall theirs | other.Built(theirs)
        ensures Extended(old(argv), old(switches), theirs, argv, switches)
        ensures forall all :: IsBuilt(old(argv), old(switches), args, all) ==> Built(all + theirs)
      {
        BuiltMore(old(argv), old(switches), theirs, argv, switches, args);
      }
    }
  }

  // ----- any sequence of calls -----

  datatype Call =
    | AppendSwitch(name: string)
    | AppendSwitchNative(name: string, value: string)
    | AppendSwitches(other: CommandLine)
    | CopySwitchesFrom(source: CommandLine, names: seq<string>)
    | AppendArguments(whole: CommandLine, includeProgram: bool)

  /** The other command lines that the call reads. */
  function Operands(call: Call): set<CommandLine> {
    match call
    case AppendSwitch(_) => {}
    case AppendSwitchNative(_, _) => {}
    case AppendSwitches(other) => {other}
    case CopySwitchesFrom(source, _) => {source}
    case AppendArguments(whole, _) => {whole}
  }

  /** What the operands of the calls say. */
  datatype View = View(argv: seq<string>, switches: map<string, string>, args: seq<string>)

  ghost function Views(calls: seq<Call>): map<CommandLine, View>
    reads set i, c | 0 <= i < |calls| && c in Operands(calls[i]) :: c
  {
    map c | c in (set i, o | 0 <= i < |calls| && o in Operands(calls[i]) :: o) :: View(c.argv, c.switches, c.args)
  }

  /** What AppendArguments demands; its operand has been built from switches too. */
  ghost predicate Allowed(views: map<CommandLine, View>, call: Call)
    requires Operands(call) <= views.Keys
  {
    call.AppendArguments? ==>
      var view := views[call.whole];
      && (exists theirs :: IsBuilt(view.argv, view.switches, view.args, theirs))
      && call.includeProgram == (view.argv[0] != "")
  }

  /** The switches that the call appends to a line with switches `mine`. */
  ghost predicate Adds(line: CommandLine, views: map<CommandLine, View>, mine: map<string, string>, call: Call,
                       added: seq<Switch>)
    requires Operands(call) <= views.Keys
  {
    match call
    case AppendSwitch(name) => added == [Switch(name, "")]
    case AppendSwitchNative(name, value) => added == [Switch(name, value)]
    case AppendSwitches(other) => IsEachOnce(added, if other == line then mine else views[other].switches, {})
    case CopySwitchesFrom(source, names) =>
      added == Copied(if source == line then mine else views[source].switches, names, |names|)
    case AppendArguments(whole, _) =>
      whole != line && IsBuilt(views[whole].argv, views[whole].switches, views[whole].args, added)
  }

  method Perform(line: CommandLine, call: Call, ghost views: map<CommandLine, View>)
    returns (ghost added: seq<Switch>)
    requires |line.argv| > 0 && Operands(call) <= views.Keys && Allowed(views, call)
    requires call.AppendArguments? ==> call.whole != line
    requires forall c :: c in Operands(call) && c != line ==> views[c] == View(c.argv, c.switches, c.args)
    modifies line`argv, line`switches
    ensures Extended(old(line.argv), old(line.switches), added, line.argv, line.switches)
    ensures Adds(line, views, old(line.switches), call, added)
  {
    match call
    case AppendSwitch(name) =>
      line.AppendSwitch(name);
      added := [Switch(name, "")];
    case AppendSwitchNative(name, value) =>
      line.AppendSwitchNative(name, value);
      added := [Switch(name, value)];
    case AppendSwitches(other) =>
      added := line.AppendSwitches(other);
    case CopySwitchesFrom(source, names) =>
      added := line.CopySwitchesFrom(source, names);
    case AppendArguments(whole, includeProgram) =>
      added :| IsBuilt(whole.argv, whole.switches, whole.args, added);
      assert whole.Built(added);
      line.AppendArguments(whole, includeProgram);
  }

  /** Call i has added its piece behind the pieces before it. */
  ghost predicate AddsAt(line: CommandLine, views: map<CommandLine, View>, mine: map<string, string>,
                         calls: seq<Call>, pieces: seq<seq<Switch>>, i: nat)
    requires i < |calls| && i < |pieces| && Operands(calls[i]) <= views.Keys
  {
    Adds(line, views, mine + Folded(Flatten(pieces[..i])), calls[i], pieces[i])
  }

  lemma AddsAtMore(line: CommandLine, views: map<CommandLine, View>, mine: map<string, string>,
                   calls: seq<Call>, pieces: seq<seq<Switch>>, added: seq<Switch>, i: nat)
    requires i < |calls| && i < |pieces| && Operands(calls[i]) <= views.Keys
    requires AddsAt(line, views, mine, calls, pieces, i)
    ensures AddsAt(line, views, mine, calls, pieces + [added], i)
  {
    assert (pieces + [added])[..i] == pieces[..i];
  }

  lemma LastAdds(line: CommandLine, views: map<CommandLine, View>, mine: map<string, string>,
                 calls: seq<Call>, pieces: seq<seq<Switch>>, added: seq<Switch>)
    requires |pieces| < |calls| && Operands(calls[|pieces|]) <= views.Keys
    requires Adds(line, views, mine + Folded(Flatten(pieces)), calls[|pieces|], added)
    ensures AddsAt(line, views, mine, calls, pieces + [added], |pieces|)
  {
    assert (pieces + [added])[..|pieces|] == pieces;
  }

  lemma PiecesMore(line: CommandLine, views: map<CommandLine, View>, mine: map<string, string>,
                   calls: seq<Call>, pieces: seq<seq<Switch>>, added: seq<Switch>)
    requires |pieces| < |calls| && forall i :: 0 <= i < |calls| ==> Operands(calls[i]) <= views.Keys
    requires forall i :: 0 <= i < |pieces| ==> AddsAt(line, views, mine, calls, pieces, i)
    requires Adds(line, views, mine + Folded(Flatten(pieces)), calls[|pieces|], added)
    ensures forall i :: 0 <= i <= |pieces| ==> AddsAt(line, views, mine, calls, pieces + [added], i)
  {
    forall i | 0 <= i < |pieces|
      ensures AddsAt(line, views, mine, calls, pieces + [added], i)
    {
      AddsAtMore(line, views, mine, calls, pieces, added, i);
    }
    LastAdds(line, views, mine, calls, pieces, added);
  }

  /** Any sequence of calls on any command line, seen as the list of all the switches that
      they append: the two views still agree if and only if these fit one after the other. */
  method PerformAll(line: CommandLine, calls: seq<Call>, ghost views: map<CommandLine, View>)
    returns (ghost pieces: seq<seq<Switch>>)
    requires |line.argv| > 0
    requires forall c :: c in views && c != line ==> views[c] == View(c.argv, c.switches, c.args)
    requires forall i :: 0 <= i < |calls| ==> Operands(calls[i]) <= views.Keys && Allowed(views, calls[i])
    requires forall i :: 0 <= i < |calls| && calls[i].AppendArguments? ==> calls[i].whole != line
    modifies line`argv, line`switches
    ensures |pieces| == |calls|
    ensures forall i :: 0 <= i < |calls| ==> AddsAt(line, views, old(line.switches), calls, pieces, i)
    ensures Extended(old(line.argv), old(line.switches), Flatten(pieces), line.argv, line.switches)
    ensures old(line.Consistent()) ==>
              (line.Consistent() <==> AllFit(old(line.Reparsed()), Flatten(pieces)))
  {
    ghost var argv, switches := line.argv, line.switches;
    pieces := [];
    var n := 0;
    while n < |calls|
      invariant 0 <= n <= |calls| && |pieces| == n
      invariant Extended(argv, switches, Flatten(pieces), line.argv, line.switches)
      invariant forall c :: c in views && c != line ==> views[c] == View(c.argv, c.switches, c.args)
      invariant forall i :: 0 <= i < n ==> AddsAt(line, views, switches, calls, pieces, i)
    {
      ghost var argv1, switches1 := line.argv, line.switches;
      ghost var added := Perform(line, calls[n], views);
      ExtendedTwice(argv, switches, Flatten(pieces), argv1, switches1, added, line.argv, line.switches);
      FlattenTop(pieces, added);
      PiecesMore(line, views, switches, calls, pieces, added);
      pieces := pieces + [added];
      n := n + 1;
    }
    AppendAllIff(argv[1..], Flatten(pieces));
  }

  /** The same from a program alone: `argv_` and `switches_` agree in the end if and only if
      each switch that any of the calls has appended reads back. */
  method Build(program: string, calls: seq<Call>) returns (line: CommandLine, ghost pieces: seq<seq<Switch>>)
    requires forall i :: 0 <= i < |calls| ==> Allowed(Views(calls), calls[i])
    ensures fresh(line) && |pieces| == |calls|
    ensures forall i :: 0 <= i < |calls| ==> AddsAt(line, old(Views(calls)), map[], calls, pieces, i)
    ensures line.Built(Flatten(pieces))
    ensures line.Consistent() <==> forall i :: 0 <= i < |Flatten(pieces)| ==> ReadsBack(Flatten(pieces)[i])
  {
    ghost var views := Views(calls);
    line := new CommandLine(program);
    pieces := PerformAll(line, calls, views);
    line.StartedConsistentIff(program, Flatten(pieces));
  }

  /** A copy made from `argv` has the same switches and arguments if and only if the
      original is consistent. */
  method Reparse(original: CommandLine) returns (copy: CommandLine)
    requires |original.argv| > 0
    ensures fresh(copy) && copy.argv == original.argv && copy.Consistent()
    ensures copy.switches == original.switches && copy.args == original.args <==> original.Consistent()
  {
    copy := new CommandLine.FromArgv(original.argv);
  }

  /** Starting from a program alone, `argv_` rebuilds the other's switches if and only if
      each of them reads back. */
  method RebuildSwitches(program: string, other: CommandLine) returns (rebuilt: CommandLine)
    ensures fresh(rebuilt) && rebuilt.switches == other.switches
    ensures rebuilt.Consistent() <==> forall k :: k in other.switches ==> ReadsBack(Switch(k, other.switches[k]))
  {
    rebuilt := new CommandLine(program);
    ghost var added := rebuilt.AppendSwitches(other);
    rebuilt.RebuiltConsistentIff(program, other.switches, added);
  }
}
