/**
 base/command_line.cc, Windows: `WindowsStyleQuote`, the argument part of the
 command line string that AppendArgNative builds, and the documented rules by which
 CommandLineToArgvW takes such a string apart.
 */
module WindowsQuoting {
  import opened Common

  const BACKSLASH: char := '\\'
  const QUOTE: char := '\"'
  const SPACE: char := ' '
  const TAB: char := '\t'
  const NUL: char := '\0'

  function Backslashes(n: nat): string {
    seq(n, _ => BACKSLASH)
  }

  // ----- quoting -----

  predicate NeedsQuoting(arg: string) {
    SPACE in arg || BACKSLASH in arg || QUOTE in arg
  }

  /** `s` escaped, when `held` backslashes before it have been read but not put
      out: they are doubled before a quote and before the end. */
  function Escape(s: string, held: nat): string
    decreases |s|
  {
    if s == "" then Backslashes(2 * held)
    else if s[0] == BACKSLASH then Escape(s[1..], held + 1)
    else if s[0] == QUOTE then Backslashes(2 * held + 1) + ([QUOTE] + Escape(s[1..], 0))
    else Backslashes(held) + ([s[0]] + Escape(s[1..], 0))
  }

  function Quoted(arg: string): string {
    if !NeedsQuoting(arg) then arg else [QUOTE] + Escape(arg, 0) + [QUOTE]
  }

  // ----- the documented parsing rules -----

  function Emit(current: Option<string>): seq<string> {
    if current.Some? then [current.value] else []
  }

  function Add(current: Option<string>, text: string): Option<string> {
    Some((if current.Some? then current.value else "") + text)
  }

  function Release(current: Option<string>, held: nat): Option<string> {
    if held == 0 then current else Add(current, Backslashes(held))
  }

  /** 2n backslashes and a quote: n backslashes, and the quote opens or closes.
      2n + 1 backslashes and a quote: n backslashes and a quote as such.
      Other backslashes stand for themselves.  Blanks outside quotes separate.
      `held` counts the backslashes just read. */
  function Scan(s: string, held: nat, inQuotes: bool, current: Option<string>): seq<string>
    decreases |s|
  {
    if s == "" then Emit(Release(current, held))
    else if s[0] == BACKSLASH then Scan(s[1..], held + 1, inQuotes, current)
    else if s[0] == QUOTE then
      if held % 2 == 0 then Scan(s[1..], 0, !inQuotes, Add(current, Backslashes(held / 2)))
      else Scan(s[1..], 0, inQuotes, Add(current, Backslashes(held / 2) + [QUOTE]))
    else if !inQuotes && (s[0] == SPACE || s[0] == TAB) then
      Emit(Release(current, held)) + Scan(s[1..], 0, false, None)
    else Scan(s[1..], 0, inQuotes, Add(current, Backslashes(held) + [s[0]]))
  }

  function UpToNul(s: string): string {
    if s == "" || s[0] == NUL then "" else [s[0]] + UpToNul(s[1..])
  }

  function ToArgv(s: string): seq<string> {
    Scan(UpToNul(s), 0, false, None)
  }

  /** What AppendArgNative appends for each argument in turn. */
  function Joined(args: seq<string>): string {
    if args == [] then "" else [SPACE] + (Quoted(args[0]) + Joined(args[1..]))
  }

  // ----- the quoting loop -----

  lemma {:induction false} EscapeHolds(s: string, n: nat, held: nat)
    requires n <= |s| && forall k :: 0 <= k < n ==> s[k] == BACKSLASH
    ensures Escape(s, held) == Escape(s[n..], held + n)
  {
    if n > 0 {
      EscapeHolds(s[1..], n - 1, held + 1);
      assert s[1..][n-1..] == s[n..];
    }
  }

  lemma SplitBackslashes(a: nat, b: nat, rest: string)
    ensures Backslashes(a + b) + rest == Backslashes(a) + (Backslashes(b) + rest)
  {
  }

  lemma MoreBackslashes(a: nat, b: nat, rest: string)
    ensures Backslashes(a + b) + rest == Backslashes(a) + (Backslashes(b) + rest)
    ensures Backslashes(0) + rest == rest
    ensures rest + Backslashes(0) == rest
  {
    SplitBackslashes(a, b, rest);
  }

  lemma {:induction false} EscapeQuote(s: string, held: nat, rest: string)
    requires s != "" && s[0] == QUOTE && rest == [QUOTE] + Escape(s[1..], 0)
    ensures Escape(s, held) == Backslashes(2 * held + 1) + rest
  {
  }

  lemma {:induction false} EscapeReleasesQuote(s: string, n: nat)
    requires s != "" && s[0] == QUOTE
    ensures Escape(s, n) == Backslashes(2 * n) + Escape(s, 0)
  {
    var rest := [QUOTE] + Escape(s[1..], 0);
    EscapeQuote(s, n, rest);
    EscapeQuote(s, 0, rest);
    SplitBackslashes(2 * n, 1, rest);
  }

  lemma {:induction false} EscapeReleasesPlain(s: string, n: nat)
    requires s != "" && s[0] != BACKSLASH && s[0] != QUOTE
    ensures Escape(s, n) == Backslashes(n) + Escape(s, 0)
  {
    MoreBackslashes(n, 0, [s[0]] + Escape(s[1..], 0));
  }

  /** A run of n backslashes can be put out before the rest is looked at. */
  lemma {:induction false} EscapeReleases(s: string, n: nat)
    requires s == "" || s[0] != BACKSLASH
    ensures s == "" || s[0] == QUOTE ==> Escape(s, n) == Backslashes(2 * n) + Escape(s, 0)
    ensures s != "" && s[0] != QUOTE ==> Escape(s, n) == Backslashes(n) + Escape(s, 0)
  {
    if s == "" {
      MoreBackslashes(0, 0, Backslashes(2 * n));
    } else if s[0] == QUOTE {
      EscapeReleasesQuote(s, n);
    } else {
      EscapeReleasesPlain(s, n);
    }
  }

  lemma EscapeRun(arg: string, start: nat, end: nat)
    requires start < end <= |arg| && forall k :: start <= k < end ==> arg[k] == BACKSLASH
    requires end < |arg| ==> arg[end] != BACKSLASH
    ensures
      var n := end - start;
      Escape(arg[start..], 0)
      == Backslashes(if end == |arg| || arg[end] == QUOTE then 2 * n else n) + Escape(arg[end..], 0)
  {
    EscapeHolds(arg[start..], end - start, 0);
    assert arg[start..][end - start..] == arg[end..];
    EscapeReleases(arg[end..], end - start);
  }

  lemma EscapeOne(arg: string, i: nat)
    requires i < |arg| && arg[i] != BACKSLASH
    ensures arg[i] == QUOTE ==> Escape(arg[i..], 0) == [BACKSLASH, QUOTE] + Escape(arg[i+1..], 0)
    ensures arg[i] != QUOTE ==> Escape(arg[i..], 0) == [arg[i]] + Escape(arg[i+1..], 0)
  {
    assert arg[i..][1..] == arg[i+1..];
    var rest := Escape(arg[i+1..], 0);
    assert Backslashes(1) + ([QUOTE] + rest) == [BACKSLASH, QUOTE] + rest;
    MoreBackslashes(0, 0, [arg[i]] + rest);
  }

  /** The innermost loop. */
  method PushBackslashes(before: string, count: nat) returns (out: string)
    ensures out == before + Backslashes(count)
  {
    out := before;
    var j := 0;
    while j < count
      invariant 0 <= j <= count
      invariant out == before + Backslashes(j)
    {
      out := out + [BACKSLASH];
      j := j + 1;
    }
  }

  /** The middle loop: the extent of a run of backslashes. */
  method EndOfRun(arg: string, start: nat) returns (end: nat)
    requires start < |arg| && arg[start] == BACKSLASH
    ensures start < end <= |arg| && (end < |arg| ==> arg[end] != BACKSLASH)
    ensures forall k :: start <= k < end ==> arg[k] == BACKSLASH
  {
    end := start + 1;
    while end < |arg| && arg[end] == BACKSLASH
      invariant start < end <= |arg|
      invariant forall k :: start <= k < end ==> arg[k] == BACKSLASH
    {
      end := end + 1;
    }
  }

  /** The body of the outer loop. */
  method QuoteNext(arg: string, at: nat, before: string) returns (out: string, i: nat)
    requires at < |arg|
    ensures at < i <= |arg| && out + Escape(arg[i..], 0) == before + Escape(arg[at..], 0)
  {
    i := at;
    ghost var piece;
    if arg[i] == BACKSLASH {
      var start := i;
      var end := EndOfRun(arg, start);
      var backslashCount := end - start;
      if end == |arg| || arg[end] == QUOTE {
        backslashCount := backslashCount * 2;
      }
      out := PushBackslashes(before, backslashCount);
      i := end - 1;
      EscapeRun(arg, start, end);
      piece := Backslashes(backslashCount);
    } else if arg[i] == QUOTE {
      out := before + [BACKSLASH];
      out := out + [QUOTE];
      EscapeOne(arg, i);
      piece := [BACKSLASH, QUOTE];
    } else {
      out := before + [arg[i]];
      EscapeOne(arg, i);
      piece := [arg[i]];
    }
    i := i + 1;
    assert out == before + piece;
    Associative(before, piece, Escape(arg[i..], 0));
  }

  lemma {:induction false} EscapeKeepsLength(s: string, held: nat)
    ensures |Escape(s, held)| >= held + |s|
    decreases |s|
  {
    if s != "" {
      EscapeKeepsLength(s[1..], if s[0] == BACKSLASH then held + 1 else 0);
    }
  }

  lemma {:induction false} EscapePlain(s: string)
    requires forall i :: 0 <= i < |s| ==> s[i] != '\\' && s[i] != '\"'
    ensures Escape(s, 0) == s
  {
    if s != "" {
      EscapePlain(s[1..]);
      MoreBackslashes(0, 0, [s[0]] + s[1..]);
      assert s == [s[0]] + s[1..];
    }
  }

  /** A space, a backslash or a quote. */
  predicate HasSpecial(arg: string) {
    exists i :: 0 <= i < |arg| && (arg[i] == ' ' || arg[i] == '\\' || arg[i] == '\"')
  }

  /** Only arguments with a special character are changed, and one with spaces alone just
      gets its quotes. */
  lemma {:induction false} QuotedIs(arg: string)
    ensures Quoted(arg) == arg <==> !HasSpecial(arg)
    ensures HasSpecial(arg) && (forall i :: 0 <= i < |arg| ==> arg[i] != '\\' && arg[i] != '\"') ==>
              Quoted(arg) == "\"" + arg + "\""
  {
    EscapeKeepsLength(arg, 0);
    if HasSpecial(arg) {
      var i :| 0 <= i < |arg| && (arg[i] == ' ' || arg[i] == '\\' || arg[i] == '\"');
      assert arg[i] in arg && NeedsQuoting(arg);
      assert |Quoted(arg)| > |arg|;
      if forall i :: 0 <= i < |arg| ==> arg[i] != '\\' && arg[i] != '\"' {
        EscapePlain(arg);
      }
    }
  }

  method WindowsStyleQuote(arg: string) returns (out: string)
    ensures out == Quoted(arg)
    ensures out == arg <==> !HasSpecial(arg)
  {
    QuotedIs(arg);
    if !NeedsQuoting(arg) {
      return arg;
    }
    out := [QUOTE];
    var i := 0;
    assert arg[0..] == arg;
    while i < |arg|
      invariant 0 <= i <= |arg|
      invariant out + Escape(arg[i..], 0) == [QUOTE] + Escape(arg, 0)
    {
      out, i := QuoteNext(arg, i, out);
    }
    assert Escape(arg[i..], 0) == "";
    out := out + [QUOTE];
  }

  // ----- quoting undone -----

  lemma {:induction false} ScanHolds(n: nat, rest: string, held: nat, inQuotes: bool, current: Option<string>)
    ensures Scan(Backslashes(n) + rest, held, inQuotes, current) == Scan(rest, held + n, inQuotes, current)
    decreases n
  {
    if n == 0 {
      MoreBackslashes(0, 0, rest);
    } else {
      assert (Backslashes(n) + rest)[1..] == Backslashes(n - 1) + rest;
      ScanHolds(n - 1, rest, held + 1, inQuotes, current);
    }
  }

  lemma ScanQuote(n: nat, rest: string, inQuotes: bool, current: Option<string>)
    ensures n % 2 == 0 ==>
              Scan(Backslashes(n) + ([QUOTE] + rest), 0, inQuotes, current)
              == Scan(rest, 0, !inQuotes, Add(current, Backslashes(n / 2)))
    ensures n % 2 == 1 ==>
              Scan(Backslashes(n) + ([QUOTE] + rest), 0, inQuotes, current)
              == Scan(rest, 0, inQuotes, Add(current, Backslashes(n / 2) + [QUOTE]))
  {
    ScanHolds(n, [QUOTE] + rest, 0, inQuotes, current);
    assert ([QUOTE] + rest)[1..] == rest;
  }

  lemma ScanPlain(n: nat, c: char, rest: string, inQuotes: bool, current: Option<string>)
    requires c != BACKSLASH && c != QUOTE && (inQuotes || (c != SPACE && c != TAB))
    ensures Scan(Backslashes(n) + ([c] + rest), 0, inQuotes, current)
            == Scan(rest, 0, inQuotes, Add(current, Backslashes(n) + [c]))
  {
    ScanHolds(n, [c] + rest, 0, inQuotes, current);
    assert ([c] + rest)[1..] == rest;
  }

  /** `held` backslashes and `s`, escaped, and the rest of the line. */
  function Pending(s: string, held: nat, tail: string): string {
    Escape(s, held) + ([QUOTE] + tail)
  }

  lemma JoinTail(b: string, c: char, rest: string, tail: string)
    ensures (b + ([c] + rest)) + tail == b + ([c] + (rest + tail))
  {
  }

  lemma PendingQuote(s: string, held: nat, tail: string)
    requires s != "" && s[0] == QUOTE
    ensures Pending(s, held, tail) == Backslashes(2 * held + 1) + ([QUOTE] + Pending(s[1..], 0, tail))
  {
    JoinTail(Backslashes(2 * held + 1), QUOTE, Escape(s[1..], 0), [QUOTE] + tail);
  }

  lemma PendingPlain(s: string, held: nat, tail: string)
    requires s != "" && s[0] != QUOTE && s[0] != BACKSLASH
    ensures Pending(s, held, tail) == Backslashes(held) + ([s[0]] + Pending(s[1..], 0, tail))
  {
    JoinTail(Backslashes(held), s[0], Escape(s[1..], 0), [QUOTE] + tail);
  }

  /** What has been read once `held` backslashes and `s` are taken in. */
  function Read(current: string, held: nat, s: string): string {
    current + (Backslashes(held) + s)
  }

  lemma ReadOne(current: string, held: nat, s: string)
    requires s != ""
    ensures s[0] == BACKSLASH ==> Read(current, held, s) == Read(current, held + 1, s[1..])
    ensures Read(current, held, s) == Read(current + (Backslashes(held) + [s[0]]), 0, s[1..])
  {
    MoreBackslashes(0, 0, s[1..]);
    assert s == [s[0]] + s[1..];
    Associative(Backslashes(held), [s[0]], s[1..]);
    Associative(current, Backslashes(held) + [s[0]], s[1..]);
    assert s[0] == BACKSLASH ==> Backslashes(held) + [s[0]] == Backslashes(held + 1);
  }

  /** Inside quotes, an escaped argument is read back whole, up to its closing quote. */
  lemma {:induction false} ScanPending(s: string, held: nat, tail: string, current: string)
    ensures Scan(Pending(s, held, tail), 0, true, Some(current)) == Scan(tail, 0, false, Some(Read(current, held, s)))
    decreases |s|
  {
    if s == "" {
      ScanQuote(2 * held, tail, true, Some(current));
      MoreBackslashes(0, 0, Backslashes(held));
    } else {
      ReadOne(current, held, s);
      if s[0] == BACKSLASH {
        ScanPending(s[1..], held + 1, tail, current);
      } else {
        var read := current + (Backslashes(held) + [s[0]]);
        ScanPending(s[1..], 0, tail, read);
        if s[0] == QUOTE {
          PendingQuote(s, held, tail);
          ScanQuote(2 * held + 1, Pending(s[1..], 0, tail), true, Some(current));
        } else {
          PendingPlain(s, held, tail);
          ScanPlain(held, s[0], Pending(s[1..], 0, tail), true, Some(current));
        }
      }
    }
  }

  // ----- whole command lines -----

  /** An unquoted argument is taken apart at its tabs. */
  function SplitAtTabs(arg: string, current: Option<string>): seq<string>
    decreases |arg|
  {
    if arg == "" then Emit(current)
    else if arg[0] == TAB then Emit(current) + SplitAtTabs(arg[1..], None)
    else SplitAtTabs(arg[1..], Add(current, [arg[0]]))
  }

  function ReadBack(arg: string): seq<string> {
    if NeedsQuoting(arg) then [arg] else SplitAtTabs(arg, None)
  }

  function AllReadBack(args: seq<string>): seq<string> {
    if args == [] then [] else ReadBack(args[0]) + AllReadBack(args[1..])
  }

  function Rest(tail: string): seq<string> {
    Scan(tail, 0, false, None)
  }

  lemma ScanEnd(tail: string, current: Option<string>)
    requires tail == "" || tail[0] == SPACE
    ensures Scan(tail, 0, false, current) == Emit(current) + Rest(tail)
  {
    if tail != "" {
      assert Emit(None) + Scan(tail[1..], 0, false, None) == Scan(tail[1..], 0, false, None);
    }
  }

  lemma {:induction false} ScanUnquoted(arg: string, tail: string, current: Option<string>)
    requires !NeedsQuoting(arg) && (tail == "" || tail[0] == SPACE)
    ensures Scan(arg + tail, 0, false, current) == SplitAtTabs(arg, current) + Rest(tail)
    decreases |arg|
  {
    if arg == "" {
      assert arg + tail == tail;
      ScanEnd(tail, current);
    } else {
      var c, rest := arg[0], arg[1..];
      assert arg + tail == [c] + (rest + tail);
      assert !NeedsQuoting(rest) && c != SPACE && c != BACKSLASH && c != QUOTE by {
        assert c in arg && forall x :: x in rest ==> x in arg;
      }
      if c == TAB {
        ScanUnquoted(rest, tail, None);
        assert ([c] + (rest + tail))[1..] == rest + tail;
        Associative(Emit(current), SplitAtTabs(rest, None), Rest(tail));
      } else {
        ScanUnquoted(rest, tail, Add(current, [c]));
        MoreBackslashes(0, 0, [c] + (rest + tail));
        ScanPlain(0, c, rest + tail, false, current);
        MoreBackslashes(0, 0, [c]);
      }
    }
  }

  lemma ScanQuoted(arg: string, tail: string)
    requires NeedsQuoting(arg) && (tail == "" || tail[0] == SPACE)
    ensures Scan(Quoted(arg) + tail, 0, false, None) == [arg] + Rest(tail)
  {
    var p := Pending(arg, 0, tail);
    assert Quoted(arg) + tail == Backslashes(0) + ([QUOTE] + p);
    ScanQuote(0, p, false, None);
    assert Backslashes(0) == "" == "" + "";
    ScanPending(arg, 0, tail, "");
    assert Read("", 0, arg) == arg;
    ScanEnd(tail, Some(arg));
  }

  lemma {:induction false} ScanJoined(args: seq<string>)
    ensures Rest(Joined(args)) == AllReadBack(args)
  {
    if args != [] {
      var arg, tail := args[0], Joined(args[1..]);
      ScanJoined(args[1..]);
      ScanEnd([SPACE] + (Quoted(arg) + tail), None);
      assert ([SPACE] + (Quoted(arg) + tail))[1..] == Quoted(arg) + tail;
      if NeedsQuoting(arg) {
        ScanQuoted(arg, tail);
      } else {
        ScanUnquoted(arg, tail, None);
      }
    }
  }

  /** The arguments that come back as themselves. */
  predicate ReadsBack(arg: string) {
    arg != "" && ('\t' in arg ==> ' ' in arg || '\\' in arg || '\"' in arg)
  }

  lemma {:induction false} SplitPieces(arg: string, current: Option<string>)
    requires current.Some? ==> current.value != "" && TAB !in current.value
    ensures forall x :: x in SplitAtTabs(arg, current) ==> x != "" && TAB !in x
    ensures TAB !in arg ==> SplitAtTabs(arg, current) == if arg == "" then Emit(current) else Emit(Add(current, arg))
    decreases |arg|
  {
    if arg != "" {
      assert arg == [arg[0]] + arg[1..];
      if arg[0] == TAB {
        SplitPieces(arg[1..], None);
      } else {
        SplitPieces(arg[1..], Add(current, [arg[0]]));
        assert TAB in arg[1..] ==> TAB in arg;
        assert arg[1..] == "" ==> arg == [arg[0]];
        Associative(if current.Some? then current.value else "", [arg[0]], arg[1..]);
      }
    }
  }

  lemma {:induction false} AllReadBackIff(args: seq<string>)
    ensures forall x :: x in AllReadBack(args) ==> ReadsBack(x)
    ensures (forall x :: x in args ==> ReadsBack(x)) ==> AllReadBack(args) == args
  {
    if args != [] {
      AllReadBackIff(args[1..]);
      SplitPieces(args[0], None);
      assert forall x :: x in args[1..] ==> x in args;
      assert args == [args[0]] + args[1..] && args[0] in args;
      assert "" + args[0] == args[0];
    }
  }

  lemma {:induction false} EscapeAddsNoNul(s: string, held: nat)
    requires NUL !in s
    ensures NUL !in Escape(s, held)
    decreases |s|
  {
    if s != "" {
      assert forall x :: x in s[1..] ==> x in s;
      assert s[0] in s;
      EscapeAddsNoNul(s[1..], if s[0] == BACKSLASH then held + 1 else 0);
    }
  }

  lemma {:induction false} JoinedHasNoNul(args: seq<string>)
    requires forall a :: a in args ==> NUL !in a
    ensures NUL !in Joined(args)
  {
    if args != [] {
      assert args[0] in args && forall a :: a in args[1..] ==> a in args;
      JoinedHasNoNul(args[1..]);
      EscapeAddsNoNul(args[0], 0);
    }
  }

  lemma {:induction false} UpToNulIs(s: string)
    ensures NUL !in UpToNul(s)
    ensures NUL !in s ==> UpToNul(s) == s
  {
    if s != "" && s[0] != NUL {
      UpToNulIs(s[1..]);
      assert s == [s[0]] + s[1..];
    }
  }

  lemma {:induction false} ScanAddsNoNul(s: string, held: nat, inQuotes: bool, current: Option<string>)
    requires NUL !in s && (current.Some? ==> NUL !in current.value)
    ensures forall x :: x in Scan(s, held, inQuotes, current) ==> NUL !in x
    decreases |s|
  {
    if s != "" {
      var c, rest := s[0], s[1..];
      assert c in s && forall x :: x in rest ==> x in s;
      if c == BACKSLASH {
        ScanAddsNoNul(rest, held + 1, inQuotes, current);
      } else if c == QUOTE {
        if held % 2 == 0 {
          ScanAddsNoNul(rest, 0, !inQuotes, Add(current, Backslashes(held / 2)));
        } else {
          ScanAddsNoNul(rest, 0, inQuotes, Add(current, Backslashes(held / 2) + [QUOTE]));
        }
      } else if !inQuotes && (c == SPACE || c == TAB) {
        ScanAddsNoNul(rest, 0, false, None);
      } else {
        ScanAddsNoNul(rest, 0, inQuotes, Add(current, Backslashes(held) + [c]));
      }
    }
  }

  /** Quoting a list of arguments, joining them and parsing the line gives the list
      back, if and only if no argument is empty, none contains a NUL, and every
      argument with a tab also has a space, a backslash or a quote. */
  lemma QuotedLineRoundTrips(args: seq<string>)
    ensures ToArgv(Joined(args)) == args
            <==> forall a :: a in args ==> ReadsBack(a) && NUL !in a
  {
    UpToNulIs(Joined(args));
    if forall a :: a in args ==> NUL !in a {
      JoinedHasNoNul(args);
      ScanJoined(args);
      AllReadBackIff(args);
    } else {
      ScanAddsNoNul(UpToNul(Joined(args)), 0, false, None);
    }
  }

  /** The empty argument disappears, and a tab alone splits an argument in two. */
  lemma NotAlwaysOneArgument()
    ensures ToArgv(Joined([""])) != [""]
    ensures ToArgv(Joined(["a\tb"])) != ["a\tb"]
  {
    assert "" in [""] && "a\tb" in ["a\tb"];
    assert "a\tb"[1] == TAB;
    QuotedLineRoundTrips([""]);
    QuotedLineRoundTrips(["a\tb"]);
  }
}
