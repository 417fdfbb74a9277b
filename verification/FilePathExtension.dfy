/**
 base/file_path: extensions.  `Extension` looks at BaseName, `RemoveExtension` at
 the whole unstripped path.
 */
module FilePathExtension {
  import opened FilePath

  const EXTENSION_SEPARATOR: char := '.'

  function ToLowerAscii(c: char): char {
    if 'A' <= c <= 'Z' then c - 'A' + 'a' else c
  }

  function Lowered(s: string): string {
    seq(|s|, i requires 0 <= i < |s| => ToLowerAscii(s[i]))
  }

  predicate IsCommonDoubleExtension(extension: string) {
    Lowered(extension) == "gz" || Lowered(extension) == "z" || Lowered(extension) == "bz2"
  }

  /** Takes in a second extension of one to four characters before ".gz" and the like. */
  function DoubleExtensionPosition(path: string, lastDot: int): (dot: int)
    requires 0 < lastDot < |path|
    ensures 0 <= dot <= lastDot
  {
    if !IsCommonDoubleExtension(path[lastDot + 1..]) then lastDot
    else
      var penultimateDot := RFind(path[..lastDot], EXTENSION_SEPARATOR);
      var lastSeparator := RFind(path[..lastDot], SEPARATOR);
      if penultimateDot != NPOS && (lastSeparator == NPOS || penultimateDot > lastSeparator)
         && 1 < lastDot - penultimateDot <= 5
      then penultimateDot
      else lastDot
  }

  function ExtensionSeparatorPosition(path: string): (dot: int)
    ensures dot == NPOS || 0 <= dot < |path|
  {
    if path == CURRENT_DIRECTORY || path == PARENT_DIRECTORY then NPOS
    else
      var lastDot := RFind(path, EXTENSION_SEPARATOR);
      if lastDot == NPOS || lastDot == 0 then lastDot
      else DoubleExtensionPosition(path, lastDot)
  }

  function Extension(path: string): string {
    var base := BaseName(path);
    var dot := ExtensionSeparatorPosition(base);
    if dot == NPOS then "" else base[dot..]
  }

  function RemoveExtension(path: string): string {
    if Extension(path) == "" then path
    else
      var dot := ExtensionSeparatorPosition(path);
      if dot == NPOS then path else path[..dot]
  }

  lemma PositionIsDot(base: string)
    ensures
      var dot := ExtensionSeparatorPosition(base);
      dot != NPOS ==> base[dot] == '.' && (dot + 1 < |base| ==> base[dot + 1] != '.')
  {
    var lastDot := RFind(base, EXTENSION_SEPARATOR);
    if lastDot > 0 {
      var penultimateDot := RFind(base[..lastDot], EXTENSION_SEPARATOR);
      assert penultimateDot + 1 < lastDot ==> base[penultimateDot + 1] == base[..lastDot][penultimateDot + 1];
    }
  }

  /** A non-empty extension starts with precisely one dot. */
  lemma ExtensionStartsWithOneDot(path: string)
    ensures Extension(path) != "" ==> Extension(path)[0] == '.' && (|Extension(path)| > 1 ==> Extension(path)[1] != '.')
  {
    var base := BaseName(path);
    var dot := ExtensionSeparatorPosition(base);
    PositionIsDot(base);
    if dot != NPOS {
      assert Extension(path) == base[dot..];
    }
  }

  lemma RFindAppend(dir: string, base: string, c: char)
    ensures RFind(dir + base, c) == if RFind(base, c) == NPOS then RFind(dir, c) else |dir| + RFind(base, c)
  {
    var at := if RFind(base, c) == NPOS then RFind(dir, c) else |dir| + RFind(base, c);
    forall i | at < i < |dir + base|
      ensures (dir + base)[i] != c
    {
      if i >= |dir| {
        assert (dir + base)[i] == base[i - |dir|];
      }
    }
    RFindIs(dir + base, c, at);
  }

  lemma SplitInPath(dir: string, base: string, dot: nat)
    requires dot < |base|
    ensures (dir + base)[|dir| + dot + 1..] == base[dot + 1..]
    ensures (dir + base)[..|dir| + dot] == dir + base[..dot]
  {
  }

  lemma DoubleInPath(dir: string, base: string, dot: int)
    requires NoSeparator(base) && dir != "" && IsSeparator(dir[|dir|-1])
    requires 0 <= dot < |base|
    ensures DoubleExtensionPosition(dir + base, |dir| + dot)
            == |dir| + if dot == 0 then 0 else DoubleExtensionPosition(base, dot)
  {
    SplitInPath(dir, base, dot);
    RFindAppend(dir, base[..dot], EXTENSION_SEPARATOR);
    RFindAppend(dir, base[..dot], SEPARATOR);
    RFindIs(base[..dot], SEPARATOR, NPOS);
    RFindIs(dir, SEPARATOR, |dir| - 1);
  }

  lemma DottedPositionInPath(dir: string, base: string)
    requires NoSeparator(base) && ExtensionSeparatorPosition(base) != NPOS
    requires dir != "" && IsSeparator(dir[|dir|-1])
    ensures ExtensionSeparatorPosition(dir + base) == |dir| + ExtensionSeparatorPosition(base)
  {
    var dot := RFind(base, EXTENSION_SEPARATOR);
    RFindAppend(dir, base, EXTENSION_SEPARATOR);
    DoubleInPath(dir, base, dot);
    var p := dir + base;
    assert p[|dir|-1] == SEPARATOR;
    assert p != "." && p != "..";
  }

  /** Searching the whole path finds the dot that searching the last component
      finds, although the last component alone may be ".." or start with the dot. */
  lemma PositionInPath(dir: string, base: string)
    requires NoSeparator(base) && ExtensionSeparatorPosition(base) != NPOS
    requires dir == "" || IsSeparator(dir[|dir|-1])
    ensures ExtensionSeparatorPosition(dir + base) == |dir| + ExtensionSeparatorPosition(base)
  {
    if dir == "" {
      assert dir + base == base;
    } else {
      DottedPositionInPath(dir, base);
    }
  }

  /** `base` is the last component of `path`, which has no separators behind it. */
  predicate EndsIn(path: string, base: string) {
    && NoSeparator(base) && 0 < |base| <= |path|
    && (forall i :: 0 <= i < |base| ==> base[i] == path[|path| - |base| + i])
    && (|base| < |path| ==> IsSeparator(path[|path| - |base| - 1]))
  }

  lemma LastComponentSplits(s: string)
    requires s != "" && !AreAllSeparators(AfterSeparator(s))
    requires IsSeparator(s[|s|-1]) ==> AreAllSeparators(s)
    ensures EndsIn(s, AfterSeparator(s))
  {
  }

  lemma {:induction false} BaseNameSplits(path: string)
    requires Strip(path) != "" && !AreAllSeparators(BaseName(path))
    ensures EndsIn(Strip(path), BaseName(path))
  {
    StripIs(path);
    LastComponentSplits(Strip(path));
  }

  lemma {:induction false} HasExtension(path: string)
    requires Extension(path) != ""
    ensures ExtensionSeparatorPosition(BaseName(path)) != NPOS
    ensures !AreAllSeparators(BaseName(path)) && Strip(path) != ""
  {
    var base := BaseName(path);
    PositionIsDot(base);
    assert base[ExtensionSeparatorPosition(base)] == '.';
    StripIs(path);
  }

  /** Law and both searches in one equation. */
  lemma {:induction false} ExtensionParts(path: string)
    requires Extension(path) != ""
    ensures
      var base, position := BaseName(path), ExtensionSeparatorPosition(path);
      var dot := ExtensionSeparatorPosition(base);
      && 0 <= dot < |base|
      && RemoveExtension(path) + Extension(path)
         == (if position == NPOS then path else path[..position]) + base[dot..]
  {
    HasExtension(path);
  }

  lemma {:induction false} PositionAgrees(path: string, base: string)
    requires EndsIn(path, base) && ExtensionSeparatorPosition(base) != NPOS
    ensures ExtensionSeparatorPosition(path) == |path| - |base| + ExtensionSeparatorPosition(base)
  {
    var dir := path[..|path| - |base|];
    assert path == dir + base;
    PositionInPath(dir, base);
  }

  lemma JoinAt(path: string, base: string, dot: nat)
    requires EndsIn(path, base) && dot < |base|
    ensures path[..|path| - |base| + dot] + base[dot..] == path
  {
  }

  lemma {:induction false} LawOfBase(path: string, base: string)
    requires EndsIn(path, base) && ExtensionSeparatorPosition(base) != NPOS
    ensures
      var dot, position := ExtensionSeparatorPosition(base), ExtensionSeparatorPosition(path);
      position != NPOS && path[..position] + base[dot..] == path
  {
    PositionAgrees(path, base);
    JoinAt(path, base, ExtensionSeparatorPosition(base));
  }

  lemma {:induction false} StrippedLaw(path: string)
    requires Extension(path) != "" && Strip(path) == path
    ensures RemoveExtension(path) + Extension(path) == path
  {
    ExtensionParts(path);
    HasExtension(path);
    BaseNameSplits(path);
    LawOfBase(path, BaseName(path));
  }

  lemma EndsDifferently(path: string, front: string, base: string, dot: int)
    requires path != "" && IsSeparator(path[|path|-1])
    requires 0 <= dot < |base| && NoSeparator(base)
    ensures front + base[dot..] != path
  {
    var r := front + base[dot..];
    assert r[|r|-1] == base[|base|-1];
  }

  lemma {:induction false} UnstrippedLaw(path: string)
    requires Extension(path) != "" && Strip(path) != path
    ensures RemoveExtension(path) + Extension(path) != path
  {
    ExtensionParts(path);
    HasExtension(path);
    BaseNameSplits(path);
    StripIs(path);
    var base, dot := BaseName(path), ExtensionSeparatorPosition(BaseName(path));
    var position := ExtensionSeparatorPosition(path);
    EndsDifferently(path, if position == NPOS then path else path[..position], base, dot);
  }

  /** The stated law `path.RemoveExtension() + path.Extension() == path` holds if
      and only if there is no extension or no trailing separator to strip. */
  lemma {:induction false} RemoveThenAppendExtension(path: string)
    ensures RemoveExtension(path) + Extension(path) == path
            <==> Extension(path) == "" || Strip(path) == path
  {
    if Extension(path) == "" {
      assert RemoveExtension(path) + Extension(path) == path;
    } else if Strip(path) == path {
      StrippedLaw(path);
    } else {
      UnstrippedLaw(path);
    }
  }

  lemma Halves(base: string, at: nat)
    requires at <= |base|
    ensures base[..at] + base[at..] == base
  {
  }

  lemma {:induction false} SeparatorAfterName(base: string)
    requires IsName(base)
    ensures BaseName(base + [SEPARATOR]) == base
  {
    var path := base + [SEPARATOR];
    assert path[..|base|] == base && !IsSeparator(base[|base|-1]) && !IsSeparator(path[0]);
    assert Strip(path) == Trim(path) == Trim(base) == base;
    SplitBare(base);
  }

  lemma {:induction false} ExtensionFrom(path: string, base: string, dot: nat, position: nat)
    requires BaseName(path) == base && ExtensionSeparatorPosition(base) == dot
    requires ExtensionSeparatorPosition(path) == position
    ensures Extension(path) == base[dot..] && RemoveExtension(path) == path[..position]
  {
  }

  lemma BaseNameBehind(dir: string, base: string)
    requires IsName(base) && (dir == "" || IsSeparator(dir[|dir|-1]))
    ensures BaseName(dir + base) == base && Strip(dir + base) == dir + base
  {
    var path := dir + base;
    assert path[|path|-1] == base[|base|-1];
    StripFixed(path);
    RFindIs(path, SEPARATOR, |dir| - 1);
    assert path[|dir|..] == base;
  }

  lemma SingleDot(path: string, at: nat)
    requires 0 < at < |path| && forall i :: 0 <= i < |path| ==> (path[i] == EXTENSION_SEPARATOR <==> i == at)
    ensures ExtensionSeparatorPosition(path) == at
  {
    RFindIs(path, EXTENSION_SEPARATOR, at);
    RFindIs(path[..at], EXTENSION_SEPARATOR, NPOS);
    assert path != "..";
  }

  /** The extension of "a.b/" is ".b", and without it "a" is left, not "a/". */
  lemma {:induction false} TrailingSeparatorIsLost(base: string, at: nat)
    requires IsName(base) && 0 < at < |base|
    requires forall i :: 0 <= i < |base| ==> (base[i] == EXTENSION_SEPARATOR <==> i == at)
    ensures Extension(base + [SEPARATOR]) == base[at..]
    ensures RemoveExtension(base + [SEPARATOR]) == base[..at]
    ensures RemoveExtension(base + [SEPARATOR]) + Extension(base + [SEPARATOR]) != base + [SEPARATOR]
  {
    var path := base + [SEPARATOR];
    SeparatorAfterName(base);
    SingleDot(base, at);
    SingleDot(path, at);
    ExtensionFrom(path, base, at, at);
    Halves(base, at);
  }

  // ----- what the extension of a name is -----

  /** "gz", "z" and "bz2" in upper or lower case. */
  const COMPRESSED: set<string> := {"gz", "gZ", "Gz", "GZ", "z", "Z", "bz2", "bZ2", "Bz2", "BZ2"}

  predicate NoDot(s: string) {
    forall i :: 0 <= i < |s| ==> s[i] != '.'
  }

  /** front.e1.e2 with a compressed e2 and one to four characters in between. */
  ghost predicate IsDouble(base: string, front: string, e1: string, e2: string) {
    && base == front + ("." + (e1 + ("." + e2)))
    && NoDot(e1) && NoDot(e2) && 1 <= |e1| <= 4 && e2 in COMPRESSED
  }

  lemma ToLowerIs(c: char, low: char)
    requires 'a' <= low <= 'z' || '0' <= low <= '9'
    ensures ToLowerAscii(c) == low <==> c == low || ('a' <= low <= 'z' && c == low - 'a' + 'A')
  {
  }

  lemma CommonIff(e: string)
    ensures IsCommonDoubleExtension(e) <==> e in COMPRESSED
  {
    if |e| == 1 {
      ToLowerIs(e[0], 'z');
      assert Lowered(e) == [ToLowerAscii(e[0])] && e == [e[0]];
    } else if |e| == 2 {
      ToLowerIs(e[0], 'g');
      ToLowerIs(e[1], 'z');
      assert Lowered(e) == [ToLowerAscii(e[0]), ToLowerAscii(e[1])] && e == [e[0], e[1]];
    } else if |e| == 3 {
      ToLowerIs(e[0], 'b');
      ToLowerIs(e[1], 'z');
      ToLowerIs(e[2], '2');
      assert Lowered(e) == [ToLowerAscii(e[0]), ToLowerAscii(e[1]), ToLowerAscii(e[2])];
      assert e == [e[0], e[1], e[2]];
    }
  }

  lemma LastDotIs(front: string, e: string)
    requires NoDot(e)
    ensures
      var s := front + ([EXTENSION_SEPARATOR] + e);
      RFind(s, EXTENSION_SEPARATOR) == |front| && s[|front| + 1..] == e && s[..|front|] == front
  {
    var s := front + ([EXTENSION_SEPARATOR] + e);
    assert forall i :: |front| < i < |s| ==> s[i] == e[i - |front| - 1];
    RFindIs(s, EXTENSION_SEPARATOR, |front|);
  }

  lemma NoSeparatorBefore(base: string, n: nat)
    requires NoSeparator(base) && n <= |base|
    ensures RFind(base[..n], SEPARATOR) == NPOS
  {
    RFindIs(base[..n], SEPARATOR, NPOS);
  }

  lemma {:induction false} DoublePosition(base: string, front: string, e1: string, e2: string)
    requires IsDouble(base, front, e1, e2) && NoSeparator(base)
    ensures ExtensionSeparatorPosition(base) == |front|
  {
    var before := front + ([EXTENSION_SEPARATOR] + e1);
    assert base == before + ([EXTENSION_SEPARATOR] + e2);
    LastDotIs(before, e2);
    LastDotIs(front, e1);
    CommonIff(e2);
    NoSeparatorBefore(base, |before|);
    assert |base| >= 4;
  }

  /** What the code looks for before ".gz" and the like is just a double extension. */
  lemma {:induction false} DoubleFound(base: string, front: string, e: string)
    requires base == front + ([EXTENSION_SEPARATOR] + e) && NoDot(e) && front != "" && NoSeparator(base)
    requires DoubleExtensionPosition(base, |front|) != |front|
    ensures exists f, e1 :: IsDouble(base, f, e1, e)
  {
    LastDotIs(front, e);
    CommonIff(e);
    var dot := RFind(front, EXTENSION_SEPARATOR);
    var f, e1 := front[..dot], front[dot + 1..];
    assert front == f + ([EXTENSION_SEPARATOR] + e1);
    assert NoDot(e1) by {
      assert forall i :: 0 <= i < |e1| ==> e1[i] == front[dot + 1 + i];
    }
    assert IsDouble(base, f, e1, e);
  }

  lemma {:induction false} SinglePosition(base: string, front: string, e: string)
    requires base == front + ([EXTENSION_SEPARATOR] + e) && NoDot(e) && NoSeparator(base)
    requires base != "." && base != ".." && forall f, e1 :: !IsDouble(base, f, e1, e)
    ensures ExtensionSeparatorPosition(base) == |front|
  {
    LastDotIs(front, e);
    if front != "" && DoubleExtensionPosition(base, |front|) != |front| {
      DoubleFound(base, front, e);
    }
  }

  /** A name behind the separators of its directory, and the dot at which it is cut. */
  lemma {:induction false} CutAt(dir: string, base: string, dot: nat)
    requires IsName(base) && (dir == "" || IsSeparator(dir[|dir|-1]))
    requires ExtensionSeparatorPosition(base) == dot < |base|
    ensures Extension(dir + base) == base[dot..] && RemoveExtension(dir + base) == dir + base[..dot]
  {
    BaseNameBehind(dir, base);
    PositionInPath(dir, base);
    SplitInPath(dir, base, dot);
  }

  /** "gz", "z" and "bz2" take one to four characters and a dot before them along. */
  lemma {:induction false} DoubleExtension(dir: string, base: string, front: string, e1: string, e2: string)
    requires IsName(base) && (dir == "" || IsSeparator(dir[|dir|-1])) && IsDouble(base, front, e1, e2)
    ensures Extension(dir + base) == "." + (e1 + ("." + e2)) && RemoveExtension(dir + base) == dir + front
  {
    DoublePosition(base, front, e1, e2);
    CutAt(dir, base, |front|);
    assert base[|front|..] == "." + (e1 + ("." + e2)) && base[..|front|] == front;
  }

  /** The extension of any other name with a dot begins at its last dot. */
  lemma {:induction false} SingleExtension(dir: string, base: string, front: string, e: string)
    requires IsName(base) && (dir == "" || IsSeparator(dir[|dir|-1])) && base == front + ("." + e) && NoDot(e)
    requires base != "." && base != ".." && forall f, e1 :: !IsDouble(base, f, e1, e)
    ensures Extension(dir + base) == "." + e && RemoveExtension(dir + base) == dir + front
  {
    SinglePosition(base, front, e);
    CutAt(dir, base, |front|);
    assert base[|front|..] == "." + e && base[..|front|] == front;
  }

  lemma {:induction false} NoExtension(dir: string, base: string)
    requires IsName(base) && (dir == "" || IsSeparator(dir[|dir|-1]))
    requires NoDot(base) || base == "." || base == ".."
    ensures Extension(dir + base) == "" && RemoveExtension(dir + base) == dir + base
  {
    BaseNameBehind(dir, base);
    if NoDot(base) {
      RFindIs(base, EXTENSION_SEPARATOR, NPOS);
    }
  }

  lemma LastAgrees(front: string, e: string, front': string, e': string)
    requires NoDot(e) && NoDot(e') && front + ([EXTENSION_SEPARATOR] + e) == front' + ([EXTENSION_SEPARATOR] + e')
    ensures front == front' && e == e'
  {
    LastDotIs(front, e);
    LastDotIs(front', e');
  }

  /** All names with two dots or more, by what is behind the last two. */
  lemma {:induction false} TwoDots(dir: string, base: string, front: string, e1: string, e2: string)
    requires IsName(base) && (dir == "" || IsSeparator(dir[|dir|-1])) && base != ".."
    requires base == front + ("." + (e1 + ("." + e2))) && NoDot(e1) && NoDot(e2)
    ensures
      if e2 in COMPRESSED && 1 <= |e1| <= 4
      then Extension(dir + base) == "." + (e1 + ("." + e2)) && RemoveExtension(dir + base) == dir + front
      else Extension(dir + base) == "." + e2 && RemoveExtension(dir + base) == dir + (front + ("." + e1))
  {
    if e2 in COMPRESSED && 1 <= |e1| <= 4 {
      DoubleExtension(dir, base, front, e1, e2);
    } else {
      var before := front + ([EXTENSION_SEPARATOR] + e1);
      assert base == before + ([EXTENSION_SEPARATOR] + e2);
      forall f, e | base == f + ("." + (e + ("." + e2))) && NoDot(e)
        ensures e == e1
      {
        var before' := f + ([EXTENSION_SEPARATOR] + e);
        assert base == before' + ([EXTENSION_SEPARATOR] + e2);
        LastAgrees(before, e2, before', e2);
        LastAgrees(front, e1, f, e);
      }
      SingleExtension(dir, base, before, e2);
    }
  }
}
