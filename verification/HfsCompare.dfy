/**
 base/file_path.cc: the HFS comparison of file names.  A string is the sequence of code
 points that its decoding gives, a negative one where the decoder reports an error; the
 case table is a parameter.
 */
module HfsCompare {

  /** 256 offsets of subtables, each zero or with room for 256 entries behind it. */
  predicate IsCaseTable(table: seq<int>) {
    && |table| >= 256
    && (forall i :: 0 <= i < |table| ==> 0 <= table[i] < 0x1_0000)
    && (forall hi :: 0 <= hi < 256 && table[hi] != 0 ==> table[hi] + 255 < |table|)
  }

  predicate InTableRange(s: seq<int>) {
    forall i :: 0 <= i < |s| ==> s[i] < 0x1_0000
  }

  function Fold(table: seq<int>, codepoint: int): int
    requires IsCaseTable(table) && codepoint < 0x1_0000
  {
    if codepoint <= 0 || table[codepoint / 256] == 0 then codepoint
    else table[table[codepoint / 256] + codepoint % 256]
  }

  /** The folded code points from index i on, without the ignorable ones. */
  function KeptFrom(table: seq<int>, s: seq<int>, i: nat): (kept: seq<int>)
    requires IsCaseTable(table) && InTableRange(s) && i <= |s|
    ensures forall k :: 0 <= k < |kept| ==> kept[k] != 0
    decreases |s| - i
  {
    if i == |s| then []
    else
      var rest := KeptFrom(table, s, i + 1);
      if Fold(table, s[i]) == 0 then rest else [Fold(table, s[i])] + rest
  }

  /** A kept code point, or the zero that stands for the end of the string. */
  function At(u: seq<int>, k: nat): int {
    if k < |u| then u[k] else 0
  }

  // ----- what the table encodes -----

  function CodePoint(hi: int, lo: int): int {
    256 * hi + lo
  }

  /** The table gives f: for a code point with high byte hi and low byte lo the entry of the
      subtable of hi, if there is one, and otherwise the code point as it is. */
  ghost predicate Encodes(table: seq<int>, f: int -> int)
    requires IsCaseTable(table)
  {
    && (forall hi, lo :: 0 <= hi < 256 && 0 <= lo < 256 && CodePoint(hi, lo) > 0 ==>
          f(CodePoint(hi, lo)) == if table[hi] != 0 then table[table[hi] + lo] else CodePoint(hi, lo))
    && (forall c :: c <= 0 ==> f(c) == c)
  }

  /** Every code point mapped, and those that are mapped to zero left out. */
  function Mapped(f: int -> int, s: seq<int>): seq<int> {
    if s == [] then []
    else (if f(s[0]) == 0 then [] else [f(s[0])]) + Mapped(f, s[1..])
  }

  lemma TableEncodes(table: seq<int>) returns (f: int -> int)
    requires IsCaseTable(table)
    ensures Encodes(table, f)
  {
    f := c => if c <= 0 || c >= 0x1_0000 then c else Fold(table, c);
  }

  lemma FoldIsEncoded(table: seq<int>, f: int -> int, c: int)
    requires IsCaseTable(table) && Encodes(table, f) && c < 0x1_0000
    ensures Fold(table, c) == f(c)
  {
    if c > 0 {
      assert CodePoint(c / 256, c % 256) == c;
    }
  }

  lemma {:induction false} KeptIsMapped(table: seq<int>, f: int -> int, s: seq<int>, i: nat)
    requires IsCaseTable(table) && InTableRange(s) && Encodes(table, f) && i <= |s|
    ensures KeptFrom(table, s, i) == Mapped(f, s[i..])
    decreases |s| - i
  {
    if i < |s| {
      KeptIsMapped(table, f, s, i + 1);
      FoldIsEncoded(table, f, s[i]);
      assert s[i..][1..] == s[i+1..];
    }
  }

  method HFSReadNextNonIgnorableCodepoint(table: seq<int>, s: seq<int>, start: nat)
    returns (codepoint: int, index: nat)
    requires IsCaseTable(table) && InTableRange(s) && start <= |s|
    ensures start <= index <= |s| && codepoint == At(KeptFrom(table, s, start), 0)
    ensures codepoint != 0 ==> start < index && KeptFrom(table, s, index) == KeptFrom(table, s, start)[1..]
    ensures codepoint == 0 ==> index == |s| && KeptFrom(table, s, start) == []
  {
    codepoint, index := 0, start;
    while index < |s| && codepoint == 0
      invariant start <= index <= |s|
      invariant codepoint == 0 ==> KeptFrom(table, s, index) == KeptFrom(table, s, start)
      invariant codepoint != 0 ==> start < index && KeptFrom(table, s, start) == [codepoint] + KeptFrom(table, s, index)
    {
      codepoint := s[index];
      index := index + 1;
      if codepoint > 0 {
        var lookupOffset := table[codepoint / 256];
        if lookupOffset != 0 {
          codepoint := table[lookupOffset + codepoint % 256];
        }
      }
    }
  }

  ghost predicate Agree(u: seq<int>, v: seq<int>, k: nat) {
    k <= |u| && k <= |v| && forall i :: 0 <= i < k ==> u[i] == v[i]
  }

  /** u and v agree before k and u is the smaller at k. */
  ghost predicate SmallerAt(u: seq<int>, v: seq<int>, k: nat) {
    Agree(u, v, k) && At(u, k) < At(v, k)
  }

  ghost predicate Before(u: seq<int>, v: seq<int>) {
    exists k :: SmallerAt(u, v, k)
  }

  ghost predicate NoZero(u: seq<int>) {
    forall k :: 0 <= k < |u| ==> u[k] != 0
  }

  lemma Rest(u: seq<int>, k: nat)
    requires k <= |u|
    ensures At(u[k..], 0) == At(u, k)
    ensures k < |u| ==> u[k..][1..] == u[k+1..]
  {
  }

  /** Exactly one of: equal, before, after. */
  lemma ExactlyOneOrder(u: seq<int>, v: seq<int>)
    requires NoZero(u) && NoZero(v)
    ensures u == v || Before(u, v) || Before(v, u)
    ensures !(Before(u, v) && Before(v, u)) && !Before(u, u)
  {
    var k := 0;
    while k < |u| && k < |v| && u[k] == v[k]
      invariant Agree(u, v, k)
    {
      k := k + 1;
    }
    assert At(u, k) != At(v, k) ==> SmallerAt(u, v, k) || SmallerAt(v, u, k);
  }

  /** The lexicographic order, where the end of a string counts as a zero. */
  ghost predicate ComesFirst(u: seq<int>, v: seq<int>) {
    exists k :: 0 <= k <= |u| && k <= |v| && u[..k] == v[..k]
                && (if k < |u| then u[k] else 0) < (if k < |v| then v[k] else 0)
  }

  lemma BeforeIff(u: seq<int>, v: seq<int>)
    ensures Before(u, v) <==> ComesFirst(u, v)
  {
    if k: nat :| SmallerAt(u, v, k) {
      assert u[..k] == v[..k];
    }
    if k :| 0 <= k <= |u| && k <= |v| && u[..k] == v[..k]
            && (if k < |u| then u[k] else 0) < (if k < |v| then v[k] else 0) {
      assert forall i :: 0 <= i < k ==> u[i] == u[..k][i] == v[i];
      assert SmallerAt(u, v, k);
    }
  }

  ghost predicate IsOrderOf(u: seq<int>, v: seq<int>, order: int) {
    (order == 0 <==> u == v) && (order == -1 <==> ComesFirst(u, v)) && (order == 1 <==> ComesFirst(v, u))
  }

  lemma OrderOfMapped(table: seq<int>, string1: seq<int>, string2: seq<int>, order: int)
    requires IsCaseTable(table) && InTableRange(string1) && InTableRange(string2)
    requires order == -1 <==> Before(KeptFrom(table, string1, 0), KeptFrom(table, string2, 0))
    requires order == 1 <==> Before(KeptFrom(table, string2, 0), KeptFrom(table, string1, 0))
    requires order == 0 <==> KeptFrom(table, string1, 0) == KeptFrom(table, string2, 0)
    ensures forall f :: Encodes(table, f) ==> IsOrderOf(Mapped(f, string1), Mapped(f, string2), order)
  {
    forall f | Encodes(table, f)
      ensures IsOrderOf(Mapped(f, string1), Mapped(f, string2), order)
    {
      KeptIsMapped(table, f, string1, 0);
      KeptIsMapped(table, f, string2, 0);
      assert string1[0..] == string1 && string2[0..] == string2;
      BeforeIff(Mapped(f, string1), Mapped(f, string2));
      BeforeIff(Mapped(f, string2), Mapped(f, string1));
    }
  }

  method HFSFastUnicodeCompare(table: seq<int>, string1: seq<int>, string2: seq<int>) returns (order: int)
    requires IsCaseTable(table) && InTableRange(string1) && InTableRange(string2)
    ensures order == -1 || order == 0 || order == 1
    ensures order == -1 <==> Before(KeptFrom(table, string1, 0), KeptFrom(table, string2, 0))
    ensures order == 1 <==> Before(KeptFrom(table, string2, 0), KeptFrom(table, string1, 0))
    ensures order == 0 <==> KeptFrom(table, string1, 0) == KeptFrom(table, string2, 0)
    ensures forall f :: Encodes(table, f) ==> IsOrderOf(Mapped(f, string1), Mapped(f, string2), order)
  {
    var index1, index2 := 0, 0;
    ghost var u, v, k := KeptFrom(table, string1, 0), KeptFrom(table, string2, 0), 0;
    ExactlyOneOrder(u, v);
    while true
      invariant 0 <= index1 <= |string1| && 0 <= index2 <= |string2| && Agree(u, v, k)
      invariant KeptFrom(table, string1, index1) == u[k..] && KeptFrom(table, string2, index2) == v[k..]
      decreases |string1| - index1
    {
      Rest(u, k);
      Rest(v, k);
      var codepoint1, codepoint2;
      codepoint1, index1 := HFSReadNextNonIgnorableCodepoint(table, string1, index1);
      codepoint2, index2 := HFSReadNextNonIgnorableCodepoint(table, string2, index2);
      if codepoint1 != codepoint2 {
        assert SmallerAt(u, v, k) || SmallerAt(v, u, k);
        order := if codepoint1 < codepoint2 then -1 else 1;
        OrderOfMapped(table, string1, string2, order);
        return;
      }
      if codepoint1 == 0 {
        OrderOfMapped(table, string1, string2, 0);
        return 0;
      }
      k := k + 1;
    }
  }

  lemma KeptOfOne(table: seq<int>, c: int)
    requires IsCaseTable(table) && 0 < c < 0x1_0000
    requires table[c / 256] != 0 && table[table[c / 256] + c % 256] != 0
    ensures KeptFrom(table, [c], 0) == [table[table[c / 256] + c % 256]]
  {
    assert KeptFrom(table, [c], 1) == [];
  }

  /** With a table that has 'a' for 'A' and for 'a', the two names are the same. */
  method CompareCases(table: seq<int>) returns (order: int)
    requires IsCaseTable(table) && table[0] == 256 && table[256 + 65] == 97 && table[256 + 97] == 97
    ensures order == 0
  {
    order := HFSFastUnicodeCompare(table, [65], [97]);
    KeptOfOne(table, 65);
    KeptOfOne(table, 97);
  }

  // ----- the comparison is a total preorder on names -----

  /** The comparison is transitive: the earlier of the two differences decides. */
  lemma BeforeIsTransitive(u: seq<int>, v: seq<int>, w: seq<int>)
    requires NoZero(u) && NoZero(v) && NoZero(w) && Before(u, v) && Before(v, w)
    ensures Before(u, w)
  {
    var k: nat :| SmallerAt(u, v, k);
    var l: nat :| SmallerAt(v, w, l);
    var m := if k < l then k else l;
    assert SmallerAt(u, w, m);
  }

  lemma {:induction false} SameTail(table: seq<int>, s: seq<int>, t: seq<int>, i: nat, j: nat)
    requires IsCaseTable(table) && InTableRange(s) && InTableRange(t)
    requires i <= |s| && j <= |t| && s[i..] == t[j..]
    ensures KeptFrom(table, s, i) == KeptFrom(table, t, j)
    decreases |s| - i
  {
    assert |s[i..]| == |t[j..]|;
    if i < |s| {
      assert s[i] == s[i..][0] == t[j..][0] == t[j];
      assert s[i+1..] == s[i..][1..] == t[j..][1..] == t[j+1..];
      SameTail(table, s, t, i + 1, j + 1);
    }
  }

  /** Ignorable code points can stand anywhere: leaving one out changes nothing. */
  lemma {:induction false} IgnorablesDoNotMatter(table: seq<int>, s: seq<int>, at: nat, i: nat)
    requires IsCaseTable(table) && InTableRange(s) && i <= at < |s| && Fold(table, s[at]) == 0
    ensures InTableRange(s[..at] + s[at+1..])
    ensures KeptFrom(table, s[..at] + s[at+1..], i) == KeptFrom(table, s, i)
    decreases at - i
  {
    var t := s[..at] + s[at+1..];
    if i < at {
      IgnorablesDoNotMatter(table, s, at, i + 1);
      assert t[i] == s[i];
    } else {
      SameTail(table, s, t, at + 1, at);
    }
  }
}
