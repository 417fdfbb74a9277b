/** Datatypes shared by the other modules. */
module Common {

  datatype Option<+T> = None | Some(value: T)

  function Get<K, V>(m: map<K, V>, k: K): Option<V> {
    if k in m then Some(m[k]) else None
  }

  /** Equal elements never sit at two positions. */
  ghost predicate Distinct<T>(s: seq<T>) {
    forall i, j :: 0 <= i < j < |s| ==> s[i] != s[j]
  }

  function Reversed<T>(s: seq<T>): seq<T> {
    seq(|s|, i requires 0 <= i < |s| => s[|s| - 1 - i])
  }

  function Flatten<T>(pieces: seq<seq<T>>): seq<T> {
    if pieces == [] then [] else Flatten(pieces[..|pieces|-1]) + pieces[|pieces|-1]
  }

  lemma FlattenTop<T>(below: seq<seq<T>>, top: seq<T>)
    ensures Flatten(below + [top]) == Flatten(below) + top
  {
    assert (below + [top])[..|below|] == below;
  }

  /** The state of a lazily created instance: state_ of LazyInstance. */
  datatype Phase = Empty | Creating | Created

  lemma AboveAll(used: set<int>) returns (bound: nat)
    ensures forall x :: x in used ==> x < bound
  {
    bound := 0;
    if x :| x in used {
      bound := AboveAll(used - {x});
      bound := if bound <= x then x + 1 else bound;
      forall y | y in used
        ensures y < bound
      {
        assert y == x || y in used - {x};
      }
    }
  }

  lemma FreshNumberExists(used: set<int>)
    ensures exists n :: 0 <= n && n !in used
  {
    var bound := AboveAll(used);
    assert bound !in used;
  }

  lemma Associative<T>(a: seq<T>, b: seq<T>, c: seq<T>)
    ensures (a + b) + c == a + (b + c)
  {
  }
}
