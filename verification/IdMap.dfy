/**
 base/id_map.h: a map from ids to pointers whose removals are deferred while an
 iterator is live, and which may own the pointers.
 */
module IdMap {
  import opened Common

  /** A pointer; 0 is NULL. */
  type Pointer = nat

  datatype Entry = Entry(key: int, value: Pointer)

  // ----- entries in the iteration order of the hash table -----

  function KeysOf(data: seq<Entry>): set<int> {
    set e | e in data :: e.key
  }

  ghost predicate DistinctKeys(data: seq<Entry>) {
    forall i, j :: 0 <= i < j < |data| ==> data[i].key != data[j].key
  }

  /** The position of a key, or |data| when there is none. */
  function Find(data: seq<Entry>, key: int): (at: nat)
    ensures at <= |data|
    ensures at < |data| ==> data[at].key == key
    ensures forall i :: 0 <= i < at ==> data[i].key != key
    ensures at < |data| <==> key in KeysOf(data)
  {
    if data == [] then 0
    else if data[0].key == key then 0
    else
      assert data == [data[0]] + data[1..];
      1 + Find(data[1..], key)
  }

  function Erased(data: seq<Entry>, at: nat): seq<Entry>
    requires at < |data|
  {
    data[..at] + data[at+1..]
  }

  lemma ErasedEntries(data: seq<Entry>, at: nat)
    requires at < |data|
    ensures multiset(data) == multiset(Erased(data, at)) + multiset{data[at]}
  {
    assert data == data[..at] + [data[at]] + data[at+1..];
  }

  /** The entries whose keys are not among `gone`, in the same order. */
  function Without(data: seq<Entry>, gone: set<int>): seq<Entry> {
    if data == [] then []
    else if data[0].key in gone then Without(data[1..], gone)
    else [data[0]] + Without(data[1..], gone)
  }

  lemma {:induction false} WithoutNothingMore(data: seq<Entry>, gone: set<int>, more: set<int>)
    requires forall i :: 0 <= i < |data| ==> (data[i].key in more <==> data[i].key in gone)
    ensures Without(data, gone) == Without(data, more)
  {
    if data != [] {
      WithoutNothingMore(data[1..], gone, more);
    }
  }

  lemma {:induction false} WithoutNone(data: seq<Entry>)
    ensures Without(data, {}) == data
  {
    if data != [] {
      WithoutNone(data[1..]);
    }
  }

  lemma ConsKeys(e: Entry, rest: seq<Entry>)
    ensures KeysOf([e] + rest) == {e.key} + KeysOf(rest)
  {
    var all := [e] + rest;
    assert forall x :: x in all <==> x == e || x in rest;
    assert e in all;
  }

  lemma {:induction false} WithoutKeys(data: seq<Entry>, gone: set<int>)
    ensures KeysOf(Without(data, gone)) == KeysOf(data) - gone
  {
    if data != [] {
      WithoutKeys(data[1..], gone);
      ConsKeys(data[0], data[1..]);
      assert data == [data[0]] + data[1..];
      ConsKeys(data[0], Without(data[1..], gone));
    }
  }

  lemma ErasedBehind(e: Entry, rest: seq<Entry>, id: int)
    requires e.key != id && id in KeysOf(rest)
    ensures id in KeysOf([e] + rest)
    ensures Erased([e] + rest, Find([e] + rest, id)) == [e] + Erased(rest, Find(rest, id))
  {
    var all := [e] + rest;
    assert all[1..] == rest;
    var x :| x in rest && x.key == id;
    assert x in all;
    assert Find(all, id) == 1 + Find(rest, id);
  }

  /** Erasing one more key from what is left. */
  lemma {:induction false} ErasedWithout(data: seq<Entry>, gone: set<int>, id: int)
    requires DistinctKeys(data) && id in KeysOf(data) && id !in gone
    ensures
      var left := Without(data, gone);
      id in KeysOf(left) && Erased(left, Find(left, id)) == Without(data, gone + {id})
  {
    var e, rest := data[0], data[1..];
    assert data == [e] + rest;
    if e.key == id {
      WithoutNothingMore(rest, gone, gone + {id});
      assert ([e] + Without(rest, gone))[1..] == Without(rest, gone);
    } else {
      ErasedWithout(rest, gone, id);
      if e.key !in gone {
        ErasedBehind(e, Without(rest, gone), id);
      }
    }
  }

  lemma InsertedEntries(a: seq<Entry>, e: Entry, b: seq<Entry>)
    ensures multiset(a + [e] + b) == multiset(a + b) + multiset{e}
  {
  }

  lemma ErasedKeys(data: seq<Entry>, at: nat)
    requires at < |data| && DistinctKeys(data)
    ensures DistinctKeys(Erased(data, at))
    ensures KeysOf(Erased(data, at)) == KeysOf(data) - {data[at].key}
  {
    var rest := Erased(data, at);
    assert forall i :: 0 <= i < |rest| ==> rest[i] == data[if i < at then i else i + 1];
    forall e | e in data && e.key != data[at].key
      ensures e in rest
    {
      var i :| 0 <= i < |data| && data[i] == e;
      assert rest[if i < at then i else i - 1] == e;
    }
  }

  lemma InsertedKeys(a: seq<Entry>, e: Entry, b: seq<Entry>)
    requires DistinctKeys(a + b) && e.key !in KeysOf(a + b)
    ensures DistinctKeys(a + [e] + b) && KeysOf(a + [e] + b) == KeysOf(a + b) + {e.key}
  {
    var was, now := a + b, a + [e] + b;
    assert forall i :: 0 <= i < |now| && i != |a| ==> now[i] == was[if i < |a| then i else i - 1];
    assert forall x :: x in was ==> x.key in KeysOf(was);
    assert forall x :: x in now <==> x in was || x == e;
  }

  lemma {:induction false} KeysCount(data: seq<Entry>)
    requires DistinctKeys(data)
    ensures |KeysOf(data)| == |data|
  {
    if data != [] {
      var init, last := data[..|data|-1], data[|data|-1];
      assert data == init + [last];
      KeysCount(init);
      assert KeysOf(data) == KeysOf(init) + {last.key};
    }
  }

  // ----- what a key leads to -----

  function ValueOf(data: seq<Entry>, key: int): Pointer {
    var at := Find(data, key);
    if at == |data| then 0 else data[at].value
  }

  /** The pointer that the key has been added with, or NULL when there is no such entry. */
  lemma ValueOfIs(data: seq<Entry>, key: int, value: Pointer)
    requires DistinctKeys(data)
    ensures Entry(key, value) in data ==> ValueOf(data, key) == value
    ensures key !in KeysOf(data) ==> ValueOf(data, key) == 0
    ensures key in KeysOf(data) ==> Entry(key, ValueOf(data, key)) in data
  {
    if Entry(key, value) in data {
      var i :| 0 <= i < |data| && data[i] == Entry(key, value);
      assert key in KeysOf(data);
    }
    if key in KeysOf(data) {
      assert data[Find(data, key)] == Entry(key, ValueOf(data, key));
    }
  }

  /** Two lists of entries agree on a key when it is in the same entries of both. */
  lemma SameValue(data: seq<Entry>, data': seq<Entry>, key: int)
    requires DistinctKeys(data) && DistinctKeys(data')
    requires forall value :: Entry(key, value) in data <==> Entry(key, value) in data'
    ensures ValueOf(data, key) == ValueOf(data', key)
  {
    ValueOfIs(data, key, ValueOf(data', key));
    ValueOfIs(data', key, ValueOf(data, key));
    if key in KeysOf(data') {
      var e :| e in data' && e.key == key;
      assert e == Entry(key, e.value);
    }
  }

  lemma InsertedValues(a: seq<Entry>, e: Entry, b: seq<Entry>)
    requires DistinctKeys(a + b) && e.key !in KeysOf(a + b)
    ensures forall k :: ValueOf(a + [e] + b, k) == if k == e.key then e.value else ValueOf(a + b, k)
  {
    var was, now := a + b, a + [e] + b;
    InsertedKeys(a, e, b);
    assert forall x :: x in now <==> x in was || x == e;
    ValueOfIs(now, e.key, e.value);
    assert e == Entry(e.key, e.value);
    forall k | k != e.key
      ensures ValueOf(now, k) == ValueOf(was, k)
    {
      SameValue(now, was, k);
    }
  }

  lemma ErasedValues(data: seq<Entry>, at: nat)
    requires at < |data| && DistinctKeys(data)
    ensures forall k :: ValueOf(Erased(data, at), k) == if k == data[at].key then 0 else ValueOf(data, k)
  {
    var rest := Erased(data, at);
    ErasedKeys(data, at);
    ValueOfIs(rest, data[at].key, 0);
    forall k | k != data[at].key
      ensures ValueOf(rest, k) == ValueOf(data, k)
    {
      forall value
        ensures Entry(k, value) in data <==> Entry(k, value) in rest
      {
        if i :| 0 <= i < |data| && data[i] == Entry(k, value) {
          assert rest[if i < at then i else i - 1] == Entry(k, value);
        }
      }
      SameValue(rest, data, k);
    }
  }

  lemma {:induction false} WithoutEntries(data: seq<Entry>, gone: set<int>)
    ensures forall e :: e in Without(data, gone) <==> e in data && e.key !in gone
  {
    if data != [] {
      var e, rest := data[0], data[1..];
      WithoutEntries(rest, gone);
      assert forall x :: x in data <==> x == e || x in rest;
    }
  }

  lemma {:induction false} WithoutDistinct(data: seq<Entry>, gone: set<int>)
    requires DistinctKeys(data)
    ensures DistinctKeys(Without(data, gone))
  {
    if data != [] {
      var e, rest := data[0], data[1..];
      WithoutDistinct(rest, gone);
      WithoutEntries(rest, gone);
      var left := Without(rest, gone);
      assert forall i :: 0 <= i < |left| ==> left[i] in left && left[i].key != e.key;
    }
  }

  lemma {:induction false} WithoutValues(data: seq<Entry>, gone: set<int>)
    requires DistinctKeys(data)
    ensures forall k :: ValueOf(Without(data, gone), k) == if k in gone then 0 else ValueOf(data, k)
  {
    WithoutEntries(data, gone);
    WithoutDistinct(data, gone);
    WithoutKeys(data, gone);
    forall k
      ensures ValueOf(Without(data, gone), k) == if k in gone then 0 else ValueOf(data, k)
    {
      if k in gone {
        ValueOfIs(Without(data, gone), k, 0);
      } else {
        SameValue(Without(data, gone), data, k);
      }
    }
  }

  // ----- where a cursor stops -----

  /** SkipRemovedEntries: the first position from `start` on whose key is not removed. */
  function NextStop(keys: seq<Entry>, removed: set<int>, start: nat): (stop: nat)
    requires start <= |keys|
    ensures start <= stop <= |keys|
    ensures stop < |keys| ==> keys[stop].key !in removed
    ensures forall i :: start <= i < stop ==> keys[i].key in removed
    decreases |keys| - start
  {
    if start < |keys| && keys[start].key in removed then NextStop(keys, removed, start + 1) else start
  }

  ghost predicate StopFollows(order: seq<Entry>, removed: seq<set<int>>, stops: seq<nat>, t: nat)
    requires 0 < t < |stops| == |removed|
  {
    stops[t-1] < |order| && stops[t] == NextStop(order, removed[t], stops[t-1] + 1)
  }

  /** The stops of one iterator over its whole life, and what was removed when it
      looked for each of them. */
  ghost predicate IsTrail(order: seq<Entry>, removed: seq<set<int>>, stops: seq<nat>) {
    && |removed| == |stops| > 0
    && (forall t, u :: 0 <= t <= u < |removed| ==> removed[t] <= removed[u])
    && (forall t :: 0 <= t < |stops| ==> stops[t] <= |order|)
    && stops[0] == NextStop(order, removed[0], 0)
    && (forall t :: 0 < t < |stops| ==> StopFollows(order, removed, stops, t))
  }

  lemma TrailExtends(order: seq<Entry>, removed: seq<set<int>>, stops: seq<nat>, gone: set<int>)
    requires IsTrail(order, removed, stops) && stops[|stops|-1] < |order| && removed[|removed|-1] <= gone
    ensures IsTrail(order, removed + [gone], stops + [NextStop(order, gone, stops[|stops|-1] + 1)])
  {
    var r, s := removed + [gone], stops + [NextStop(order, gone, stops[|stops|-1] + 1)];
    forall t | 0 < t < |s|
      ensures StopFollows(order, r, s, t)
    {
      assert t < |stops| ==> StopFollows(order, removed, stops, t);
    }
  }

  /** No key is returned twice. */
  lemma {:induction false} StopsAscend(order: seq<Entry>, removed: seq<set<int>>, stops: seq<nat>, t: nat, u: nat)
    requires IsTrail(order, removed, stops) && t < u < |stops|
    ensures stops[t] < stops[u]
  {
    assert StopFollows(order, removed, stops, u);
    if t + 1 < u {
      StopsAscend(order, removed, stops, t, u - 1);
    }
  }

  lemma KeysReturnedOnce(order: seq<Entry>, removed: seq<set<int>>, stops: seq<nat>, t: nat, u: nat)
    requires DistinctKeys(order) && IsTrail(order, removed, stops) && t < u < |stops| && stops[u] < |order|
    ensures stops[t] < stops[u] && order[stops[t]].key != order[stops[u]].key
  {
    StopsAscend(order, removed, stops, t, u);
  }

  /** A key that was removed before the cursor looked for stop t is not returned at
      t or later. */
  lemma RemovedKeysNotReturned(order: seq<Entry>, removed: seq<set<int>>, stops: seq<nat>, t: nat, u: nat)
    requires IsTrail(order, removed, stops) && t <= u < |stops| && stops[u] < |order|
    ensures order[stops[u]].key !in removed[t]
  {
    assert u > 0 ==> StopFollows(order, removed, stops, u);
    assert removed[t] <= removed[u];
  }

  lemma TrailPrefix(order: seq<Entry>, removed: seq<set<int>>, stops: seq<nat>, n: nat)
    requires IsTrail(order, removed, stops) && 0 < n < |stops|
    ensures IsTrail(order, removed[..n], stops[..n]) && removed[..n][n-1] <= removed[|removed|-1]
  {
    forall t | 0 < t < n
      ensures StopFollows(order, removed[..n], stops[..n], t)
    {
      assert StopFollows(order, removed, stops, t);
    }
  }

  /** A key that is not removed when the cursor has gone past it has been returned. */
  lemma {:induction false} KeptKeysReturned(order: seq<Entry>, removed: seq<set<int>>, stops: seq<nat>, p: nat)
    requires IsTrail(order, removed, stops) && p < stops[|stops|-1]
    requires order[p].key !in removed[|removed|-1]
    ensures exists t :: 0 <= t < |stops| && stops[t] == p
  {
    var last := |stops| - 1;
    if last > 0 {
      assert StopFollows(order, removed, stops, last);
      if p < stops[last-1] {
        TrailPrefix(order, removed, stops, last);
        KeptKeysReturned(order, removed[..last], stops[..last], p);
        var t :| 0 <= t < last && stops[..last][t] == p;
        assert stops[t] == p;
      } else {
        assert stops[last-1] == p;
      }
    }
  }

  // ----- the classes -----

  class IDMap {
    const owns: bool
    var iterationDepth: nat
    var removedIds: set<int>
    var nextId: int
    var data: seq<Entry>
    ghost var live: set<Iterator>
    ghost var added: multiset<Entry>
    ghost var deleted: multiset<Entry>

    ghost predicate Sound()
      reads this
    {
      && DistinctKeys(data)
      && (if owns then added == deleted + multiset(data) else deleted == multiset{})
    }

    ghost predicate Valid()
      reads this
    {
      && Sound() && |live| == iterationDepth
      && removedIds <= KeysOf(data) && (iterationDepth == 0 ==> removedIds == {})
    }

    constructor (owns: bool)
      ensures Valid() && data == [] && live == {} && added == deleted == multiset{}
      ensures this.owns == owns && nextId == 1
    {
      this.owns := owns;
      iterationDepth, removedIds, nextId, data := 0, {}, 1, [];
      live, added, deleted := {}, multiset{}, multiset{};
    }

    function Size(): int
      reads this
    {
      |data| - |removedIds|
    }

    /** Where a new entry comes in the iteration order is up to the hash table. */
    method AddWithID(value: Pointer, id: int)
      requires Valid() && id !in KeysOf(data)
      modifies `data, `added
      ensures Valid() && added == old(added) + multiset{Entry(id, value)}
      ensures exists a, b :: a + b == old(data) && data == a + [Entry(id, value)] + b
      ensures Lookup(id) == value && forall k :: k != id ==> Lookup(k) == old(Lookup(k))
      ensures Size() == old(Size()) + 1
    {
      var at :| 0 <= at <= |data|;
      ghost var a, b := data[..at], data[at..];
      assert a + b == data;
      InsertedEntries(a, Entry(id, value), b);
      InsertedKeys(a, Entry(id, value), b);
      InsertedValues(a, Entry(id, value), b);
      data := data[..at] + [Entry(id, value)] + data[at..];
      added := added + multiset{Entry(id, value)};
    }

    method Add(value: Pointer) returns (id: int)
      requires Valid() && nextId !in KeysOf(data)
      modifies `data, `added, `nextId
      ensures Valid() && added == old(added) + multiset{Entry(id, value)}
      ensures id == old(nextId) && nextId == id + 1
      ensures exists a, b :: a + b == old(data) && data == a + [Entry(id, value)] + b
      ensures Lookup(id) == value && forall k :: k != id ==> Lookup(k) == old(Lookup(k))
      ensures Size() == old(Size()) + 1
    {
      id := nextId;
      AddWithID(value, id);
      nextId := nextId + 1;
    }

    method Remove(id: int)
      requires Sound()
      modifies `data, `removedIds, `deleted
      ensures Sound()
      ensures id !in KeysOf(old(data)) ==> data == old(data) && removedIds == old(removedIds) && deleted == old(deleted)
      ensures id in KeysOf(old(data)) && iterationDepth > 0 ==>
                data == old(data) && removedIds == old(removedIds) + {id} && deleted == old(deleted)
      ensures id in KeysOf(old(data)) && iterationDepth == 0 ==>
                && data == Erased(old(data), Find(old(data), id)) && removedIds == old(removedIds)
                && KeysOf(data) == KeysOf(old(data)) - {id}
                && deleted == old(deleted)
                     + (if owns then multiset{old(data)[Find(old(data), id)]} else multiset{})
      ensures forall k :: Lookup(k) == if k == id && iterationDepth == 0 then 0 else old(Lookup(k))
      ensures old(Valid()) ==> Valid()
    {
      var at := Find(data, id);
      if at == |data| {
        return;
      }
      if iterationDepth == 0 {
        ErasedKeys(data, at);
        ErasedEntries(data, at);
        ErasedValues(data, at);
        if owns {
          deleted := deleted + multiset{data[at]};
        }
        data := Erased(data, at);
      } else {
        removedIds := removedIds + {id};
      }
    }

    function Lookup(id: int): Pointer
      reads this
    {
      ValueOf(data, id)
    }

    predicate IsEmpty()
      reads this
    {
      Size() == 0
    }

    /** size() counts the keys that have not been removed, pending ones included. */
    lemma SizeCountsKept()
      requires Valid()
      ensures Size() == |KeysOf(data) - removedIds| && (IsEmpty() <==> KeysOf(data) <= removedIds)
    {
      KeysCount(data);
      var left := KeysOf(data) - removedIds;
      assert |left| == 0 <==> left == {};
      assert left == {} <==> KeysOf(data) <= removedIds;
    }

    /** Lookup finds the pointer of any entry, also while its removal is pending, and NULL
        for any other id. */
    lemma LookupFinds(id: int, value: Pointer)
      requires Valid()
      ensures Entry(id, value) in data ==> Lookup(id) == value
      ensures id !in KeysOf(data) ==> Lookup(id) == 0
      ensures id in removedIds ==> Entry(id, Lookup(id)) in data
    {
      ValueOfIs(data, id, value);
    }

    /** The body of the loop of Compact. */
    method CompactOne(id: int, ghost all: seq<Entry>, ghost gone: set<int>)
      requires Sound() && iterationDepth == 0 && DistinctKeys(all) && data == Without(all, gone)
      requires id in KeysOf(all) && id !in gone
      modifies `data, `removedIds, `deleted
      ensures Sound() && removedIds == old(removedIds) && data == Without(all, gone + {id})
    {
      ErasedWithout(all, gone, id);
      Remove(id);
    }

    method Compact()
      requires Sound() && iterationDepth == 0 && |live| == 0 && removedIds <= KeysOf(data)
      modifies `data, `removedIds, `deleted
      ensures Valid() && removedIds == {}
      ensures data == Without(old(data), old(removedIds))
      ensures forall k :: Lookup(k) == if k in old(removedIds) then 0 else old(Lookup(k))
    {
      WithoutValues(data, removedIds);
      WithoutNone(data);
      ghost var all, gone: set<int> := data, {};
      var todo := removedIds;
      while true
        invariant Sound() && removedIds == old(removedIds) && todo <= removedIds && gone <= removedIds
        invariant forall k :: k in removedIds <==> k in todo || k in gone
        invariant todo !! gone && data == Without(all, gone)
        decreases todo
      {
        if id :| id in todo {
          CompactOne(id, all, gone);
          todo := todo - {id};
          gone := gone + {id};
        } else {
          break;
        }
      }
      assert todo == {} && gone == removedIds;
      removedIds := {};
    }

    /** The destructor: in owning mode every pointer ever added has now been deleted
        exactly as often as it was added. */
    method Destroy()
      requires Valid()
      modifies `data, `deleted
      ensures owns ==> deleted == added && data == []
      ensures !owns ==> deleted == multiset{} && data == old(data)
    {
      if owns {
        var i := 0;
        while i < |data|
          invariant 0 <= i <= |data| && data == old(data)
          invariant deleted == old(deleted) + multiset(data[..i])
        {
          assert data[..i+1] == data[..i] + [data[i]];
          deleted := deleted + multiset{data[i]};
          i := i + 1;
        }
        assert data[..i] == data;
        data := [];
      }
    }
  }

  class Iterator {
    const owner: IDMap
    var cursor: nat
    ghost const order: seq<Entry>
    ghost var removed: seq<set<int>>
    ghost var stops: seq<nat>

    /** Nothing has been added to the map since this iterator was made. */
    ghost predicate Valid()
      reads this, owner
    {
      && owner.Valid() && this in owner.live && owner.data == order
      && IsTrail(order, removed, stops) && cursor == stops[|stops|-1]
      && removed[|removed|-1] <= owner.removedIds
    }

    constructor (owner: IDMap)
      requires owner.Valid()
      modifies owner`iterationDepth, owner`live
      ensures Valid() && this.owner == owner && order == owner.data
      ensures owner.live == old(owner.live) + {this} && fresh(this)
      ensures |stops| == 1 && removed == [owner.removedIds]
    {
      this.owner := owner;
      order := owner.data;
      var stop := SkipRemovedEntries(owner, 0);
      cursor := stop;
      removed := [owner.removedIds];
      stops := [stop];
      new;
      assert this !in owner.live;
      owner.iterationDepth := owner.iterationDepth + 1;
      owner.live := owner.live + {this};
    }

    static method SkipRemovedEntries(owner: IDMap, start: nat) returns (stop: nat)
      requires start <= |owner.data|
      ensures stop == NextStop(owner.data, owner.removedIds, start)
    {
      stop := start;
      while stop < |owner.data| && owner.data[stop].key in owner.removedIds
        invariant start <= stop <= |owner.data|
        invariant NextStop(owner.data, owner.removedIds, start) == NextStop(owner.data, owner.removedIds, stop)
      {
        stop := stop + 1;
      }
    }

    predicate IsAtEnd()
      reads this, owner
    {
      cursor >= |owner.data|
    }

    function GetCurrentKey(): int
      requires !IsAtEnd()
      reads this, owner
    {
      owner.data[cursor].key
    }

    function GetCurrentValue(): Pointer
      requires !IsAtEnd()
      reads this, owner
    {
      owner.data[cursor].value
    }

    method Advance()
      requires Valid() && !IsAtEnd()
      modifies this
      ensures Valid()
      ensures stops == old(stops) + [cursor] && removed == old(removed) + [owner.removedIds]
    {
      TrailExtends(order, removed, stops, owner.removedIds);
      cursor := SkipRemovedEntries(owner, cursor + 1);
      stops := stops + [cursor];
      removed := removed + [owner.removedIds];
    }

    /** The destructor.  Only the last iterator to go compacts the map. */
    method Destroy()
      requires Valid()
      modifies owner
      ensures owner.Valid() && owner.live == old(owner.live) - {this}
      ensures owner.iterationDepth == old(owner.iterationDepth) - 1
      ensures owner.added == old(owner.added) && owner.nextId == old(owner.nextId)
      ensures owner.iterationDepth > 0 ==> owner.data == old(owner.data) && owner.removedIds == old(owner.removedIds)
      ensures owner.iterationDepth == 0 ==>
                owner.removedIds == {} && owner.data == Without(old(owner.data), old(owner.removedIds))
      ensures KeysOf(owner.data) - owner.removedIds == KeysOf(old(owner.data)) - old(owner.removedIds)
    {
      owner.live := owner.live - {this};
      owner.iterationDepth := owner.iterationDepth - 1;
      if owner.iterationDepth == 0 {
        WithoutKeys(owner.data, owner.removedIds);
        owner.Compact();
      }
    }
  }

  /** A removal while iterators are live touches no entry and leaves each of them
      valid, and so does the end of a nested iterator. */
  method RemoveUnderIterators(outer: Iterator, inner: Iterator, id: int)
    requires outer.Valid() && inner.Valid() && outer.owner == inner.owner && outer != inner
    modifies outer.owner
    ensures outer.Valid() && outer.owner.data == old(outer.owner.data)
    ensures id in KeysOf(outer.order) ==> id in outer.owner.removedIds
    ensures old(outer.owner.removedIds) <= outer.owner.removedIds
  {
    ghost var live := outer.owner.live;
    assert outer in live - {inner};
    outer.owner.Remove(id);
    assert outer.Valid() && inner.Valid();
    inner.Destroy();
  }

  /** The entries at all stops but the last. */
  function EntriesAt(order: seq<Entry>, stops: seq<nat>): seq<Entry>
    requires |stops| > 0 && forall t :: 0 <= t < |stops| - 1 ==> stops[t] < |order|
  {
    seq(|stops| - 1, t requires 0 <= t < |stops| - 1 => order[stops[t]])
  }

  ghost predicate HaveCollected(order: seq<Entry>, stops: seq<nat>, entries: seq<Entry>) {
    && |stops| > 0 && (forall t :: 0 <= t < |stops| - 1 ==> stops[t] < |order|)
    && entries == EntriesAt(order, stops)
  }

  method CollectEntry(it: Iterator, entries: seq<Entry>) returns (more: seq<Entry>)
    requires it.Valid() && !it.IsAtEnd() && HaveCollected(it.order, it.stops, entries)
    modifies it
    ensures it.Valid() && it.removed[0] == old(it.removed)[0] && HaveCollected(it.order, it.stops, more)
    ensures old(it.cursor) < it.cursor <= |it.owner.data|
  {
    more := entries + [Entry(it.GetCurrentKey(), it.GetCurrentValue())];
    it.Advance();
    assert StopFollows(it.order, it.removed, it.stops, |it.stops| - 1);
  }

  lemma FullTrail(order: seq<Entry>, removed: seq<set<int>>, stops: seq<nat>, gone: set<int>)
    requires DistinctKeys(order) && IsTrail(order, removed, stops) && stops[|stops|-1] == |order|
    requires removed[0] == gone == removed[|removed|-1]
    requires forall t :: 0 <= t < |stops| - 1 ==> stops[t] < |order|
    ensures forall e :: e in EntriesAt(order, stops) <==> e in order && e.key !in gone
    ensures DistinctKeys(EntriesAt(order, stops))
  {
    var entries := EntriesAt(order, stops);
    forall e | e in entries
      ensures e in order && e.key !in gone
    {
      var t :| 0 <= t < |entries| && entries[t] == e;
      RemovedKeysNotReturned(order, removed, stops, 0, t);
    }
    forall e | e in order && e.key !in gone
      ensures e in entries
    {
      var p :| 0 <= p < |order| && order[p] == e;
      KeptKeysReturned(order, removed, stops, p);
      var t :| 0 <= t < |stops| && stops[t] == p;
      assert entries[t] == e;
    }
    forall i, j | 0 <= i < j < |entries|
      ensures entries[i].key != entries[j].key
    {
      KeysReturnedOnce(order, removed, stops, i, j);
    }
  }

  /** A whole traversal without removals returns the entries that are not removed, keys
      with their pointers, each once, even inside other iterations. */
  method Traverse(owner: IDMap) returns (entries: seq<Entry>)
    requires owner.Valid()
    modifies owner
    ensures owner.Valid() && owner.live == old(owner.live)
    ensures forall e :: e in entries <==> e in old(owner.data) && e.key !in old(owner.removedIds)
    ensures DistinctKeys(entries)
  {
    var it := new Iterator(owner);
    entries := [];
    while !it.IsAtEnd()
      invariant it.Valid() && fresh(it) && it.owner == owner && owner.data == old(owner.data)
      invariant owner.removedIds == old(owner.removedIds) && owner.live == old(owner.live) + {it}
      invariant it.removed[0] == owner.removedIds && HaveCollected(it.order, it.stops, entries)
      decreases |owner.data| - it.cursor
    {
      entries := CollectEntry(it, entries);
    }
    FullTrail(it.order, it.removed, it.stops, owner.removedIds);
    it.Destroy();
  }
}
