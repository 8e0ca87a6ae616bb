/** `Dictionary<TKey, TValue>` as far as the searches depend on it: the order
    in which it enumerates its entries. The runtime keeps entries in an array
    of slots and enumerates the occupied ones by index. `Remove` empties a
    slot and pushes it on a free list; `Add` fills the most recently freed
    slot before it appends a new one. That order decides ties in
    `FirstOrDefault` and in the stable `OrderBy` of the greedy and A*
    searches. */
module Dictionaries {
  import opened Wrappers
  import opened Seqs

  datatype Entry<K, V> = Entry(key: K, value: V)

  datatype Dict<K, V> = Dict(slots: seq<Option<Entry<K, V>>>, freeList: seq<nat>)

  /** What a slot contributes to enumeration. */
  function Occupant<K, V>(x: Option<Entry<K, V>>): seq<Entry<K, V>> {
    if x.Some? then [x.value] else []
  }

  /** The entries in enumeration order: the occupied slots, by index. */
  function Items<K, V>(slots: seq<Option<Entry<K, V>>>): (r: seq<Entry<K, V>>)
    ensures |r| <= |slots|
  {
    if slots == [] then [] else Occupant(slots[0]) + Items(slots[1..])
  }

  function KeysOf<K, V>(items: seq<Entry<K, V>>): (r: seq<K>)
    ensures |r| == |items|
    ensures forall i :: 0 <= i < |items| ==> r[i] == items[i].key
  {
    if items == [] then [] else [items[0].key] + KeysOf(items[1..])
  }

  lemma {:induction false} KeysOfAppend<K, V>(a: seq<Entry<K, V>>, b: seq<Entry<K, V>>)
    ensures KeysOf(a + b) == KeysOf(a) + KeysOf(b)
  {
    assert KeysOf(a + b) == KeysOf(a) + KeysOf(b) by {
      var l, r := KeysOf(a + b), KeysOf(a) + KeysOf(b);
      assert forall i :: 0 <= i < |l| ==> l[i] == r[i] by {
        forall i | 0 <= i < |l| ensures l[i] == r[i] {
          if i < |a| { assert (a + b)[i] == a[i]; } else { assert (a + b)[i] == b[i - |a|]; }
        }
      }
    }
  }

  /** The keys in enumeration order (`dictionary.Keys`). */
  function Keys<K, V>(d: Dict<K, V>): seq<K> {
    KeysOf(Items(d.slots))
  }

  /** `Count`. */
  function Size<K, V>(d: Dict<K, V>): nat {
    |Items(d.slots)|
  }

  /** Free slots are empty, in range and listed once. */
  ghost predicate FreeOk<K, V>(d: Dict<K, V>) {
    && NoDup(d.freeList)
    && (forall n :: 0 <= n < |d.freeList| ==> d.freeList[n] < |d.slots| && d.slots[d.freeList[n]] == None)
  }

  /** No key occupies two slots. */
  ghost predicate UniqueKeys<K, V>(d: Dict<K, V>) {
    forall i, j :: 0 <= i < |d.slots| && 0 <= j < |d.slots| && i != j && d.slots[i].Some? && d.slots[j].Some?
      ==> d.slots[i].value.key != d.slots[j].value.key
  }

  ghost predicate Valid<K, V>(d: Dict<K, V>) {
    FreeOk(d) && UniqueKeys(d)
  }

  /** Index of the slot holding key `k`, if any. */
  function SlotOf<K(==), V>(slots: seq<Option<Entry<K, V>>>, k: K): (r: Option<nat>)
    ensures r.Some? ==> r.value < |slots| && slots[r.value].Some? && slots[r.value].value.key == k
    ensures r.None? ==> forall i :: 0 <= i < |slots| && slots[i].Some? ==> slots[i].value.key != k
  {
    if slots == [] then None
    else if slots[0].Some? && slots[0].value.key == k then Some(0)
    else
      var r := SlotOf(slots[1..], k);
      if r.Some? then Some(r.value + 1) else None
  }

  /** `ContainsKey`. */
  predicate ContainsKey<K(==), V>(d: Dict<K, V>, k: K) {
    SlotOf(d.slots, k).Some?
  }

  /** A dictionary that never had an entry removed: every slot occupied. */
  ghost predicate Compact<K, V>(d: Dict<K, V>) {
    d.freeList == [] && forall i :: 0 <= i < |d.slots| ==> d.slots[i].Some?
  }

  function Occupied<K, V>(items: seq<Entry<K, V>>): (r: seq<Option<Entry<K, V>>>)
    ensures |r| == |items|
    ensures forall i :: 0 <= i < |items| ==> r[i] == Some(items[i])
  {
    if items == [] then [] else [Some(items[0])] + Occupied(items[1..])
  }

  /** `ToDictionary` (and a collection initializer): a fresh dictionary
      holding `items` in their order. Duplicate keys throw in the source. */
  function FromItems<K, V>(items: seq<Entry<K, V>>): (r: Dict<K, V>)
    requires NoDup(KeysOf(items))
    ensures Valid(r) && Compact(r)
    ensures Items(r.slots) == items
  {
    ItemsOccupied(items);
    var r := Dict(Occupied(items), []);
    assert forall i :: 0 <= i < |items| ==> KeysOf(items)[i] == r.slots[i].value.key;
    r
  }

  /** `Add`: fills the most recently freed slot, or appends a slot when none
      is free. The key must be absent: the source's `Add` throws otherwise. */
  function Add<K(==,!new), V>(d: Dict<K, V>, k: K, v: V): (r: Dict<K, V>)
    requires FreeOk(d) && !ContainsKey(d, k)
    ensures FreeOk(r)
    ensures UniqueKeys(d) ==> UniqueKeys(r)
    ensures forall x :: ContainsKey(r, x) <==> ContainsKey(d, x) || x == k
    ensures d.freeList == [] ==> r.slots == d.slots + [Some(Entry(k, v))] && r.freeList == []
    ensures d.freeList != [] ==> r.slots == d.slots[d.freeList[0] := Some(Entry(k, v))] && r.freeList == d.freeList[1..]
  {
    var j := if d.freeList == [] then |d.slots| else d.freeList[0];
    var r := if d.freeList == [] then Dict(d.slots + [Some(Entry(k, v))], [])
             else Dict(d.slots[j := Some(Entry(k, v))], d.freeList[1..]);
    assert r.slots[j] == Some(Entry(k, v));
    assert forall i :: 0 <= i < |r.slots| && i != j ==> i < |d.slots| && r.slots[i] == d.slots[i];
    assert forall n :: 0 <= n < |r.freeList| ==> r.freeList[n] == d.freeList[n + 1] != j;
    forall x ensures ContainsKey(r, x) <==> ContainsKey(d, x) || x == k {
      if ContainsKey(d, x) {
        assert r.slots[SlotOf(d.slots, x).value] == d.slots[SlotOf(d.slots, x).value];
      }
      if x == k {
        assert r.slots[j].value.key == x;
      }
    }
    r
  }

  /** `Remove`: empties the slot of `k` and pushes it on the free list; a
      missing key leaves the dictionary as it is. */
  function Remove<K(==,!new), V>(d: Dict<K, V>, k: K): (r: Dict<K, V>)
    requires Valid(d)
    ensures Valid(r)
    ensures forall x :: ContainsKey(r, x) <==> ContainsKey(d, x) && x != k
    ensures !ContainsKey(d, k) ==> r == d
    ensures ContainsKey(d, k) ==>
              var i := SlotOf(d.slots, k).value;
              r.slots == d.slots[i := None] && r.freeList == [i] + d.freeList
  {
    match SlotOf(d.slots, k)
    case None => d
    case Some(i) =>
      var r := Dict(d.slots[i := None], [i] + d.freeList);
      assert i !in d.freeList;
      NoDupAppend([i], d.freeList);
      assert forall n :: 0 < n < |r.freeList| ==> r.freeList[n] == d.freeList[n - 1];
      forall x ensures ContainsKey(r, x) <==> ContainsKey(d, x) && x != k {
        if ContainsKey(d, x) && x != k {
          assert r.slots[SlotOf(d.slots, x).value] == d.slots[SlotOf(d.slots, x).value];
        }
        if ContainsKey(r, x) {
          assert d.slots[SlotOf(r.slots, x).value] == r.slots[SlotOf(r.slots, x).value];
        }
      }
      r
  }

  /** The value stored under `k` (the indexer's getter). */
  function Get<K(==), V>(d: Dict<K, V>, k: K): (v: V)
    requires ContainsKey(d, k)
    ensures Entry(k, v) in Items(d.slots)
  {
    var i := SlotOf(d.slots, k).value;
    ItemsAround(d.slots, i);
    d.slots[i].value.value
  }

  /** `ContainsKey` finds exactly the keys the dictionary enumerates. */
  lemma {:induction false} ContainsKeyEnumerated<K, V>(d: Dict<K, V>, k: K)
    ensures ContainsKey(d, k) <==> k in Keys(d)
  {
    if ContainsKey(d, k) {
      var e := Entry(k, Get(d, k));
      var j :| 0 <= j < |Items(d.slots)| && Items(d.slots)[j] == e;
      assert Keys(d)[j] == k;
    } else if k in Keys(d) {
      var j :| 0 <= j < |Keys(d)| && Keys(d)[j] == k;
      ItemsKeyed(d, Items(d.slots)[j]);
    }
  }

  /** The indexer's setter: overwrites in place, or adds when `k` is absent. */
  function Set<K(==,!new), V>(d: Dict<K, V>, k: K, v: V): (r: Dict<K, V>)
    requires Valid(d)
    ensures Valid(r)
    ensures forall x :: ContainsKey(r, x) <==> ContainsKey(d, x) || x == k
    ensures !ContainsKey(d, k) ==> r == Add(d, k, v)
    ensures ContainsKey(d, k) ==> r.slots == d.slots[SlotOf(d.slots, k).value := Some(Entry(k, v))] && r.freeList == d.freeList
  {
    match SlotOf(d.slots, k)
    case None => Add(d, k, v)
    case Some(i) =>
      var r := Dict(d.slots[i := Some(Entry(k, v))], d.freeList);
      assert forall n :: 0 <= n < |d.freeList| ==> d.freeList[n] != i;
      forall x ensures ContainsKey(r, x) <==> ContainsKey(d, x) {
        if ContainsKey(d, x) {
          assert r.slots[SlotOf(d.slots, x).value].value.key == x;
        }
        if ContainsKey(r, x) {
          assert d.slots[SlotOf(r.slots, x).value].value.key == x;
        }
      }
      r
  }

  /** Adding each entry of `es` in turn (`foreach … Add`). */
  function AddAll<K(==,!new), V>(d: Dict<K, V>, es: seq<Entry<K, V>>): (r: Dict<K, V>)
    requires FreeOk(d)
    requires NoDup(KeysOf(es)) && forall k :: k in KeysOf(es) ==> !ContainsKey(d, k)
    ensures FreeOk(r)
    ensures UniqueKeys(d) ==> UniqueKeys(r)
    decreases |es|
  {
    if es == [] then d
    else
      AddAllStep(d, es);
      AddAll(Add(d, es[0].key, es[0].value), es[1..])
  }

  /** `AddAll` adds its first entry, then the rest. */
  lemma {:induction false} AddAllCons<K(!new), V>(d: Dict<K, V>, e: Entry<K, V>, es: seq<Entry<K, V>>)
    requires FreeOk(d)
    requires NoDup(KeysOf([e] + es)) && forall k :: k in KeysOf([e] + es) ==> !ContainsKey(d, k)
    ensures !ContainsKey(d, e.key)
    ensures NoDup(KeysOf(es)) && forall k :: k in KeysOf(es) ==> !ContainsKey(Add(d, e.key, e.value), k)
    ensures AddAll(d, [e] + es) == AddAll(Add(d, e.key, e.value), es)
  {
    AddAllStep(d, [e] + es);
    assert ([e] + es)[1..] == es;
  }

  /** `AddAll` adds exactly the keys of `es`. */
  lemma {:induction false} AddAllKeys<K(!new), V>(d: Dict<K, V>, es: seq<Entry<K, V>>)
    requires FreeOk(d)
    requires NoDup(KeysOf(es)) && forall k :: k in KeysOf(es) ==> !ContainsKey(d, k)
    ensures forall x :: ContainsKey(AddAll(d, es), x) <==> ContainsKey(d, x) || x in KeysOf(es)
    decreases |es|
  {
    if es != [] {
      AddAllStep(d, es);
      var d' := Add(d, es[0].key, es[0].value);
      AddAllKeys(d', es[1..]);
      forall x ensures ContainsKey(AddAll(d, es), x) <==> ContainsKey(d, x) || x in KeysOf(es) {
        assert ContainsKey(AddAll(d, es), x) <==> ContainsKey(d', x) || x in KeysOf(es[1..]);
        assert ContainsKey(d', x) <==> ContainsKey(d, x) || x == es[0].key;
      }
    }
  }

  /** Into a dictionary with no free slot, `AddAll` appends in order. */
  lemma {:induction false} AddAllAppends<K(!new), V>(d: Dict<K, V>, es: seq<Entry<K, V>>)
    requires FreeOk(d) && d.freeList == []
    requires NoDup(KeysOf(es)) && forall k :: k in KeysOf(es) ==> !ContainsKey(d, k)
    ensures AddAll(d, es).slots == d.slots + Occupied(es) && AddAll(d, es).freeList == []
    decreases |es|
  {
    if es == [] {
      assert d.slots + Occupied(es) == d.slots;
    } else {
      var d' := Add(d, es[0].key, es[0].value);
      assert AddAll(d, es) == AddAll(d', es[1..]);
      assert d'.slots == d.slots + [Some(es[0])] && d'.freeList == [];
      assert NoDup(KeysOf(es[1..])) && forall k :: k in KeysOf(es[1..]) ==> !ContainsKey(d', k) by {
        AddAllStep(d, es);
      }
      AddAllAppends(d', es[1..]);
      OccupiedCons(d.slots, es);
    }
  }

  lemma {:induction false} OccupiedCons<K, V>(s: seq<Option<Entry<K, V>>>, es: seq<Entry<K, V>>)
    requires es != []
    ensures (s + [Some(es[0])]) + Occupied(es[1..]) == s + Occupied(es)
  {
    assert Occupied(es) == [Some(es[0])] + Occupied(es[1..]);
  }

  lemma {:induction false} AddAllStep<K(!new), V>(d: Dict<K, V>, es: seq<Entry<K, V>>)
    requires FreeOk(d) && es != []
    requires NoDup(KeysOf(es)) && forall k :: k in KeysOf(es) ==> !ContainsKey(d, k)
    ensures KeysOf(es) == [es[0].key] + KeysOf(es[1..])
    ensures NoDup(KeysOf(es[1..]))
    ensures forall k :: k in KeysOf(es[1..]) ==> !ContainsKey(Add(d, es[0].key, es[0].value), k)
  {
    assert KeysOf(es) == [es[0].key] + KeysOf(es[1..]);
    forall k | k in KeysOf(es[1..]) ensures k != es[0].key {
      var i :| 0 <= i < |KeysOf(es[1..])| && KeysOf(es[1..])[i] == k;
      assert KeysOf(es)[i + 1] == k && KeysOf(es)[0] == es[0].key;
    }
    assert forall i :: 0 <= i < |KeysOf(es[1..])| ==> KeysOf(es[1..])[i] == KeysOf(es)[i + 1];
  }

  // ---------------------------------------------------------------------
  // Enumeration

  lemma {:induction false} ItemsAppend<K, V>(a: seq<Option<Entry<K, V>>>, b: seq<Option<Entry<K, V>>>)
    ensures Items(a + b) == Items(a) + Items(b)
  {
    if a == [] {
      assert a + b == b;
    } else {
      assert (a + b)[1..] == a[1..] + b;
      ItemsAppend(a[1..], b);
    }
  }

  lemma {:induction false} ItemsOccupied<K, V>(items: seq<Entry<K, V>>)
    ensures Items(Occupied(items)) == items
  {
    if items != [] {
      assert Occupied(items)[1..] == Occupied(items[1..]);
      ItemsOccupied(items[1..]);
    }
  }

  /** Every enumerated entry sits in some slot. */
  lemma {:induction false} ItemsInSlots<K, V>(s: seq<Option<Entry<K, V>>>, e: Entry<K, V>)
    requires e in Items(s)
    ensures Some(e) in s
  {
    if s[0] != Some(e) {
      ItemsInSlots(s[1..], e);
    }
  }

  /** Enumeration visits each occupied slot, in slot order. */
  lemma {:induction false} ItemsAround<K, V>(s: seq<Option<Entry<K, V>>>, i: nat)
    requires i < |s|
    ensures Items(s) == Items(s[..i]) + Occupant(s[i]) + Items(s[i + 1..])
  {
    assert s == s[..i] + s[i..];
    ItemsAppend(s[..i], s[i..]);
    assert s[i..][0] == s[i] && s[i..][1..] == s[i + 1..];
  }

  /** Each enumerated entry's key is found by `ContainsKey`. */
  lemma {:induction false} ItemsKeyed<K, V>(d: Dict<K, V>, e: Entry<K, V>)
    requires e in Items(d.slots)
    ensures ContainsKey(d, e.key)
  {
    ItemsInSlots(d.slots, e);
    var j :| 0 <= j < |d.slots| && d.slots[j] == Some(e);
  }

  /** A dictionary that holds a key enumerates something. */
  lemma {:induction false} ItemsNonEmpty<K, V>(d: Dict<K, V>, k: K)
    requires ContainsKey(d, k)
    ensures |Items(d.slots)| > 0
  {
    ItemsAround(d.slots, SlotOf(d.slots, k).value);
  }

  /** `Remove` enumerates no entry that was not there before. */
  lemma {:induction false} RemoveItems<K(!new), V>(d: Dict<K, V>, k: K)
    requires Valid(d)
    ensures forall e :: e in Items(Remove(d, k).slots) ==> e in Items(d.slots)
  {
    if ContainsKey(d, k) {
      RemoveOrder(d, k);
    }
  }

  /** `Add` enumerates the old entries and the new one, nothing else. */
  lemma {:induction false} AddItems<K(!new), V>(d: Dict<K, V>, k: K, v: V)
    requires FreeOk(d) && !ContainsKey(d, k)
    ensures forall e :: e in Items(Add(d, k, v).slots) ==> e in Items(d.slots) || e == Entry(k, v)
  {
    AddOrder(d, k, v);
  }

  lemma {:induction false} AddAllItems<K(!new), V>(d: Dict<K, V>, es: seq<Entry<K, V>>)
    requires FreeOk(d)
    requires NoDup(KeysOf(es)) && forall k :: k in KeysOf(es) ==> !ContainsKey(d, k)
    ensures forall e :: e in Items(AddAll(d, es).slots) ==> e in Items(d.slots) || e in es
    decreases |es|
  {
    if es != [] {
      AddAllStep(d, es);
      var d' := Add(d, es[0].key, es[0].value);
      AddItems(d, es[0].key, es[0].value);
      AddAllItems(d', es[1..]);
    }
  }

  /** `Add` appends when no slot is free; otherwise the new entry is
      enumerated where the most recently removed one was. */
  lemma {:induction false} AddOrder<K(!new), V>(d: Dict<K, V>, k: K, v: V)
    requires FreeOk(d) && !ContainsKey(d, k)
    ensures d.freeList == [] ==> Items(Add(d, k, v).slots) == Items(d.slots) + [Entry(k, v)]
    ensures d.freeList != [] ==>
              var j := d.freeList[0];
              && Items(d.slots) == Items(d.slots[..j]) + Items(d.slots[j + 1..])
              && Items(Add(d, k, v).slots) == Items(d.slots[..j]) + [Entry(k, v)] + Items(d.slots[j + 1..])
  {
    if d.freeList == [] {
      ItemsAppend(d.slots, [Some(Entry(k, v))]);
    } else {
      ItemsUpdate(d.slots, d.freeList[0], Some(Entry(k, v)));
    }
  }

  /** Writing slot `i` changes only that slot's place in the enumeration. */
  lemma {:induction false} ItemsUpdate<K, V>(s: seq<Option<Entry<K, V>>>, i: nat, x: Option<Entry<K, V>>)
    requires i < |s|
    ensures Items(s) == Items(s[..i]) + Occupant(s[i]) + Items(s[i + 1..])
    ensures Items(s[i := x]) == Items(s[..i]) + Occupant(x) + Items(s[i + 1..])
  {
    ItemsAround(s, i);
    ItemsAround(s[i := x], i);
    assert s[i := x][..i] == s[..i] && s[i := x][i + 1..] == s[i + 1..];
  }

  /** `Remove` takes its entry out of the enumeration and keeps the order of
      the rest. */
  lemma {:induction false} RemoveOrder<K(!new), V>(d: Dict<K, V>, k: K)
    requires Valid(d) && ContainsKey(d, k)
    ensures var i := SlotOf(d.slots, k).value;
            && Items(d.slots) == Items(d.slots[..i]) + [Entry(k, Get(d, k))] + Items(d.slots[i + 1..])
            && Items(Remove(d, k).slots) == Items(d.slots[..i]) + Items(d.slots[i + 1..])
  {
    ItemsUpdate(d.slots, SlotOf(d.slots, k).value, None);
  }

  /** The getter reads back what the setter stored. */
  lemma {:induction false} SetGet<K(!new), V>(d: Dict<K, V>, k: K, v: V)
    requires Valid(d)
    ensures Get(Set(d, k, v), k) == v
  {
    var r := Set(d, k, v);
    var i := if ContainsKey(d, k) then SlotOf(d.slots, k).value
             else if d.freeList == [] then |d.slots| else d.freeList[0];
    assert r.slots[i] == Some(Entry(k, v));
    var j := SlotOf(r.slots, k).value;
    assert r.slots[j].value.key == k;
  }

  /** The enumeration after the first slot was freed and `es` added: the
      first new entry is enumerated first, the others after `rest`. */
  function Refilled<K, V>(rest: seq<Entry<K, V>>, es: seq<Entry<K, V>>): (r: seq<Entry<K, V>>)
    ensures multiset(r) == multiset(rest) + multiset(es)
    ensures multiset(KeysOf(r)) == multiset(KeysOf(rest)) + multiset(KeysOf(es))
  {
    if es == [] then rest
    else
      assert es == [es[0]] + es[1..];
      KeysOfAppend([es[0]], es[1..]);
      KeysOfAppend([es[0]], rest);
      KeysOfAppend([es[0]] + rest, es[1..]);
      [es[0]] + rest + es[1..]
  }

  /** Removing the first key of a freshly built dictionary and then adding
      entries: the first one added takes the freed first slot, the rest are
      appended. */
  lemma {:induction false} RefillFirst<K(!new), V>(items: seq<Entry<K, V>>, es: seq<Entry<K, V>>)
    requires NoDup(KeysOf(items)) && |items| > 0
    requires NoDup(KeysOf(es)) && forall k :: k in KeysOf(es) ==> k !in KeysOf(items[1..])
    ensures var d := Remove(FromItems(items), items[0].key);
            && (forall k :: k in KeysOf(es) ==> !ContainsKey(d, k))
            && Items(AddAll(d, es).slots) == Refilled(items[1..], es)
  {
    var d0 := FromItems(items);
    var d := Remove(d0, items[0].key);
    assert SlotOf(d0.slots, items[0].key) == Some(0);
    assert d.slots == [None] + Occupied(items[1..]) by {
      assert d.slots == d0.slots[0 := None];
    }
    assert d.freeList == [0];
    forall k | k in KeysOf(es) ensures !ContainsKey(d, k) {
      forall i | 0 < i < |d.slots| ensures d.slots[i].value.key != k {
        assert d.slots[i].value.key == KeysOf(items[1..])[i - 1];
      }
    }
    if es == [] {
      ItemsAppend([None], Occupied(items[1..]));
      ItemsOccupied(items[1..]);
    } else {
      assert KeysOf(es) == [es[0].key] + KeysOf(es[1..]);
      var d1 := Add(d, es[0].key, es[0].value);
      assert d1.slots == [Some(es[0])] + Occupied(items[1..]) && d1.freeList == [];
      var r := AddAll(d1, es[1..]);
      assert r == AddAll(d, es);
      AddAllAppends(d1, es[1..]);
      assert r.slots == ([Some(es[0])] + Occupied(items[1..])) + Occupied(es[1..]);
      ItemsAppend([Some(es[0])] + Occupied(items[1..]), Occupied(es[1..]));
      ItemsAppend([Some(es[0])], Occupied(items[1..]));
      ItemsOccupied(items[1..]);
      ItemsOccupied(es[1..]);
    }
  }
}
