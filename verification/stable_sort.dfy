/** `OrderBy(entry => entry.Value)` over dictionary entries: LINQ's `OrderBy`
    is a stable sort, so entries with equal values keep their order. */
module StableSort {
  import opened Seqs
  import opened Dictionaries

  predicate SortedByValue<K>(s: seq<Entry<K, int>>) {
    forall i, j :: 0 <= i < j < |s| ==> s[i].value <= s[j].value
  }

  /** The entries of `s` whose value is `v`, in their order. */
  function WithValue<K>(s: seq<Entry<K, int>>, v: int): seq<Entry<K, int>> {
    if s == [] then [] else (if s[0].value == v then [s[0]] else []) + WithValue(s[1..], v)
  }

  /** Inserts `x` after the leading entries whose value is at most its own. */
  function Insert<K>(x: Entry<K, int>, s: seq<Entry<K, int>>): (r: seq<Entry<K, int>>)
    ensures |r| == |s| + 1
  {
    if s == [] then [x]
    else if x.value < s[0].value then [x] + s
    else [s[0]] + Insert(x, s[1..])
  }

  /** `OrderBy(entry => entry.Value)`: each entry is inserted in turn, so an
      entry goes after the earlier ones with the same value. */
  function SortByValue<K>(s: seq<Entry<K, int>>): (r: seq<Entry<K, int>>)
    ensures |r| == |s|
  {
    if s == [] then [] else Insert(s[|s| - 1], SortByValue(s[..|s| - 1]))
  }

  lemma {:induction false} InsertSorted<K>(x: Entry<K, int>, s: seq<Entry<K, int>>)
    requires SortedByValue(s)
    ensures SortedByValue(Insert(x, s))
    ensures forall i :: 0 <= i < |Insert(x, s)| ==> Insert(x, s)[i] == x || Insert(x, s)[i] in s
  {
    if s != [] && x.value >= s[0].value {
      var t := Insert(x, s[1..]);
      InsertSorted(x, s[1..]);
      assert forall i :: 0 <= i < |t| ==> t[i].value >= s[0].value;
      assert Insert(x, s) == [s[0]] + t;
    }
  }

  lemma {:induction false} InsertPermutes<K>(x: Entry<K, int>, s: seq<Entry<K, int>>)
    ensures multiset(Insert(x, s)) == multiset(s) + multiset{x}
  {
    if s != [] && x.value >= s[0].value {
      InsertPermutes(x, s[1..]);
      assert s == [s[0]] + s[1..];
      assert Insert(x, s) == [s[0]] + Insert(x, s[1..]);
    }
  }

  lemma {:induction false} InsertKeys<K>(x: Entry<K, int>, s: seq<Entry<K, int>>)
    ensures multiset(KeysOf(Insert(x, s))) == multiset(KeysOf(s)) + multiset{x.key}
  {
    if s == [] {
      assert KeysOf([x]) == [x.key];
    } else if x.value < s[0].value {
      KeysOfAppend([x], s);
      assert KeysOf([x]) == [x.key];
    } else {
      assert s == [s[0]] + s[1..];
      assert KeysOf([s[0]]) == [s[0].key];
      KeysOfAppend([s[0]], s[1..]);
      var t := Insert(x, s[1..]);
      assert Insert(x, s) == [s[0]] + t;
      KeysOfAppend([s[0]], t);
      InsertKeys(x, s[1..]);
    }
  }

  /** The sort yields a sorted sequence. */
  lemma {:induction false} SortSorted<K>(s: seq<Entry<K, int>>)
    ensures SortedByValue(SortByValue(s))
  {
    if s != [] {
      SortSorted(s[..|s| - 1]);
      InsertSorted(s[|s| - 1], SortByValue(s[..|s| - 1]));
    }
  }

  /** The sort rearranges `s`: the same entries with the same multiplicities. */
  lemma {:induction false} SortPermutes<K>(s: seq<Entry<K, int>>)
    ensures multiset(SortByValue(s)) == multiset(s)
  {
    if s != [] {
      var init, last := s[..|s| - 1], s[|s| - 1];
      SortPermutes(init);
      InsertPermutes(last, SortByValue(init));
      assert s == init + [last];
      assert multiset(s) == multiset(init) + multiset{last};
    }
  }

  /** The sort keeps the multiset of keys. */
  lemma {:induction false} SortKeys<K>(s: seq<Entry<K, int>>)
    ensures multiset(KeysOf(SortByValue(s))) == multiset(KeysOf(s))
  {
    if s != [] {
      var init, last := s[..|s| - 1], s[|s| - 1];
      assert s == init + [last];
      KeysOfAppend(init, [last]);
      assert KeysOf(s) == KeysOf(init) + [last.key];
      var sorted := SortByValue(init);
      assert SortByValue(s) == Insert(last, sorted);
      InsertKeys(last, sorted);
      SortKeys(init);
    }
  }

  /** Sorting keeps the dictionary's keys distinct. */
  lemma {:induction false} SortKeepsKeysDistinct<K>(s: seq<Entry<K, int>>)
    requires NoDup(KeysOf(s))
    ensures NoDup(KeysOf(SortByValue(s)))
  {
    SortKeys(s);
    NoDupPermutation(KeysOf(s), KeysOf(SortByValue(s)));
  }

  lemma {:induction false} WithValueAppend<K>(a: seq<Entry<K, int>>, b: seq<Entry<K, int>>, v: int)
    ensures WithValue(a + b, v) == WithValue(a, v) + WithValue(b, v)
  {
    if a == [] {
      assert a + b == b;
    } else {
      assert (a + b)[1..] == a[1..] + b;
      WithValueAppend(a[1..], b, v);
    }
  }

  lemma {:induction false} WithValueNone<K>(s: seq<Entry<K, int>>, v: int)
    requires forall i :: 0 <= i < |s| ==> s[i].value > v
    ensures WithValue(s, v) == []
  {
    if s != [] {
      WithValueNone(s[1..], v);
    }
  }

  lemma {:induction false} InsertStable<K>(x: Entry<K, int>, s: seq<Entry<K, int>>, v: int)
    requires SortedByValue(s)
    ensures WithValue(Insert(x, s), v) == WithValue(s, v) + (if x.value == v then [x] else [])
  {
    if s == [] {
    } else if x.value < s[0].value {
      assert ([x] + s)[1..] == s;
      if x.value == v {
        WithValueNone(s, v);
      }
    } else {
      InsertStable(x, s[1..], v);
      assert ([s[0]] + Insert(x, s[1..]))[1..] == Insert(x, s[1..]);
    }
  }

  /** Stability: among entries with any one value, the sorted sequence keeps
      the original order. Together with sortedness and being a rearrangement,
      this pins the result down completely. */
  lemma {:induction false} SortStable<K>(s: seq<Entry<K, int>>, v: int)
    ensures WithValue(SortByValue(s), v) == WithValue(s, v)
  {
    if s != [] {
      var init := s[..|s| - 1];
      var last := s[|s| - 1];
      SortStable(init, v);
      SortSorted(init);
      InsertStable(last, SortByValue(init), v);
      assert s == init + [last];
      WithValueAppend(init, [last], v);
    }
  }
}
