/** Python's insertion-ordered dict (and its subclass Counter) as a sequence
    of key/value entries. Assigning to a key that is already present keeps
    the key's original position; a new key goes to the end. */
module OrderedMaps {
  import opened Results

  predicate HasKey<K(==), V>(m: seq<(K, V)>, k: K) {
    exists i :: 0 <= i < |m| && m[i].0 == k
  }

  predicate DistinctKeys<K(==), V>(m: seq<(K, V)>) {
    forall i, j :: 0 <= i < j < |m| ==> m[i].0 != m[j].0
  }

  /** Position of key k, if present. */
  function Find<K(==), V>(m: seq<(K, V)>, k: K): (r: Option<nat>)
    ensures r.Some? ==> r.value < |m| && m[r.value].0 == k
    ensures r.Some? ==> forall j :: 0 <= j < r.value ==> m[j].0 != k
    ensures r.None? <==> !HasKey(m, k)
    decreases |m|
  {
    if |m| == 0 then None
    else if m[0].0 == k then Some(0)
    else match Find(m[1..], k)
      case None => None
      case Some(i) => Some(i + 1)
  }

  /** m[k] as Python reads it (None for a missing key). */
  function Get<K(==), V>(m: seq<(K, V)>, k: K): Option<V>
  {
    match Find(m, k)
    case None => None
    case Some(i) => Some(m[i].1)
  }

  /** m[k] = v */
  function Put<K(==), V>(m: seq<(K, V)>, k: K, v: V): (r: seq<(K, V)>)
    ensures HasKey(m, k) ==> |r| == |m|
    ensures !HasKey(m, k) ==> r == m + [(k, v)]
    ensures forall i :: 0 <= i < |m| ==> r[i].0 == m[i].0
    ensures forall i :: 0 <= i < |m| && m[i].0 != k ==> r[i] == m[i]
    ensures forall i :: 0 <= i < |r| ==> r[i] == (k, v) || r[i] in m
    ensures Get(r, k) == Some(v)
    ensures DistinctKeys(m) ==> DistinctKeys(r)
  {
    match Find(m, k)
    case Some(i) => m[i := (k, v)]
    case None =>
      var r := m + [(k, v)];
      assert r[|m|].0 == k;
      r
  }

  /** Entries put one after the other into m, as a dict comprehension or a
      sequence of assignments does. */
  function PutAll<K(==), V>(m: seq<(K, V)>, es: seq<(K, V)>): seq<(K, V)>
    decreases |es|
  {
    if |es| == 0 then m else PutAll(Put(m, es[0].0, es[0].1), es[1..])
  }

  /** Putting entries whose keys are all distinct and new appends them in
      order: an ordered dict rebuilt from its own items is the same dict. */
  lemma {:induction false} PutAllFresh<K, V>(m: seq<(K, V)>, es: seq<(K, V)>)
    requires DistinctKeys(m + es)
    ensures PutAll(m, es) == m + es
    decreases |es|
  {
    if |es| > 0 {
      var e := es[0];
      assert (m + es)[|m|] == e;
      assert !HasKey(m, e.0) by {
        forall i | 0 <= i < |m|
          ensures m[i].0 != e.0
        {
          assert (m + es)[i] == m[i];
        }
      }
      assert Put(m, e.0, e.1) == m + [e];
      assert m + [e] + es[1..] == m + es;
      PutAllFresh(m + [e], es[1..]);
    }
  }

  /** Putting one key leaves every other key's value alone. */
  lemma GetPutOther<K, V>(m: seq<(K, V)>, k: K, v: V, k': K)
    requires k' != k
    ensures Get(Put(m, k, v), k') == Get(m, k')
  {
    var r := Put(m, k, v);
    match Find(m, k')
    case Some(i) =>
      assert r[i] == m[i];
      var x := Find(r, k');
      assert x.Some?;
    case None =>
      assert !HasKey(r, k') by {
        forall i | 0 <= i < |r|
          ensures r[i].0 != k'
        {
          if i < |m| {
            assert r[i].0 == m[i].0;
          }
        }
      }
  }

  /** No later entry of es has the key of entry j. */
  predicate LastOfKey<K(==), V>(es: seq<(K, V)>, j: int)
    requires 0 <= j < |es|
  {
    forall l :: j < l < |es| ==> es[l].0 != es[j].0
  }

  /** Putting entries keeps the keys distinct. */
  lemma {:induction false} PutAllDistinct<K, V>(m: seq<(K, V)>, es: seq<(K, V)>)
    requires DistinctKeys(m)
    ensures DistinctKeys(PutAll(m, es))
    decreases |es|
  {
    if |es| > 0 {
      PutAllDistinct(Put(m, es[0].0, es[0].1), es[1..]);
    }
  }

  /** Every entry after the puts was there before or was put. */
  lemma {:induction false} PutAllFrom<K, V>(m: seq<(K, V)>, es: seq<(K, V)>)
    ensures forall i :: 0 <= i < |PutAll(m, es)| ==> PutAll(m, es)[i] in m || PutAll(m, es)[i] in es
    decreases |es|
  {
    if |es| > 0 {
      var m' := Put(m, es[0].0, es[0].1);
      var r := PutAll(m', es[1..]);
      PutAllFrom(m', es[1..]);
      forall i | 0 <= i < |r|
        ensures r[i] in m || r[i] in es
      {
        if r[i] in m' {
          assert r[i] == es[0] || r[i] in m;
        } else {
          assert r[i] in es[1..];
        }
      }
    }
  }

  /** A key holds the value of its last put. */
  lemma {:induction false} PutAllLast<K, V>(m: seq<(K, V)>, es: seq<(K, V)>, j: int)
    requires 0 <= j < |es| && LastOfKey(es, j)
    ensures Get(PutAll(m, es), es[j].0) == Some(es[j].1)
    decreases |es|
  {
    var m' := Put(m, es[0].0, es[0].1);
    if j > 0 {
      assert es[1..][j - 1] == es[j];
      assert LastOfKey(es[1..], j - 1) by {
        forall l | j - 1 < l < |es[1..]|
          ensures es[1..][l].0 != es[1..][j - 1].0
        {
          assert es[1..][l] == es[l + 1];
        }
      }
      PutAllLast(m', es[1..], j - 1);
    } else {
      assert !HasKey(es[1..], es[0].0) by {
        forall l | 0 <= l < |es[1..]|
          ensures es[1..][l].0 != es[0].0
        {
          assert es[1..][l] == es[l + 1];
        }
      }
      PutAllUntouched(m', es[1..], es[0].0);
    }
  }

  /** What a dict comprehension or a run of assignments leaves: keys stay
      distinct, every entry was there before or was put, and a key holds
      the value of its last put. */
  lemma PutAllFacts<K, V>(m: seq<(K, V)>, es: seq<(K, V)>)
    ensures DistinctKeys(m) ==> DistinctKeys(PutAll(m, es))
    ensures forall i :: 0 <= i < |PutAll(m, es)| ==> PutAll(m, es)[i] in m || PutAll(m, es)[i] in es
    ensures forall j :: 0 <= j < |es| && LastOfKey(es, j) ==> Get(PutAll(m, es), es[j].0) == Some(es[j].1)
  {
    if DistinctKeys(m) {
      PutAllDistinct(m, es);
    }
    PutAllFrom(m, es);
    forall j | 0 <= j < |es| && LastOfKey(es, j)
      ensures Get(PutAll(m, es), es[j].0) == Some(es[j].1)
    {
      PutAllLast(m, es, j);
    }
  }

  /** The last entry of es with the key of es[i]. */
  lemma LastWith<K, V>(es: seq<(K, V)>, i: nat) returns (j: nat)
    requires i < |es|
    ensures i <= j < |es| && es[j].0 == es[i].0
    ensures LastOfKey(es, j)
    decreases |es| - i
  {
    if exists l :: i < l < |es| && es[l].0 == es[i].0 {
      var l :| i < l < |es| && es[l].0 == es[i].0;
      j := LastWith(es, l);
    } else {
      j := i;
    }
  }

  /** In a map with distinct keys, every entry is what its key reads. */
  lemma GetEntry<K, V>(m: seq<(K, V)>, k: nat)
    requires DistinctKeys(m) && k < |m|
    ensures Find(m, m[k].0) == Some(k)
    ensures Get(m, m[k].0) == Some(m[k].1)
  {
    assert HasKey(m, m[k].0);
  }

  /** Every key put is present afterwards. */
  lemma PutAllHasKeys<K, V>(m: seq<(K, V)>, es: seq<(K, V)>)
    ensures forall i :: 0 <= i < |es| ==> HasKey(PutAll(m, es), es[i].0)
  {
    forall i | 0 <= i < |es|
      ensures HasKey(PutAll(m, es), es[i].0)
    {
      var j := LastWith(es, i);
      PutAllLast(m, es, j);
    }
  }

  /** An entry of a dict built from es alone is the last entry of es with
      its key. */
  lemma PutAllEntry<K, V>(es: seq<(K, V)>, k: nat) returns (j: nat)
    requires k < |PutAll([], es)|
    ensures j < |es| && LastOfKey(es, j) && PutAll([], es)[k] == es[j]
  {
    var m := PutAll([], es);
    PutAllFrom([], es);
    PutAllDistinct([], es);
    assert m[k] in es;
    var i :| 0 <= i < |es| && es[i] == m[k];
    j := LastWith(es, i);
    PutAllLast([], es, j);
    GetEntry(m, k);
  }

  /** A key none of the entries mentions keeps its value. */
  lemma {:induction false} PutAllUntouched<K, V>(m: seq<(K, V)>, es: seq<(K, V)>, k: K)
    requires !HasKey(es, k)
    ensures Get(PutAll(m, es), k) == Get(m, k)
    decreases |es|
  {
    if |es| > 0 {
      assert es[0].0 != k;
      GetPutOther(m, es[0].0, es[0].1, k);
      assert !HasKey(es[1..], k) by {
        forall l | 0 <= l < |es[1..]|
          ensures es[1..][l].0 != k
        {
          assert es[1..][l] == es[l + 1];
        }
      }
      PutAllUntouched(Put(m, es[0].0, es[0].1), es[1..], k);
    }
  }

  /** One more assignment at the end of a run of assignments. */
  lemma {:induction false} PutAllSnoc<K, V>(m: seq<(K, V)>, es: seq<(K, V)>, e: (K, V))
    ensures PutAll(m, es + [e]) == Put(PutAll(m, es), e.0, e.1)
    decreases |es|
  {
    if |es| == 0 {
      assert es + [e] == [e];
    } else {
      assert (es + [e])[1..] == es[1..] + [e];
      PutAllSnoc(Put(m, es[0].0, es[0].1), es[1..], e);
    }
  }

  /** set(d.values()) */
  function Values<K, V>(m: seq<(K, V)>): set<V>
  {
    set i | 0 <= i < |m| :: m[i].1
  }

  /** Assigning to a key a value it already has, or to a new key, adds that
      value to the values and removes none. */
  lemma PutValues<K, V>(m: seq<(K, V)>, k: K, v: V)
    requires forall i :: 0 <= i < |m| && m[i].0 == k ==> m[i].1 == v
    ensures Values(Put(m, k, v)) == Values(m) + {v}
  {
    var r := Put(m, k, v);
    forall x | x in Values(r)
      ensures x in Values(m) + {v}
    {
      var i :| 0 <= i < |r| && r[i].1 == x;
      if r[i] != (k, v) {
        assert r[i] in m;
        var j :| 0 <= j < |m| && m[j] == r[i];
      }
    }
    forall x | x in Values(m) + {v}
      ensures x in Values(r)
    {
      if x == v {
        var i := Find(r, k).value;
        assert r[i].1 == v;
      } else {
        var i :| 0 <= i < |m| && m[i].1 == x;
        assert r[i] == m[i];
      }
    }
  }

  /** Index of the first occurrence of x in s, or |s| when x is absent. */
  function FirstIndex<T(==)>(s: seq<T>, x: T): (i: nat)
    ensures i <= |s|
    ensures i < |s| <==> x in s
    ensures i < |s| ==> s[i] == x
    ensures forall j :: 0 <= j < i ==> s[j] != x
    decreases |s|
  {
    if |s| == 0 then 0 else if s[0] == x then 0 else 1 + FirstIndex(s[1..], x)
  }

  lemma FirstIndexAppend<T>(p: seq<T>, x: T)
    ensures forall y :: y in p ==> FirstIndex(p + [x], y) == FirstIndex(p, y)
    ensures x !in p ==> FirstIndex(p + [x], x) == |p|
  {
    forall y | y in p
      ensures FirstIndex(p + [x], y) == FirstIndex(p, y)
    {
      var a := FirstIndex(p + [x], y);
      var b := FirstIndex(p, y);
      assert (p + [x])[b] == y;
    }
  }

  /** The count part of what Counter(s) holds: every entry carries the
      (positive) number of occurrences of its key. */
  ghost predicate CountsOccurrences<T>(c: seq<(T, nat)>, s: seq<T>) {
    forall i :: 0 <= i < |c| ==> c[i].1 == multiset(s)[c[i].0] && c[i].1 > 0
  }

  /** The key part: the keys are exactly the elements of s. */
  ghost predicate KeysAreElements<T(!new)>(c: seq<(T, nat)>, s: seq<T>) {
    forall x :: HasKey(c, x) <==> x in s
  }

  /** The order part: keys appear in order of first occurrence in s. */
  ghost predicate FirstSeenOrder<T>(c: seq<(T, nat)>, s: seq<T>) {
    forall i, j :: 0 <= i < j < |c| ==> FirstIndex(s, c[i].0) < FirstIndex(s, c[j].0)
  }

  /** What Counter(s) holds: each distinct element of s exactly once, with
      its number of occurrences, keyed in order of first occurrence. */
  ghost predicate IsTally<T(!new)>(c: seq<(T, nat)>, s: seq<T>) {
    DistinctKeys(c) && CountsOccurrences(c, s) && KeysAreElements(c, s) && FirstSeenOrder(c, s)
  }

  /** counter[x] += 1 */
  function Bump<T(==)>(c: seq<(T, nat)>, x: T): seq<(T, nat)>
  {
    match Find(c, x)
    case Some(i) => c[i := (x, c[i].1 + 1)]
    case None => c + [(x, 1)]
  }

  lemma KeysInElements<T(!new)>(c: seq<(T, nat)>, p: seq<T>)
    requires KeysAreElements(c, p)
    ensures forall i :: 0 <= i < |c| ==> c[i].0 in p
  {
    forall i | 0 <= i < |c|
      ensures c[i].0 in p
    {
      assert HasKey(c, c[i].0);
    }
  }

  lemma BumpExistingCounts<T>(c: seq<(T, nat)>, p: seq<T>, x: T, k: nat)
    requires DistinctKeys(c) && CountsOccurrences(c, p)
    requires k < |c| && c[k].0 == x
    ensures CountsOccurrences(c[k := (x, c[k].1 + 1)], p + [x])
  {
    assert multiset(p + [x]) == multiset(p) + multiset{x};
  }

  lemma BumpExistingKeys<T(!new)>(c: seq<(T, nat)>, p: seq<T>, x: T, k: nat)
    requires KeysAreElements(c, p)
    requires k < |c| && c[k].0 == x
    ensures KeysAreElements(c[k := (x, c[k].1 + 1)], p + [x])
  {
    var r := c[k := (x, c[k].1 + 1)];
    forall y
      ensures HasKey(r, y) <==> y in p + [x]
    {
      if HasKey(c, y) {
        var i :| 0 <= i < |c| && c[i].0 == y;
        assert r[i].0 == y;
      }
      if HasKey(r, y) {
        var i :| 0 <= i < |r| && r[i].0 == y;
        assert c[i].0 == y;
      }
    }
  }

  lemma BumpExistingOrder<T(!new)>(c: seq<(T, nat)>, p: seq<T>, x: T, k: nat)
    requires KeysAreElements(c, p) && FirstSeenOrder(c, p)
    requires k < |c| && c[k].0 == x
    ensures FirstSeenOrder(c[k := (x, c[k].1 + 1)], p + [x])
  {
    KeysInElements(c, p);
    FirstIndexAppend(p, x);
  }

  lemma BumpNewCounts<T(!new)>(c: seq<(T, nat)>, p: seq<T>, x: T)
    requires CountsOccurrences(c, p) && KeysAreElements(c, p)
    requires x !in p
    ensures CountsOccurrences(c + [(x, 1)], p + [x])
  {
    KeysInElements(c, p);
    assert multiset(p + [x]) == multiset(p) + multiset{x};
  }

  lemma BumpNewKeys<T(!new)>(c: seq<(T, nat)>, p: seq<T>, x: T)
    requires KeysAreElements(c, p)
    ensures KeysAreElements(c + [(x, 1)], p + [x])
  {
    var r := c + [(x, 1)];
    forall y
      ensures HasKey(r, y) <==> y in p + [x]
    {
      if HasKey(c, y) {
        var i :| 0 <= i < |c| && c[i].0 == y;
        assert r[i].0 == y;
      }
      if y == x {
        assert r[|c|].0 == y;
      }
      if HasKey(r, y) && y != x {
        var i :| 0 <= i < |r| && r[i].0 == y;
        assert i < |c| && c[i].0 == y;
      }
    }
  }

  lemma BumpNewOrder<T(!new)>(c: seq<(T, nat)>, p: seq<T>, x: T)
    requires KeysAreElements(c, p) && FirstSeenOrder(c, p)
    requires x !in p
    ensures FirstSeenOrder(c + [(x, 1)], p + [x])
  {
    KeysInElements(c, p);
    FirstIndexAppend(p, x);
  }

  lemma BumpTally<T(!new)>(c: seq<(T, nat)>, p: seq<T>, x: T)
    requires IsTally(c, p)
    ensures IsTally(Bump(c, x), p + [x])
  {
    match Find(c, x)
    case Some(k) =>
      BumpExistingCounts(c, p, x, k);
      BumpExistingKeys(c, p, x, k);
      BumpExistingOrder(c, p, x, k);
    case None =>
      assert x !in p;
      KeysInElements(c, p);
      BumpNewCounts(c, p, x);
      BumpNewKeys(c, p, x);
      BumpNewOrder(c, p, x);
  }

  /** Counter(s), built one element at a time as get_stats does. */
  function Tally<T(==,!new)>(s: seq<T>): (c: seq<(T, nat)>)
    ensures IsTally(c, s)
    decreases |s|
  {
    if |s| == 0 then []
    else
      var p := s[..|s| - 1];
      assert s == p + [s[|s| - 1]];
      BumpTally(Tally(p), p, s[|s| - 1]);
      Bump(Tally(p), s[|s| - 1])
  }

  /** Counting distinct elements gives each the count 1, in order. */
  lemma {:induction false} TallyOfDistinct<T(!new)>(s: seq<T>)
    requires forall i, j :: 0 <= i < j < |s| ==> s[i] != s[j]
    ensures Tally(s) == seq(|s|, i requires 0 <= i < |s| => (s[i], 1))
    decreases |s|
  {
    if |s| > 0 {
      var p, x := s[..|s| - 1], s[|s| - 1];
      var c := Tally(p);
      assert c == seq(|p|, i requires 0 <= i < |p| => (p[i], 1)) by {
        TallyOfDistinct(p);
      }
      assert !HasKey(c, x) by {
        forall i | 0 <= i < |c|
          ensures c[i].0 != x
        {
          assert c[i].0 == s[i];
        }
      }
      assert Tally(s) == c + [(x, 1)] by {
        assert Tally(s) == Bump(c, x);
      }
    }
  }

  /** Counter.most_common(1): the first entry, in key order, whose count is
      maximal (Python's max keeps the first of equal candidates). */
  function MostCommon<T>(c: seq<(T, nat)>): (i: nat)
    requires |c| > 0
    ensures i < |c|
    ensures forall j :: 0 <= j < |c| ==> c[j].1 <= c[i].1
    ensures forall j :: 0 <= j < i ==> c[j].1 < c[i].1
    decreases |c|
  {
    if |c| == 1 then 0
    else
      var k := MostCommon(c[..|c| - 1]);
      if c[|c| - 1].1 > c[k].1 then |c| - 1 else k
  }
}
