/** Year-indexed tallies as the C++ code keeps them in `std::map`s:
    `m[k] += v` on a missing key starts from zero, and merging two tallies
    adds them key by key. */
module Tallies {

  /** `m[k]` read through `operator[]`: a missing key reads as zero. */
  function Get(m: map<int, int>, k: int): int
  {
    if k in m then m[k] else 0
  }

  /** `m[k] += v`. */
  function AddAt(m: map<int, int>, k: int, v: int): (r: map<int, int>)
    ensures r.Keys == m.Keys + {k}
    ensures r[k] == Get(m, k) + v
    ensures forall j :: j in m && j != k ==> r[j] == m[j]
  {
    m[k := Get(m, k) + v]
  }

  /** The key-by-key sum of two tallies: `for (k, v) in b: a[k] += v`. */
  function AddMaps(a: map<int, int>, b: map<int, int>): (r: map<int, int>)
    ensures r.Keys == a.Keys + b.Keys
    ensures forall k :: k in r ==> r[k] == Get(a, k) + Get(b, k)
  {
    map k | k in a.Keys + b.Keys :: Get(a, k) + Get(b, k)
  }

  lemma KeyOrEmpty<V>(m: map<int, V>)
    ensures m == map[] || exists j :: j in m
  {
    if forall j :: j !in m {
      assert m == map[];
    }
  }

  /** Some key of a non-empty map. */
  lemma AnyKey<V>(m: map<int, V>) returns (k: int)
    requires m != map[]
    ensures k in m
  {
    KeyOrEmpty(m);
    k :| k in m;
  }

  lemma MinKeyExists(m: map<int, int>)
    requires m != map[]
    ensures exists k :: k in m && forall j :: j in m ==> k <= j
  {
    var k := AnyKey(m);
    MinKeyBelow(m, k);
  }

  lemma {:induction false} MinKeyBelow(m: map<int, int>, k: int)
    requires k in m
    ensures exists lo :: lo in m && lo <= k && forall j :: j in m ==> lo <= j
    decreases |m|
  {
    if forall j :: j in m ==> k <= j {
    } else {
      var j :| j in m && j < k;
      var rest := m - {k};
      assert |rest| < |m| by {
        assert rest.Keys == m.Keys - {k};
      }
      MinKeyBelow(rest, j);
      var lo :| lo in rest && lo <= j && forall i :: i in rest ==> lo <= i;
      assert forall i :: i in m ==> lo <= i by {
        forall i | i in m
          ensures lo <= i
        {
          if i != k {
            assert i in rest;
          }
        }
      }
    }
  }

  /** The smallest key: where an in-order walk of a `std::map` starts. */
  function MinKey(m: map<int, int>): (k: int)
    requires m != map[]
    ensures k in m && forall j :: j in m ==> k <= j
  {
    MinKeyExists(m);
    var k :| k in m && forall j :: j in m ==> k <= j;
    k
  }

  /** The largest key. */
  function MaxKey(m: map<int, int>): (k: int)
    requires m != map[]
    ensures k in m && forall j :: j in m ==> j <= k
  {
    MaxKeyExists(m);
    var k :| k in m && forall j :: j in m ==> j <= k;
    k
  }

  lemma MaxKeyExists(m: map<int, int>)
    requires m != map[]
    ensures exists k :: k in m && forall j :: j in m ==> j <= k
  {
    var k := AnyKey(m);
    MaxKeyAbove(m, k);
  }

  lemma {:induction false} MaxKeyAbove(m: map<int, int>, k: int)
    requires k in m
    ensures exists hi :: hi in m && k <= hi && forall j :: j in m ==> j <= hi
    decreases |m|
  {
    if forall j :: j in m ==> j <= k {
    } else {
      var j :| j in m && k < j;
      var rest := m - {k};
      assert |rest| < |m| by {
        assert rest.Keys == m.Keys - {k};
      }
      MaxKeyAbove(rest, j);
      var hi :| hi in rest && j <= hi && forall i :: i in rest ==> i <= hi;
      assert forall i :: i in m ==> i <= hi by {
        forall i | i in m
          ensures i <= hi
        {
          if i != k {
            assert i in rest;
          }
        }
      }
    }
  }

  /** The sum of all values, walking the keys in ascending order. */
  function MapSum(m: map<int, int>): int
    decreases |m|
  {
    if m == map[] then 0
    else
      var k := MinKey(m);
      assert |m - {k}| < |m| by {
        assert (m - {k}).Keys == m.Keys - {k};
      }
      m[k] + MapSum(m - {k})
  }

  /** The sum does not depend on which key is taken out first. */
  lemma {:induction false} MapSumRemove(m: map<int, int>, k: int)
    requires k in m
    ensures MapSum(m) == m[k] + MapSum(m - {k})
    decreases |m|
  {
    var lo := MinKey(m);
    if lo != k {
      var rest := m - {lo};
      assert (m - {lo}).Keys == m.Keys - {lo};
      MapSumRemove(rest, k);
      var both := rest - {k};
      var other := m - {k};
      assert other.Keys == m.Keys - {k};
      assert other != map[] && lo in other;
      assert MinKey(other) == lo;
      assert other - {lo} == both;
    }
  }

  lemma MapSumAddAt(m: map<int, int>, k: int, v: int)
    ensures MapSum(AddAt(m, k, v)) == MapSum(m) + v
  {
    var r := AddAt(m, k, v);
    MapSumRemove(r, k);
    if k in m {
      MapSumRemove(m, k);
      assert r - {k} == m - {k};
    } else {
      assert r - {k} == m;
    }
  }

  /** Merging tallies adds their sums. */
  lemma {:induction false} MapSumAddMaps(a: map<int, int>, b: map<int, int>)
    ensures MapSum(AddMaps(a, b)) == MapSum(a) + MapSum(b)
    decreases |b|
  {
    if b == map[] {
      AddMapsEmpty(a);
    } else {
      var k := AnyKey(b);
      var rest := b - {k};
      assert |rest| < |b| by {
        assert rest.Keys == b.Keys - {k};
      }
      MapSumAddMaps(a, rest);
      AddMapsPeel(a, b, k);
      MapSumAddAt(AddMaps(a, rest), k, b[k]);
      MapSumRemove(b, k);
    }
  }

  /** Merging `b` is merging `b` without `k`, then adding `b[k]` at `k`. */
  lemma AddMapsPeel(a: map<int, int>, b: map<int, int>, k: int)
    requires k in b
    ensures AddMaps(a, b) == AddAt(AddMaps(a, b - {k}), k, b[k])
  {
  }

  lemma AddMapsCommutes(a: map<int, int>, b: map<int, int>)
    ensures AddMaps(a, b) == AddMaps(b, a)
  {
  }

  lemma AddMapsAssociates(a: map<int, int>, b: map<int, int>, c: map<int, int>)
    ensures AddMaps(AddMaps(a, b), c) == AddMaps(a, AddMaps(b, c))
  {
  }

  /** Merging `b` first or second gives the same tally. */
  lemma AddMapsSwap(a: map<int, int>, b: map<int, int>, c: map<int, int>)
    ensures AddMaps(AddMaps(a, b), c) == AddMaps(b, AddMaps(a, c))
  {
  }

  lemma AddMapsEmpty(a: map<int, int>)
    ensures AddMaps(a, map[]) == a && AddMaps(map[], a) == a
  {
  }

  /** `m[k]` of a map of sets: a missing key reads as the empty set. */
  function GetSet<T>(m: map<int, set<T>>, k: int): set<T>
  {
    if k in m then m[k] else {}
  }

  /** The key-by-key union: `for (k, s) in b: a[k].insert(s.begin(), s.end())`. */
  function UnionMaps<T>(a: map<int, set<T>>, b: map<int, set<T>>): (r: map<int, set<T>>)
    ensures r.Keys == a.Keys + b.Keys
    ensures forall k :: k in r ==> r[k] == GetSet(a, k) + GetSet(b, k)
  {
    map k | k in a.Keys + b.Keys :: GetSet(a, k) + GetSet(b, k)
  }

  lemma GetSetUnion<T>(a: map<int, set<T>>, b: map<int, set<T>>, k: int)
    ensures GetSet(UnionMaps(a, b), k) == GetSet(a, k) + GetSet(b, k)
  {
  }
}
