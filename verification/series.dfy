/**
 Grouped sums (app.py:123-127 and 134-138): observations are keyed by
 period, the counts of each key are added up, and the keys come out in
 ascending order, one point per key that occurs. Keys that do not occur
 produce no point.
 */
module Series {

  /** One point of a series: a period key and a count total. */
  datatype Point = Point(key: int, total: real)

  /** Keys ascending, each at most once: what `groupby(...).sum().sort_index()` returns. */
  predicate StrictlyIncreasing(s: seq<Point>)
  {
    forall a, b :: 0 <= a < b < |s| ==> s[a].key < s[b].key
  }

  /** The keys that occur. */
  function Keys(s: seq<Point>): set<int>
  {
    if |s| == 0 then {} else {s[0].key} + Keys(s[1..])
  }

  /** Sum of the totals carrying key `k`. */
  function SumKey(s: seq<Point>, k: int): real
  {
    if |s| == 0 then 0.0 else (if s[0].key == k then s[0].total else 0.0) + SumKey(s[1..], k)
  }

  /** Sum of all totals. */
  function Total(s: seq<Point>): real
  {
    if |s| == 0 then 0.0 else s[0].total + Total(s[1..])
  }

  lemma KeysCons(p: Point, s: seq<Point>)
    ensures Keys([p] + s) == {p.key} + Keys(s)
  {
    assert ([p] + s)[1..] == s;
  }

  /** Every point's key occurs. */
  lemma {:induction false} KeyOccurs(s: seq<Point>, i: nat)
    requires i < |s|
    ensures s[i].key in Keys(s)
  {
    if i > 0 {
      KeyOccurs(s[1..], i - 1);
    }
  }

  /** A key below every point's key does not occur. */
  lemma {:induction false} KeysAbove(s: seq<Point>, x: int)
    requires forall i :: 0 <= i < |s| ==> x < s[i].key
    ensures x !in Keys(s)
  {
    if |s| > 0 {
      KeysAbove(s[1..], x);
    }
  }

  /** In a series without repeated keys the first key does not occur again. */
  lemma HeadKeyFresh(s: seq<Point>)
    requires StrictlyIncreasing(s) && |s| > 0
    ensures s[0].key !in Keys(s[1..])
  {
    KeysAbove(s[1..], s[0].key);
  }

  /** A key that does not occur sums to nothing. */
  lemma {:induction false} SumKeyAbsent(s: seq<Point>, k: int)
    requires k !in Keys(s)
    ensures SumKey(s, k) == 0.0
  {
    if |s| > 0 {
      SumKeyAbsent(s[1..], k);
    }
  }

  /**
   Adds `amount` to the point with key `key`, or inserts a new point in key
   order when there is none. The result stays sorted, and its first key is the
   smaller of `key` and the old first key.
   */
  function Insert(s: seq<Point>, key: int, amount: real): (r: seq<Point>)
    requires StrictlyIncreasing(s)
    ensures StrictlyIncreasing(r)
    ensures |r| > 0 && r[0].key == (if |s| == 0 || key < s[0].key then key else s[0].key)
  {
    if |s| == 0 then [Point(key, amount)]
    else if key < s[0].key then [Point(key, amount)] + s
    else if key == s[0].key then [Point(key, s[0].total + amount)] + s[1..]
    else [s[0]] + Insert(s[1..], key, amount)
  }

  /** Inserting adds `key` to the keys and nothing else. */
  lemma {:induction false} InsertKeys(s: seq<Point>, key: int, amount: real)
    requires StrictlyIncreasing(s)
    ensures Keys(Insert(s, key, amount)) == Keys(s) + {key}
  {
    if |s| == 0 {
      KeysCons(Point(key, amount), []);
    } else if key < s[0].key {
      KeysCons(Point(key, amount), s);
    } else {
      assert [s[0]] + s[1..] == s;
      KeysCons(s[0], s[1..]);
      if key == s[0].key {
        KeysCons(Point(key, s[0].total + amount), s[1..]);
      } else {
        InsertKeys(s[1..], key, amount);
        KeysCons(s[0], Insert(s[1..], key, amount));
      }
    }
  }

  /** Inserting adds `amount` to the sum of `key` and to the total, and leaves every other sum alone. */
  lemma {:induction false} InsertSums(s: seq<Point>, key: int, amount: real)
    requires StrictlyIncreasing(s)
    ensures forall k :: SumKey(Insert(s, key, amount), k) == SumKey(s, k) + (if k == key then amount else 0.0)
    ensures Total(Insert(s, key, amount)) == Total(s) + amount
  {
    if |s| > 0 && key > s[0].key {
      InsertSums(s[1..], key, amount);
      assert ([s[0]] + Insert(s[1..], key, amount))[1..] == Insert(s[1..], key, amount);
    }
  }

  /**
   Group-and-sum: one point per key that occurs in `kv`, in ascending key
   order, each key's total being the sum of the totals given for it.
   */
  function GroupSum(kv: seq<Point>): (r: seq<Point>)
    ensures StrictlyIncreasing(r)
    ensures Keys(r) == Keys(kv)
    ensures forall k :: SumKey(r, k) == SumKey(kv, k)
    ensures Total(r) == Total(kv)
  {
    if |kv| == 0 then []
    else
      assert [kv[0]] + kv[1..] == kv;
      KeysCons(kv[0], kv[1..]);
      InsertKeys(GroupSum(kv[1..]), kv[0].key, kv[0].total);
      InsertSums(GroupSum(kv[1..]), kv[0].key, kv[0].total);
      Insert(GroupSum(kv[1..]), kv[0].key, kv[0].total)
  }

  /** In a series without repeated keys, each point's total is the whole sum for its key. */
  lemma {:induction false} PointIsKeySum(s: seq<Point>, i: nat)
    requires StrictlyIncreasing(s) && i < |s|
    ensures SumKey(s, s[i].key) == s[i].total
  {
    if i == 0 {
      HeadKeyFresh(s);
      SumKeyAbsent(s[1..], s[0].key);
    } else {
      PointIsKeySum(s[1..], i - 1);
    }
  }

  /** A series without repeated keys has exactly as many points as keys. */
  lemma {:induction false} DistinctKeyCount(s: seq<Point>)
    requires StrictlyIncreasing(s)
    ensures |Keys(s)| == |s|
  {
    if |s| > 0 {
      HeadKeyFresh(s);
      DistinctKeyCount(s[1..]);
    }
  }

  /**
   Each point of the grouped series totals exactly the input entries with its
   key, and there are as many points as distinct input keys.
   */
  lemma GroupSumPoints(kv: seq<Point>)
    ensures |GroupSum(kv)| == |Keys(kv)|
    ensures forall i :: 0 <= i < |GroupSum(kv)| ==> GroupSum(kv)[i].total == SumKey(kv, GroupSum(kv)[i].key)
  {
    var r := GroupSum(kv);
    DistinctKeyCount(r);
    forall i | 0 <= i < |r| ensures r[i].total == SumKey(kv, r[i].key) {
      PointIsKeySum(r, i);
    }
  }

  /**
   Two series without repeated keys that have the same keys and the same sum
   for every key are equal: the grouped series is determined by its sums.
   */
  lemma {:induction false} SeriesUnique(a: seq<Point>, b: seq<Point>)
    requires StrictlyIncreasing(a) && StrictlyIncreasing(b)
    requires Keys(a) == Keys(b)
    requires forall k :: SumKey(a, k) == SumKey(b, k)
    ensures a == b
  {
    if |a| > 0 && |b| > 0 {
      assert [a[0]] + a[1..] == a;
      assert [b[0]] + b[1..] == b;
      assert a[0].key == b[0].key by {
        MinKey(a, b[0].key);
        MinKey(b, a[0].key);
      }
      PointIsKeySum(a, 0);
      PointIsKeySum(b, 0);
      HeadKeyFresh(a);
      HeadKeyFresh(b);
      forall k ensures SumKey(a[1..], k) == SumKey(b[1..], k) {
        assert SumKey(a, k) == SumKey(b, k);
      }
      SeriesUnique(a[1..], b[1..]);
    } else {
      DistinctKeyCount(a);
      DistinctKeyCount(b);
    }
  }

  /** The first key of a strictly increasing series is its least key. */
  lemma {:induction false} MinKey(s: seq<Point>, k: int)
    requires StrictlyIncreasing(s) && k in Keys(s)
    ensures |s| > 0 && s[0].key <= k
  {
    if k != s[0].key {
      MinKey(s[1..], k);
    }
  }

  /** The grouped series does not depend on the order of its input. */
  lemma GroupSumOrderFree(kv: seq<Point>, kv': seq<Point>)
    requires multiset(kv) == multiset(kv')
    ensures GroupSum(kv) == GroupSum(kv')
  {
    PermutationSums(kv, kv');
    SeriesUnique(GroupSum(kv), GroupSum(kv'));
  }

  /** Rearranging the input changes neither its keys nor any key's sum. */
  lemma {:induction false} PermutationSums(kv: seq<Point>, kv': seq<Point>)
    requires multiset(kv) == multiset(kv')
    ensures Keys(kv) == Keys(kv')
    ensures forall k :: SumKey(kv, k) == SumKey(kv', k)
  {
    if |kv| == 0 {
      assert |kv'| == |multiset(kv')| == 0;
    } else {
      assert kv[0] in multiset(kv');
      var j :| 0 <= j < |kv'| && kv'[j] == kv[0];
      RemoveBoth(kv, kv', j);
      PermutationSums(kv[1..], kv'[..j] + kv'[j + 1..]);
      MoveToFrontSums(kv, kv', j);
    }
  }

  /** Taking the same point out of two rearrangements of one another leaves two rearrangements. */
  lemma RemoveBoth(kv: seq<Point>, kv': seq<Point>, j: nat)
    requires multiset(kv) == multiset(kv')
    requires 0 < |kv| && j < |kv'| && kv'[j] == kv[0]
    ensures multiset(kv[1..]) == multiset(kv'[..j] + kv'[j + 1..])
  {
    RemoveAt(kv', j);
    RemoveAt(kv, 0);
    assert kv[..0] + kv[1..] == kv[1..];
  }

  /**
   If the tail of `kv` agrees with `kv'` less its `j`-th point on keys and
   sums, and that point is the head of `kv`, then `kv` and `kv'` agree.
   */
  lemma MoveToFrontSums(kv: seq<Point>, kv': seq<Point>, j: nat)
    requires 0 < |kv| && j < |kv'| && kv'[j] == kv[0]
    requires Keys(kv[1..]) == Keys(kv'[..j] + kv'[j + 1..])
    requires forall k :: SumKey(kv[1..], k) == SumKey(kv'[..j] + kv'[j + 1..], k)
    ensures Keys(kv) == Keys(kv')
    ensures forall k :: SumKey(kv, k) == SumKey(kv', k)
  {
    var p, a, b := kv[0], kv'[..j], kv'[j + 1..];
    assert kv' == a + [p] + b;
    assert kv == [p] + kv[1..];
    MoveToFront(a, p, b);
    ConsSums(p, kv[1..]);
    ConsSums(p, a + b);
    assert [p] + a + b == [p] + (a + b);
  }

  lemma RemoveAt(s: seq<Point>, j: nat)
    requires j < |s|
    ensures multiset(s[..j] + s[j + 1..]) == multiset(s) - multiset{s[j]}
  {
    assert s == s[..j] + [s[j]] + s[j + 1..];
  }

  lemma ConsSums(p: Point, s: seq<Point>)
    ensures Keys([p] + s) == {p.key} + Keys(s)
    ensures forall k :: SumKey([p] + s, k) == (if p.key == k then p.total else 0.0) + SumKey(s, k)
  {
    KeysCons(p, s);
    assert ([p] + s)[1..] == s;
  }

  /** Moving one point to the front changes neither the keys nor any key's sum. */
  lemma {:induction false} MoveToFront(a: seq<Point>, p: Point, b: seq<Point>)
    ensures Keys(a + [p] + b) == Keys([p] + a + b)
    ensures forall k :: SumKey(a + [p] + b, k) == SumKey([p] + a + b, k)
  {
    SumKeyConcat(a, [p] + b);
    SumKeyConcat([p], a + b);
    SumKeyConcat(a, b);
    assert a + [p] + b == a + ([p] + b);
    assert [p] + a + b == [p] + (a + b);
    KeysConcat(a, [p] + b);
    KeysConcat([p], a + b);
    KeysConcat(a, b);
    KeysConcat([p], b);
  }

  lemma {:induction false} KeysConcat(a: seq<Point>, b: seq<Point>)
    ensures Keys(a + b) == Keys(a) + Keys(b)
  {
    if |a| == 0 {
      assert a + b == b;
    } else {
      assert (a + b)[1..] == a[1..] + b;
      KeysConcat(a[1..], b);
    }
  }

  lemma {:induction false} SumKeyConcat(a: seq<Point>, b: seq<Point>)
    ensures forall k :: SumKey(a + b, k) == SumKey(a, k) + SumKey(b, k)
  {
    if |a| > 0 {
      assert (a + b)[1..] == a[1..] + b;
      SumKeyConcat(a[1..], b);
    } else {
      assert a + b == b;
    }
  }
}
