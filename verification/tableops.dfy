/**
 * The whole-table operations of pandas that the catalogue script relies on,
 * written over sequences of rows: boolean-mask filtering, `drop_duplicates`
 * (keep the first row of each key), the per-key running count and a
 * left-outer `merge`.
 */
module TableOps {
  import opened Options

  /** `a` is an order-preserving subsequence of `b`. */
  ghost predicate IsSubseq<T>(a: seq<T>, b: seq<T>)
    decreases |b|
  {
    a == [] || (b != [] && ((a[0] == b[0] && IsSubseq(a[1..], b[1..])) || IsSubseq(a, b[1..])))
  }

  lemma {:induction false} SubseqMembers<T>(a: seq<T>, b: seq<T>)
    requires IsSubseq(a, b)
    ensures forall x :: x in a ==> x in b
    decreases |b|
  {
    if a != [] {
      if a[0] == b[0] && IsSubseq(a[1..], b[1..]) {
        SubseqMembers(a[1..], b[1..]);
        forall x | x in a ensures x in b {
          if x != a[0] {
            assert x in a[1..];
          }
        }
      } else {
        SubseqMembers(a, b[1..]);
      }
    }
  }

  /** No two rows of `s` share a key. */
  ghost predicate DistinctKeys<T, K>(s: seq<T>, key: T -> K) {
    forall i, j :: 0 <= i < j < |s| ==> key(s[i]) != key(s[j])
  }

  /** The set of keys that occur in `s`. */
  ghost function Keys<T, K>(s: seq<T>, key: T -> K): set<K> {
    set x | x in s :: key(x)
  }

  lemma {:induction false} SubseqKeepsDistinct<T, K>(a: seq<T>, b: seq<T>, key: T -> K)
    requires IsSubseq(a, b) && DistinctKeys(b, key)
    ensures DistinctKeys(a, key)
    decreases |b|
  {
    if a != [] {
      if a[0] == b[0] && IsSubseq(a[1..], b[1..]) {
        SubseqKeepsDistinct(a[1..], b[1..], key);
        SubseqMembers(a[1..], b[1..]);
        forall j | 0 < j < |a| ensures key(a[0]) != key(a[j]) {
          assert a[j] == a[1..][j - 1];
          assert a[1..][j - 1] in a[1..];
          var m :| 0 <= m < |b[1..]| && b[1..][m] == a[j];
          assert b[m + 1] == a[j];
        }
        forall i, j | 0 <= i < j < |a| ensures key(a[i]) != key(a[j]) {
          if i > 0 {
            assert a[i] == a[1..][i - 1] && a[j] == a[1..][j - 1];
          }
        }
      } else {
        SubseqKeepsDistinct(a, b[1..], key);
      }
    }
  }

  /** Boolean-mask selection of rows, with the mask given by a row predicate. */
  function Filter<T>(s: seq<T>, p: T -> bool): (r: seq<T>)
    ensures IsSubseq(r, s) && |r| <= |s|
    ensures forall x :: x in r ==> p(x)
    ensures forall x :: x in s && p(x) ==> x in r
  {
    if s == [] then []
    else if p(s[0]) then [s[0]] + Filter(s[1..], p)
    else Filter(s[1..], p)
  }

  /** The selection keeps every satisfying row as many times as the table has it, and no other row. */
  lemma {:induction false} FilterMultiplicity<T>(s: seq<T>, p: T -> bool)
    ensures forall x :: x in s ==> multiset(Filter(s, p))[x] == if p(x) then multiset(s)[x] else 0
    decreases |s|
  {
    if s != [] {
      FilterMultiplicity(s[1..], p);
      assert s == [s[0]] + s[1..];
      forall x | x in s ensures multiset(Filter(s, p))[x] == if p(x) then multiset(s)[x] else 0 {
        if x !in s[1..] {
          assert multiset(Filter(s[1..], p))[x] == 0 by {
            if x in Filter(s[1..], p) {
              SubseqMembers(Filter(s[1..], p), s[1..]);
            }
          }
        }
      }
    }
  }

  /** The row-by-row scan behind keep-first de-duplication: a row whose key is in `seen` is dropped. */
  function DedupFrom<T, K(==)>(rows: seq<T>, key: T -> K, seen: set<K>): (r: seq<T>)
    ensures |r| <= |rows|
    ensures forall x :: x in r ==> key(x) !in seen
    decreases |rows|
  {
    if rows == [] then []
    else if key(rows[0]) in seen then DedupFrom(rows[1..], key, seen)
    else [rows[0]] + DedupFrom(rows[1..], key, seen + {key(rows[0])})
  }

  /** The scan keeps rows of `rows`, in their order. */
  lemma {:induction false} DedupFromSubseq<T, K>(rows: seq<T>, key: T -> K, seen: set<K>)
    ensures IsSubseq(DedupFrom(rows, key, seen), rows)
    decreases |rows|
  {
    if rows != [] {
      var k0 := key(rows[0]);
      DedupFromSubseq(rows[1..], key, if k0 in seen then seen else seen + {k0});
    }
  }

  /** The scan keeps one row per key not yet seen, and never two rows of the same key. */
  lemma {:induction false} DedupFromKeys<T, K>(rows: seq<T>, key: T -> K, seen: set<K>)
    ensures DistinctKeys(DedupFrom(rows, key, seen), key)
    ensures Keys(DedupFrom(rows, key, seen), key) == Keys(rows, key) - seen
    decreases |rows|
  {
    if rows != [] {
      var k0 := key(rows[0]);
      assert Keys(rows, key) == {k0} + Keys(rows[1..], key) by {
        assert rows == [rows[0]] + rows[1..];
      }
      if k0 in seen {
        DedupFromKeys(rows[1..], key, seen);
      } else {
        var rest := DedupFrom(rows[1..], key, seen + {k0});
        var r := [rows[0]] + rest;
        assert DedupFrom(rows, key, seen) == r;
        DedupFromKeys(rows[1..], key, seen + {k0});
        assert Keys(r, key) == {k0} + Keys(rest, key) by {
          assert r[1..] == rest;
        }
        forall i, j | 0 <= i < j < |r| ensures key(r[i]) != key(r[j]) {
          assert r[j] == rest[j - 1];
          assert r[j] in rest;
          if i > 0 {
            assert r[i] == rest[i - 1];
          }
        }
      }
    }
  }

  /** De-duplication on a key, keeping the first row of each key. */
  function DropDuplicates<T, K(==)>(rows: seq<T>, key: T -> K): (r: seq<T>)
    ensures IsSubseq(r, rows) && |r| <= |rows|
    ensures DistinctKeys(r, key)
    ensures Keys(r, key) == Keys(rows, key)
  {
    DedupFromKeys(rows, key, {});
    DedupFromSubseq(rows, key, {});
    DedupFrom(rows, key, {})
  }

  /** The index of the first row of `rows` whose key is `k`, or `|rows|` when there is none. */
  ghost function FirstIndex<T, K>(rows: seq<T>, key: T -> K, k: K): (i: nat)
    ensures i <= |rows|
    decreases |rows|
  {
    if rows == [] || key(rows[0]) == k then 0 else 1 + FirstIndex(rows[1..], key, k)
  }

  /** The row at `FirstIndex` has the key, and no row before it does. */
  lemma {:induction false} FirstIndexFacts<T, K>(rows: seq<T>, key: T -> K, k: K)
    ensures FirstIndex(rows, key, k) < |rows| ==> key(rows[FirstIndex(rows, key, k)]) == k
    ensures forall j :: 0 <= j < FirstIndex(rows, key, k) ==> key(rows[j]) != k
    decreases |rows|
  {
    if rows != [] && key(rows[0]) != k {
      FirstIndexFacts(rows[1..], key, k);
      assert forall j :: 1 <= j < |rows| ==> rows[j] == rows[1..][j - 1];
    }
  }

  lemma FirstIndexIsLeast<T, K>(rows: seq<T>, key: T -> K, j: nat)
    requires j < |rows|
    ensures FirstIndex(rows, key, key(rows[j])) <= j
  {
    FirstIndexFacts(rows, key, key(rows[j]));
  }

  lemma FirstIndexTail<T, K>(rows: seq<T>, key: T -> K, k: K)
    requires rows != [] && key(rows[0]) != k
    ensures FirstIndex(rows, key, k) == 1 + FirstIndex(rows[1..], key, k)
  {
  }

  lemma {:induction false} DedupKeepsFirst<T, K>(rows: seq<T>, key: T -> K, seen: set<K>, x: T)
    requires x in DedupFrom(rows, key, seen)
    ensures FirstIndex(rows, key, key(x)) < |rows| && x == rows[FirstIndex(rows, key, key(x))]
    decreases |rows|
  {
    var k0 := key(rows[0]);
    if k0 in seen {
      DedupKeepsFirst(rows[1..], key, seen, x);
      FirstIndexTail(rows, key, key(x));
    } else if x != rows[0] {
      var rest := DedupFrom(rows[1..], key, seen + {k0});
      assert x in rest;
      DedupKeepsFirst(rows[1..], key, seen + {k0}, x);
      FirstIndexTail(rows, key, key(x));
    }
  }

  /** Kept rows appear in the order in which their keys first appear in `rows`. */
  lemma {:induction false} DedupOrder<T, K>(rows: seq<T>, key: T -> K, seen: set<K>, r: seq<T>, a: nat, b: nat)
    requires r == DedupFrom(rows, key, seen) && a < b < |r|
    ensures FirstIndex(rows, key, key(r[a])) < FirstIndex(rows, key, key(r[b]))
    decreases |rows|
  {
    var k0 := key(rows[0]);
    var seen' := if k0 in seen then seen else seen + {k0};
    var rest := DedupFrom(rows[1..], key, seen');
    var drop := if k0 in seen then 0 else 1;
    if k0 in seen {
      assert r == rest;
    } else {
      assert r == [rows[0]] + rest;
    }
    var rb := rest[b - drop];
    assert r[b] == rb && rb in rest;
    FirstIndexTail(rows, key, key(rb));
    if a >= drop {
      var ra := rest[a - drop];
      assert r[a] == ra && ra in rest;
      FirstIndexTail(rows, key, key(ra));
      DedupOrder(rows[1..], key, seen', rest, a - drop, b - drop);
    } else {
      assert FirstIndex(rows, key, key(r[a])) == 0;
    }
  }

  /**
   * `drop_duplicates` keeps exactly the first row of every key, in the order
   * in which the keys are first seen.
   */
  lemma DropDuplicatesKeepsFirst<T, K>(rows: seq<T>, key: T -> K)
    ensures forall x :: x in DropDuplicates(rows, key) ==>
      FirstIndex(rows, key, key(x)) < |rows| && x == rows[FirstIndex(rows, key, key(x))]
    ensures var r := DropDuplicates(rows, key);
      forall a, b :: 0 <= a < b < |r| ==> FirstIndex(rows, key, key(r[a])) < FirstIndex(rows, key, key(r[b]))
  {
    forall x | x in DropDuplicates(rows, key)
      ensures FirstIndex(rows, key, key(x)) < |rows| && x == rows[FirstIndex(rows, key, key(x))]
    {
      DedupKeepsFirst(rows, key, {}, x);
    }
    var r := DropDuplicates(rows, key);
    forall a, b | 0 <= a < b < |r|
      ensures FirstIndex(rows, key, key(r[a])) < FirstIndex(rows, key, key(r[b]))
    {
      DedupOrder(rows, key, {}, r, a, b);
    }
  }

  /** Number of rows of `s` whose key is `k`. */
  ghost function Occurrences<T, K>(s: seq<T>, key: T -> K, k: K): nat
    decreases |s|
  {
    if s == [] then 0 else (if key(s[0]) == k then 1 else 0) + Occurrences(s[1..], key, k)
  }

  lemma {:induction false} OccurrencesAppend<T, K>(a: seq<T>, b: seq<T>, key: T -> K, k: K)
    ensures Occurrences(a + b, key, k) == Occurrences(a, key, k) + Occurrences(b, key, k)
    decreases |a|
  {
    if a == [] {
      assert a + b == b;
    } else {
      assert (a + b)[1..] == a[1..] + b;
      OccurrencesAppend(a[1..], b, key, k);
    }
  }

  lemma {:induction false} OccurrencesZero<T, K>(s: seq<T>, key: T -> K, k: K)
    ensures Occurrences(s, key, k) == 0 <==> forall j :: 0 <= j < |s| ==> key(s[j]) != k
    decreases |s|
  {
    if s != [] {
      OccurrencesZero(s[1..], key, k);
      assert forall j :: 1 <= j < |s| ==> s[j] == s[1..][j - 1];
    }
  }

  function Lookup<K>(m: map<K, nat>, k: K): nat {
    if k in m then m[k] else 0
  }

  /** The scan behind the per-key running count: `seen` holds how many rows of each key came before. */
  function CumCountFrom<T, K(==)>(rows: seq<T>, key: T -> K, seen: map<K, nat>): (r: seq<nat>)
    ensures |r| == |rows|
    decreases |rows|
  {
    if rows == [] then []
    else
      var k := key(rows[0]);
      var c := Lookup(seen, k);
      [c] + CumCountFrom(rows[1..], key, seen[k := c + 1])
  }

  lemma {:induction false} CumCountFromCounts<T, K>(rows: seq<T>, key: T -> K, seen: map<K, nat>, i: nat)
    requires i < |rows|
    ensures CumCountFrom(rows, key, seen)[i] == Lookup(seen, key(rows[i])) + Occurrences(rows[..i], key, key(rows[i]))
    decreases |rows|
  {
    if i > 0 {
      var k0 := key(rows[0]);
      var seen' := seen[k0 := Lookup(seen, k0) + 1];
      CumCountFromCounts(rows[1..], key, seen', i - 1);
      assert rows[..i][1..] == rows[1..][..i - 1];
      assert rows[1..][i - 1] == rows[i];
    }
  }

  /** The per-key running count: each row's index among the rows of its key. */
  function CumCount<T, K(==)>(rows: seq<T>, key: T -> K): (r: seq<nat>)
    ensures |r| == |rows|
    ensures forall i :: 0 <= i < |rows| ==> r[i] == Occurrences(rows[..i], key, key(rows[i]))
  {
    CumCountCounts(rows, key);
    CumCountFrom(rows, key, map[])
  }

  lemma CumCountCounts<T, K>(rows: seq<T>, key: T -> K)
    ensures forall i :: 0 <= i < |rows| ==>
      CumCountFrom(rows, key, map[])[i] == Occurrences(rows[..i], key, key(rows[i]))
  {
    forall i | 0 <= i < |rows|
      ensures CumCountFrom(rows, key, map[])[i] == Occurrences(rows[..i], key, key(rows[i]))
    {
      CumCountFromCounts(rows, key, map[], i);
    }
  }

  /** A later row of a group always has a larger occurrence index than an earlier one. */
  lemma CumCountIncreasesInGroup<T, K>(rows: seq<T>, key: T -> K, i: nat, j: nat)
    requires i < j < |rows| && key(rows[i]) == key(rows[j])
    ensures CumCount(rows, key)[i] < CumCount(rows, key)[j]
  {
    var k := key(rows[j]);
    assert rows[..j] == rows[..i] + rows[i..j];
    OccurrencesAppend(rows[..i], rows[i..j], key, k);
    assert rows[i..j][0] == rows[i];
  }

  /** The row predicate "the key of the row is `k`". */
  function KeyIs<R, K(==)>(rkey: R -> K, k: K): R -> bool {
    x => rkey(x) == k
  }

  /** The rows of `right` whose key is `k`, in their order. */
  function Matches<R, K(==)>(right: seq<R>, rkey: R -> K, k: K): (m: seq<R>)
    ensures forall x :: x in m ==> x in right && rkey(x) == k
    ensures forall x :: x in right && rkey(x) == k ==> x in m
    ensures IsSubseq(m, right)
  {
    var m := Filter(right, KeyIs(rkey, k));
    forall x | x in m ensures x in right && rkey(x) == k {
      SubseqMembers(m, right);
    }
    m
  }

  /** There are as many matches as rows of `right` with the key. */
  lemma {:induction false} MatchesCount<R, K>(right: seq<R>, rkey: R -> K, k: K)
    ensures |Matches(right, rkey, k)| == Occurrences(right, rkey, k)
    decreases |right|
  {
    if right != [] {
      MatchesCount(right[1..], rkey, k);
    }
  }

  /** A key of a sequence with distinct keys occurs exactly once. */
  lemma {:induction false} OccurrencesOfDistinct<T, K>(s: seq<T>, key: T -> K, k: K)
    requires DistinctKeys(s, key) && k in Keys(s, key)
    ensures Occurrences(s, key, k) == 1
    decreases |s|
  {
    assert s != [];
    assert DistinctKeys(s[1..], key) by {
      forall i, j | 0 <= i < j < |s[1..]| ensures key(s[1..][i]) != key(s[1..][j]) {
        assert s[1..][i] == s[i + 1] && s[1..][j] == s[j + 1];
      }
    }
    if key(s[0]) == k {
      OccurrencesZero(s[1..], key, k);
      forall j | 0 <= j < |s[1..]| ensures key(s[1..][j]) != k {
        assert s[1..][j] == s[j + 1];
      }
    } else {
      var x :| x in s && key(x) == k;
      assert x in s[1..];
      OccurrencesOfDistinct(s[1..], key, k);
    }
  }

  /** Some row of `right` has the key `k`. */
  ghost predicate Matched<R, K>(right: seq<R>, rkey: R -> K, k: K) {
    exists x :: x in right && rkey(x) == k
  }

  /** The rows a left merge produces for one left row. */
  function JoinOne<L, R, K(==)>(l: L, right: seq<R>, lkey: L -> K, rkey: R -> K): (out: seq<(L, Option<R>)>)
    ensures |out| >= 1
    ensures forall o :: o in out ==> o.0 == l
    ensures !Matched(right, rkey, lkey(l)) ==> out == [(l, None)]
    ensures Matched(right, rkey, lkey(l)) ==>
      |out| == |Matches(right, rkey, lkey(l))| &&
      (forall i :: 0 <= i < |out| ==> out[i] == (l, Some(Matches(right, rkey, lkey(l))[i]))) &&
      (forall o :: o in out ==> o.1.Some? && o.1.value in right && rkey(o.1.value) == lkey(l)) &&
      (forall x :: x in right && rkey(x) == lkey(l) ==> (l, Some(x)) in out)
  {
    var m := Matches(right, rkey, lkey(l));
    if m == [] then [(l, None)]
    else
      assert m[0] in m;
      var out := seq(|m|, i requires 0 <= i < |m| => (l, Some(m[i])));
      assert forall x :: x in m ==> (l, Some(x)) in out by {
        forall x | x in m ensures (l, Some(x)) in out {
          var i :| 0 <= i < |m| && m[i] == x;
          assert out[i] == (l, Some(x));
        }
      }
      out
  }

  /**
   * The left merge of two tables on `lkey` and `rkey`: every
   * left row, in order, followed by each of its matches (in right order), or
   * by a null when it has none.
   */
  function LeftJoin<L, R, K(==)>(left: seq<L>, right: seq<R>, lkey: L -> K, rkey: R -> K): (out: seq<(L, Option<R>)>)
    ensures |out| >= |left|
    ensures forall o :: o in out ==> o.0 in left
    ensures forall o :: o in out ==>
      if o.1.Some? then o.1.value in right && rkey(o.1.value) == lkey(o.0)
      else !Matched(right, rkey, lkey(o.0))
    ensures forall l :: l in left ==> exists o :: o in out && o.0 == l
    ensures forall l, x :: l in left && x in right && rkey(x) == lkey(l) ==> (l, Some(x)) in out
    decreases |left|
  {
    if left == [] then []
    else
      var head := JoinOne(left[0], right, lkey, rkey);
      var tail := LeftJoin(left[1..], right, lkey, rkey);
      assert head[0] in head;
      assert forall l :: l in left[1..] ==> l in left;
      assert forall l :: l in left ==> l == left[0] || l in left[1..];
      assert forall x :: x in right && rkey(x) == lkey(left[0]) ==> Matched(right, rkey, lkey(left[0]));
      head + tail
  }

  /** The merge of two concatenated left tables is the concatenation of their merges: left order is kept. */
  lemma {:induction false} LeftJoinAppend<L, R, K>(a: seq<L>, b: seq<L>, right: seq<R>, lkey: L -> K, rkey: R -> K)
    ensures LeftJoin(a + b, right, lkey, rkey) == LeftJoin(a, right, lkey, rkey) + LeftJoin(b, right, lkey, rkey)
    decreases |a|
  {
    if a == [] {
      assert a + b == b;
    } else {
      assert (a + b)[0] == a[0] && (a + b)[1..] == a[1..] + b;
      LeftJoinAppend(a[1..], b, right, lkey, rkey);
    }
  }

  /** A single left row merges to its own rows: its matches in right order, or one unpaired row. */
  lemma LeftJoinSingle<L, R, K>(l: L, right: seq<R>, lkey: L -> K, rkey: R -> K)
    ensures LeftJoin([l], right, lkey, rkey) == JoinOne(l, right, lkey, rkey)
  {
    assert [l][1..] == [];
  }

  /** Number of rows the left merge produces: one per unmatched left row, one per match otherwise. */
  ghost function FanOut<L, R, K>(left: seq<L>, right: seq<R>, lkey: L -> K, rkey: R -> K): nat
    decreases |left|
  {
    if left == [] then 0
    else
      var m := |Matches(right, rkey, lkey(left[0]))|;
      (if m == 0 then 1 else m) + FanOut(left[1..], right, lkey, rkey)
  }

  lemma {:induction false} LeftJoinSize<L, R, K>(left: seq<L>, right: seq<R>, lkey: L -> K, rkey: R -> K)
    ensures |LeftJoin(left, right, lkey, rkey)| == FanOut(left, right, lkey, rkey)
    decreases |left|
  {
    if left != [] {
      LeftJoinSize(left[1..], right, lkey, rkey);
      var m := Matches(right, rkey, lkey(left[0]));
      if m != [] {
        assert m[0] in m;
      }
    }
  }

  lemma {:induction false} MatchesOfDistinct<R, K>(right: seq<R>, rkey: R -> K, k: K)
    requires DistinctKeys(right, rkey)
    ensures |Matches(right, rkey, k)| <= 1
  {
    var m := Matches(right, rkey, k);
    assert |m| > 1 ==> rkey(m[0]) == k && rkey(m[1]) == k by {
      if |m| > 1 {
        assert m[0] in m && m[1] in m;
      }
    }
    SubseqKeepsDistinct(m, right, rkey);
  }

  /**
   * When the right table has unique keys the left merge keeps the left table
   * row for row: the i-th merged row carries the i-th left row and its match.
   */
  lemma {:induction false} LeftJoinOneToOne<L, R, K>(left: seq<L>, right: seq<R>, lkey: L -> K, rkey: R -> K)
    requires DistinctKeys(right, rkey)
    ensures |LeftJoin(left, right, lkey, rkey)| == |left|
    ensures forall i :: 0 <= i < |left| ==> LeftJoin(left, right, lkey, rkey)[i].0 == left[i]
    decreases |left|
  {
    if left != [] {
      LeftJoinOneToOne(left[1..], right, lkey, rkey);
      MatchesOfDistinct(right, rkey, lkey(left[0]));
      var head := JoinOne(left[0], right, lkey, rkey);
      var tail := LeftJoin(left[1..], right, lkey, rkey);
      assert |head| == 1;
      assert head[0] in head;
      var out := LeftJoin(left, right, lkey, rkey);
      assert out == head + tail;
      forall i | 0 <= i < |left| ensures out[i].0 == left[i] {
        if i == 0 {
          assert out[0] == head[0];
        } else {
          assert out[i] == tail[i - 1];
          assert left[1..][i - 1] == left[i];
        }
      }
    }
  }
}
