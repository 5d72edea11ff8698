/**
 * The summary query `group details by status into s select {status, count}`.
 * LINQ's `GroupBy` walks its source once, adding each element to the group of
 * its key or opening a new group at the end when the key is new, so groups
 * come out in the order their key first occurs. `CountByStatus` is that walk,
 * fused with `Count()`; `GroupedCountOf` is an independent description of the
 * result, and the lemmas below show the two agree.
 */
module Grouping {

  /** One row of the report: a status and how many orders have it. */
  datatype ReportEntry = ReportEntry(status: int, count: nat)

  /** Some group of `groups` has key `s`. */
  ghost predicate HasKey(groups: seq<ReportEntry>, s: int)
  {
    exists i :: 0 <= i < |groups| && groups[i].status == s
  }

  /** No two groups share a key. */
  ghost predicate DistinctKeys(groups: seq<ReportEntry>)
  {
    forall i, j :: 0 <= i < j < |groups| ==> groups[i].status != groups[j].status
  }

  /** The position where `x` first occurs in `xs`. */
  function FirstIndex(xs: seq<int>, x: int): (k: nat)
    requires x in xs
    ensures k < |xs| && xs[k] == x
    ensures x !in xs[..k]
  {
    if xs[0] == x then 0 else 1 + FirstIndex(xs[1..], x)
  }

  /** The sum of the counts of a report. */
  function TotalCount(groups: seq<ReportEntry>): (total: nat)
  {
    if groups == [] then 0 else groups[0].count + TotalCount(groups[1..])
  }

  /**
   * What a correct grouped count of `xs` is: keys pairwise distinct, every
   * key taken from `xs` with its multiplicity there as count, every element
   * of `xs` under some key, and keys ordered by their first occurrence.
   */
  ghost predicate GroupedCountOf(xs: seq<int>, groups: seq<ReportEntry>)
  {
    && DistinctKeys(groups)
    && (forall i :: 0 <= i < |groups| ==>
          groups[i].status in xs && groups[i].count == multiset(xs)[groups[i].status])
    && (forall x :: x in xs ==> HasKey(groups, x))
    && (forall i, j :: 0 <= i < j < |groups| ==>
          FirstIndex(xs, groups[i].status) < FirstIndex(xs, groups[j].status))
  }

  /** Adds one element with key `s`: bumps the group of `s`, or opens it at the end. */
  function Bump(groups: seq<ReportEntry>, s: int): (r: seq<ReportEntry>)
    ensures |groups| <= |r| <= |groups| + 1
    ensures forall i :: 0 <= i < |r| ==> r[i].status == s || HasKey(groups, r[i].status)
  {
    if groups == [] then [ReportEntry(s, 1)]
    else if groups[0].status == s then [groups[0].(count := groups[0].count + 1)] + groups[1..]
    else [groups[0]] + Bump(groups[1..], s)
  }

  /** Groups `xs` by value and counts each group, walking `xs` from the front. */
  function CountByStatus(xs: seq<int>): (r: seq<ReportEntry>)
    ensures |r| <= |xs|
    ensures forall i :: 0 <= i < |r| ==> r[i].status in xs
  {
    if xs == [] then [] else Bump(CountByStatus(xs[..|xs| - 1]), xs[|xs| - 1])
  }

  /** With distinct keys, `Bump` adds one to the group of `s` if there is one, else appends `(s, 1)`. */
  lemma {:induction false} BumpShape(groups: seq<ReportEntry>, s: int)
    requires DistinctKeys(groups)
    ensures HasKey(groups, s) ==>
      |Bump(groups, s)| == |groups| &&
      forall i :: 0 <= i < |groups| ==>
        Bump(groups, s)[i] == if groups[i].status == s then groups[i].(count := groups[i].count + 1) else groups[i]
    ensures !HasKey(groups, s) ==> Bump(groups, s) == groups + [ReportEntry(s, 1)]
  {
    if groups != [] && groups[0].status != s {
      var tail := groups[1..];
      assert DistinctKeys(tail) by {
        forall i, j | 0 <= i < j < |tail| ensures tail[i].status != tail[j].status {
          assert tail[i] == groups[i + 1] && tail[j] == groups[j + 1];
        }
      }
      BumpShape(tail, s);
      assert HasKey(groups, s) ==> HasKey(tail, s) by {
        if HasKey(groups, s) {
          var i :| 0 <= i < |groups| && groups[i].status == s;
          assert tail[i - 1].status == s;
        }
      }
      assert !HasKey(groups, s) ==> !HasKey(tail, s) by {
        if HasKey(tail, s) {
          var i :| 0 <= i < |tail| && tail[i].status == s;
          assert groups[i + 1].status == s;
        }
      }
    } else if groups != [] {
      assert HasKey(groups, s) by { assert groups[0].status == s; }
    }
  }

  /** Adding one element raises the total by one. */
  lemma {:induction false} BumpTotal(groups: seq<ReportEntry>, s: int)
    ensures TotalCount(Bump(groups, s)) == TotalCount(groups) + 1
  {
    if groups != [] && groups[0].status != s {
      BumpTotal(groups[1..], s);
      assert Bump(groups, s)[1..] == Bump(groups[1..], s);
    } else if groups != [] {
      assert Bump(groups, s)[1..] == groups[1..];
    }
  }

  /** The counts of a grouping sum to the number of grouped elements. */
  lemma {:induction false} CountByStatusTotal(xs: seq<int>)
    ensures TotalCount(CountByStatus(xs)) == |xs|
  {
    if xs != [] {
      CountByStatusTotal(xs[..|xs| - 1]);
      BumpTotal(CountByStatus(xs[..|xs| - 1]), xs[|xs| - 1]);
    }
  }

  /** Appending an element does not move the first occurrence of an earlier value. */
  lemma FirstIndexSnoc(ys: seq<int>, y: int, x: int)
    requires x in ys
    ensures FirstIndex(ys + [y], x) == FirstIndex(ys, x)
  {
    var k, k' := FirstIndex(ys, x), FirstIndex(ys + [y], x);
    assert (ys + [y])[k] == x;
    assert (ys + [y])[..k'] == ys[..k'];
  }

  /** A new value first occurs at the position it is appended at. */
  lemma FirstIndexAppended(ys: seq<int>, x: int)
    requires x !in ys
    ensures FirstIndex(ys + [x], x) == |ys|
  {
  }

  /** Adding an element whose key already has a group keeps the description true. */
  lemma BumpExisting(ys: seq<int>, g: seq<ReportEntry>, x: int)
    requires GroupedCountOf(ys, g)
    requires HasKey(g, x)
    ensures GroupedCountOf(ys + [x], Bump(g, x))
  {
    var xs, r := ys + [x], Bump(g, x);
    BumpShape(g, x);
    assert multiset(xs) == multiset(ys) + multiset{x};
    assert forall i :: 0 <= i < |r| ==> r[i].status == g[i].status;
    forall i | 0 <= i < |r| ensures r[i].status in xs && r[i].count == multiset(xs)[r[i].status] {
      assert r[i].status == g[i].status;
    }
    forall z | z in xs ensures HasKey(r, z) {
      var i :| 0 <= i < |g| && g[i].status == z;
      assert r[i].status == z;
    }
    forall i, j | 0 <= i < j < |r| ensures FirstIndex(xs, r[i].status) < FirstIndex(xs, r[j].status) {
      FirstIndexSnoc(ys, x, r[i].status);
      FirstIndexSnoc(ys, x, r[j].status);
    }
  }

  /** Adding an element with a new key, which opens a group at the end, keeps the description true. */
  lemma BumpNew(ys: seq<int>, g: seq<ReportEntry>, x: int)
    requires GroupedCountOf(ys, g)
    requires !HasKey(g, x)
    ensures GroupedCountOf(ys + [x], Bump(g, x))
  {
    var xs, r := ys + [x], Bump(g, x);
    BumpShape(g, x);
    assert r == g + [ReportEntry(x, 1)];
    assert x !in ys;
    assert multiset(xs) == multiset(ys) + multiset{x};
    FirstIndexAppended(ys, x);
    forall i | 0 <= i < |r| ensures r[i].status in xs && r[i].count == multiset(xs)[r[i].status] {
      if i < |g| {
        assert r[i] == g[i];
      }
    }
    forall z | z in xs ensures HasKey(r, z) {
      if z in ys {
        var i :| 0 <= i < |g| && g[i].status == z;
        assert r[i].status == z;
      } else {
        assert r[|g|].status == z;
      }
    }
    forall i, j | 0 <= i < j < |r| ensures FirstIndex(xs, r[i].status) < FirstIndex(xs, r[j].status) {
      assert r[i] == g[i];
      FirstIndexSnoc(ys, x, r[i].status);
      if j < |g| {
        assert r[j] == g[j];
        FirstIndexSnoc(ys, x, r[j].status);
      }
    }
  }

  /** The walk meets the description: `CountByStatus(xs)` is a grouped count of `xs`. */
  lemma {:induction false} CountByStatusCorrect(xs: seq<int>)
    ensures GroupedCountOf(xs, CountByStatus(xs))
  {
    if xs != [] {
      var ys, x := xs[..|xs| - 1], xs[|xs| - 1];
      assert xs == ys + [x];
      CountByStatusCorrect(ys);
      if HasKey(CountByStatus(ys), x) {
        BumpExisting(ys, CountByStatus(ys), x);
      } else {
        BumpNew(ys, CountByStatus(ys), x);
      }
    }
  }

  /** The keys of a report, in report order: the same projection as `Orders.Statuses`, over report rows. */
  function Keys(groups: seq<ReportEntry>): seq<int>
  {
    seq(|groups|, i requires 0 <= i < |groups| => groups[i].status)
  }

  /** Every key of `a` occurs in `xs`, and the keys are in strictly increasing order of first occurrence. */
  ghost predicate OrderedKeys(xs: seq<int>, a: seq<int>)
  {
    && (forall k :: k in a ==> k in xs)
    && (forall i, j :: 0 <= i < j < |a| ==> FirstIndex(xs, a[i]) < FirstIndex(xs, a[j]))
  }

  /** Of two ordered key sequences with the same keys, the first keys agree. */
  lemma OrderedKeysSameHead(xs: seq<int>, a: seq<int>, b: seq<int>)
    requires OrderedKeys(xs, a) && OrderedKeys(xs, b)
    requires forall k :: k in a <==> k in b
    requires a != []
    ensures b != [] && b[0] == a[0]
  {
    assert a[0] in a;
    var j :| 0 <= j < |b| && b[j] == a[0];
    assert b[0] in b;
  }

  /** Dropping an ordered key sequence's first key leaves exactly the other keys. */
  lemma OrderedKeysTail(xs: seq<int>, a: seq<int>, k: int)
    requires OrderedKeys(xs, a) && a != []
    ensures OrderedKeys(xs, a[1..])
    ensures k in a[1..] <==> k in a && k != a[0]
  {
  }

  /** Two sequences with the same members are both empty or both not. */
  lemma SameKeysEmpty(a: seq<int>, b: seq<int>)
    requires forall k :: k in a <==> k in b
    ensures a == [] <==> b == []
  {
    if a != [] {
      var k := a[0];
      assert k in a && k in b;
    }
    if b != [] {
      var k := b[0];
      assert k in b && k in a;
    }
  }

  /** Two ordered key sequences holding the same keys are equal. */
  lemma {:induction false} OrderedKeysUnique(xs: seq<int>, a: seq<int>, b: seq<int>)
    requires OrderedKeys(xs, a) && OrderedKeys(xs, b)
    requires forall k :: k in a <==> k in b
    ensures a == b
  {
    SameKeysEmpty(a, b);
    if a != [] {
      OrderedKeysSameHead(xs, a, b);
      forall k ensures k in a[1..] <==> k in b[1..] {
        OrderedKeysTail(xs, a, k);
        OrderedKeysTail(xs, b, k);
      }
      OrderedKeysTail(xs, a, a[0]);
      OrderedKeysTail(xs, b, b[0]);
      OrderedKeysUnique(xs, a[1..], b[1..]);
      assert a == [a[0]] + a[1..] && b == [b[0]] + b[1..];
    }
  }

  /** The description determines the report: two grouped counts of `xs` are equal. */
  lemma GroupedCountUnique(xs: seq<int>, g1: seq<ReportEntry>, g2: seq<ReportEntry>)
    requires GroupedCountOf(xs, g1) && GroupedCountOf(xs, g2)
    ensures g1 == g2
  {
    var a, b := Keys(g1), Keys(g2);
    forall k ensures k in a <==> k in b {
      if k in a {
        var i :| 0 <= i < |a| && a[i] == k;
        assert HasKey(g2, k);
        var j :| 0 <= j < |g2| && g2[j].status == k;
        assert b[j] == k;
      }
      if k in b {
        var i :| 0 <= i < |b| && b[i] == k;
        assert HasKey(g1, k);
        var j :| 0 <= j < |g1| && g1[j].status == k;
        assert a[j] == k;
      }
    }
    OrderedKeysUnique(xs, a, b);
    assert |g1| == |g2|;
    forall i | 0 <= i < |g1| ensures g1[i] == g2[i] {
      assert a[i] == b[i];
    }
  }

  /** A report row is present exactly when its status occurs and its count is that status's multiplicity. */
  lemma GroupedCountMembership(xs: seq<int>, groups: seq<ReportEntry>, e: ReportEntry)
    requires GroupedCountOf(xs, groups)
    ensures e in groups <==> e.status in xs && e.count == multiset(xs)[e.status]
  {
  }

  /** Reordering the grouped elements keeps the same rows; only their order may change. */
  lemma CountByStatusPermutation(xs: seq<int>, ys: seq<int>)
    requires multiset(xs) == multiset(ys)
    ensures forall e :: e in CountByStatus(xs) <==> e in CountByStatus(ys)
  {
    CountByStatusCorrect(xs);
    CountByStatusCorrect(ys);
    forall e ensures e in CountByStatus(xs) <==> e in CountByStatus(ys) {
      GroupedCountMembership(xs, CountByStatus(xs), e);
      GroupedCountMembership(ys, CountByStatus(ys), e);
      assert e.status in xs <==> e.status in multiset(xs);
      assert e.status in ys <==> e.status in multiset(ys);
    }
  }

  /** Pairwise distinct keys drawn from `allowed` are at most as many as `allowed`. */
  lemma {:induction false} KeysWithin(ks: seq<int>, allowed: set<int>)
    requires forall i, j :: 0 <= i < j < |ks| ==> ks[i] != ks[j]
    requires forall i :: 0 <= i < |ks| ==> ks[i] in allowed
    ensures |ks| <= |allowed|
  {
    if ks != [] {
      var rest := allowed - {ks[0]};
      forall i | 0 <= i < |ks[1..]| ensures ks[1..][i] in rest {
        assert ks[1..][i] == ks[i + 1];
      }
      forall i, j | 0 <= i < j < |ks[1..]| ensures ks[1..][i] != ks[1..][j] {
        assert ks[1..][i] == ks[i + 1] && ks[1..][j] == ks[j + 1];
      }
      KeysWithin(ks[1..], rest);
    }
  }

  /** When every element is one of the four statuses, a grouped count has at most four rows. */
  lemma AtMostFourGroups(xs: seq<int>, groups: seq<ReportEntry>)
    requires GroupedCountOf(xs, groups)
    requires forall x :: x in xs ==> 1 <= x <= 4
    ensures |groups| <= 4
    ensures forall i :: 0 <= i < |groups| ==> 1 <= groups[i].status <= 4 && groups[i].count >= 1
  {
    forall i | 0 <= i < |groups| ensures groups[i].count >= 1 {
      assert groups[i].status in multiset(xs);
    }
    var ks := Keys(groups);
    assert forall i, j :: 0 <= i < j < |ks| ==> ks[i] != ks[j];
    KeysWithin(ks, {1, 2, 3, 4});
    assert |{1, 2, 3, 4}| == 4;
  }

  /** An empty input gives an empty report. */
  lemma EmptyGroupedCount(groups: seq<ReportEntry>)
    requires GroupedCountOf([], groups)
    ensures groups == []
  {
    KeysWithin(Keys(groups), {});
  }

  /** The example of statuses A, B, A, C: rows (A, 2), (B, 1), (C, 1), in that order. */
  lemma CountByStatusExample(a: int, b: int, c: int)
    requires a != b && b != c && a != c
    ensures CountByStatus([a, b, a, c]) == [ReportEntry(a, 2), ReportEntry(b, 1), ReportEntry(c, 1)]
  {
    assert [a, b, a, c][..3] == [a, b, a];
    assert [a, b, a][..2] == [a, b];
    assert [a, b][..1] == [a];
    assert [a][..0] == [];
    var one := [ReportEntry(a, 1)];
    assert CountByStatus([a]) == one;
    assert Bump(one, b) == [ReportEntry(a, 1)] + Bump([], b);
    var two := [ReportEntry(a, 1), ReportEntry(b, 1)];
    assert CountByStatus([a, b]) == two;
    var three := [ReportEntry(a, 2), ReportEntry(b, 1)];
    assert Bump(two, a) == [ReportEntry(a, 2)] + two[1..];
    assert CountByStatus([a, b, a]) == three;
    assert Bump(three, c) == [three[0]] + Bump(three[1..], c);
    assert three[1..] == [ReportEntry(b, 1)];
    assert Bump(three[1..], c) == [three[1]] + Bump(three[1..][1..], c);
    assert three[1..][1..] == [];
    assert CountByStatus([a, b, a, c]) == Bump(three, c);
    assert Bump(three, c) == [three[0], three[1], ReportEntry(c, 1)];
    assert [three[0], three[1], ReportEntry(c, 1)] == [ReportEntry(a, 2), ReportEntry(b, 1), ReportEntry(c, 1)];
  }
}
