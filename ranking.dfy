/**
  Search results and their order. A result is the tuple
  `(score, id, path, snippet, clicks)` and results are ranked with
  a descending sort, i.e. by Python's lexicographic tuple order,
  largest first.
*/
module Ranking {

  /** One search result. */
  datatype Scored = Scored(score: real, id: int, path: string, snippet: string, clicks: nat)

  /** Python's `a < b` on strings: lexicographic by code point, a proper prefix first. */
  predicate StrLt(a: string, b: string) {
    if a == [] then b != []
    else if b == [] then false
    else if a[0] != b[0] then a[0] < b[0]
    else StrLt(a[1..], b[1..])
  }

  lemma {:induction false} StrLtIrreflexive(a: string)
    ensures !StrLt(a, a)
  {
    if a != [] {
      StrLtIrreflexive(a[1..]);
    }
  }

  lemma {:induction false} StrLtTotal(a: string, b: string)
    ensures a == b || StrLt(a, b) || StrLt(b, a)
  {
    if a != [] && b != [] && a[0] == b[0] {
      StrLtTotal(a[1..], b[1..]);
      if a[1..] == b[1..] {
        assert a == [a[0]] + a[1..] && b == [b[0]] + b[1..];
      }
    }
  }

  lemma {:induction false} StrLtAsymmetric(a: string, b: string)
    ensures !(StrLt(a, b) && StrLt(b, a))
  {
    if a != [] && b != [] && a[0] == b[0] {
      StrLtAsymmetric(a[1..], b[1..]);
    }
  }

  lemma {:induction false} StrLtTransitive(a: string, b: string, c: string)
    requires StrLt(a, b) && StrLt(b, c)
    ensures StrLt(a, c)
  {
    if a != [] && a[0] == b[0] && b[0] == c[0] {
      StrLtTransitive(a[1..], b[1..], c[1..]);
    }
  }

  /** `a > b` in tuple order. */
  predicate Gt(a: Scored, b: Scored) {
    || a.score > b.score
    || (a.score == b.score && a.id > b.id)
    || (a.score == b.score && a.id == b.id && StrLt(b.path, a.path))
    || (a.score == b.score && a.id == b.id && a.path == b.path && StrLt(b.snippet, a.snippet))
    || (a.score == b.score && a.id == b.id && a.path == b.path && a.snippet == b.snippet && a.clicks > b.clicks)
  }

  /** `a >= b` in tuple order. */
  predicate Ge(a: Scored, b: Scored) {
    a == b || Gt(a, b)
  }

  /** Tuple order is a total order: any two results compare, and only equal tuples both ways. */
  lemma GeTotal(a: Scored, b: Scored)
    ensures Ge(a, b) || Ge(b, a)
    ensures Ge(a, b) && Ge(b, a) ==> a == b
  {
    StrLtTotal(a.path, b.path);
    StrLtTotal(a.snippet, b.snippet);
    StrLtAsymmetric(a.path, b.path);
    StrLtAsymmetric(a.snippet, b.snippet);
    StrLtIrreflexive(a.path);
    StrLtIrreflexive(a.snippet);
  }

  lemma GeTransitive(a: Scored, b: Scored, c: Scored)
    requires Ge(a, b) && Ge(b, c)
    ensures Ge(a, c)
  {
    if a != b && b != c {
      if a.score == b.score == c.score && a.id == b.id == c.id {
        if StrLt(b.path, a.path) && StrLt(c.path, b.path) {
          StrLtTransitive(c.path, b.path, a.path);
        }
        if a.path == b.path == c.path && StrLt(b.snippet, a.snippet) && StrLt(c.snippet, b.snippet) {
          StrLtTransitive(c.snippet, b.snippet, a.snippet);
        }
      }
    }
  }

  /** Non-increasing in tuple order. */
  predicate Sorted(s: seq<Scored>) {
    forall i, j :: 0 <= i < j < |s| ==> Ge(s[i], s[j])
  }

  /** Put `x` in front of the first element it is not below. */
  function Insert(x: Scored, s: seq<Scored>): seq<Scored> {
    if s == [] then [x]
    else if Ge(x, s[0]) then [x] + s
    else [s[0]] + Insert(x, s[1..])
  }

  /** The descending sort by tuple order, computed by insertion. */
  function SortDesc(s: seq<Scored>): seq<Scored> {
    if s == [] then [] else Insert(s[0], SortDesc(s[1..]))
  }

  lemma {:induction false} InsertSorted(x: Scored, s: seq<Scored>)
    requires Sorted(s)
    ensures Sorted(Insert(x, s)) && multiset(Insert(x, s)) == multiset(s) + multiset{x}
  {
    if s == [] {
    } else if Ge(x, s[0]) {
      forall j | 0 < j < |s| ensures Ge(x, s[j]) {
        GeTransitive(x, s[0], s[j]);
      }
      assert s == [s[0]] + s[1..];
    } else {
      GeTotal(x, s[0]);
      InsertSorted(x, s[1..]);
      var rest := Insert(x, s[1..]);
      assert s == [s[0]] + s[1..];
      forall y | y in rest ensures Ge(s[0], y) {
        assert y in multiset(rest);
      }
    }
  }

  /** `SortDesc(s)` is sorted, largest first, and a permutation of `s`. */
  lemma {:induction false} SortDescSpec(s: seq<Scored>)
    ensures Sorted(SortDesc(s)) && multiset(SortDesc(s)) == multiset(s)
  {
    if s != [] {
      SortDescSpec(s[1..]);
      InsertSorted(s[0], SortDesc(s[1..]));
      assert s == [s[0]] + s[1..];
    }
  }

  lemma SortedFirstGe(s: seq<Scored>, x: Scored)
    requires Sorted(s) && x in s
    ensures Ge(s[0], x)
  {
    var k :| 0 <= k < |s| && s[k] == x;
    if k > 0 {
      assert Ge(s[0], s[k]);
    }
  }

  lemma MultisetTail(a: seq<Scored>, b: seq<Scored>)
    requires a != [] && b != [] && a[0] == b[0] && multiset(a) == multiset(b)
    ensures multiset(a[1..]) == multiset(b[1..])
  {
    assert a == [a[0]] + a[1..];
    assert b == [b[0]] + b[1..];
    assert multiset(a[1..]) == multiset(a) - multiset{a[0]};
    assert multiset(b[1..]) == multiset(b) - multiset{b[0]};
  }

  /**
    A sorted permutation is unique, so any sort, stable or not, that orders
    by the whole tuple produces exactly `SortDesc(s)`.
  */
  lemma {:induction false} SortedUnique(a: seq<Scored>, b: seq<Scored>)
    requires Sorted(a) && Sorted(b) && multiset(a) == multiset(b)
    ensures a == b
    decreases |a|
  {
    if a == [] {
      assert |multiset(b)| == 0;
    } else {
      assert a[0] in multiset(b);
      assert b[0] in multiset(a);
      SortedFirstGe(b, a[0]);
      SortedFirstGe(a, b[0]);
      GeTotal(a[0], b[0]);
      MultisetTail(a, b);
      SortedUnique(a[1..], b[1..]);
      assert a == [a[0]] + a[1..] && b == [b[0]] + b[1..];
    }
  }

  /** The ids of a list of results. */
  function Ids(s: seq<Scored>): set<int> {
    set i | 0 <= i < |s| :: s[i].id
  }

  /** No id occurs twice. */
  predicate DistinctIds(s: seq<Scored>) {
    forall i, j :: 0 <= i < j < |s| ==> s[i].id != s[j].id
  }

  lemma IdsCons(x: Scored, s: seq<Scored>)
    ensures Ids([x] + s) == {x.id} + Ids(s)
    ensures DistinctIds([x] + s) <==> DistinctIds(s) && x.id !in Ids(s)
  {
    var r := [x] + s;
    forall v | v in Ids(r) ensures v in {x.id} + Ids(s) {
      var i :| 0 <= i < |r| && r[i].id == v;
      if i > 0 {
        assert s[i - 1].id == v;
      }
    }
    forall v | v in {x.id} + Ids(s) ensures v in Ids(r) {
      if v == x.id {
        assert r[0].id == v;
      } else {
        var i :| 0 <= i < |s| && s[i].id == v;
        assert r[i + 1].id == v;
      }
    }
    if DistinctIds(r) {
      forall i, j | 0 <= i < j < |s| ensures s[i].id != s[j].id {
        assert s[i] == r[i + 1] && s[j] == r[j + 1];
      }
      forall i | 0 <= i < |s| ensures s[i].id != x.id {
        assert r[0] == x && r[i + 1] == s[i];
        assert r[0].id != r[i + 1].id;
      }
    }
    if DistinctIds(s) && x.id !in Ids(s) {
      forall i, j | 0 <= i < j < |r| ensures r[i].id != r[j].id {
        assert r[j] == s[j - 1];
        if i == 0 {
          assert s[j - 1].id in Ids(s);
        } else {
          assert r[i] == s[i - 1];
        }
      }
    }
  }

  lemma {:induction false} InsertIds(x: Scored, s: seq<Scored>)
    requires DistinctIds(s) && x.id !in Ids(s)
    ensures DistinctIds(Insert(x, s)) && Ids(Insert(x, s)) == Ids(s) + {x.id}
  {
    if s == [] {
      IdsCons(x, s);
    } else if Ge(x, s[0]) {
      IdsCons(x, s);
    } else {
      assert s == [s[0]] + s[1..];
      IdsCons(s[0], s[1..]);
      InsertIds(x, s[1..]);
      IdsCons(s[0], Insert(x, s[1..]));
    }
  }

  /** Sorting keeps the set of ids, and keeps them distinct. */
  lemma {:induction false} SortDescIds(s: seq<Scored>)
    requires DistinctIds(s)
    ensures DistinctIds(SortDesc(s)) && Ids(SortDesc(s)) == Ids(s)
  {
    if s != [] {
      assert s == [s[0]] + s[1..];
      IdsCons(s[0], s[1..]);
      SortDescIds(s[1..]);
      InsertIds(s[0], SortDesc(s[1..]));
    }
  }

  /** The first `k` results, or all of them when there are fewer. */
  function Take(s: seq<Scored>, k: nat): (r: seq<Scored>)
    ensures |r| <= k && |r| <= |s|
    ensures |r| == if |s| < k then |s| else k
    ensures r == s[..|r|]
  {
    if |s| <= k then s else s[..k]
  }

  /**
    The first `k` results of the sort are the `k` largest: sorted, drawn from
    `s`, as many as `s` has up to `k`, none ranked below a result left out,
    and with distinct ids when `s` has them.
  */
  lemma TopSpec(s: seq<Scored>, k: nat)
    ensures var r := Take(SortDesc(s), k);
      && |r| == (if |s| < k then |s| else k)
      && Sorted(r)
      && (forall x :: x in r ==> x in s)
      && (forall x, y :: x in r && y in s && y !in r ==> Ge(x, y))
      && (DistinctIds(s) ==> DistinctIds(r))
  {
    var sorted := SortDesc(s);
    var r := Take(sorted, k);
    SortDescSpec(s);
    assert |sorted| == |multiset(sorted)| == |multiset(s)| == |s|;
    forall x | x in r ensures x in s {
      assert x in multiset(sorted);
    }
    forall x, y | x in r && y in s && y !in r ensures Ge(x, y) {
      assert y in multiset(sorted);
      var i :| 0 <= i < |r| && r[i] == x;
      var j :| 0 <= j < |sorted| && sorted[j] == y;
      assert j >= |r|;
    }
    if DistinctIds(s) {
      SortDescIds(s);
    }
  }
}
