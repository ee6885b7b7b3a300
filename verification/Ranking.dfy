/** Facts about the recency order of rows. */
module Ranking {
  import opened Prelude
  import opened Tables

  lemma RankedMembers(rows: seq<Row>, r: Row)
    ensures r in Ranked(rows) <==> r in rows
    ensures |Ranked(rows)| == |rows|
  {
    assert r in multiset(Ranked(rows)) <==> r in multiset(rows);
    assert |multiset(Ranked(rows))| == |multiset(rows)|;
  }

  lemma {:induction false} RankInsertDescends(r: Row, s: seq<Row>)
    requires Descends(s)
    ensures Descends(RankInsert(r, s))
  {
    if s != [] && !Before(r, s[0]) {
      RankInsertDescends(r, s[1..]);
      var rest := RankInsert(r, s[1..]);
      forall j | 0 <= j < |rest| ensures Before(s[0], rest[j]) {
        assert rest[j] in multiset(rest);
        assert rest[j] == r || rest[j] in s[1..];
      }
    }
  }

  lemma {:induction false} RankedDescends(rows: seq<Row>)
    ensures Descends(Ranked(rows))
  {
    if rows != [] {
      RankedDescends(rows[1..]);
      RankInsertDescends(rows[0], Ranked(rows[1..]));
    }
  }

  /** The modelled order is one of those SQL may choose. */
  lemma RankedIsRecencyOrder(rows: seq<Row>)
    ensures RecencyOrder(Ranked(rows), rows)
  {
    RankedDescends(rows);
  }

  /** Rows without a repeated id or stamp are told apart by it, in any order of them. */
  lemma DistinctInAnyOrder(rows: seq<Row>, order: seq<Row>)
    requires DistinctStamps(rows) && multiset(order) == multiset(rows)
    ensures DistinctStamps(order)
  {
    forall i, j | 0 <= i < j < |order| ensures order[i].lastUsedAt != order[j].lastUsedAt {
      var x, y := order[i], order[j];
      assert x in multiset(order) && y in multiset(order);
      var a :| 0 <= a < |rows| && rows[a] == x;
      var b :| 0 <= b < |rows| && rows[b] == y;
      if x == y {
        TwoPlaces(order, i, j);
        AtMostOnce(rows, x);
      }
    }
  }

  lemma {:induction false} AtMostOnce(rows: seq<Row>, x: Row)
    requires DistinctStamps(rows)
    ensures multiset(rows)[x] <= 1
  {
    if rows != [] {
      AtMostOnce(rows[1..], x);
      assert rows == [rows[0]] + rows[1..];
      if rows[0] == x {
        assert x !in rows[1..];
      }
    }
  }

  /** With distinct stamps there is only one recency order. */
  lemma RecencyOrderUnique(rows: seq<Row>, order: seq<Row>)
    requires DistinctStamps(rows) && RecencyOrder(order, rows)
    ensures NewestFirst(order) && order == Ranked(rows)
  {
    RankedDescends(rows);
    DistinctInAnyOrder(rows, order);
    DistinctInAnyOrder(rows, Ranked(rows));
    forall r ensures r in order <==> r in Ranked(rows) {
      assert r in multiset(order) <==> r in multiset(Ranked(rows));
    }
    NewestFirstUnique(order, Ranked(rows));
  }

  lemma {:induction false} NewestFirstUnique(a: seq<Row>, b: seq<Row>)
    requires NewestFirst(a) && NewestFirst(b) && forall r :: r in a <==> r in b
    ensures a == b
  {
    if a != [] && b != [] {
      assert a[0] in b && b[0] in a;
      assert a[0] == b[0];
      forall r ensures r in a[1..] <==> r in b[1..] {
        TailIsOlder(a, r);
        TailIsOlder(b, r);
      }
      NewestFirstUnique(a[1..], b[1..]);
      assert a == [a[0]] + a[1..] && b == [b[0]] + b[1..];
    } else {
      HasMember(a);
      HasMember(b);
    }
  }

  lemma TailIsOlder(a: seq<Row>, r: Row)
    requires a != [] && NewestFirst(a)
    ensures r in a[1..] <==> r in a && r != a[0]
  {
    assert a == [a[0]] + a[1..];
  }

  lemma RankedNewestFirst(rows: seq<Row>)
    requires DistinctStamps(rows)
    ensures NewestFirst(Ranked(rows))
  {
    RankedIsRecencyOrder(rows);
    RecencyOrderUnique(rows, Ranked(rows));
  }

  /** How to recognise the ranking of some rows. */
  lemma RankedIs(rows: seq<Row>, order: seq<Row>)
    requires DistinctStamps(rows) && NewestFirst(order) && forall r :: r in order <==> r in rows
    ensures Ranked(rows) == order
  {
    RankedNewestFirst(rows);
    forall r ensures r in order <==> r in Ranked(rows) {
      RankedMembers(rows, r);
    }
    NewestFirstUnique(order, Ranked(rows));
  }

  lemma {:induction false} WhereKeepsDistinct(rows: seq<Row>, ids: set<nat>)
    requires DistinctStamps(rows)
    ensures DistinctStamps(Where(rows, ids))
  {
    if rows != [] {
      WhereKeepsDistinct(rows[1..], ids);
      WhereMembers(rows[1..], ids);
      var rest := Where(rows[1..], ids);
      forall j | 0 <= j < |rest| ensures rows[0].lastUsedAt != rest[j].lastUsedAt {
        assert rest[j] in rest;
        var k :| 0 <= k < |rows[1..]| && rows[1..][k] == rest[j];
      }
    }
  }

  lemma IdIsKey(rows: seq<Row>, r: Row, s: Row)
    requires IdsAscend(rows) && r in rows && s in rows && r.id == s.id
    ensures r == s
  {
    var i :| 0 <= i < |rows| && rows[i] == r;
    var j :| 0 <= j < |rows| && rows[j] == s;
  }

  /** Keeping the rows of a prefix of the ranking leaves exactly that prefix. */
  lemma WherePrefix(rows: seq<Row>, n: nat)
    requires IdsAscend(rows) && n <= |Ranked(rows)|
    ensures forall r :: r in Where(rows, Ids(Ranked(rows)[..n])) <==> r in Ranked(rows)[..n]
  {
    var top := Ranked(rows)[..n];
    WhereMembers(rows, Ids(top));
    forall r ensures r in Where(rows, Ids(top)) <==> r in top {
      RankedMembers(rows, r);
      if r in Where(rows, Ids(top)) {
        var s :| s in top && s.id == r.id;
        RankedMembers(rows, s);
        IdIsKey(rows, r, s);
      }
    }
  }

  lemma RankedPrefix(rows: seq<Row>, n: nat)
    requires IdsAscend(rows) && DistinctStamps(rows) && n <= |Ranked(rows)|
    ensures Ranked(Where(rows, Ids(Ranked(rows)[..n]))) == Ranked(rows)[..n]
  {
    WherePrefix(rows, n);
    WhereKeepsDistinct(rows, Ids(Ranked(rows)[..n]));
    RankedNewestFirst(rows);
    RankedIs(Where(rows, Ids(Ranked(rows)[..n])), Ranked(rows)[..n]);
  }
}
