/** What trimming leaves, whatever the order in which SQL lists rows used at the same instant. */
module Trimming {
  import opened Prelude
  import opened Recency
  import opened Tables
  import opened Ranking

  /** No row that stayed was used before one that went. */
  ghost predicate RecencyClosed(before: seq<Row>, after: seq<Row>) {
    forall r, s :: r in after && s in before && s !in after ==> r.lastUsedAt >= s.lastUsedAt
  }

  // ----- sums over permutations

  lemma {:induction false} TotalWithout(rows: seq<Row>, k: nat)
    requires k < |rows|
    ensures TotalSize(Items(rows)) == TotalSize(Items(rows[..k] + rows[k + 1..])) + rows[k].size
  {
    TotalSizeAppend(Items(rows[..k]), Items(rows[k..]));
    TotalSizeAppend(Items(rows[..k]), Items(rows[k + 1..]));
    assert Items(rows) == Items(rows[..k]) + Items(rows[k..]);
    assert Items(rows[..k] + rows[k + 1..]) == Items(rows[..k]) + Items(rows[k + 1..]);
    assert Items(rows[k..])[1..] == Items(rows[k + 1..]);
  }

  /** Taking one occurrence of the same row out of two permutations leaves two permutations. */
  lemma PermutationTail(a: seq<Row>, b: seq<Row>) returns (k: nat)
    requires a != [] && multiset(a) == multiset(b)
    ensures k < |b| && b[k] == a[0] && multiset(a[1..]) == multiset(b[..k] + b[k + 1..])
  {
    PermutationFacts(a, b);
    assert a[0] in b;
    k :| 0 <= k < |b| && b[k] == a[0];
    WithoutAt(a, 0);
    WithoutAt(b, k);
    assert a[..0] + a[1..] == a[1..];
    SameRest(multiset(a[1..]), multiset(b[..k] + b[k + 1..]), a[0]);
  }

  lemma SameRest(m: multiset<Row>, n: multiset<Row>, r: Row)
    requires m + multiset{r} == n + multiset{r}
    ensures m == n
  {
    assert m == (m + multiset{r}) - multiset{r};
  }

  lemma TotalOfTail(a: seq<Row>)
    requires a != []
    ensures TotalSize(Items(a)) == a[0].size + TotalSize(Items(a[1..]))
  {
    assert Items(a)[1..] == Items(a[1..]);
  }

  lemma {:induction false} TotalOfPermutation(a: seq<Row>, b: seq<Row>)
    requires multiset(a) == multiset(b)
    ensures TotalSize(Items(a)) == TotalSize(Items(b))
    decreases |a|
  {
    PermutationFacts(a, b);
    if a != [] {
      var k := PermutationTail(a, b);
      var rest := b[..k] + b[k + 1..];
      TotalOfTail(a);
      TotalWithout(b, k);
      TotalOfPermutation(a[1..], rest);
    }
  }

  // ----- selecting the front of an order

  lemma SelectionIsRecencyClosed(rows: seq<Row>, order: seq<Row>, n: nat)
    requires RecencyOrder(order, rows) && n <= |order|
    ensures RecencyClosed(rows, order[..n])
  {
    forall r, s | r in order[..n] && s in rows && s !in order[..n] ensures r.lastUsedAt >= s.lastUsedAt {
      assert s in multiset(rows) && s in multiset(order);
      var j :| 0 <= j < |order| && order[j] == s;
      var i :| 0 <= i < n && order[i] == r;
      assert j >= n;
    }
  }

  lemma {:induction false} IdAtMostOnce(rows: seq<Row>, x: Row)
    requires IdsAscend(rows)
    ensures multiset(rows)[x] <= 1
  {
    if rows != [] {
      IdAtMostOnce(rows[1..], x);
      assert rows == [rows[0]] + rows[1..];
      if rows[0] == x {
        assert x !in rows[1..];
      }
    }
  }

  lemma OrderIdsDiffer(rows: seq<Row>, order: seq<Row>)
    requires IdsAscend(rows) && multiset(order) == multiset(rows)
    ensures forall i, j :: 0 <= i < j < |order| ==> order[i].id != order[j].id
  {
    PermutationFacts(order, rows);
    forall i, j | 0 <= i < j < |order| ensures order[i].id != order[j].id {
      var x, y := order[i], order[j];
      assert x in rows && y in rows;
      if x.id == y.id {
        IdIsKey(rows, x, y);
        TwoPlaces(order, i, j);
        IdAtMostOnce(rows, x);
      }
    }
  }

  lemma MembersOfFront(rows: seq<Row>, order: seq<Row>, k: nat)
    requires IdsAscend(rows) && multiset(order) == multiset(rows) && k <= |order|
    ensures forall r :: r in Where(rows, Ids(order[..k])) <==> r in order[..k]
  {
    var top := order[..k];
    PermutationFacts(order, rows);
    WhereMembers(rows, Ids(top));
    forall r ensures r in Where(rows, Ids(top)) <==> r in top {
      if r in Where(rows, Ids(top)) {
        var s :| s in top && s.id == r.id;
        assert s in order;
        IdIsKey(rows, r, s);
      }
      if r in top {
        assert r in order;
      }
    }
  }

  /** Selecting by the ids of the first rows of an order leaves just those rows. */
  lemma RowsOfFront(rows: seq<Row>, order: seq<Row>, k: nat)
    requires IdsAscend(rows) && multiset(order) == multiset(rows) && k <= |order|
    ensures multiset(Where(rows, Ids(order[..k]))) == multiset(order[..k])
  {
    MembersOfFront(rows, order, k);
    WhereAscends(rows, Ids(order[..k]));
    OrderIdsDiffer(rows, order);
    SameMembersSameMultiset(Where(rows, Ids(order[..k])), order[..k]);
  }

  lemma FrontFacts(rows: seq<Row>, order: seq<Row>, k: nat)
    requires IdsAscend(rows) && RecencyOrder(order, rows) && k <= |order|
    ensures var kept := Where(rows, Ids(order[..k]));
            && |kept| == k && TotalSize(Items(kept)) == TotalSize(Items(order[..k])) && RecencyClosed(rows, kept)
  {
    RowsOfFront(rows, order, k);
    MembersOfFront(rows, order, k);
    PermutationFacts(Where(rows, Ids(order[..k])), order[..k]);
    TotalOfPermutation(Where(rows, Ids(order[..k])), order[..k]);
    SelectionIsRecencyClosed(rows, order, k);
  }

  lemma IdsOfOrder(rows: seq<Row>, order: seq<Row>)
    requires multiset(order) == multiset(rows)
    ensures Ids(order) == Ids(rows)
  {
    PermutationFacts(order, rows);
    forall n ensures n in Ids(order) <==> n in Ids(rows) {
      if r :| r in rows && r.id == n {
        assert r in order;
      }
      if r :| r in order && r.id == n {
        assert r in rows;
      }
    }
  }

  /** Keeping every row of an order keeps everything. */
  lemma WholeOrder(h: History, order: seq<Row>)
    requires WellFormed(h) && multiset(order) == multiset(h.entries)
    ensures Retain(h, Ids(order[..|order|])) == h
    ensures TotalSize(Items(h.entries)) == TotalSize(Items(order))
  {
    assert order[..|order|] == order;
    IdsOfOrder(h.entries, order);
    RetainAll(h);
    TotalOfPermutation(h.entries, order);
  }

  // ----- what a trim comes to

  lemma ItemsOfPrefix(rows: seq<Row>, k: nat)
    requires k <= |rows|
    ensures Items(rows[..k]) == Items(rows)[..k]
  {
  }

  /** Both limits hold, what stayed was used no earlier than what went, and with distinct stamps there is
      only one result. */
  lemma TrimFacts(h: History, t: History)
    requires WellFormed(h) && TrimsTo(h, t)
    ensures WellFormed(t) && RecencyClosed(h.entries, t.entries)
    ensures t.entries == [] || Fits(Items(t.entries), BoundsOf(h))
    ensures 0 <= BoundsOf(h).bytes ==> Fits(Items(t.entries), BoundsOf(h))
    ensures DistinctStamps(h.entries) ==> t == Trimmed(h)
  {
    var b := BoundsOf(h);
    var order :| TrimOrder(order, h.entries, b.count) && t == Retain(h, Ids(order[..Fitting(order, b)]));
    var k := Fitting(order, b);
    RetainKeepsWellFormed(h, Ids(order[..k]));
    FrontFacts(h.entries, order, k);
    FrontFits(order, b);
    if DistinctStamps(h.entries) {
      RecencyOrderUnique(h.entries, order);
    }
  }

  lemma FrontFits(order: seq<Row>, b: Bounds)
    ensures Fitting(order, b) == 0 || Fits(Items(order[..Fitting(order, b)]), b)
    ensures 0 <= b.bytes ==> Fits(Items(order[..Fitting(order, b)]), b)
  {
    var k := Fitting(order, b);
    ItemsOfPrefix(order, k);
    FitPrefixIsPrefix(Items(order), b);
    if k > 0 {
      FitPrefixIsLongest(Items(order), b, k);
    }
  }

  /** Bringing back the most recently used of the rows that went would break a limit. */
  lemma TrimIsMaximal(h: History, t: History) returns (r: Row)
    requires WellFormed(h) && TrimsTo(h, t) && t.entries != h.entries
    ensures r in h.entries && r !in t.entries && !Fits(Items(t.entries + [r]), BoundsOf(h))
    ensures forall s :: s in h.entries && s !in t.entries ==> s.lastUsedAt <= r.lastUsedAt
  {
    var b := BoundsOf(h);
    var order :| TrimOrder(order, h.entries, b.count) && t == Retain(h, Ids(order[..Fitting(order, b)]));
    if Fitting(order, b) == |order| {
      WholeOrder(h, order);
      assert false;
    }
    r := order[Fitting(order, b)];
    FirstGone(h, order, Fitting(order, b));
    FrontIsMaximal(h.entries, order, b);
  }

  lemma FrontIsMaximal(rows: seq<Row>, order: seq<Row>, b: Bounds)
    requires IdsAscend(rows) && RecencyOrder(order, rows) && Fitting(order, b) < |order|
    ensures !Fits(Items(Where(rows, Ids(order[..Fitting(order, b)])) + [order[Fitting(order, b)]]), b)
  {
    var k := Fitting(order, b);
    var r, kept := order[k], Where(rows, Ids(order[..k]));
    FrontFacts(rows, order, k);
    NextDoesNotFit(Items(order), b);
    FitPrefixIsPrefix(Items(order), b);
    ItemsOfPrefix(order, k);
    SameSizeSameFit(Items(kept), Items(order[..k]), Item(r.hash, r.size), b);
    assert Items(kept + [r]) == Items(kept) + [Item(r.hash, r.size)];
  }

  lemma SameSizeSameFit(a: seq<Item>, c: seq<Item>, x: Item, b: Bounds)
    requires |a| == |c| && TotalSize(a) == TotalSize(c)
    ensures Fits(a + [x], b) <==> Fits(c + [x], b)
  {
    TotalSizeAppend(a, [x]);
    TotalSizeAppend(c, [x]);
  }

  /** The first row after those kept is gone, and was used last of those gone. */
  lemma FirstGone(h: History, order: seq<Row>, k: nat)
    requires WellFormed(h) && RecencyOrder(order, h.entries) && k < |order|
    ensures order[k] in h.entries && order[k] !in Where(h.entries, Ids(order[..k]))
    ensures forall s :: s in h.entries && s !in Where(h.entries, Ids(order[..k])) ==>
              s.lastUsedAt <= order[k].lastUsedAt
  {
    PermutationFacts(order, h.entries);
    OrderIdsDiffer(h.entries, order);
    MembersOfFront(h.entries, order, k);
    forall i | 0 <= i < k ensures order[i] != order[k] {
      assert order[i].id != order[k].id;
    }
    forall s | s in h.entries && s !in order[..k] ensures s.lastUsedAt <= order[k].lastUsedAt {
      assert s in order;
      var j :| 0 <= j < |order| && order[j] == s;
      assert j >= k;
    }
  }

  lemma TrimOnlyRemoves(h: History, t: History)
    requires TrimsTo(h, t)
    ensures forall r :: r in t.entries ==> r in h.entries
  {
    var b := BoundsOf(h);
    var order :| TrimOrder(order, h.entries, b.count) && t == Retain(h, Ids(order[..Fitting(order, b)]));
    WhereMembers(h.entries, Ids(order[..Fitting(order, b)]));
  }

  /** A table within its limits is left as it is. */
  lemma FittingIsNotTrimmed(h: History, t: History)
    requires WellFormed(h) && TrimsTo(h, t)
    requires h.entries == [] || Fits(Items(h.entries), BoundsOf(h))
    ensures t == h
  {
    var b := BoundsOf(h);
    var order :| TrimOrder(order, h.entries, b.count) && t == Retain(h, Ids(order[..Fitting(order, b)]));
    WholeOrder(h, order);
    PermutationFacts(order, h.entries);
    if h.entries != [] {
      FittingIsKept(Items(order), b);
    }
  }

  /** Breaking ties by id is one of the ways to trim. */
  lemma TrimmedIsATrim(h: History)
    ensures TrimsTo(h, Trimmed(h))
  {
    RankedIsRecencyOrder(h.entries);
    RankedDescends(h.entries);
    assert TrimOrder(Ranked(h.entries), h.entries, BoundsOf(h).count);
  }

  // ----- cutting by count and then by bytes

  /** Cutting by count and then by bytes keeps the longest prefix that fits both. */
  lemma CutsMeet(l: seq<Item>, b: Bounds, n: nat, k: nat)
    requires n == (if b.count < 0 || b.count >= |l| then |l| else b.count) && k <= n
    requires k == 0 || TotalSize(l[..k]) <= b.bytes
    requires k < n ==> TotalSize(l[..k + 1]) > b.bytes
    ensures k == |FitPrefix(l, b)|
  {
    FitPrefixIsPrefix(l, b);
    if k > 0 {
      FitPrefixIsLongest(l, b, k);
    }
    if k < |l| {
      FitPrefixIsLongest(l, b, k + 1);
    }
  }

  /** The order a trim goes by: the rows within the count as they rank, then the others as selected. */
  lemma JoinedIsTrimOrder(rows: seq<Row>, order: seq<Row>, count: int, left: seq<Row>)
    requires RecencyOrder(order, rows) && multiset(left) == multiset(TopOf(order, count))
    ensures |Ranked(left)| == |TopOf(order, count)|
    ensures TrimOrder(Ranked(left) + order[|Ranked(left)|..], rows, count)
  {
    var n := |TopOf(order, count)|;
    RankedDescends(left);
    SwapFront(order, Ranked(left), n);
    SwapKeepsRecency(rows, order, Ranked(left), n);
    PermutationFacts(Ranked(left), TopOf(order, count));
    TopOfJoined(Ranked(left), order, count);
  }

  lemma TopOfJoined(front: seq<Row>, order: seq<Row>, count: int)
    requires |front| == |TopOf(order, count)|
    ensures TopOf(front + order[|front|..], count) == front
  {
  }

  lemma SwapKeepsRecency(rows: seq<Row>, order: seq<Row>, front: seq<Row>, n: nat)
    requires RecencyOrder(order, rows) && n <= |order| && multiset(front) == multiset(order[..n]) && Descends(front)
    ensures RecencyOrder(front + order[n..], rows)
  {
    var joined := front + order[n..];
    SwapFront(order, front, n);
    PermutationFacts(front, order[..n]);
    forall i, j | 0 <= i < j < |joined| ensures joined[i].lastUsedAt >= joined[j].lastUsedAt {
      if j < n {
        assert Before(front[i], front[j]);
      } else if i < n {
        FrontIsNewer(rows, order, n, front[i], j);
      } else {
        assert joined[i] == order[i] && joined[j] == order[j];
      }
    }
  }

  lemma FrontIsNewer(rows: seq<Row>, order: seq<Row>, n: nat, r: Row, j: nat)
    requires RecencyOrder(order, rows) && n <= j < |order| && r in order[..n]
    ensures r.lastUsedAt >= order[j].lastUsedAt
  {
    var a :| 0 <= a < n && order[a] == r;
  }

  /** The front of an order may be replaced by any permutation of it. */
  lemma SwapFront(order: seq<Row>, front: seq<Row>, n: nat)
    requires n <= |order| && multiset(front) == multiset(order[..n])
    ensures multiset(front + order[n..]) == multiset(order) && |front + order[n..]| == |order|
  {
    assert order == order[..n] + order[n..];
    PermutationFacts(front, order[..n]);
  }

  /** Selecting by count and then deleting the oldest until the bytes fit is a trim. */
  lemma TwoCutsTrim(h: History, order: seq<Row>, m: History, k: nat)
    requires WellFormed(h) && RecencyOrder(order, h.entries)
    requires m == Retain(h, Ids(TopOf(order, BoundsOf(h).count))) && k <= |Ranked(m.entries)|
    requires k == 0 || TotalSize(Items(Ranked(m.entries)[..k])) <= BoundsOf(h).bytes
    requires k < |Ranked(m.entries)| ==> TotalSize(Items(Ranked(m.entries)[..k + 1])) > BoundsOf(h).bytes
    ensures TrimsTo(h, Retain(m, Ids(Ranked(m.entries)[..k])))
  {
    var b, top := BoundsOf(h), TopOf(order, BoundsOf(h).count);
    RowsOfFront(h.entries, order, |top|);
    JoinedIsTrimOrder(h.entries, order, b.count, m.entries);
    FittingOfJoined(Ranked(m.entries), order[|top|..], b, k);
    JoinedTrims(h, order, m, Ranked(m.entries), k);
  }

  lemma JoinedTrims(h: History, order: seq<Row>, m: History, front: seq<Row>, k: nat)
    requires WellFormed(h) && multiset(order) == multiset(h.entries) && k <= |front| <= |order|
    requires m == Retain(h, Ids(order[..|front|])) && multiset(front) == multiset(m.entries)
    requires TrimOrder(front + order[|front|..], h.entries, BoundsOf(h).count)
    requires Fitting(front + order[|front|..], BoundsOf(h)) == k
    ensures TrimsTo(h, Retain(m, Ids(front[..k])))
  {
    var joined := front + order[|front|..];
    assert joined[..|front|] == front && joined[..k] == front[..k];
    FrontTwice(h, order, |front|, joined, k);
  }

  lemma FittingOfJoined(front: seq<Row>, rest: seq<Row>, b: Bounds, k: nat)
    requires k <= |front| == |TopOf(front + rest, b.count)|
    requires k == 0 || TotalSize(Items(front[..k])) <= b.bytes
    requires k < |front| ==> TotalSize(Items(front[..k + 1])) > b.bytes
    ensures Fitting(front + rest, b) == k
  {
    var joined := front + rest;
    assert joined[..k] == front[..k];
    ItemsOfPrefix(joined, k);
    if k < |front| {
      assert joined[..k + 1] == front[..k + 1];
      ItemsOfPrefix(joined, k + 1);
    }
    CutsMeet(Items(joined), b, |front|, k);
  }

  /** Keeping some rows, and then some of those, is keeping the latter. */
  lemma FrontTwice(h: History, order: seq<Row>, n: nat, joined: seq<Row>, k: nat)
    requires WellFormed(h) && multiset(order) == multiset(h.entries) && n <= |order| && k <= n <= |joined|
    requires multiset(joined[..n]) == multiset(Where(h.entries, Ids(order[..n])))
    ensures Retain(Retain(h, Ids(order[..n])), Ids(joined[..k])) == Retain(h, Ids(joined[..k]))
  {
    MembersOfFront(h.entries, order, n);
    PermutationFacts(joined[..n], Where(h.entries, Ids(order[..n])));
    forall i | i in Ids(joined[..k]) ensures i in Ids(order[..n]) {
      var r :| r in joined[..k] && r.id == i;
      assert r in joined[..n];
    }
    RetainTwice(h, Ids(order[..n]), Ids(joined[..k]), Ids(joined[..k]));
  }

  // ----- two trims in a row

  /** The tighter of two limits, as configured. */
  function TighterLimit(a: U64, b: U64, unbounded: bool): U64 {
    if unbounded && AsI64(a) < 0 then b
    else if unbounded && AsI64(b) < 0 then a
    else if AsI64(a) <= AsI64(b) then a else b
  }

  /** The tables under other limits. */
  function Under(h: History, maxEntries: U64, maxHistorySize: U64): History {
    h.(maxEntries := maxEntries, maxHistorySize := maxHistorySize)
  }

  lemma TighterLimitIsTighter(n: U64, m: U64, n': U64, m': U64)
    ensures EffectiveBounds(TighterLimit(n, n', true), TighterLimit(m, m', false))
         == Tighter(EffectiveBounds(n, m), EffectiveBounds(n', m'))
  {
  }

  /** The second order, continued with what the first trim dropped. */
  lemma ContinuedOrder(rows: seq<Row>, first: seq<Row>, k: nat, second: seq<Row>)
    requires RecencyOrder(first, rows) && k <= |first| && multiset(second) == multiset(first[..k])
    requires forall i, j :: 0 <= i < j < |second| ==> second[i].lastUsedAt >= second[j].lastUsedAt
    ensures RecencyOrder(second + first[k..], rows) && |second| == k
  {
    SwapFront(first, second, k);
    PermutationFacts(second, first[..k]);
    var joined := second + first[k..];
    forall i, j | 0 <= i < j < |joined| ensures joined[i].lastUsedAt >= joined[j].lastUsedAt {
      if i < k <= j {
        FrontIsNewer(rows, first, k, second[i], j);
      } else if k <= i {
        assert joined[i] == first[i] && joined[j] == first[j];
      }
    }
  }

  /** The continued order breaks ties by id as far as the tighter count goes. */
  lemma ContinuedDescends(first: seq<Row>, second: seq<Row>, k: nat, a: int, b: int, c: int)
    requires k <= |first| && (a < 0 || k <= a) && multiset(second) == multiset(first[..k]) && |second| == k
    requires Descends(TopOf(first, a)) && Descends(TopOf(second, b))
    requires c == if a < 0 then b else if b < 0 then a else Min(a, b)
    ensures Descends(TopOf(second + first[k..], c))
  {
    var joined := second + first[k..];
    var top := TopOf(joined, c);
    PermutationFacts(second, first[..k]);
    forall i, j | 0 <= i < j < |top| ensures Before(top[i], top[j]) {
      if j < k {
        assert top[i] == TopOf(second, b)[i] && top[j] == TopOf(second, b)[j];
      } else if k <= i {
        assert top[i] == TopOf(first, a)[i] && top[j] == TopOf(first, a)[j];
      } else {
        assert second[i] in first[..k];
        var l :| 0 <= l < k && first[..k][l] == second[i];
        assert TopOf(first, a)[l] == top[i] && TopOf(first, a)[j] == top[j];
      }
    }
  }

  /** How much of the continued order fits the tighter limits: what fits the second, of what fits the
      first. */
  lemma FittingContinued(first: seq<Row>, second: seq<Row>, a: Bounds, b: Bounds)
    requires multiset(second) == multiset(first[..Fitting(first, a)])
    ensures Fitting(second + first[Fitting(first, a)..], Tighter(a, b)) == Fitting(second, b) <= |second|
  {
    var k := Fitting(first, a);
    var rest := first[k..];
    var l := Items(second) + Items(rest);
    assert Items(second + rest) == l;
    PermutationFacts(second, first[..k]);
    TotalOfPermutation(second, first[..k]);
    FrontFits(first, a);
    if rest != [] {
      ItemsOfPrefix(first, k);
      FitPrefixIsPrefix(Items(first), a);
      NextDoesNotFit(Items(first), a);
      SameSizeSameFit(Items(second), Items(first[..k]), Items(first)[k], a);
      assert Items(rest)[0] == Items(first)[k];
    }
    assert Items(second) <= l && (|Items(second)| < |l| ==> l[|Items(second)|] == Items(rest)[0]);
    PrefixIsLongestIff(Items(second), l, a);
    TrimTwice(l, a, b);
  }

  /** Trimming under one pair of limits and then another is a trim under the tighter of each, whatever the
      ties and however they are broken. */
  lemma TrimsCompose(h: History, n: U64, m: U64, t: History, n': U64, m': U64, u: History)
    requires WellFormed(h) && TrimsTo(Under(h, n, m), t) && TrimsTo(Under(t, n', m'), u)
    ensures var n'', m'' := TighterLimit(n, n', true), TighterLimit(m, m', false);
            TrimsTo(Under(h, n'', m''), Under(u, n'', m''))
  {
    var a, b := EffectiveBounds(n, m), EffectiveBounds(n', m');
    var first :| TrimOrder(first, h.entries, a.count) && t == Retain(Under(h, n, m), Ids(first[..Fitting(first, a)]));
    var second :| TrimOrder(second, t.entries, b.count)
        && u == Retain(Under(t, n', m'), Ids(second[..Fitting(second, b)]));
    TrimsComposeAlong(h, n, m, t, n', m', u, first, second);
  }

  lemma TrimsComposeAlong(h: History, n: U64, m: U64, t: History, n': U64, m': U64, u: History,
                          first: seq<Row>, second: seq<Row>)
    requires WellFormed(h)
    requires TrimOrder(first, h.entries, EffectiveBounds(n, m).count)
    requires t == Retain(Under(h, n, m), Ids(first[..Fitting(first, EffectiveBounds(n, m))]))
    requires TrimOrder(second, t.entries, EffectiveBounds(n', m').count)
    requires u == Retain(Under(t, n', m'), Ids(second[..Fitting(second, EffectiveBounds(n', m'))]))
    ensures var n'', m'' := TighterLimit(n, n', true), TighterLimit(m, m', false);
            TrimsTo(Under(h, n'', m''), Under(u, n'', m''))
  {
    var a, b := EffectiveBounds(n, m), EffectiveBounds(n', m');
    TighterLimitIsTighter(n, m, n', m');
    ComposedFront(h, first, a, second, b);
    var joined, k := second + first[Fitting(first, a)..], Fitting(second, b);
    var n'', m'' := TighterLimit(n, n', true), TighterLimit(m, m', false);
    TrimAlong(Under(h, n'', m''), joined);
    LimitsDoNotMatter(h, Ids(first[..Fitting(first, a)]),
        Ids(second[..k]), Ids(joined[..k]), t, n, m, n', m', n'', m'');
  }

  lemma TrimAlong(h: History, order: seq<Row>)
    requires TrimOrder(order, h.entries, BoundsOf(h).count)
    ensures TrimsTo(h, Retain(h, Ids(order[..Fitting(order, BoundsOf(h))])))
  {
  }

  lemma LimitsDoNotMatter(h: History, a: set<nat>, b: set<nat>, c: set<nat>, t: History,
                          n: U64, m: U64, n': U64, m': U64, n'': U64, m'': U64)
    requires t == Retain(Under(h, n, m), a) && Retain(Retain(h, a), b) == Retain(h, c)
    ensures Under(Retain(Under(t, n', m'), b), n'', m'') == Retain(Under(h, n'', m''), c)
  {
  }

  lemma ComposedFront(h: History, first: seq<Row>, a: Bounds, second: seq<Row>, b: Bounds)
    requires WellFormed(h) && TrimOrder(first, h.entries, a.count)
    requires TrimOrder(second, Where(h.entries, Ids(first[..Fitting(first, a)])), b.count)
    ensures var joined := second + first[Fitting(first, a)..];
            && TrimOrder(joined, h.entries, Tighter(a, b).count)
            && Fitting(joined, Tighter(a, b)) == Fitting(second, b)
            && Retain(Retain(h, Ids(first[..Fitting(first, a)])), Ids(second[..Fitting(second, b)]))
               == Retain(h, Ids(joined[..Fitting(second, b)]))
  {
    var k := Fitting(first, a);
    var joined := second + first[k..];
    RowsOfFront(h.entries, first, k);
    ContinuedOrder(h.entries, first, k, second);
    CountBoundsFitting(first, a);
    ContinuedDescends(first, second, k, a.count, b.count, Tighter(a, b).count);
    FittingContinued(first, second, a, b);
    assert joined[..k] == second;
    FrontTwice(h, first, k, joined, Fitting(second, b));
    assert joined[..Fitting(second, b)] == second[..Fitting(second, b)];
  }

  lemma CountBoundsFitting(order: seq<Row>, b: Bounds)
    ensures b.count < 0 || Fitting(order, b) <= b.count
  {
    FrontFits(order, b);
  }

  // ----- ties

  /** Where the count cuts nothing off, an older row of two used at the same instant goes first. */
  lemma OlderOfATieGoesFirst(h: History, t: History, r: Row, s: Row)
    requires WellFormed(h) && TrimsTo(h, t) && (BoundsOf(h).count < 0 || |h.entries| <= BoundsOf(h).count)
    requires r in t.entries && s in h.entries && s !in t.entries && r.lastUsedAt == s.lastUsedAt
    ensures r.id > s.id
  {
    var b := BoundsOf(h);
    var order :| TrimOrder(order, h.entries, b.count) && t == Retain(h, Ids(order[..Fitting(order, b)]));
    var k := Fitting(order, b);
    PermutationFacts(order, h.entries);
    MembersOfFront(h.entries, order, k);
    assert TopOf(order, b.count) == order && s in order;
    var i :| 0 <= i < k && order[i] == r;
    var j :| 0 <= j < |order| && order[j] == s;
    OrderIdsDiffer(h.entries, order);
    EarlierComesBefore(order, i, j);
  }

  lemma EarlierComesBefore(order: seq<Row>, i: nat, j: nat)
    requires Descends(order) && i < j < |order| && order[i].id != order[j].id
    requires order[i].lastUsedAt == order[j].lastUsedAt
    ensures order[i].id > order[j].id
  {
    assert Before(order[i], order[j]);
  }
}
