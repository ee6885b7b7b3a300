/** Histories as lists of items, most recently used first, and the longest prefix that fits. */
module Recency {
  import opened Prelude

  datatype Item = Item(hash: Bytes, size: nat)

  /** A negative count is no limit on the count, as SQL's LIMIT reads it. */
  datatype Bounds = Bounds(count: int, bytes: int)

  function TotalSize(l: seq<Item>): nat {
    if l == [] then 0 else l[0].size + TotalSize(l[1..])
  }

  predicate Fits(l: seq<Item>, b: Bounds) {
    (b.count < 0 || |l| <= b.count) && TotalSize(l) <= b.bytes
  }

  /** The longest prefix that fits; empty if not even the empty one does. */
  function FitPrefix(l: seq<Item>, b: Bounds): (r: seq<Item>) {
    if l == [] || b.count == 0 || l[0].size > b.bytes then []
    else [l[0]] + FitPrefix(l[1..], Bounds(b.count - 1, b.bytes - l[0].size))
  }

  /** No hash occurs twice. */
  predicate Once(l: seq<Item>) {
    forall i, j :: 0 <= i < j < |l| ==> l[i].hash != l[j].hash
  }

  predicate Has(l: seq<Item>, hash: Bytes) {
    exists x :: x in l && x.hash == hash
  }

  function Remove(l: seq<Item>, hash: Bytes): (r: seq<Item>) {
    if l == [] then [] else (if l[0].hash == hash then [] else [l[0]]) + Remove(l[1..], hash)
  }

  /** Using an item moves it to the front, with the size it now has; a new one appears there. */
  function Promote(l: seq<Item>, x: Item): (r: seq<Item>) {
    [x] + Remove(l, x.hash)
  }

  /** `x` is no smaller than what the list has under its hash. */
  predicate NotSmaller(l: seq<Item>, x: Item) {
    forall y :: y in l && y.hash == x.hash ==> y.size <= x.size
  }

  function Min(a: int, b: int): int { if a <= b then a else b }

  function Tighter(a: Bounds, b: Bounds): Bounds {
    Bounds(if a.count < 0 then b.count else if b.count < 0 then a.count else Min(a.count, b.count),
           Min(a.bytes, b.bytes))
  }

  // ----- the fitting prefix

  lemma {:induction false} TotalSizeAppend(a: seq<Item>, b: seq<Item>)
    ensures TotalSize(a + b) == TotalSize(a) + TotalSize(b)
  {
    if a == [] {
      assert a + b == b;
    } else {
      assert (a + b)[1..] == a[1..] + b;
      TotalSizeAppend(a[1..], b);
    }
  }

  lemma {:induction false} FitPrefixIsPrefix(l: seq<Item>, b: Bounds)
    ensures |FitPrefix(l, b)| <= |l| && FitPrefix(l, b) == l[..|FitPrefix(l, b)|]
  {
    if l != [] && b.count != 0 && l[0].size <= b.bytes {
      var c := Bounds(b.count - 1, b.bytes - l[0].size);
      FitPrefixIsPrefix(l[1..], c);
      var n := |FitPrefix(l[1..], c)|;
      assert l[..n + 1] == [l[0]] + l[1..][..n];
    }
  }

  /** Exactly the non-empty prefixes up to the chosen one fit, so it is the longest. */
  lemma {:induction false} FitPrefixIsLongest(l: seq<Item>, b: Bounds, n: nat)
    requires 0 < n <= |l|
    ensures Fits(l[..n], b) <==> n <= |FitPrefix(l, b)|
  {
    assert l[..n][0] == l[0] && l[..n][1..] == l[1..][..n - 1];
    assert TotalSize(l[..n]) == l[0].size + TotalSize(l[1..][..n - 1]);
    if b.count != 0 && l[0].size <= b.bytes {
      var c := Bounds(b.count - 1, b.bytes - l[0].size);
      if n > 1 {
        FitPrefixIsLongest(l[1..], c, n - 1);
      }
    }
  }

  lemma FitPrefixFits(l: seq<Item>, b: Bounds)
    requires 0 <= b.bytes
    ensures Fits(FitPrefix(l, b), b)
  {
    FitPrefixIsPrefix(l, b);
    if FitPrefix(l, b) != [] {
      FitPrefixIsLongest(l, b, |FitPrefix(l, b)|);
    }
  }

  /** Bringing back the most recently evicted item would break a limit. */
  lemma NextDoesNotFit(l: seq<Item>, b: Bounds)
    requires |FitPrefix(l, b)| < |l|
    ensures !Fits(FitPrefix(l, b) + [l[|FitPrefix(l, b)|]], b)
  {
    var n := |FitPrefix(l, b)|;
    FitPrefixIsPrefix(l, b);
    FitPrefixIsLongest(l, b, n + 1);
    assert l[..n + 1] == l[..n] + [l[n]];
  }

  lemma FittingIsKept(l: seq<Item>, b: Bounds)
    requires Fits(l, b)
    ensures FitPrefix(l, b) == l
  {
    FitPrefixIsPrefix(l, b);
    if l != [] {
      FitPrefixIsLongest(l, b, |l|);
      assert l[..|l|] == l;
    }
  }

  lemma TrimIdempotent(l: seq<Item>, b: Bounds)
    ensures FitPrefix(FitPrefix(l, b), b) == FitPrefix(l, b)
  {
    if 0 <= b.bytes {
      FitPrefixFits(l, b);
      FittingIsKept(FitPrefix(l, b), b);
    }
  }

  /** Trimming under one pair of limits and then another is trimming once under the tighter of each. */
  lemma {:induction false} TrimTwice(l: seq<Item>, a: Bounds, b: Bounds)
    ensures FitPrefix(FitPrefix(l, a), b) == FitPrefix(l, Tighter(a, b))
  {
    if l != [] && a.count != 0 && l[0].size <= a.bytes && b.count != 0 && l[0].size <= b.bytes {
      var a', b' := Bounds(a.count - 1, a.bytes - l[0].size), Bounds(b.count - 1, b.bytes - l[0].size);
      TrimTwice(l[1..], a', b');
      var kept := FitPrefix(l, a);
      assert kept[0] == l[0] && kept[1..] == FitPrefix(l[1..], a');
      assert FitPrefix(kept, b) == [l[0]] + FitPrefix(kept[1..], b');
      assert Tighter(a', b') == Bounds(Tighter(a, b).count - 1, Tighter(a, b).bytes - l[0].size);
    }
  }

  /** Nothing after the first item that does not fit matters. */
  lemma {:induction false} FitPrefixCut(a: seq<Item>, c: seq<Item>, b: Bounds)
    requires c != [] ==> !Fits(a + [c[0]], b)
    ensures FitPrefix(a + c, b) == FitPrefix(a, b)
  {
    if c == [] {
      assert a + c == a;
    } else if a == [] {
      assert a + c == c && a + [c[0]] == [c[0]];
      assert TotalSize([c[0]]) == c[0].size;
    } else if b.count != 0 && a[0].size <= b.bytes {
      assert (a + c)[1..] == a[1..] + c;
      assert (a + [c[0]])[1..] == a[1..] + [c[0]];
      FitPrefixCut(a[1..], c, Bounds(b.count - 1, b.bytes - a[0].size));
    }
  }

  // ----- removal and promotion

  lemma {:induction false} RemoveAppend(a: seq<Item>, c: seq<Item>, hash: Bytes)
    ensures Remove(a + c, hash) == Remove(a, hash) + Remove(c, hash)
  {
    if a == [] {
      assert a + c == c;
    } else {
      assert (a + c)[1..] == a[1..] + c;
      RemoveAppend(a[1..], c, hash);
    }
  }

  lemma {:induction false} RemoveAbsent(l: seq<Item>, hash: Bytes)
    requires !Has(l, hash)
    ensures Remove(l, hash) == l
  {
    if l != [] {
      assert l[0] in l && forall x :: x in l[1..] ==> x in l;
      RemoveAbsent(l[1..], hash);
    }
  }

  lemma {:induction false} RemoveAt(l: seq<Item>, i: nat)
    requires i < |l| && Once(l)
    ensures Remove(l, l[i].hash) == l[..i] + l[i + 1..]
  {
    if i == 0 {
      RemoveAbsent(l[1..], l[0].hash);
    } else {
      RemoveAt(l[1..], i - 1);
      assert Remove(l, l[i].hash) == [l[0]] + Remove(l[1..], l[i].hash);
      assert l[..i] == [l[0]] + l[1..][..i - 1] && l[i + 1..] == l[1..][i..];
    }
  }

  lemma RemovePresent(l: seq<Item>, x: Item)
    requires x in l && Once(l)
    ensures |Remove(l, x.hash)| == |l| - 1 && TotalSize(Remove(l, x.hash)) == TotalSize(l) - x.size
  {
    var i :| 0 <= i < |l| && l[i] == x;
    RemoveAt(l, i);
    assert l == l[..i] + ([x] + l[i + 1..]);
    TotalSizeAppend(l[..i], [x] + l[i + 1..]);
    TotalSizeAppend([x], l[i + 1..]);
    TotalSizeAppend(l[..i], l[i + 1..]);
    assert TotalSize([x]) == x.size;
  }

  lemma {:induction false} RemoveMembers(l: seq<Item>, hash: Bytes)
    ensures forall y :: y in Remove(l, hash) <==> y in l && y.hash != hash
  {
    if l != [] {
      RemoveMembers(l[1..], hash);
      assert l == [l[0]] + l[1..];
    }
  }

  lemma RemoveKeepsOnce(l: seq<Item>, hash: Bytes)
    requires Once(l)
    ensures Once(Remove(l, hash))
  {
    if i :| 0 <= i < |l| && l[i].hash == hash {
      RemoveAt(l, i);
    } else {
      RemoveAbsent(l, hash);
    }
  }

  lemma PromoteMembers(l: seq<Item>, x: Item)
    requires Once(l)
    ensures Once(Promote(l, x))
    ensures forall y :: y in Promote(l, x) <==> y == x || (y in l && y.hash != x.hash)
  {
    RemoveMembers(l, x.hash);
    RemoveKeepsOnce(l, x.hash);
    var rest := Remove(l, x.hash);
    forall i, j | 0 <= i < j < |Promote(l, x)| ensures Promote(l, x)[i].hash != Promote(l, x)[j].hash {
      assert Promote(l, x)[j] == rest[j - 1] && rest[j - 1] in rest;
      assert i > 0 ==> Promote(l, x)[i] == rest[i - 1];
    }
  }

  /** Promoting an item that is already there, as `y`, changes the size by the difference. */
  lemma PromotePresent(l: seq<Item>, y: Item, x: Item)
    requires y in l && y.hash == x.hash && Once(l)
    ensures |Promote(l, x)| == |l| && TotalSize(Promote(l, x)) == TotalSize(l) - y.size + x.size
  {
    RemovePresent(l, y);
    TotalSizeAppend([x], Remove(l, x.hash));
    assert TotalSize([x]) == x.size;
  }

  /** The heart of the refinement: forgetting evicted items loses nothing.  Promoting in the trimmed
      list and trimming gives what trimming the promoted full list gives, as long as a size does not
      shrink. */
  lemma TrimAfterPromote(l: seq<Item>, x: Item, b: Bounds)
    requires Once(l) && NotSmaller(l, x)
    ensures FitPrefix(Promote(FitPrefix(l, b), x), b) == FitPrefix(Promote(l, x), b)
  {
    var f := FitPrefix(l, b);
    FitPrefixIsPrefix(l, b);
    var evicted := l[|f|..];
    assert l == f + evicted;
    if evicted != [] {
      NextDoesNotFit(l, b);
    }
    PromoteBeforeEvicted(f, evicted, x, b);
  }

  lemma PromoteBeforeEvicted(f: seq<Item>, evicted: seq<Item>, x: Item, b: Bounds)
    requires Once(f + evicted) && NotSmaller(f + evicted, x) && (evicted != [] ==> !Fits(f + [evicted[0]], b))
    ensures FitPrefix(Promote(f, x), b) == FitPrefix(Promote(f + evicted, x), b)
  {
    RemoveAppend(f, evicted, x.hash);
    var rest := Remove(evicted, x.hash);
    assert Promote(f + evicted, x) == Promote(f, x) + rest;
    if rest != [] {
      PromotedOverflows(f, evicted, x, b);
    }
    FitPrefixCut(Promote(f, x), rest, b);
  }

  lemma PromotedOverflows(f: seq<Item>, evicted: seq<Item>, x: Item, b: Bounds)
    requires evicted != [] && Once(f + evicted) && NotSmaller(f + evicted, x) && Remove(evicted, x.hash) != []
    requires !Fits(f + [evicted[0]], b)
    ensures !Fits(Promote(f, x) + [Remove(evicted, x.hash)[0]], b)
  {
    var y := Remove(evicted, x.hash)[0];
    TotalSizeAppend(f, [evicted[0]]);
    TotalSizeAppend(Promote(f, x), [y]);
    TotalSizeAppend([x], Remove(f, x.hash));
    assert TotalSize([x]) == x.size && TotalSize([y]) == y.size && TotalSize([evicted[0]]) == evicted[0].size;
    if z :| z in f && z.hash == x.hash {
      PromotePresentPrefix(f, evicted, z, x);
      assert y == evicted[0];
    } else {
      RemoveAbsent(f, x.hash);
      assert evicted[0] in f + evicted;
      assert x.hash == evicted[0].hash || y == evicted[0];
    }
  }

  lemma PromotePresentPrefix(f: seq<Item>, evicted: seq<Item>, z: Item, x: Item)
    requires Once(f + evicted) && NotSmaller(f + evicted, x) && z in f && z.hash == x.hash
    ensures |Promote(f, x)| == |f| && TotalSize(Promote(f, x)) >= TotalSize(f)
    ensures Remove(evicted, x.hash) == evicted
  {
    var l := f + evicted;
    OnceInFront(f, evicted);
    var k :| 0 <= k < |f| && f[k] == z;
    forall i | 0 <= i < |evicted| ensures evicted[i].hash != x.hash {
      assert l[k] == z && l[|f| + i] == evicted[i];
    }
    RemoveAbsent(evicted, x.hash);
    PromotePresent(f, z, x);
    assert z in l;
  }

  lemma OnceInFront(f: seq<Item>, rest: seq<Item>)
    requires Once(f + rest)
    ensures Once(f)
  {
    forall i, j | 0 <= i < j < |f| ensures f[i].hash != f[j].hash {
      assert (f + rest)[i] == f[i] && (f + rest)[j] == f[j];
    }
  }

  /** Touching an item of the trimmed list needs no trimming. */
  lemma TouchNeedsNoTrim(l: seq<Item>, x: Item, b: Bounds)
    requires Once(l) && x in FitPrefix(l, b) && 0 <= b.bytes
    ensures Promote(FitPrefix(l, b), x) == FitPrefix(Promote(l, x), b)
  {
    var f := FitPrefix(l, b);
    FitPrefixIsPrefix(l, b);
    assert l == f + l[|f|..];
    OnceInFront(f, l[|f|..]);
    FitPrefixFits(l, b);
    PromotePresent(f, x, x);
    FittingIsKept(Promote(f, x), b);
    OnceIsKey(l, x);
    TrimAfterPromote(l, x, b);
  }

  lemma OnceIsKey(l: seq<Item>, x: Item)
    requires Once(l) && x in l
    ensures forall y :: y in l && y.hash == x.hash ==> y == x
  {
    forall y | y in l && y.hash == x.hash ensures y == x {
      var i :| 0 <= i < |l| && l[i] == x;
      var j :| 0 <= j < |l| && l[j] == y;
    }
  }

  // ----- prefixes

  /** Using an item keeps a prefix a prefix, whether it is in the prefix, after it, or new. */
  lemma PromoteKeepsPrefix(f: seq<Item>, l: seq<Item>, x: Item)
    requires f <= l
    ensures Promote(f, x) <= Promote(l, x)
  {
    RemoveKeepsPrefix(f, l, x.hash);
  }

  lemma RemoveKeepsPrefix(f: seq<Item>, l: seq<Item>, hash: Bytes)
    requires f <= l
    ensures Remove(f, hash) <= Remove(l, hash)
  {
    assert l == f + l[|f|..];
    RemoveAppend(f, l[|f|..], hash);
  }

  lemma {:induction false} RemoveShrinks(l: seq<Item>, hash: Bytes)
    ensures |Remove(l, hash)| <= |l| && TotalSize(Remove(l, hash)) <= TotalSize(l)
  {
    if l != [] {
      RemoveShrinks(l[1..], hash);
      TotalSizeAppend(if l[0].hash == hash then [] else [l[0]], Remove(l[1..], hash));
    }
  }

  lemma FitPrefixShortens(f: seq<Item>, l: seq<Item>, b: Bounds)
    requires f <= l
    ensures FitPrefix(f, b) <= l && (FitPrefix(f, b) == [] || Fits(FitPrefix(f, b), b))
  {
    FitPrefixIsPrefix(f, b);
    if FitPrefix(f, b) != [] {
      FitPrefixIsLongest(f, b, |FitPrefix(f, b)|);
    }
  }

  /** When a prefix that fits is the longest that does. */
  lemma PrefixIsLongestIff(f: seq<Item>, l: seq<Item>, b: Bounds)
    requires f <= l && (f == [] || Fits(f, b))
    ensures f == FitPrefix(l, b) <==> |f| == |l| || !Fits(f + [l[|f|]], b)
  {
    FitPrefixIsPrefix(l, b);
    assert f == l[..|f|];
    if f != [] {
      FitPrefixIsLongest(l, b, |f|);
    }
    if |f| < |l| {
      assert l[..|f| + 1] == f + [l[|f|]];
      FitPrefixIsLongest(l, b, |f| + 1);
    }
  }
}
