/** The byte stream that is hashed for an entry, and when it determines the payloads. */
module HashInput {
  import opened Prelude
  import opened Ordering
  import opened Payloads

  /** MIME name first, then data. */
  predicate PayloadLeq(a: Payload, b: Payload) {
    if a.mime == b.mime then LexLeq(a.data, b.data) else LexLeq(a.mime, b.mime)
  }

  /** What one payload contributes: name, NUL, data, NUL. */
  function Frame(p: Payload): Bytes {
    p.mime + [0] + p.data + [0]
  }

  function Stream(ps: seq<Payload>): Bytes {
    if ps == [] then [] else Frame(ps[0]) + Stream(ps[1..])
  }

  function HashStream(payloads: seq<Payload>): Bytes {
    Stream(Sorted(PayloadLeq, payloads))
  }

  /** The hash of a set of payloads, for a digest that is otherwise unknown. */
  method PayloadHash(digest: Bytes -> Bytes, payloads: seq<Payload>) returns (hash: Bytes)
    ensures hash == digest(HashStream(payloads))
  {
    var sorted := Sorted(PayloadLeq, payloads);
    var fed: Bytes := [];
    for i := 0 to |sorted|
      invariant fed + Stream(sorted[i..]) == Stream(sorted)
    {
      FeedingFrames(fed, sorted, i);
      fed := fed + sorted[i].mime;
      fed := fed + [0];
      fed := fed + sorted[i].data;
      fed := fed + [0];
    }
    assert sorted[|sorted|..] == [] && fed == Stream(sorted);
    hash := digest(fed);
  }

  /** Feeding the fields of one payload feeds its frame. */
  lemma FeedingFrames(fed: Bytes, ps: seq<Payload>, i: nat)
    requires i < |ps|
    ensures fed + Stream(ps[i..]) == fed + ps[i].mime + [0] + ps[i].data + [0] + Stream(ps[i + 1..])
  {
    assert ps[i..][1..] == ps[i + 1..];
    assert Stream(ps[i..]) == Frame(ps[i]) + Stream(ps[i + 1..]);
    assert fed + Frame(ps[i]) == fed + ps[i].mime + [0] + ps[i].data + [0];
  }

  lemma PayloadLeqIsTotalOrder()
    ensures TotalOrder(PayloadLeq)
  {
    forall a, b ensures PayloadLeq(a, b) || PayloadLeq(b, a) {
      LexTotal(a.mime, b.mime);
      LexTotal(a.data, b.data);
    }
    forall a, b | PayloadLeq(a, b) && PayloadLeq(b, a) ensures a == b {
      if a.mime == b.mime { LexAntisymmetric(a.data, b.data); } else { LexAntisymmetric(a.mime, b.mime); }
    }
    forall a, b, c | PayloadLeq(a, b) && PayloadLeq(b, c) ensures PayloadLeq(a, c) {
      PayloadLeqTransitive(a, b, c);
    }
  }

  lemma PayloadLeqTransitive(a: Payload, b: Payload, c: Payload)
    requires PayloadLeq(a, b) && PayloadLeq(b, c)
    ensures PayloadLeq(a, c)
  {
    if a.mime == b.mime == c.mime {
      LexTransitive(a.data, b.data, c.data);
    } else if a.mime != b.mime && b.mime != c.mime {
      LexTransitive(a.mime, b.mime, c.mime);
      if a.mime == c.mime {
        LexAntisymmetric(a.mime, b.mime);
      }
    }
  }

  /** The order in which representations were offered or read does not reach the hash. */
  lemma HashIgnoresOrder(a: seq<Payload>, b: seq<Payload>)
    requires multiset(a) == multiset(b)
    ensures HashStream(a) == HashStream(b)
  {
    PayloadLeqIsTotalOrder();
    SortedOfPermutation(PayloadLeq, a, b);
  }

  // ----- reading a stream back

  predicate NulFree(b: Bytes) { 0 !in b }

  predicate NulFreeMimes(ps: seq<Payload>) {
    forall i :: 0 <= i < |ps| ==> NulFree(ps[i].mime)
  }

  predicate NulFreeData(ps: seq<Payload>) {
    forall i :: 0 <= i < |ps| ==> NulFree(ps[i].data)
  }

  function FirstNul(s: Bytes): nat {
    if s == [] || s[0] == 0 then 0 else 1 + FirstNul(s[1..])
  }

  lemma {:induction false} FirstNulEndsField(x: Bytes, rest: Bytes)
    requires NulFree(x)
    ensures FirstNul(x + [0] + rest) == |x|
  {
    if x != [] {
      assert (x + [0] + rest)[1..] == x[1..] + [0] + rest;
      assert x[0] in x;
      FirstNulEndsField(x[1..], rest);
    }
  }

  /** A NUL-free field is recovered up to the NUL that ends it. */
  lemma FieldUnique(x: Bytes, y: Bytes, restX: Bytes, restY: Bytes)
    requires NulFree(x) && NulFree(y) && x + [0] + restX == y + [0] + restY
    ensures x == y && restX == restY
  {
    var s := x + [0] + restX;
    FirstNulEndsField(x, restX);
    FirstNulEndsField(y, restY);
    assert x == s[..|x|] && y == s[..|y|];
    assert restX == s[|x| + 1..] && restY == s[|y| + 1..];
  }

  lemma DropLastNul(d: Bytes, e: Bytes)
    requires d + [0] == e + [0]
    ensures d == e
  {
    assert d == (d + [0])[..|d|] && e == (e + [0])[..|e|];
  }

  lemma FrameSplit(p: Payload, rest: Bytes)
    ensures Frame(p) + rest == p.mime + [0] + (p.data + [0] + rest)
  {
  }

  /** With NUL-free names and data, equal streams come from equal lists. */
  lemma {:induction false} StreamInjective(a: seq<Payload>, b: seq<Payload>)
    requires NulFreeMimes(a) && NulFreeMimes(b) && NulFreeData(a) && NulFreeData(b)
    requires Stream(a) == Stream(b)
    ensures a == b
  {
    if a != [] && b != [] {
      FrameSplit(a[0], Stream(a[1..]));
      FrameSplit(b[0], Stream(b[1..]));
      FieldUnique(a[0].mime, b[0].mime, a[0].data + [0] + Stream(a[1..]), b[0].data + [0] + Stream(b[1..]));
      FieldUnique(a[0].data, b[0].data, Stream(a[1..]), Stream(b[1..]));
      StreamInjective(a[1..], b[1..]);
      assert a == [a[0]] + a[1..] && b == [b[0]] + b[1..];
    }
  }

  /** The promise that two entries hash alike only if they offer the same content, for NUL-free data. */
  lemma HashStreamInjective(a: seq<Payload>, b: seq<Payload>)
    requires NulFreeMimes(a) && NulFreeMimes(b) && NulFreeData(a) && NulFreeData(b)
    requires HashStream(a) == HashStream(b)
    ensures multiset(a) == multiset(b)
  {
    var x, y := Sorted(PayloadLeq, a), Sorted(PayloadLeq, b);
    forall i | 0 <= i < |x| ensures NulFree(x[i].mime) && NulFree(x[i].data) {
      assert x[i] in multiset(x);
      assert x[i] in a;
    }
    forall i | 0 <= i < |y| ensures NulFree(y[i].mime) && NulFree(y[i].data) {
      assert y[i] in multiset(y);
      assert y[i] in b;
    }
    StreamInjective(x, y);
  }

  // ----- when the promise fails

  predicate Within(n: nat, cap: Option<nat>) { cap.None? || n <= cap.value }

  /** What a capture can be, if `names` says which byte strings can name a type: names ascend, no data is
      empty, and all data together is within the cap, if there is one. */
  ghost predicate Storable(names: Bytes -> bool, cap: Option<nat>, ps: seq<Payload>) {
    && StrictByMime(ps) && Within(PayloadBytes(ps), cap)
    && forall p :: p in ps ==> names(p.mime) && p.data != []
  }

  ghost predicate NulFreeNames(names: Bytes -> bool) {
    forall m {:trigger names(m)} :: names(m) ==> NulFree(m)
  }

  /** No other capture feeds the hash the same bytes. */
  ghost predicate HashedUniquely(names: Bytes -> bool, cap: Option<nat>, a: seq<Payload>) {
    forall b {:trigger HashStream(b)} :: Storable(names, cap, b) && HashStream(b) == HashStream(a) ==> b == a
  }

  /** The data can be cut at two NULs so that the middle reads as a later type's name, with data left on
      both sides. */
  predicate CutsAt(names: Bytes -> bool, p: Payload, i: nat, j: nat) {
    && 0 < i < j && j + 1 < |p.data| && p.data[i] == 0 && p.data[j] == 0
    && names(p.data[i + 1..j]) && LexLess(p.mime, p.data[i + 1..j])
  }

  ghost predicate Splittable(names: Bytes -> bool, p: Payload) {
    exists i: nat, j: nat :: CutsAt(names, p, i, j)
  }

  /** Some name, and the two NULs that end it and the data before it, would still fit under the cap as
      data. */
  ghost predicate RoomToMerge(a: seq<Payload>, cap: Option<nat>) {
    exists k: nat {:trigger a[k]} :: 0 < k < |a| && Within(PayloadBytes(a) + |a[k].mime| + 2, cap)
  }

  lemma {:induction false} StrictIsSorted(ps: seq<Payload>)
    requires StrictByMime(ps)
    ensures Sorted(PayloadLeq, ps) == ps
  {
    if ps != [] {
      StrictIsSorted(ps[1..]);
      assert ps == [ps[0]] + ps[1..];
    }
  }

  lemma {:induction false} StreamAppend(a: seq<Payload>, b: seq<Payload>)
    ensures Stream(a + b) == Stream(a) + Stream(b)
  {
    if a == [] {
      assert a + b == b;
    } else {
      assert (a + b)[1..] == a[1..] + b;
      StreamAppend(a[1..], b);
    }
  }

  lemma {:induction false} BytesAppend(a: seq<Payload>, b: seq<Payload>)
    ensures PayloadBytes(a + b) == PayloadBytes(a) + PayloadBytes(b)
  {
    if a == [] {
      assert a + b == b;
    } else {
      assert (a + b)[1..] == a[1..] + b;
      BytesAppend(a[1..], b);
    }
  }

  /** One payload that reads as two. */
  function Fused(p: Payload, q: Payload): Payload {
    Payload(p.mime, p.data + [0] + q.mime + [0] + q.data)
  }

  lemma FusedStream(p: Payload, q: Payload)
    ensures Stream([Fused(p, q)]) == Stream([p, q])
    ensures PayloadBytes([Fused(p, q)]) == PayloadBytes([p, q]) + |q.mime| + 2
  {
    StreamOfOne(Fused(p, q));
    StreamOfOne(q);
    assert [p, q][1..] == [q] && [q][1..] == [] && [Fused(p, q)][1..] == [];
    assert Frame(Fused(p, q)) == Frame(p) + Frame(q);
  }

  /** The list with the payload at `k` fused into the one before it. */
  function Merged(a: seq<Payload>, k: nat): seq<Payload>
    requires 0 < k < |a|
  {
    a[..k - 1] + [Fused(a[k - 1], a[k])] + a[k + 1..]
  }

  lemma MergedFacts(a: seq<Payload>, k: nat)
    requires 0 < k < |a|
    ensures Stream(Merged(a, k)) == Stream(a)
    ensures PayloadBytes(Merged(a, k)) == PayloadBytes(a) + |a[k].mime| + 2
  {
    var front, pair, rest := a[..k - 1], [a[k - 1], a[k]], a[k + 1..];
    assert a == front + pair + rest;
    FusedStream(a[k - 1], a[k]);
    StreamAppend(front + pair, rest);
    StreamAppend(front, pair);
    StreamAppend(front + [Fused(a[k - 1], a[k])], rest);
    StreamAppend(front, [Fused(a[k - 1], a[k])]);
    BytesAppend(front + pair, rest);
    BytesAppend(front, pair);
    BytesAppend(front + [Fused(a[k - 1], a[k])], rest);
    BytesAppend(front, [Fused(a[k - 1], a[k])]);
  }

  lemma MergedAt(a: seq<Payload>, k: nat, i: nat)
    requires 0 < k < |a| && i < |Merged(a, k)|
    ensures |Merged(a, k)| == |a| - 1
    ensures Merged(a, k)[i].mime == a[if i < k then i else i + 1].mime
    ensures a[if i < k then i else i + 1].data != [] ==> Merged(a, k)[i].data != []
  {
  }

  lemma MergedIsStrict(a: seq<Payload>, k: nat)
    requires StrictByMime(a) && 0 < k < |a|
    ensures StrictByMime(Merged(a, k))
  {
    var b := Merged(a, k);
    forall i, j | 0 <= i < j < |b| ensures LexLess(b[i].mime, b[j].mime) {
      MergedAt(a, k, i);
      MergedAt(a, k, j);
    }
  }

  lemma MergedIsStorable(names: Bytes -> bool, cap: Option<nat>, a: seq<Payload>, k: nat)
    requires Storable(names, cap, a) && 0 < k < |a| && Within(PayloadBytes(a) + |a[k].mime| + 2, cap)
    ensures Storable(names, cap, Merged(a, k))
  {
    MergedFacts(a, k);
    MergedIsStrict(a, k);
    forall p | p in Merged(a, k) ensures names(p.mime) && p.data != [] {
      var i: nat :| i < |Merged(a, k)| && Merged(a, k)[i] == p;
      MergedAt(a, k, i);
      assert a[if i < k then i else i + 1] in a;
    }
  }

  lemma StreamOfOne(p: Payload)
    ensures Stream([p]) == Frame(p)
  {
    assert [p][1..] == [] && Frame(p) + [] == Frame(p);
  }

  lemma {:induction false} StreamEndsInNul(a: seq<Payload>)
    requires a != []
    ensures Stream(a) != [] && Stream(a)[|Stream(a)| - 1] == 0
  {
    if |a| > 1 {
      StreamEndsInNul(a[1..]);
    }
  }

  /** The two payloads a cut makes of one. */
  function Halves(p: Payload, i: nat, j: nat): seq<Payload>
    requires i < j < |p.data|
  {
    [Payload(p.mime, p.data[..i]), Payload(p.data[i + 1..j], p.data[j + 1..])]
  }

  lemma HalvesAreStorable(names: Bytes -> bool, cap: Option<nat>, p: Payload, i: nat, j: nat)
    requires Storable(names, cap, [p]) && CutsAt(names, p, i, j)
    ensures Storable(names, cap, Halves(p, i, j)) && Stream(Halves(p, i, j)) == Stream([p])
  {
    var q, r := Halves(p, i, j)[0], Halves(p, i, j)[1];
    assert Halves(p, i, j) == [q, r];
    assert p.data == p.data[..i] + [0] + p.data[i + 1..j] + [0] + p.data[j + 1..];
    assert Fused(q, r) == p && p in [p];
    FusedStream(q, r);
  }

  /** A single payload whose stream equals that of a longer capture can be cut. */
  lemma SplittableFromLonger(names: Bytes -> bool, cap: Option<nat>, p: Payload, b: seq<Payload>)
    requires NulFreeNames(names) && NulFree(p.mime) && Storable(names, cap, b) && |b| >= 2
    requires Stream(b) == Stream([p])
    ensures Splittable(names, p)
  {
    StorableMimes(names, cap, b);
    var front := DataAfterFirst(p, b);
    var more := SecondField(b, front);
    assert b[0] in b && b[1] in b;
    CutFound(names, p, b[0].data, b[1], more);
  }

  lemma StorableMimes(names: Bytes -> bool, cap: Option<nat>, b: seq<Payload>)
    requires NulFreeNames(names) && Storable(names, cap, b)
    ensures NulFreeMimes(b)
  {
    forall i | 0 <= i < |b| ensures NulFree(b[i].mime) {
      assert b[i] in b && names(b[i].mime);
    }
  }

  lemma DataAfterFirst(p: Payload, b: seq<Payload>) returns (front: Bytes)
    requires NulFree(p.mime) && NulFreeMimes(b) && |b| >= 2 && Stream(b) == Stream([p])
    ensures p.mime == b[0].mime && p.data == b[0].data + [0] + front
    ensures Stream(b[1..]) == front + [0]
  {
    var later := Stream(b[1..]);
    SameFirstField(p, b[0], later);
    StreamEndsInNul(b[1..]);
    front := later[..|later| - 1];
    assert later == front + [0];
    assert b[0].data + [0] + later == (b[0].data + [0] + front) + [0];
    DropLastNul(p.data, b[0].data + [0] + front);
  }

  lemma SameFirstField(p: Payload, q: Payload, later: Bytes)
    requires NulFree(p.mime) && NulFree(q.mime) && Frame(q) + later == Stream([p])
    ensures p.mime == q.mime && p.data + [0] == q.data + [0] + later
  {
    StreamOfOne(p);
    FrameSplit(q, later);
    assert Frame(p) == p.mime + [0] + (p.data + [0]);
    FieldUnique(q.mime, p.mime, q.data + [0] + later, p.data + [0]);
  }

  /** What follows the second name, without the NUL that ends the stream, begins with its data. */
  lemma SecondField(b: seq<Payload>, front: Bytes) returns (more: Bytes)
    requires |b| >= 2 && Stream(b[1..]) == front + [0]
    ensures front == b[1].mime + [0] + (b[1].data + more)
  {
    var r, rest := b[1], Stream(b[1..][1..]);
    assert Stream(b[1..]) == Frame(r) + rest;
    if b[1..][1..] == [] {
      more := [];
      DropLastNul(front, r.mime + [0] + (r.data + []));
    } else {
      StreamEndsInNul(b[1..][1..]);
      more := [0] + rest[..|rest| - 1];
      assert rest == rest[..|rest| - 1] + [0];
      DropLastNul(front, r.mime + [0] + (r.data + more));
    }
  }

  lemma CutFound(names: Bytes -> bool, p: Payload, held: Bytes, r: Payload, more: Bytes)
    requires names(r.mime) && LexLess(p.mime, r.mime) && held != [] && r.data != []
    requires p.data == held + [0] + (r.mime + [0] + (r.data + more))
    ensures Splittable(names, p)
  {
    var i, j := |held|, |held| + 1 + |r.mime|;
    assert p.data[i + 1..j] == r.mime && p.data[i] == 0 && p.data[j] == 0;
    assert CutsAt(names, p, i, j);
  }

  /** README promises that a hash determines the entry.  Exactly when it does, among captures: for the
      empty list, and for a single payload whose data cannot be cut.  An entry of two or more payloads
      shares its stream with one of fewer, as long as that is within the cap. */
  lemma HashedUniquelyIff(names: Bytes -> bool, cap: Option<nat>, a: seq<Payload>)
    requires NulFreeNames(names) && Storable(names, cap, a)
    ensures |a| <= 1 || RoomToMerge(a, cap) ==>
              (HashedUniquely(names, cap, a) <==> a == [] || (|a| == 1 && !Splittable(names, a[0])))
    ensures |a| >= 2 && cap.None? ==> RoomToMerge(a, cap)
  {
    StrictIsSorted(a);
    if |a| == 1 {
      SingleUniqueIff(names, cap, a[0]);
      assert a == [a[0]];
    } else if a == [] {
      EmptyIsUnique(names, cap);
    } else {
      assert cap.None? ==> Within(PayloadBytes(a) + |a[1].mime| + 2, cap);
      if k: nat :| 0 < k < |a| && Within(PayloadBytes(a) + |a[k].mime| + 2, cap) {
        MergedCollides(names, cap, a, k);
      }
    }
  }

  lemma MergedCollides(names: Bytes -> bool, cap: Option<nat>, a: seq<Payload>, k: nat)
    requires Storable(names, cap, a) && 0 < k < |a| && Within(PayloadBytes(a) + |a[k].mime| + 2, cap)
    ensures !HashedUniquely(names, cap, a)
  {
    var b := Merged(a, k);
    MergedFacts(a, k);
    MergedIsStorable(names, cap, a, k);
    StrictIsSorted(a);
    StrictIsSorted(b);
    assert |b| == |a| - 1;
    assert Storable(names, cap, b) && HashStream(b) == HashStream(a) && b != a;
  }

  lemma EmptyIsUnique(names: Bytes -> bool, cap: Option<nat>)
    ensures HashedUniquely(names, cap, [])
  {
    forall b | Storable(names, cap, b) && HashStream(b) == HashStream([]) ensures b == [] {
      StrictIsSorted(b);
      if b != [] {
        StreamEndsInNul(b);
      }
    }
  }

  lemma SingleUniqueIff(names: Bytes -> bool, cap: Option<nat>, p: Payload)
    requires NulFreeNames(names) && Storable(names, cap, [p])
    ensures HashedUniquely(names, cap, [p]) <==> !Splittable(names, p)
  {
    StrictIsSorted([p]);
    if i: nat, j: nat :| CutsAt(names, p, i, j) {
      var b := Halves(p, i, j);
      HalvesAreStorable(names, cap, p, i, j);
      StrictIsSorted(b);
      assert Storable(names, cap, b) && HashStream(b) == HashStream([p]) && b != [p];
    } else {
      forall b | Storable(names, cap, b) && HashStream(b) == HashStream([p]) ensures b == [p] {
        StrictIsSorted(b);
        SingleIsUnique(names, cap, p, b);
      }
    }
  }

  lemma SingleIsUnique(names: Bytes -> bool, cap: Option<nat>, p: Payload, b: seq<Payload>)
    requires NulFreeNames(names) && Storable(names, cap, [p]) && Storable(names, cap, b) && !Splittable(names, p)
    requires Stream(b) == Stream([p])
    ensures b == [p]
  {
    StreamEndsInNul([p]);
    StorableMimes(names, cap, b);
    assert p in [p];
    if |b| >= 2 {
      SplittableFromLonger(names, cap, p, b);
    } else {
      assert b != [] && Stream(b) == Frame(b[0]) + Stream(b[1..]) && b[1..] == [];
      SameFirstField(p, b[0], []);
      DropLastNul(p.data, b[0].data);
    }
  }

  // ----- entries so close to the cap that no two types can be run together

  /** A cut whose name falls between its own and the next one. */
  ghost predicate CutInside(names: Bytes -> bool, a: seq<Payload>, k: nat, i: nat, j: nat)
    requires k < |a|
  {
    CutsAt(names, a[k], i, j) && (k + 1 < |a| ==> LexLess(a[k].data[i + 1..j], a[k + 1].mime))
  }

  /** The list with the payload at `k` cut in two. */
  function Split(a: seq<Payload>, k: nat, i: nat, j: nat): seq<Payload>
    requires k < |a| && i < j < |a[k].data|
  {
    a[..k] + Halves(a[k], i, j) + a[k + 1..]
  }

  lemma SplitFacts(a: seq<Payload>, k: nat, i: nat, j: nat)
    requires k < |a| && 0 < i < j && j + 1 < |a[k].data| && a[k].data[i] == 0 && a[k].data[j] == 0
    ensures Stream(Split(a, k, i, j)) == Stream(a) && PayloadBytes(Split(a, k, i, j)) <= PayloadBytes(a)
  {
    var front, p, rest := a[..k], a[k], a[k + 1..];
    var q, r := Halves(p, i, j)[0], Halves(p, i, j)[1];
    assert a == front + [p] + rest && Halves(p, i, j) == [q, r];
    assert p.data == p.data[..i] + [0] + p.data[i + 1..j] + [0] + p.data[j + 1..];
    assert Fused(q, r) == p;
    FusedStream(q, r);
    StreamAppend(front + [p], rest);
    StreamAppend(front, [p]);
    StreamAppend(front + [q, r], rest);
    StreamAppend(front, [q, r]);
    BytesAppend(front + [p], rest);
    BytesAppend(front, [p]);
    BytesAppend(front + [q, r], rest);
    BytesAppend(front, [q, r]);
  }

  lemma SplitAt(a: seq<Payload>, k: nat, i: nat, j: nat, l: nat)
    requires k < |a| && i < j < |a[k].data| && l <= |a|
    ensures |Split(a, k, i, j)| == |a| + 1
    ensures Split(a, k, i, j)[l] ==
            if l < k then a[l]
            else if l == k then Payload(a[k].mime, a[k].data[..i])
            else if l == k + 1 then Payload(a[k].data[i + 1..j], a[k].data[j + 1..])
            else a[l - 1]
  {
  }

  lemma SplitIsStrict(names: Bytes -> bool, a: seq<Payload>, k: nat, i: nat, j: nat)
    requires StrictByMime(a) && k < |a| && CutInside(names, a, k, i, j)
    ensures StrictByMime(Split(a, k, i, j))
  {
    var b, name := Split(a, k, i, j), a[k].data[i + 1..j];
    forall x, y | 0 <= x < y < |b| ensures LexLess(b[x].mime, b[y].mime) {
      SplitAt(a, k, i, j, x);
      SplitAt(a, k, i, j, y);
      if y == k + 1 && x < k {
        LexLessTransitive(a[x].mime, a[k].mime, name);
      } else if x == k + 1 && y > k + 2 {
        LexLessTransitive(name, a[k + 1].mime, a[y - 1].mime);
      }
    }
  }

  /** Whatever the cap, an entry one of whose payloads can be cut in place is not hashed uniquely. */
  lemma CutInsideCollides(names: Bytes -> bool, cap: Option<nat>, a: seq<Payload>, k: nat, i: nat, j: nat)
    requires Storable(names, cap, a) && k < |a| && CutInside(names, a, k, i, j)
    ensures !HashedUniquely(names, cap, a)
  {
    var b := Split(a, k, i, j);
    SplitIsStorable(names, cap, a, k, i, j);
    SplitFacts(a, k, i, j);
    StrictIsSorted(a);
    StrictIsSorted(b);
    SplitAt(a, k, i, j, 0);
    assert Storable(names, cap, b) && HashStream(b) == HashStream(a) && b != a;
  }

  lemma SplitIsStorable(names: Bytes -> bool, cap: Option<nat>, a: seq<Payload>, k: nat, i: nat, j: nat)
    requires Storable(names, cap, a) && k < |a| && CutInside(names, a, k, i, j)
    ensures Storable(names, cap, Split(a, k, i, j))
  {
    var b := Split(a, k, i, j);
    SplitFacts(a, k, i, j);
    SplitIsStrict(names, a, k, i, j);
    assert a[k] in a;
    forall p | p in b ensures names(p.mime) && p.data != [] {
      var l: nat :| l < |b| && b[l] == p;
      SplitAt(a, k, i, j, l);
      if l < k {
        assert a[l] in a;
      } else if l > k + 1 {
        assert a[l - 1] in a;
      }
    }
  }

  function Nuls(s: Bytes): nat { multiset(s)[0] }

  lemma NulsAppend(a: Bytes, b: Bytes)
    ensures Nuls(a + b) == Nuls(a) + Nuls(b)
  {
  }

  lemma NulFreeIff(s: Bytes)
    ensures NulFree(s) <==> Nuls(s) == 0
  {
    assert 0 in s <==> 0 in multiset(s);
  }

  lemma NulsOfFrame(p: Payload)
    ensures Nuls(Frame(p)) == Nuls(p.mime) + Nuls(p.data) + 2
  {
    NulsAppend(p.mime + [0] + p.data, [0]);
    NulsAppend(p.mime + [0], p.data);
    NulsAppend(p.mime, [0]);
    assert Nuls([0]) == 1;
  }

  /** Each payload adds two NULs and those it contains. */
  lemma {:induction false} NulsOfStream(a: seq<Payload>)
    ensures Nuls(Stream(a)) >= 2 * |a|
    ensures NulFreeMimes(a) ==> (NulFreeData(a) <==> Nuls(Stream(a)) == 2 * |a|)
  {
    if a != [] {
      NulsOfStream(a[1..]);
      NulsOfFrame(a[0]);
      NulsAppend(Frame(a[0]), Stream(a[1..]));
      NulFreeHeadAndTail(a);
    }
  }

  lemma NulFreeHeadAndTail(a: seq<Payload>)
    requires a != []
    ensures NulFreeMimes(a) <==> Nuls(a[0].mime) == 0 && NulFreeMimes(a[1..])
    ensures NulFreeData(a) <==> Nuls(a[0].data) == 0 && NulFreeData(a[1..])
  {
    NulFreeIff(a[0].mime);
    NulFreeIff(a[0].data);
    assert a == [a[0]] + a[1..];
  }

  /** With NUL-free data, whatever else has the same stream has fewer formats. */
  lemma NulFreeCollidesShorter(names: Bytes -> bool, cap: Option<nat>, a: seq<Payload>, b: seq<Payload>)
    requires NulFreeNames(names) && Storable(names, cap, a) && Storable(names, cap, b) && NulFreeData(a)
    requires HashStream(a) == HashStream(b) && a != b
    ensures |b| < |a|
  {
    StrictIsSorted(a);
    StrictIsSorted(b);
    StorableMimes(names, cap, a);
    StorableMimes(names, cap, b);
    NulsOfStream(a);
    NulsOfStream(b);
    if |b| == |a| {
      StreamInjective(a, b);
    }
  }

  lemma MergedBytes(names: Bytes -> bool, cap: Option<nat>, a: seq<Payload>, b: seq<Payload>)
    requires NulFreeNames(names) && Storable(names, cap, a) && Storable(names, cap, b)
    requires |a| == 2 && |b| == 1 && Stream(a) == Stream(b)
    ensures PayloadBytes(b) == PayloadBytes(a) + |a[1].mime| + 2
  {
    StorableMimes(names, cap, a);
    StorableMimes(names, cap, b);
    assert b == [b[0]] && a == [a[0], a[1]];
    FusedStream(a[0], a[1]);
    StreamOfOne(Fused(a[0], a[1]));
    SameFirstField(b[0], Fused(a[0], a[1]), []);
    DropLastNul(b[0].data, Fused(a[0], a[1]).data);
  }

  /** An entry of two formats with NUL-free data is hashed uniquely exactly when the two cannot be run
      together under the cap. */
  lemma NulFreePairUniqueIff(names: Bytes -> bool, cap: Option<nat>, a: seq<Payload>)
    requires NulFreeNames(names) && Storable(names, cap, a) && |a| == 2 && NulFreeData(a)
    ensures HashedUniquely(names, cap, a) <==> !RoomToMerge(a, cap)
  {
    HashedUniquelyIff(names, cap, a);
    if !RoomToMerge(a, cap) {
      assert !Within(PayloadBytes(a) + |a[1].mime| + 2, cap);
      forall b | Storable(names, cap, b) && HashStream(b) == HashStream(a) ensures b == a {
        if b != a {
          NulFreeCollidesShorter(names, cap, a, b);
          StrictIsSorted(a);
          StrictIsSorted(b);
          StreamEndsInNul(a);
          MergedBytes(names, cap, a, b);
        }
      }
    }
  }

  /** Three types: "a" with "x", "b" with "zz" and "c" with "y". */
  function ThreeTypes(): seq<Payload> {
    [Payload([97], [120]), Payload([98], [122, 122]), Payload([99], [121])]
  }

  /** The same bytes read as the types "a" and "zz". */
  function ReadOtherwise(): seq<Payload> {
    [Payload([97], [120, 0, 98]), Payload([122, 122], [99, 0, 121])]
  }

  lemma ThreeTypesStream()
    ensures Stream(ThreeTypes()) == [97, 0, 120, 0, 98, 0, 122, 122, 0, 99, 0, 121, 0]
    ensures PayloadBytes(ThreeTypes()) == 4
  {
    var t := ThreeTypes();
    assert t[1..] == [t[1], t[2]] && [t[1], t[2]][1..] == [t[2]] && [t[2]][1..] == [];
    StreamOfOne(t[2]);
    assert Stream(t) == Frame(t[0]) + (Frame(t[1]) + Frame(t[2]));
  }

  lemma ReadOtherwiseStream()
    ensures Stream(ReadOtherwise()) == [97, 0, 120, 0, 98, 0, 122, 122, 0, 99, 0, 121, 0]
    ensures PayloadBytes(ReadOtherwise()) == 6
  {
    var t := ReadOtherwise();
    assert t[1..] == [t[1]] && [t[1]][1..] == [];
    StreamOfOne(t[1]);
    assert Stream(t) == Frame(t[0]) + Frame(t[1]);
  }

  lemma ThreeTypesStorable()
    ensures Storable(NulFree, Some(6), ThreeTypes()) && NulFreeData(ThreeTypes()) && !RoomToMerge(ThreeTypes(), Some(6))
  {
    var t := ThreeTypes();
    ThreeTypesStream();
    LexLessHead(97, [], 98, []);
    LexLessHead(98, [], 99, []);
    LexLessHead(97, [], 99, []);
    assert [97] == [97] + [] && [98] == [98] + [] && [99] == [99] + [];
    assert |t[1].mime| == 1 && |t[2].mime| == 1;
  }

  lemma ReadOtherwiseStorable()
    ensures Storable(NulFree, Some(6), ReadOtherwise())
  {
    ReadOtherwiseStream();
    LexLessHead(97, [], 122, [122]);
    assert [97] == [97] + [] && [122, 122] == [122] + [122];
  }

  lemma LexLessHead(x: Byte, a: Bytes, y: Byte, b: Bytes)
    requires x < y
    ensures LexLess([x] + a, [y] + b)
  {
  }

  /** With three formats it can fail without that room: data may read as a name instead, which takes bytes
      of data away. */
  lemma NulFreeTripleWitness()
    ensures Storable(NulFree, Some(6), ThreeTypes()) && Storable(NulFree, Some(6), ReadOtherwise())
    ensures NulFreeData(ThreeTypes()) && !RoomToMerge(ThreeTypes(), Some(6))
    ensures HashStream(ThreeTypes()) == HashStream(ReadOtherwise()) && ThreeTypes() != ReadOtherwise()
  {
    ThreeTypesStorable();
    ReadOtherwiseStorable();
    ThreeTypesStream();
    ReadOtherwiseStream();
    StrictIsSorted(ThreeTypes());
    StrictIsSorted(ReadOtherwise());
    assert |ThreeTypes()| == 3 && |ReadOtherwise()| == 2;
  }

  /** Two types, "a" with data "b" and "c" with data "d". */
  function TwoTypes(): seq<Payload> { [Payload([97], [98]), Payload([99], [100])] }

  /** The type "a", with the two types run together as its data. */
  function RunTogether(): seq<Payload> { [Payload([97], [98, 0, 99, 0, 100])] }

  /** Two different clipboard contents, one with two formats and one with a single format, that the
      hash cannot tell apart. */
  lemma HashCollisionWitness()
    ensures NulFreeMimes(TwoTypes()) && NulFreeMimes(RunTogether()) && multiset(TwoTypes()) != multiset(RunTogether())
    ensures HashStream(TwoTypes()) == HashStream(RunTogether())
  {
    var p, q, merged := TwoTypes()[0], TwoTypes()[1], RunTogether()[0];
    SortedOfTwo(p, q);
    SortedOfOne(merged);
    assert [p, q][1..] == [q];
    StreamOfOne(q);
    StreamOfOne(merged);
    assert Frame(p) + Frame(q) == [97, 0, 98, 0, 99, 0, 100, 0] == Frame(merged);
    assert merged !in multiset([p, q]) && merged in multiset([merged]);
  }

  lemma SortedOfOne(p: Payload)
    ensures Sorted(PayloadLeq, [p]) == [p]
  {
    assert [p][1..] == [];
  }

  lemma SortedOfTwo(p: Payload, q: Payload)
    requires PayloadLeq(p, q)
    ensures Sorted(PayloadLeq, [p, q]) == [p, q]
  {
    SortedOfOne(q);
    assert [p, q][1..] == [q];
  }
}
