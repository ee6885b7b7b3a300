/** Canonicalising a captured set of payloads. */
module Payloads {
  import opened Prelude
  import opened Ordering

  predicate StrictByMime(ps: seq<Payload>) {
    forall i, j :: 0 <= i < j < |ps| ==> LexLess(ps[i].mime, ps[j].mime)
  }

  /** `out` lists each MIME name of `ps` once, in order, with the least data `ps` has for it. */
  ghost predicate IsCanonical(out: seq<Payload>, ps: seq<Payload>) {
    && StrictByMime(out)
    && (forall p :: p in out ==> p in ps)
    && (forall p {:trigger Covered(out, p)} :: p in ps ==> Covered(out, p))
  }

  /** `out` has the name of `p`, with data no greater. */
  ghost predicate Covered(out: seq<Payload>, p: Payload) {
    exists q :: q in out && q.mime == p.mime && LexLeq(q.data, p.data)
  }

  /** The member of `out` that covers `p`. */
  lemma CoverOf(out: seq<Payload>, p: Payload) returns (q: Payload)
    requires Covered(out, p)
    ensures q in out && q.mime == p.mime && LexLeq(q.data, p.data)
  {
    q :| q in out && q.mime == p.mime && LexLeq(q.data, p.data);
  }

  // ----- the canonical form is determined by the set of payloads

  lemma StrictMimeIsKey(ps: seq<Payload>, p: Payload, q: Payload)
    requires StrictByMime(ps) && p in ps && q in ps && p.mime == q.mime
    ensures p == q
  {
    var i :| 0 <= i < |ps| && ps[i] == p;
    var j :| 0 <= j < |ps| && ps[j] == q;
  }

  lemma CanonicalMember(a: seq<Payload>, b: seq<Payload>, ps: seq<Payload>, p: Payload)
    requires IsCanonical(a, ps) && IsCanonical(b, ps) && p in a
    ensures p in b
  {
    assert p in ps && Covered(b, p);
    var q := CoverOf(b, p);
    assert q in ps && Covered(a, q);
    var r := CoverOf(a, q);
    StrictMimeIsKey(a, p, r);
    LexAntisymmetric(p.data, q.data);
  }

  lemma {:induction false} StrictUnique(a: seq<Payload>, b: seq<Payload>)
    requires StrictByMime(a) && StrictByMime(b)
    requires forall p :: p in a <==> p in b
    ensures a == b
  {
    if a == [] {
      HasMember(b);
    } else {
      assert a[0] in b && b != [] && b[0] in a;
      FirstIsLeast(a, b[0]);
      FirstIsLeast(b, a[0]);
      LexAntisymmetric(a[0].mime, b[0].mime);
      StrictMimeIsKey(a, a[0], b[0]);
      forall p ensures p in a[1..] <==> p in b[1..] {
        TailMember(a, p);
        TailMember(b, p);
      }
      StrictUnique(a[1..], b[1..]);
      assert a == [a[0]] + a[1..] && b == [b[0]] + b[1..];
    }
  }

  lemma FirstIsLeast(a: seq<Payload>, p: Payload)
    requires StrictByMime(a) && p in a
    ensures LexLeq(a[0].mime, p.mime)
  {
    LexReflexive(p.mime);
    var i :| 0 <= i < |a| && a[i] == p;
    assert i == 0 || LexLess(a[0].mime, a[i].mime);
  }

  lemma TailMember(a: seq<Payload>, p: Payload)
    requires a != [] && StrictByMime(a)
    ensures p in a[1..] <==> p in a && p != a[0]
  {
    if p in a[1..] {
      var i :| 0 <= i < |a[1..]| && a[1..][i] == p;
      assert LexLess(a[0].mime, a[i + 1].mime);
    }
  }

  /** Order and repetition of the input do not matter. */
  lemma CanonicalUnique(a: seq<Payload>, b: seq<Payload>, ps: seq<Payload>, qs: seq<Payload>)
    requires IsCanonical(a, ps) && IsCanonical(b, qs)
    requires forall p :: p in ps <==> p in qs
    ensures a == b
  {
    forall p | p in ps ensures Covered(b, p) {
      assert p in qs;
    }
    forall p ensures p in a <==> p in b {
      if p in a { CanonicalMember(a, b, ps, p); }
      if p in b { CanonicalMember(b, a, ps, p); }
    }
    StrictUnique(a, b);
  }

  // ----- a functional form

  /** Adds one payload to a canonical list. */
  function Absorb(out: seq<Payload>, p: Payload): (r: seq<Payload>) {
    if out == [] || LexLess(p.mime, out[0].mime) then [p] + out
    else if p.mime == out[0].mime then
      [if LexLeq(p.data, out[0].data) then p else out[0]] + out[1..]
    else [out[0]] + Absorb(out[1..], p)
  }

  function Normalize(ps: seq<Payload>): (r: seq<Payload>) {
    if ps == [] then [] else Absorb(Normalize(ps[1..]), ps[0])
  }

  lemma {:induction false} AbsorbMembers(out: seq<Payload>, p: Payload)
    requires StrictByMime(out)
    ensures forall q :: q in Absorb(out, p) ==> q == p || q in out
    ensures Covered(Absorb(out, p), p)
    ensures forall o {:trigger Covered(Absorb(out, p), o)} :: o in out ==> Covered(Absorb(out, p), o)
  {
    var r := Absorb(out, p);
    LexReflexive(p.data);
    forall o | o in out ensures Covered(r, o) {
      LexReflexive(o.data);
      if out != [] && !LexLess(p.mime, out[0].mime) && p.mime != out[0].mime {
        AbsorbMembers(out[1..], p);
        assert o == out[0] || o in out[1..];
        if o == out[0] {
          assert r[0] == o;
        } else {
          assert Covered(Absorb(out[1..], p), o);
          var q := CoverOf(Absorb(out[1..], p), o);
          assert q in r;
        }
      } else if out != [] && p.mime == out[0].mime {
        if o == out[0] {
          assert r[0] in r;
        } else {
          assert o in out[1..] && o in r;
        }
      } else {
        assert o in r;
      }
    }
    if out == [] || LexLess(p.mime, out[0].mime) {
      assert r[0] == p;
    } else if p.mime == out[0].mime {
      LexTotal(p.data, out[0].data);
      assert r[0] in r;
    } else {
      AbsorbMembers(out[1..], p);
      var q := CoverOf(Absorb(out[1..], p), p);
      assert q in r;
    }
  }

  lemma {:induction false} AbsorbKeepsStrict(out: seq<Payload>, p: Payload)
    requires StrictByMime(out)
    ensures StrictByMime(Absorb(out, p))
  {
    if out == [] {
    } else if LexLess(p.mime, out[0].mime) {
      forall j | 0 <= j < |out| ensures LexLess(p.mime, out[j].mime) {
        if j > 0 {
          LexLessTransitive(p.mime, out[0].mime, out[j].mime);
        }
      }
    } else if p.mime == out[0].mime {
    } else {
      AbsorbKeepsStrict(out[1..], p);
      var rest := Absorb(out[1..], p);
      AbsorbMembers(out[1..], p);
      LexTotal(p.mime, out[0].mime);
      forall j | 0 <= j < |rest| ensures LexLess(out[0].mime, rest[j].mime) {
        assert rest[j] in rest;
        if rest[j] in out[1..] {
          var k :| 0 <= k < |out[1..]| && out[1..][k] == rest[j];
          assert LexLess(out[0].mime, out[k + 1].mime);
        }
      }
    }
  }

  lemma LexLessTransitive(a: Bytes, b: Bytes, c: Bytes)
    requires LexLess(a, b) && LexLess(b, c)
    ensures LexLess(a, c)
  {
    LexTransitive(a, b, c);
    if a == c {
      LexAntisymmetric(a, b);
    }
  }

  lemma {:induction false} NormalizeIsCanonical(ps: seq<Payload>)
    ensures IsCanonical(Normalize(ps), ps)
  {
    if ps != [] {
      var rest := Normalize(ps[1..]);
      NormalizeIsCanonical(ps[1..]);
      AbsorbKeepsStrict(rest, ps[0]);
      AbsorbMembers(rest, ps[0]);
      forall p | p in ps ensures Covered(Normalize(ps), p) {
        if p != ps[0] {
          assert p in ps[1..] && Covered(rest, p);
          var o := CoverOf(rest, p);
          assert Covered(Absorb(rest, ps[0]), o);
          var q := CoverOf(Absorb(rest, ps[0]), o);
          LexTransitive(q.data, o.data, p.data);
        }
      }
    }
  }

  /** The normal form depends only on the set of payloads captured. */
  lemma NormalizeDependsOnSet(ps: seq<Payload>, qs: seq<Payload>)
    requires forall p :: p in ps <==> p in qs
    ensures Normalize(ps) == Normalize(qs)
  {
    NormalizeIsCanonical(ps);
    NormalizeIsCanonical(qs);
    CanonicalUnique(Normalize(ps), Normalize(qs), ps, qs);
  }

  /** A list with strictly ascending MIME names is its own normal form, so normalising twice changes
      nothing. */
  lemma NormalizeFixesStrict(ps: seq<Payload>)
    requires StrictByMime(ps)
    ensures Normalize(ps) == ps
  {
    NormalizeIsCanonical(ps);
    forall p | p in ps ensures Covered(ps, p) {
      LexReflexive(p.data);
    }
    CanonicalUnique(Normalize(ps), ps, ps, ps);
  }

  lemma NormalizeIdempotent(ps: seq<Payload>)
    ensures Normalize(Normalize(ps)) == Normalize(ps)
  {
    NormalizeIsCanonical(ps);
    NormalizeFixesStrict(Normalize(ps));
  }

  /** Exactly the captured MIME names remain. */
  lemma NormalizeCoversMimes(ps: seq<Payload>, mime: Bytes)
    ensures (exists p :: p in ps && p.mime == mime) <==> (exists q :: q in Normalize(ps) && q.mime == mime)
  {
    NormalizeIsCanonical(ps);
    if p: Payload :| p in ps && p.mime == mime {
      assert Covered(Normalize(ps), p);
      var q := CoverOf(Normalize(ps), p);
    }
  }

  lemma {:induction false} NormalizeShrinks(ps: seq<Payload>)
    ensures PayloadBytes(Normalize(ps)) <= PayloadBytes(ps)
    ensures ps != [] ==> Normalize(ps) != []
  {
    if ps != [] {
      NormalizeShrinks(ps[1..]);
      NormalizeIsCanonical(ps[1..]);
      AbsorbAdds(Normalize(ps[1..]), ps[0]);
    }
  }

  lemma {:induction false} AbsorbAdds(out: seq<Payload>, p: Payload)
    ensures PayloadBytes(Absorb(out, p)) <= PayloadBytes(out) + |p.data|
    ensures Absorb(out, p) != []
  {
    if out == [] || LexLess(p.mime, out[0].mime) {
      assert ([p] + out)[1..] == out;
    } else if p.mime == out[0].mime {
      var x := if LexLeq(p.data, out[0].data) then p else out[0];
      assert ([x] + out[1..])[1..] == out[1..];
    } else {
      AbsorbAdds(out[1..], p);
      assert ([out[0]] + Absorb(out[1..], p))[1..] == Absorb(out[1..], p);
    }
  }

  // ----- the loop that computes it

  /** One entry of the ordered map from MIME names to captured variants. */
  datatype Group = Group(mime: Bytes, variants: seq<Bytes>)

  predicate StrictGroups(groups: seq<Group>) {
    forall i, j :: 0 <= i < j < |groups| ==> LexLess(groups[i].mime, groups[j].mime)
  }

  predicate HoldsAt(groups: seq<Group>, k: nat, p: Payload) {
    k < |groups| && groups[k].mime == p.mime && p.data in groups[k].variants
  }

  ghost predicate Holds(groups: seq<Group>, p: Payload) {
    exists k: nat :: HoldsAt(groups, k, p)
  }

  /** The groups hold exactly the payloads `ps`, under ascending names. */
  ghost predicate Groups(groups: seq<Group>, ps: seq<Payload>) {
    && StrictGroups(groups)
    && (forall k :: 0 <= k < |groups| ==> groups[k].variants != [])
    && (forall p {:trigger Holds(groups, p)} :: Holds(groups, p) <==> p in ps)
  }

  /** Appends to the variants of one name, creating its entry at its place in the order. */
  method PushVariant(groups: seq<Group>, p: Payload, ghost ps: seq<Payload>) returns (r: seq<Group>)
    requires Groups(groups, ps)
    ensures Groups(r, ps + [p])
  {
    var at := 0;
    while at < |groups| && LexLess(groups[at].mime, p.mime)
      invariant at <= |groups|
      invariant forall k :: 0 <= k < at ==> LexLess(groups[k].mime, p.mime)
    {
      at := at + 1;
    }
    if at < |groups| && groups[at].mime == p.mime {
      r := groups[at := Group(p.mime, groups[at].variants + [p.data])];
      forall q ensures Holds(r, q) <==> q in ps + [p] {
        assert Holds(groups, q) <==> q in ps;
        VariantAdded(groups, at, p, q);
      }
    } else {
      r := groups[..at] + [Group(p.mime, [p.data])] + groups[at..];
      SplitIsStrict(groups, p.mime, at);
      forall q ensures Holds(r, q) <==> q in ps + [p] {
        assert Holds(groups, q) <==> q in ps;
        GroupAdded(groups, at, p, q);
      }
    }
  }

  lemma VariantAdded(groups: seq<Group>, at: nat, p: Payload, q: Payload)
    requires at < |groups| && groups[at].mime == p.mime
    ensures Holds(groups[at := Group(p.mime, groups[at].variants + [p.data])], q) <==> Holds(groups, q) || q == p
  {
    var r := groups[at := Group(p.mime, groups[at].variants + [p.data])];
    if k: nat :| HoldsAt(groups, k, q) {
      assert HoldsAt(r, k, q);
    }
    if k: nat :| HoldsAt(r, k, q) && q != p {
      assert HoldsAt(groups, k, q);
    }
    assert HoldsAt(r, at, p);
  }

  lemma GroupAdded(groups: seq<Group>, at: nat, p: Payload, q: Payload)
    requires at <= |groups|
    ensures Holds(groups[..at] + [Group(p.mime, [p.data])] + groups[at..], q) <==> Holds(groups, q) || q == p
  {
    var r := groups[..at] + [Group(p.mime, [p.data])] + groups[at..];
    if k: nat :| HoldsAt(groups, k, q) {
      assert HoldsAt(r, if k < at then k else k + 1, q);
    }
    if k: nat :| HoldsAt(r, k, q) && k != at {
      assert HoldsAt(groups, if k < at then k else k - 1, q);
    }
    assert HoldsAt(r, at, p);
  }

  lemma SplitIsStrict(groups: seq<Group>, mime: Bytes, at: nat)
    requires StrictGroups(groups) && at <= |groups|
    requires forall k :: 0 <= k < at ==> LexLess(groups[k].mime, mime)
    requires at < |groups| ==> !LexLess(groups[at].mime, mime) && groups[at].mime != mime
    ensures forall k :: at <= k < |groups| ==> LexLess(mime, groups[k].mime)
  {
    forall k | at <= k < |groups| ensures LexLess(mime, groups[k].mime) {
      LexTotal(mime, groups[at].mime);
      if at < k {
        LexLessTransitive(mime, groups[at].mime, groups[k].mime);
      }
    }
  }

  /** The least variant: drop repetitions, sort, take the first. */
  method LeastVariant(variants: seq<Bytes>) returns (least: Bytes)
    requires variants != []
    ensures least in variants && forall v :: v in variants ==> LexLeq(least, v)
  {
    var unique: seq<Bytes> := [];
    for i := 0 to |variants|
      invariant i > 0 ==> unique != []
      invariant forall v :: v in unique <==> v in variants[..i]
    {
      assert variants[..i + 1] == variants[..i] + [variants[i]];
      if variants[i] !in unique {
        unique := unique + [variants[i]];
      }
    }
    assert variants[..|variants|] == variants;
    var sorted := Sorted(LexLeq, unique);
    least := sorted[0];
    LexIsTotalOrder();
    SortedIsSorted(LexLeq, unique);
    MemberOfPermutation(sorted, unique, least);
    forall v | v in variants ensures LexLeq(least, v) {
      MemberOfPermutation(sorted, unique, v);
      var k :| 0 <= k < |sorted| && sorted[k] == v;
      LexReflexive(v);
    }
  }

  method NormalizePayloads(payloads: seq<Payload>) returns (normalized: seq<Payload>)
    ensures IsCanonical(normalized, payloads)
    ensures normalized == Normalize(payloads)
  {
    var grouped: seq<Group> := [];
    for i := 0 to |payloads|
      invariant Groups(grouped, payloads[..i])
    {
      grouped := PushVariant(grouped, payloads[i], payloads[..i]);
      assert payloads[..i] + [payloads[i]] == payloads[..i + 1];
    }
    assert payloads[..|payloads|] == payloads;
    normalized := [];
    for g := 0 to |grouped|
      invariant |normalized| == g
      invariant forall k :: 0 <= k < g ==>
                  && normalized[k].mime == grouped[k].mime && normalized[k].data in grouped[k].variants
                  && forall v :: v in grouped[k].variants ==> LexLeq(normalized[k].data, v)
    {
      var least := LeastVariant(grouped[g].variants);
      normalized := normalized + [Payload(grouped[g].mime, least)];
    }
    forall p | p in normalized ensures p in payloads {
      var k :| 0 <= k < |normalized| && normalized[k] == p;
      assert HoldsAt(grouped, k, p) && Holds(grouped, p);
    }
    forall p | p in payloads ensures Covered(normalized, p) {
      assert Holds(grouped, p);
      var k: nat :| HoldsAt(grouped, k, p);
      assert normalized[k] in normalized;
    }
    NormalizeIsCanonical(payloads);
    CanonicalUnique(normalized, Normalize(payloads), payloads, payloads);
  }
}
