/** Types and small facts shared by every part of the model. */
module Prelude {

  datatype Option<+T> = None | Some(value: T)

  type Byte = b: int | 0 <= b < 256

  /** Rust `Vec<u8>`, and also `String`: a string is the sequence of its UTF-8 bytes. */
  type Bytes = seq<Byte>

  /** One clipboard representation: a MIME name and its data. */
  datatype Payload = Payload(mime: Bytes, data: Bytes)

  /** The bytes of an ASCII literal. */
  function Ascii(s: string): (r: Bytes)
    ensures |r| == |s|
    ensures forall i :: 0 <= i < |s| && s[i] as int < 256 ==> r[i] == s[i] as int
  {
    seq(|s|, i requires 0 <= i < |s| => if s[i] as int < 256 then s[i] as int else 63)
  }

  /** `m` is the text, byte for byte. */
  predicate Reads(m: Bytes, text: string) {
    |m| == |text| && forall i :: 0 <= i < |text| ==> m[i] == text[i] as int
  }

  /** `m` begins with the text. */
  predicate BeginsWith(m: Bytes, text: string) {
    |text| <= |m| && forall i :: 0 <= i < |text| ==> m[i] == text[i] as int
  }

  lemma AsciiReads(m: Bytes, text: string)
    requires forall i :: 0 <= i < |text| ==> text[i] as int < 128
    ensures m == Ascii(text) <==> Reads(m, text)
    ensures Ascii(text) <= m <==> BeginsWith(m, text)
  {
    if BeginsWith(m, text) {
      assert m[..|text|] == Ascii(text);
    }
  }

  predicate NoDuplicates<T(==)>(s: seq<T>) {
    forall i, j :: 0 <= i < j < |s| ==> s[i] != s[j]
  }

  function PayloadBytes(ps: seq<Payload>): (n: nat) {
    if ps == [] then 0 else |ps[0].data| + PayloadBytes(ps[1..])
  }

  function Mimes(ps: seq<Payload>): (ms: seq<Bytes>)
    ensures |ms| == |ps| && forall i :: 0 <= i < |ps| ==> ms[i] == ps[i].mime
  {
    seq(|ps|, i requires 0 <= i < |ps| => ps[i].mime)
  }

  lemma HasMember<T>(s: seq<T>)
    ensures s == [] || exists x :: x in s
  {
    if s != [] {
      assert s[0] in s;
    }
  }

  /** Sum of a measure over a sequence. */
  function SumOf<T>(f: T -> nat, s: seq<T>): nat {
    if s == [] then 0 else f(s[0]) + SumOf(f, s[1..])
  }

  lemma {:induction false} SumOfUpdate<T>(f: T -> nat, s: seq<T>, i: nat, x: T)
    requires i < |s|
    ensures SumOf(f, s[i := x]) + f(s[i]) == SumOf(f, s) + f(x)
  {
    if i == 0 {
      assert s[0 := x][1..] == s[1..];
    } else {
      assert s[i := x][1..] == s[1..][i - 1 := x];
      SumOfUpdate(f, s[1..], i - 1, x);
    }
  }

  lemma {:induction false} SumOfMember<T>(f: T -> nat, s: seq<T>, i: nat)
    requires i < |s|
    ensures f(s[i]) <= SumOf(f, s)
  {
    if i > 0 {
      SumOfMember(f, s[1..], i - 1);
    }
  }

  lemma {:induction false} SumOfZero<T>(f: T -> nat, s: seq<T>)
    requires forall i :: 0 <= i < |s| ==> f(s[i]) == 0
    ensures SumOf(f, s) == 0
  {
    if s != [] {
      assert f(s[0]) == 0;
      forall i | 0 <= i < |s[1..]| ensures f(s[1..][i]) == 0 {
        assert s[1..][i] == s[i + 1];
      }
      SumOfZero(f, s[1..]);
    }
  }

  /** An element at two places counts twice. */
  lemma TwoPlaces<T>(s: seq<T>, i: nat, j: nat)
    requires i < j < |s| && s[i] == s[j]
    ensures multiset(s)[s[i]] >= 2
  {
    assert s == s[..j] + s[j..];
    assert s[..j][i] in multiset(s[..j]);
    assert s[j..][0] in multiset(s[j..]);
  }

  lemma {:induction false} OnceEach<T>(s: seq<T>, x: T)
    requires NoDuplicates(s)
    ensures multiset(s)[x] == if x in s then 1 else 0
  {
    if s != [] {
      OnceEach(s[1..], x);
      assert s == [s[0]] + s[1..];
    }
  }

  lemma SameMembersSameMultiset<T>(a: seq<T>, b: seq<T>)
    requires NoDuplicates(a) && NoDuplicates(b) && forall x :: x in a <==> x in b
    ensures multiset(a) == multiset(b)
  {
    forall x ensures multiset(a)[x] == multiset(b)[x] {
      OnceEach(a, x);
      OnceEach(b, x);
    }
  }

  /** Taking out the element at `k`. */
  lemma WithoutAt<T>(s: seq<T>, k: nat)
    requires k < |s|
    ensures multiset(s[..k] + s[k + 1..]) + multiset{s[k]} == multiset(s)
  {
    assert s == s[..k] + ([s[k]] + s[k + 1..]);
  }

  lemma PermutationFacts<T>(a: seq<T>, b: seq<T>)
    requires multiset(a) == multiset(b)
    ensures |a| == |b|
    ensures forall x :: x in a <==> x in b
  {
    assert |a| == |multiset(a)| && |b| == |multiset(b)|;
    forall x ensures x in a <==> x in b {
      assert x in multiset(a) <==> x in multiset(b);
    }
  }
}
