/** Why the store may compare its time stamps as text. */
module Timestamps {
  import opened Prelude
  import opened Ordering

  /** A UTC instant by its calendar fields, without leap seconds. */
  datatype Instant = Instant(year: nat, month: nat, day: nat, hour: nat, minute: nat, second: nat, nanos: nat) {
    predicate Valid() {
      && year <= 9999 && 1 <= month <= 12 && 1 <= day <= 31
      && hour < 24 && minute < 60 && second < 60 && nanos < 1_000_000_000
    }
  }

  /** Chronological order of instants is the order of their fields. */
  function Fields(t: Instant): seq<nat> {
    [t.year, t.month, t.day, t.hour, t.minute, t.second, t.nanos]
  }

  predicate FieldsLess(a: seq<nat>, b: seq<nat>)
    requires |a| == |b|
  {
    a != [] && (a[0] < b[0] || (a[0] == b[0] && FieldsLess(a[1..], b[1..])))
  }

  predicate Earlier(s: Instant, t: Instant) { FieldsLess(Fields(s), Fields(t)) }

  // ----- the text

  function Pow10(w: nat): nat {
    if w == 0 then 1 else 10 * Pow10(w - 1)
  }

  /** `n` in exactly `w` decimal digits. */
  function Padded(n: nat, w: nat): (s: Bytes)
    ensures |s| == w && forall i :: 0 <= i < w ==> 48 <= s[i] <= 57
  {
    if w == 0 then [] else Padded(n / 10, w - 1) + [48 + n % 10]
  }

  /** Nine digits of fraction, or as few of 6, 3 or 0 as say the same. */
  function Fraction(nanos: nat): Bytes {
    if nanos == 0 then []
    else if nanos % 1_000_000 == 0 then [46] + Padded(nanos / 1_000_000, 3)
    else if nanos % 1_000 == 0 then [46] + Padded(nanos / 1_000, 6)
    else [46] + Padded(nanos, 9)
  }

  const OFFSET: Bytes := [43, 48, 48, 58, 48, 48]

  /** `DateTime<Utc>::to_rfc3339`, as the store writes it. */
  function Text(t: Instant): Bytes {
    Padded(t.year, 4) + [45] + (Padded(t.month, 2) + [45] + (Padded(t.day, 2) + [84]
      + (Padded(t.hour, 2) + [58]
          + (Padded(t.minute, 2) + [58] + (Padded(t.second, 2) + (Fraction(t.nanos) + OFFSET))))))
  }

  // ----- text order

  /** Comparing concatenations whose first parts have equal length. */
  lemma {:induction false} LessAppend(a: Bytes, b: Bytes, x: Bytes, y: Bytes)
    requires |a| == |b|
    ensures LexLess(a + x, b + y) <==> LexLess(a, b) || (a == b && LexLess(x, y))
  {
    if a == [] {
      assert a + x == x && b + y == y;
    } else {
      LessStep(a + x, b + y);
      LessStep(a, b);
      assert (a + x)[1..] == a[1..] + x && (b + y)[1..] == b[1..] + y;
      LessAppend(a[1..], b[1..], x, y);
      assert a == [a[0]] + a[1..] && b == [b[0]] + b[1..];
    }
  }

  lemma LessStep(a: Bytes, b: Bytes)
    requires a != [] && b != []
    ensures LexLess(a, b) <==> a[0] < b[0] || (a[0] == b[0] && LexLess(a[1..], b[1..]))
  {
    assert a == [a[0]] + a[1..] && b == [b[0]] + b[1..];
  }

  /** Equal-width decimals compare as numbers. */
  lemma {:induction false} PaddedOrder(m: nat, n: nat, w: nat)
    requires m < Pow10(w) && n < Pow10(w)
    ensures LexLess(Padded(m, w), Padded(n, w)) <==> m < n
    ensures Padded(m, w) == Padded(n, w) <==> m == n
  {
    if w > 0 {
      TenthBelow(m, Pow10(w - 1));
      TenthBelow(n, Pow10(w - 1));
      PaddedOrder(m / 10, n / 10, w - 1);
      LessAppend(Padded(m / 10, w - 1), Padded(n / 10, w - 1), [48 + m % 10], [48 + n % 10]);
      LastDigit(Padded(m / 10, w - 1), Padded(n / 10, w - 1), 48 + m % 10, 48 + n % 10);
      DigitSplit(m, n);
    }
  }

  lemma TenthBelow(m: nat, p: nat)
    requires m < 10 * p
    ensures m / 10 < p
  {
  }

  lemma DigitSplit(m: nat, n: nat)
    ensures m < n <==> m / 10 < n / 10 || (m / 10 == n / 10 && m % 10 < n % 10)
    ensures m == n <==> m / 10 == n / 10 && m % 10 == n % 10
  {
    assert m == 10 * (m / 10) + m % 10 && n == 10 * (n / 10) + n % 10;
  }

  lemma LastDigit(a: Bytes, b: Bytes, c: Byte, d: Byte)
    requires |a| == |b|
    ensures a + [c] == b + [d] <==> a == b && c == d
    ensures LexLess([c], [d]) <==> c < d
  {
    LessStep([c], [d]);
    if a + [c] == b + [d] {
      assert a == (a + [c])[..|a|] && b == (b + [d])[..|b|];
      assert c == (a + [c])[|a|] && d == (b + [d])[|b|];
    }
  }

  lemma Pow10Values()
    ensures Pow10(2) == 100 && Pow10(3) == 1_000 && Pow10(4) == 10_000
              && Pow10(6) == 1_000_000 && Pow10(9) == 1_000_000_000
  {
    assert Pow10(1) == 10;
    assert Pow10(5) == 100_000;
    assert Pow10(7) == 10_000_000 && Pow10(8) == 100_000_000;
  }

  /** A field and its separator, then the rest. */
  lemma FieldOrder(m: nat, n: nat, w: nat, sep: Bytes, x: Bytes, y: Bytes)
    requires m < Pow10(w) && n < Pow10(w)
    ensures LexLess(Padded(m, w) + sep + x, Padded(n, w) + sep + y) <==> m < n || (m == n && LexLess(x, y))
  {
    PaddedOrder(m, n, w);
    assert Padded(m, w) + sep + x == Padded(m, w) + (sep + x) && Padded(n, w) + sep + y == Padded(n, w) + (sep + y);
    LessAppend(Padded(m, w), Padded(n, w), sep + x, sep + y);
    LessAppend(sep, sep, x, y);
  }

  // ----- fractions

  predicate AllZero(d: Bytes) { forall i :: 0 <= i < |d| ==> d[i] == 48 }

  predicate AllDigits(d: Bytes) { forall i :: 0 <= i < |d| ==> 48 <= d[i] <= 57 }

  lemma {:induction false} ZeroDigits(w: nat)
    ensures AllZero(Padded(0, w))
  {
    if w > 0 {
      ZeroDigits(w - 1);
    }
  }

  /** Multiplying by a thousand appends three zeros. */
  lemma PaddedThousand(n: nat, w: nat)
    ensures Padded(1000 * n, w + 3) == Padded(n, w) + [48, 48, 48]
  {
    PaddedTen(n, w);
    PaddedTen(10 * n, w + 1);
    PaddedTen(100 * n, w + 2);
    assert Padded(n, w) + [48] + [48] + [48] == Padded(n, w) + [48, 48, 48];
  }

  lemma PaddedTen(n: nat, w: nat)
    ensures Padded(10 * n, w + 1) == Padded(n, w) + [48]
  {
    assert 10 * n / 10 == n && 10 * n % 10 == 0;
  }

  /** How many digits the fraction shows. */
  function Shown(nanos: nat): nat {
    if nanos == 0 then 0 else if nanos % 1_000_000 == 0 then 3 else if nanos % 1_000 == 0 then 6 else 9
  }

  /** What is shown, and the zeros that are not. */
  lemma FractionDigits(nanos: nat)
    requires nanos < 1_000_000_000
    ensures Shown(nanos) <= 9 && |Padded(nanos, 9)| == 9
    ensures Fraction(nanos) == if nanos == 0 then [] else [46] + Padded(nanos, 9)[..Shown(nanos)]
    ensures AllZero(Padded(nanos, 9)[Shown(nanos)..])
  {
    if nanos == 0 {
      ZeroDigits(9);
    } else if nanos % 1_000_000 == 0 {
      var k := nanos / 1_000_000;
      assert nanos == 1000 * (1000 * k);
      PaddedThousand(k, 3);
      PaddedThousand(1000 * k, 6);
      assert Padded(nanos, 9) == Padded(k, 3) + [48, 48, 48, 48, 48, 48];
    } else if nanos % 1_000 == 0 {
      var k := nanos / 1_000;
      assert nanos == 1000 * k;
      PaddedThousand(k, 6);
    } else {
      assert Padded(nanos, 9)[..9] == Padded(nanos, 9);
    }
  }

  /** Digits all zero are the least. */
  lemma {:induction false} ZerosLeast(z: Bytes, d: Bytes)
    requires |z| == |d| && AllZero(z) && AllDigits(d)
    ensures LexLeq(z, d)
  {
    if z != [] {
      ZerosLeast(z[1..], d[1..]);
    }
  }

  /** The offset sorts before any further digit. */
  lemma DigitAboveOffset(none: Bytes, more: Bytes)
    requires none == [] && more != [] && 48 <= more[0]
    ensures LexLess(none + OFFSET, more + OFFSET) && !LexLess(more + OFFSET, none + OFFSET)
  {
    assert none + OFFSET == OFFSET;
    LessStep(OFFSET, more + OFFSET);
    LessStep(more + OFFSET, OFFSET);
  }

  /** Two digit strings, each shown without some of its final zeros, compare as if shown in full. */
  lemma ShownOrder(p: Bytes, q: Bytes, i: nat, j: nat)
    requires |p| == |q| && AllDigits(p) && AllDigits(q) && i <= |p| && j <= |q|
    requires AllZero(p[i..]) && AllZero(q[j..]) && (p == q ==> i == j)
    ensures LexLess(p[..i] + OFFSET, q[..j] + OFFSET) <==> LexLess(p, q)
  {
    if i == j {
      assert p[i..] == q[i..];
      assert p == p[..i] + p[i..] && q == q[..i] + q[i..];
      LessAppend(p[..i], q[..i], p[i..], q[i..]);
      LessAppend(p[..i], q[..i], OFFSET, OFFSET);
    } else if i < j {
      ShorterIsLess(p, q, i, j);
    } else {
      ShorterIsLess(q, p, j, i);
      LessIsAsymmetric(p, q);
      LessIsAsymmetric(p[..i] + OFFSET, q[..j] + OFFSET);
      ShownDiffer(q, p, j, i);
    }
  }

  lemma LessIsAsymmetric(a: Bytes, b: Bytes)
    ensures LexLess(a, b) <==> a != b && !LexLess(b, a)
  {
    LexTotal(a, b);
    if LexLeq(a, b) && LexLeq(b, a) {
      LexAntisymmetric(a, b);
    }
  }

  lemma ShownDiffer(p: Bytes, q: Bytes, i: nat, j: nat)
    requires |p| == |q| && i < j <= |q|
    ensures p[..i] + OFFSET != q[..j] + OFFSET
  {
    assert |p[..i] + OFFSET| < |q[..j] + OFFSET|;
  }

  lemma ShorterIsLess(p: Bytes, q: Bytes, i: nat, j: nat)
    requires |p| == |q| && AllDigits(p) && AllDigits(q) && i < j <= |q| && AllZero(p[i..]) && p != q
    ensures LexLess(p[..i] + OFFSET, q[..j] + OFFSET) <==> LexLess(p, q)
  {
    assert p == p[..i] + p[i..] && q == q[..i] + q[i..];
    assert q[..j] + OFFSET == q[..i] + (q[i..j] + OFFSET);
    LessAppend(p[..i], q[..i], p[i..], q[i..]);
    LessAppend(p[..i], q[..i], OFFSET, q[i..j] + OFFSET);
    ZerosLeast(p[i..], q[i..]);
    assert q[i..j][0] == q[i];
    DigitAboveOffset([], q[i..j]);
    assert [] + OFFSET == OFFSET;
  }

  lemma PaddedIsDigits(n: nat, w: nat)
    ensures AllDigits(Padded(n, w))
  {
  }

  lemma ShownFractions(m: nat, n: nat)
    requires m < 1_000_000_000 && n < 1_000_000_000
    ensures Shown(m) <= 9 && Shown(n) <= 9 && |Padded(m, 9)| == |Padded(n, 9)| == 9
    ensures LexLess(Padded(m, 9)[..Shown(m)] + OFFSET, Padded(n, 9)[..Shown(n)] + OFFSET) <==> m < n
  {
    FractionDigits(m);
    FractionDigits(n);
    Pow10Values();
    PaddedOrder(m, n, 9);
    PaddedIsDigits(m, 9);
    PaddedIsDigits(n, 9);
    ShownOrder(Padded(m, 9), Padded(n, 9), Shown(m), Shown(n));
  }

  /** What stands after the point, up to the end of the text. */
  function AfterPoint(n: nat): Bytes
    requires Shown(n) <= |Padded(n, 9)|
  {
    Padded(n, 9)[..Shown(n)] + OFFSET
  }

  lemma FractionText(n: nat)
    requires n < 1_000_000_000
    ensures Shown(n) <= |Padded(n, 9)|
    ensures Fraction(n) + OFFSET == if n == 0 then OFFSET else [46] + AfterPoint(n)
  {
    FractionDigits(n);
    if n != 0 {
      assert [46] + Padded(n, 9)[..Shown(n)] + OFFSET == [46] + AfterPoint(n);
    }
  }

  /** A point, or the offset straight away. */
  lemma PointOrder(x: Bytes, y: Bytes)
    ensures LexLess([46] + x, [46] + y) <==> LexLess(x, y)
    ensures LexLess(OFFSET, [46] + y) && !LexLess([46] + x, OFFSET) && !LexLess(OFFSET, OFFSET)
  {
    LessStep([46] + x, [46] + y);
    assert ([46] + x)[1..] == x && ([46] + y)[1..] == y;
    LessStep(OFFSET, [46] + y);
    LessStep([46] + x, OFFSET);
  }

  /** Fractions of different lengths compare as the numbers they stand for. */
  lemma FractionOrder(m: nat, n: nat)
    requires m < 1_000_000_000 && n < 1_000_000_000
    ensures LexLess(Fraction(m) + OFFSET, Fraction(n) + OFFSET) <==> m < n
  {
    FractionText(m);
    FractionText(n);
    PointOrder(AfterPoint(m), AfterPoint(n));
    ShownFractions(m, n);
  }

  /** From the seconds on. */
  lemma SecondOrder(s: Instant, t: Instant)
    requires s.Valid() && t.Valid()
    ensures LexLess(Padded(s.second, 2) + (Fraction(s.nanos) + OFFSET),
              Padded(t.second, 2) + (Fraction(t.nanos) + OFFSET))
            <==> s.second < t.second || (s.second == t.second && s.nanos < t.nanos)
  {
    Pow10Values();
    PaddedOrder(s.second, t.second, 2);
    FractionOrder(s.nanos, t.nanos);
    LessAppend(Padded(s.second, 2), Padded(t.second, 2), Fraction(s.nanos) + OFFSET, Fraction(t.nanos) + OFFSET);
  }

  /** From the hour on. */
  function TimeText(t: Instant): Bytes {
    Padded(t.hour, 2) + [58] + (Padded(t.minute, 2) + [58] + (Padded(t.second, 2) + (Fraction(t.nanos) + OFFSET)))
  }

  lemma TimeOrder(s: Instant, t: Instant)
    requires s.Valid() && t.Valid()
    ensures LexLess(TimeText(s), TimeText(t))
            <==> FieldsLess([s.hour, s.minute, s.second, s.nanos], [t.hour, t.minute, t.second, t.nanos])
  {
    Pow10Values();
    var x, y := Padded(s.second, 2) + (Fraction(s.nanos) + OFFSET), Padded(t.second, 2) + (Fraction(t.nanos) + OFFSET);
    SecondOrder(s, t);
    FieldOrder(s.minute, t.minute, 2, [58], x, y);
    FieldOrder(s.hour, t.hour, 2, [58], Padded(s.minute, 2) + [58] + x, Padded(t.minute, 2) + [58] + y);
    FourFields(s.hour, s.minute, s.second, s.nanos, t.hour, t.minute, t.second, t.nanos);
  }

  lemma FieldsHead(a: nat, x: seq<nat>, b: nat, y: seq<nat>)
    requires |x| == |y|
    ensures FieldsLess([a] + x, [b] + y) <==> a < b || (a == b && FieldsLess(x, y))
  {
    assert ([a] + x)[1..] == x && ([b] + y)[1..] == y;
  }

  lemma FourFields(a: nat, b: nat, c: nat, d: nat, e: nat, f: nat, g: nat, h: nat)
    ensures FieldsLess([a, b, c, d], [e, f, g, h])
            <==> a < e || (a == e && (b < f || (b == f && (c < g || (c == g && d < h)))))
  {
    FieldsHead(d, [], h, []);
    FieldsHead(c, [d], g, [h]);
    FieldsHead(b, [c, d], f, [g, h]);
    FieldsHead(a, [b, c, d], e, [f, g, h]);
    assert [d] + [] == [d] && [h] + [] == [h];
    assert [c] + [d] == [c, d] && [g] + [h] == [g, h];
    assert [b] + [c, d] == [b, c, d] && [f] + [g, h] == [f, g, h];
    assert [a] + [b, c, d] == [a, b, c, d] && [e] + [f, g, h] == [e, f, g, h];
  }

  /** The byte order of the stored text is the order of the instants, though the texts differ in
      length. */
  lemma TextOrderIsTimeOrder(s: Instant, t: Instant)
    requires s.Valid() && t.Valid()
    ensures LexLess(Text(s), Text(t)) <==> Earlier(s, t)
  {
    Pow10Values();
    TimeOrder(s, t);
    var x, y := TimeText(s), TimeText(t);
    FieldOrder(s.day, t.day, 2, [84], x, y);
    FieldOrder(s.month, t.month, 2, [45], Padded(s.day, 2) + [84] + x, Padded(t.day, 2) + [84] + y);
    FieldOrder(s.year, t.year, 4, [45], Padded(s.month, 2) + [45] + (Padded(s.day, 2) + [84] + x),
               Padded(t.month, 2) + [45] + (Padded(t.day, 2) + [84] + y));
    DateFirst(s, t);
  }

  lemma DateFirst(s: Instant, t: Instant)
    ensures Earlier(s, t) <==>
            s.year < t.year
                || (s.year == t.year && (s.month < t.month || (s.month == t.month && (s.day < t.day || (s.day == t.day
              && FieldsLess([s.hour, s.minute, s.second, s.nanos], [t.hour, t.minute, t.second, t.nanos]))))))
  {
    var a, b := Fields(s), Fields(t);
    assert a[1..][1..][1..] == [s.hour, s.minute, s.second, s.nanos];
    assert b[1..][1..][1..] == [t.hour, t.minute, t.second, t.nanos];
    assert FieldsLess(a, b) <==> s.year < t.year || (s.year == t.year && FieldsLess(a[1..], b[1..]));
    assert FieldsLess(a[1..][1..], b[1..][1..])
      <==> s.day < t.day || (s.day == t.day && FieldsLess(a[1..][1..][1..], b[1..][1..][1..]));
    assert FieldsLess(a[1..], b[1..])
        <==> s.month < t.month || (s.month == t.month && FieldsLess(a[1..][1..], b[1..][1..]));
  }

  // ----- reading the text

  /** The number that digits say. */
  function Number(d: Bytes): nat
    requires AllDigits(d)
  {
    if d == [] then 0 else 10 * Number(d[..|d| - 1]) + (d[|d| - 1] - 48)
  }

  /** The text has the number at this place, in that many digits. */
  predicate NumberAt(s: Bytes, at: nat, w: nat, n: nat) {
    at + w <= |s| && AllDigits(s[at..at + w]) && Number(s[at..at + w]) == n
  }

  lemma {:induction false} NumberOfPadded(n: nat, w: nat)
    requires n < Pow10(w)
    ensures Number(Padded(n, w)) == n
  {
    if w > 0 {
      NumberOfPadded(n / 10, w - 1);
      assert Padded(n, w)[..w - 1] == Padded(n / 10, w - 1);
    }
  }

  lemma FieldReadsBack(s: Bytes, at: nat, n: nat, w: nat, x: Bytes)
    requires n < Pow10(w) && at <= |s| && s[at..] == Padded(n, w) + x
    ensures NumberAt(s, at, w, n) && s[at + w..] == x
  {
    NumberOfPadded(n, w);
    assert s[at..at + w] == s[at..][..w] == Padded(n, w);
    assert s[at + w..] == s[at..][w..];
  }

  lemma SeparatorReadsBack(s: Bytes, at: nat, c: Byte, x: Bytes)
    requires at <= |s| && s[at..] == [c] + x
    ensures at < |s| && s[at] == c && s[at + 1..] == x
  {
    assert s[at] == s[at..][0] && s[at + 1..] == s[at..][1..];
  }

  lemma FieldThenSeparator(s: Bytes, at: nat, n: nat, w: nat, c: Byte, x: Bytes)
    requires n < Pow10(w) && at <= |s| && s[at..] == Padded(n, w) + [c] + x
    ensures NumberAt(s, at, w, n) && at + w < |s| && s[at + w] == c && s[at + w + 1..] == x
  {
    assert Padded(n, w) + [c] + x == Padded(n, w) + ([c] + x);
    FieldReadsBack(s, at, n, w, [c] + x);
    SeparatorReadsBack(s, at + w, c, x);
  }

  /** Each field stands where RFC 3339, section 5.6, has it: the date, "T", the time, what there is of a
      fraction, and "+00:00". */
  lemma TextReadsBack(t: Instant)
    requires t.Valid()
    ensures var s := Text(t);
            && |s| >= 25
            && NumberAt(s, 0, 4, t.year) && s[4] == '-' as int && NumberAt(s, 5, 2, t.month) && s[7] == '-' as int
            && NumberAt(s, 8, 2, t.day) && s[10] == 'T' as int
            && NumberAt(s, 11, 2, t.hour) && s[13] == ':' as int && NumberAt(s, 14, 2, t.minute)
            && s[16] == ':' as int && NumberAt(s, 17, 2, t.second)
            && s[19..] == Fraction(t.nanos) + Ascii("+00:00")
  {
    Pow10Values();
    var s := Text(t);
    assert OFFSET == Ascii("+00:00");
    var end := Fraction(t.nanos) + OFFSET;
    var second := Padded(t.second, 2) + end;
    var minute := Padded(t.minute, 2) + [58] + second;
    DateReadsBack(t);
    FieldThenSeparator(s, 11, t.hour, 2, 58, minute);
    FieldThenSeparator(s, 14, t.minute, 2, 58, second);
    FieldReadsBack(s, 17, t.second, 2, end);
    assert |s| == 19 + |s[19..]|;
  }

  lemma DateReadsBack(t: Instant)
    requires t.Valid()
    ensures var s := Text(t);
            && |s| >= 11
            && NumberAt(s, 0, 4, t.year) && s[4] == '-' as int && NumberAt(s, 5, 2, t.month) && s[7] == '-' as int
            && NumberAt(s, 8, 2, t.day) && s[10] == 'T' as int && s[11..] == TimeText(t)
  {
    Pow10Values();
    var s := Text(t);
    var day := Padded(t.day, 2) + [84] + TimeText(t);
    var month := Padded(t.month, 2) + [45] + day;
    assert s[0..] == s;
    FieldThenSeparator(s, 0, t.year, 4, 45, month);
    FieldThenSeparator(s, 5, t.month, 2, 45, day);
    FieldThenSeparator(s, 8, t.day, 2, 84, TimeText(t));
  }

  /** The fraction is a point and as few of 3, 6 or 9 digits as say the nanoseconds, or nothing if there
      are none. */
  lemma FractionReadsBack(nanos: nat)
    requires nanos < 1_000_000_000
    ensures var f := Fraction(nanos);
            if nanos == 0 then f == []
            else f != [] && f[0] == '.' as int
                 && ((NumberAt(f, 1, 3, nanos / 1_000_000) && |f| == 4 && nanos % 1_000_000 == 0)
                     || (NumberAt(f, 1, 6, nanos / 1_000) && |f| == 7 && nanos % 1_000 == 0 != nanos % 1_000_000)
                     || (NumberAt(f, 1, 9, nanos) && |f| == 10 && nanos % 1_000 != 0))
  {
    Pow10Values();
    if nanos != 0 {
      var w := Shown(nanos);
      var n := if w == 3 then nanos / 1_000_000 else if w == 6 then nanos / 1_000 else nanos;
      assert Fraction(nanos) == [46] + Padded(n, w);
      assert Fraction(nanos)[1..] == Padded(n, w) + [];
      FieldReadsBack(Fraction(nanos), 1, n, w, []);
    }
  }
}
