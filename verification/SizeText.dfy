/** Human-readable sizes: printing, and the more forgiving parsing. */
module SizeText {
  import opened Prelude
  import opened Numbers

  datatype SizeError = Invalid | TooBig | Zero

  datatype SizeResult = Ok(bytes: nat) | Err(error: SizeError)

  const KIB: nat := 1024
  const MIB: nat := 1024 * 1024
  const GIB: nat := 1024 * 1024 * 1024

  /** The suffixes in the order in which they are tried; `Bare` is none at all. */
  datatype Unit = Gib | Gb | Mib | Mb | Kib | Kb | B | Bare {
    function Suffix(): (s: string)
      ensures forall i :: 0 <= i < |s| ==> 'a' <= s[i] <= 'z'
    {
      match this
      case Gib => "gib"
      case Gb => "gb"
      case Mib => "mib"
      case Mb => "mb"
      case Kib => "kib"
      case Kb => "kb"
      case B => "b"
      case Bare => ""
    }

    function Place(): nat {
      match this
      case Gib => 0
      case Gb => 1
      case Mib => 2
      case Mb => 3
      case Kib => 4
      case Kb => 5
      case B => 6
      case Bare => 7
    }

    function Multiplier(): nat {
      match this
      case Gib => GIB
      case Gb => GIB
      case Mib => MIB
      case Mb => MIB
      case Kib => KIB
      case Kb => KIB
      case B => 1
      case Bare => 1
    }
  }

  // ----- normalising the text

  /** The characters with the property White_Space. */
  predicate IsSpace(c: char) {
    var u := c as int;
    9 <= u <= 13 || u == 0x20 || u == 0x85 || u == 0xA0 || u == 0x1680 || 0x2000 <= u <= 0x200A
    || u == 0x2028 || u == 0x2029 || u == 0x202F || u == 0x205F || u == 0x3000
  }

  function TrimStart(s: string): string {
    if s != [] && IsSpace(s[0]) then TrimStart(s[1..]) else s
  }

  function TrimEnd(s: string): string {
    if s != [] && IsSpace(s[|s| - 1]) then TrimEnd(s[..|s| - 1]) else s
  }

  function LowerChar(c: char): char {
    if 'A' <= c <= 'Z' then (c as int + 32) as char else c
  }

  function Lower(s: string): (r: string)
    ensures |r| == |s| && forall i :: 0 <= i < |s| ==> r[i] == LowerChar(s[i])
  {
    seq(|s|, i requires 0 <= i < |s| => LowerChar(s[i]))
  }

  function DropSpaces(s: string): string {
    if s == [] then [] else (if s[0] == ' ' then [] else [s[0]]) + DropSpaces(s[1..])
  }

  function Normalized(s: string): string { DropSpaces(Lower(TrimEnd(TrimStart(s)))) }

  // ----- parsing

  predicate EndsWith(s: string, suffix: string) {
    |suffix| <= |s| && s[|s| - |suffix|..] == suffix
  }

  /** The first unit whose suffix the text has. */
  function FindUnit(s: string): (u: Unit)
    ensures EndsWith(s, u.Suffix())
  {
    if EndsWith(s, Gib.Suffix()) then Gib
    else if EndsWith(s, Gb.Suffix()) then Gb
    else if EndsWith(s, Mib.Suffix()) then Mib
    else if EndsWith(s, Mb.Suffix()) then Mb
    else if EndsWith(s, Kib.Suffix()) then Kib
    else if EndsWith(s, Kb.Suffix()) then Kb
    else if EndsWith(s, B.Suffix()) then B
    else Bare
  }

  lemma FirstIsFound(s: string, v: Unit)
    requires EndsWith(s, v.Suffix())
    ensures FindUnit(s).Place() <= v.Place()
  {
  }

  function Finish(number: Option<nat>, multiplier: nat): SizeResult {
    if number.None? then Err(Invalid)
    else if number.value * multiplier >= U64_LIMIT then Err(TooBig)
    else if number.value * multiplier == 0 then Err(Zero)
    else Ok(number.value * multiplier)
  }

  function ParseSize(s: string): SizeResult {
    var text := Normalized(s);
    var unit := FindUnit(text);
    Finish(ParseU64(text[..|text| - |unit.Suffix()|]), unit.Multiplier())
  }

  // ----- printing

  /** The first of GiB, MiB and KiB that divides the size, else a byte. */
  function PrintedUnit(bytes: nat): (unit: nat)
    ensures unit == 1 || unit == KIB || unit == MIB || unit == GIB
  {
    if bytes >= GIB && bytes % GIB == 0 then GIB
    else if bytes >= MIB && bytes % MIB == 0 then MIB
    else if bytes >= KIB && bytes % KIB == 0 then KIB
    else 1
  }

  function UnitName(unit: nat): (name: string)
    ensures name != [] && forall i :: 0 <= i < |name| ==> !IsSpace(name[i])
  {
    if unit == GIB then "GiB" else if unit == MIB then "MiB" else if unit == KIB then "KiB" else "B"
  }

  function FormatSize(bytes: nat): string {
    Decimal(bytes / PrintedUnit(bytes)) + " " + UnitName(PrintedUnit(bytes))
  }

  /** The printed unit divides the size, and no larger one does. */
  lemma PrintedUnitIsLargest(bytes: nat)
    requires bytes > 0
    ensures bytes % PrintedUnit(bytes) == 0
    ensures bytes % GIB == 0 ==> PrintedUnit(bytes) == GIB
    ensures bytes % MIB == 0 ==> PrintedUnit(bytes) >= MIB
    ensures bytes % KIB == 0 ==> PrintedUnit(bytes) >= KIB
  {
  }

  // ----- what the parser accepts

  /** The text reads as a number of units; no order among the suffixes is needed to say so. */
  ghost predicate ReadsAs(text: string, u: Unit, number: string, k: nat) {
    text == number + u.Suffix() && ParseU64(number) == Some(k)
  }

  lemma EndsInDigit(number: string, k: nat)
    requires ParseU64(number) == Some(k)
    ensures number != [] && IsDigit(number[|number| - 1])
  {
    var digits := if |number| > 1 && number[0] == '+' then number[1..] else number;
    assert digits[|digits| - 1] == number[|number| - 1];
  }

  /** A longer suffix would have to contain the digit. */
  lemma DigitInside(number: string, a: string, b: string)
    requires number != [] && IsDigit(number[|number| - 1]) && |a| < |b| && EndsWith(number + a, b)
    ensures IsDigit(b[|b| - |a| - 1])
  {
    var text := number + a;
    assert text[|text| - |b|..][|b| - |a| - 1] == text[|number| - 1];
  }

  lemma SuffixOfSuffix(number: string, k: nat, a: Unit, b: Unit)
    requires ParseU64(number) == Some(k) && EndsWith(number + a.Suffix(), b.Suffix())
    ensures EndsWith(a.Suffix(), b.Suffix())
  {
    EndsInDigit(number, k);
    if |a.Suffix()| < |b.Suffix()| {
      DigitInside(number, a.Suffix(), b.Suffix());
      assert false;
    }
    var text := number + a.Suffix();
    assert text[|text| - |b.Suffix()|..] == a.Suffix()[|a.Suffix()| - |b.Suffix()|..];
  }

  /** After a digit the suffix that was written is the one found. */
  lemma SuffixIsFound(number: string, k: nat, u: Unit)
    requires ParseU64(number) == Some(k)
    ensures FindUnit(number + u.Suffix()) == u
  {
    var text := number + u.Suffix();
    assert text[|text| - |u.Suffix()|..] == u.Suffix();
    SuffixOfSuffix(number, k, u, FindUnit(text));
    FirstIsFound(text, u);
    OnlyEarlierIsItself(u, FindUnit(text));
  }

  lemma OnlyEarlierIsItself(u: Unit, f: Unit)
    requires EndsWith(u.Suffix(), f.Suffix()) && f.Place() <= u.Place()
    ensures f == u
  {
  }

  lemma ReadingIsParsed(s: string, u: Unit, number: string, k: nat)
    requires ReadsAs(Normalized(s), u, number, k)
    ensures ParseSize(s) == Finish(Some(k), u.Multiplier())
  {
    var text := Normalized(s);
    SuffixIsFound(number, k, u);
    assert text[..|text| - |u.Suffix()|] == number;
  }

  lemma ParsedIsReading(s: string) returns (u: Unit, number: string, k: nat)
    requires ParseSize(s) != Err(Invalid)
    ensures ReadsAs(Normalized(s), u, number, k) && ParseSize(s) == Finish(Some(k), u.Multiplier())
  {
    var text := Normalized(s);
    u := FindUnit(text);
    number := text[..|text| - |u.Suffix()|];
    assert text == number + u.Suffix();
    k := ParseU64(number).value;
  }

  /** Exactly the readings with a product from 1 to 2^64 - 1 are accepted, with that product. */
  lemma ParseSizeIff(s: string, n: nat)
    ensures ParseSize(s) == Ok(n) <==>
            0 < n < U64_LIMIT
                && exists u: Unit, number, k: nat :: ReadsAs(Normalized(s), u, number, k) && k * u.Multiplier() == n
  {
    if ParseSize(s) == Ok(n) {
      var u, number, k := ParsedIsReading(s);
    }
    if u: Unit, number, k: nat :| ReadsAs(Normalized(s), u, number, k) && k * u.Multiplier() == n && 0 < n < U64_LIMIT {
      ReadingIsParsed(s, u, number, k);
    }
  }

  // ----- printing and parsing back

  lemma {:induction false} DropNoSpaces(s: string)
    requires forall i :: 0 <= i < |s| ==> s[i] != ' '
    ensures DropSpaces(s) == s
  {
    if s != [] {
      DropNoSpaces(s[1..]);
    }
  }

  lemma {:induction false} DropSpacesAppend(a: string, b: string)
    ensures DropSpaces(a + b) == DropSpaces(a) + DropSpaces(b)
  {
    if a == [] {
      assert a + b == b;
    } else {
      assert (a + b)[1..] == a[1..] + b;
      DropSpacesAppend(a[1..], b);
    }
  }

  lemma DigitsAreNotSpaces(s: string)
    requires AllDigits(s)
    ensures Lower(s) == s && DropSpaces(s) == s
  {
    DropNoSpaces(s);
  }

  lemma TrimmedPrinted(digits: string, letters: string)
    requires AllDigits(digits) && digits != [] && letters != []
    requires forall i :: 0 <= i < |letters| ==> !IsSpace(letters[i])
    ensures TrimEnd(TrimStart(digits + " " + letters)) == digits + " " + letters
  {
    var s := digits + " " + letters;
    assert s[0] == digits[0] && s[|s| - 1] == letters[|letters| - 1];
    assert IsDigit(s[0]);
    NothingToTrim(s);
  }

  lemma NothingToTrim(s: string)
    requires s != [] && !IsSpace(s[0]) && !IsSpace(s[|s| - 1])
    ensures TrimEnd(TrimStart(s)) == s
  {
  }

  lemma DroppedPrinted(digits: string, letters: string)
    requires AllDigits(digits)
    requires forall i :: 0 <= i < |letters| ==> !IsSpace(letters[i])
    ensures DropSpaces(digits + " " + letters) == digits + letters
  {
    DigitsAreNotSpaces(digits);
    DropNoSpaces(letters);
    DropSpacesInside(digits, letters);
    DropSpacesAppend(digits, letters);
  }

  lemma LowerPrinted(digits: string, letters: string)
    requires AllDigits(digits)
    ensures Lower(digits + " " + letters) == digits + " " + Lower(letters)
  {
    DigitsAreNotSpaces(digits);
    var s := digits + " " + letters;
    forall i | 0 <= i < |s| ensures Lower(s)[i] == (digits + " " + Lower(letters))[i] {
      if i < |digits| {
        assert Lower(digits)[i] == digits[i];
      }
    }
  }

  /** A printed size, normalised: the digits and the suffix. */
  lemma NormalizedPrinted(digits: string, letters: string)
    requires AllDigits(digits) && digits != [] && letters != []
    requires forall i :: 0 <= i < |letters| ==> !IsSpace(letters[i])
    ensures Normalized(digits + " " + letters) == digits + Lower(letters)
  {
    TrimmedPrinted(digits, letters);
    LowerPrinted(digits, letters);
    forall i | 0 <= i < |letters| ensures !IsSpace(Lower(letters)[i]) {
      LowerKeepsSpaces(letters[i]);
    }
    DroppedPrinted(digits, Lower(letters));
  }

  lemma PrintedParses(k: nat, letters: string, u: Unit)
    requires letters != [] && Lower(letters) == u.Suffix()
    requires forall i :: 0 <= i < |letters| ==> !IsSpace(letters[i])
    requires k < U64_LIMIT
    ensures ParseSize(Decimal(k) + " " + letters) == Finish(Some(k), u.Multiplier())
  {
    NormalizedPrinted(Decimal(k), letters);
    ParseOfDecimal(k);
    ReadingIsParsed(Decimal(k) + " " + letters, u, Decimal(k), k);
  }

  function UnitOf(unit: nat): Unit {
    if unit == GIB then Gib else if unit == MIB then Mib else if unit == KIB then Kib else B
  }

  lemma UnitNameIsSuffix(unit: nat)
    requires unit == 1 || unit == KIB || unit == MIB || unit == GIB
    ensures Lower(UnitName(unit)) == UnitOf(unit).Suffix() && UnitOf(unit).Multiplier() == unit
  {
    assert Lower("GiB") == "gib" && Lower("MiB") == "mib" && Lower("KiB") == "kib" && Lower("B") == "b";
  }

  /** Every size from 1 to 2^64 - 1 survives printing and parsing. */
  lemma ParseInvertsFormat(bytes: nat)
    requires 0 < bytes < U64_LIMIT
    ensures ParseSize(FormatSize(bytes)) == Ok(bytes)
  {
    var unit := PrintedUnit(bytes);
    PrintedUnitIsLargest(bytes);
    QuotientFinishes(bytes, unit);
    UnitNameIsSuffix(unit);
    var k := bytes / unit;
    PrintedParses(k, UnitName(unit), UnitOf(unit));
  }

  lemma QuotientFinishes(bytes: nat, unit: nat)
    requires unit == 1 || unit == KIB || unit == MIB || unit == GIB
    requires 0 < bytes < U64_LIMIT && bytes % unit == 0
    ensures bytes / unit < U64_LIMIT && Finish(Some(bytes / unit), unit) == Ok(bytes)
  {
    ExactQuotient(bytes, unit);
  }

  lemma ExactQuotient(n: nat, d: nat)
    requires d == 1 || d == KIB || d == MIB || d == GIB
    requires n % d == 0
    ensures n / d * d == n && n / d <= n
  {
    if d == GIB {
      assert n / 0x4000_0000 * 0x4000_0000 == n;
    } else if d == MIB {
      assert n / 0x10_0000 * 0x10_0000 == n;
    } else if d == KIB {
      assert n / 0x400 * 0x400 == n;
    }
  }

  /** So what was accepted once is accepted again, with the same meaning, in its printed form. */
  lemma AcceptedSizesReparse(s: string)
    requires ParseSize(s).Ok?
    ensures ParseSize(FormatSize(ParseSize(s).bytes)) == ParseSize(s)
  {
    ParseInvertsFormat(ParseSize(s).bytes);
  }

  // ----- what the parser ignores

  lemma LowerKeepsSpaces(c: char)
    ensures IsSpace(LowerChar(c)) == IsSpace(c) && LowerChar(LowerChar(c)) == LowerChar(c)
  {
  }

  lemma {:induction false} TrimStartOfLower(s: string)
    ensures TrimStart(Lower(s)) == Lower(TrimStart(s))
  {
    if s != [] {
      LowerKeepsSpaces(s[0]);
      assert Lower(s)[1..] == Lower(s[1..]);
      TrimStartOfLower(s[1..]);
    }
  }

  lemma {:induction false} TrimEndOfLower(s: string)
    ensures TrimEnd(Lower(s)) == Lower(TrimEnd(s))
  {
    if s != [] {
      LowerKeepsSpaces(s[|s| - 1]);
      assert Lower(s)[..|s| - 1] == Lower(s[..|s| - 1]);
      TrimEndOfLower(s[..|s| - 1]);
    }
  }

  predicate SameLetter(a: char, b: char) {
    a == b || ('A' <= a <= 'Z' && b as int == a as int + 32) || ('A' <= b <= 'Z' && a as int == b as int + 32)
  }

  /** Letter case does not matter. */
  lemma CaseIsIgnored(a: string, b: string)
    requires |a| == |b| && forall i :: 0 <= i < |a| ==> SameLetter(a[i], b[i])
    ensures ParseSize(a) == ParseSize(b)
  {
    assert Lower(a) == Lower(b);
    LowerIsParsed(a);
    LowerIsParsed(b);
  }

  lemma LowerIsParsed(s: string)
    ensures ParseSize(Lower(s)) == ParseSize(s)
  {
    TrimStartOfLower(s);
    TrimEndOfLower(TrimStart(s));
    var t := TrimEnd(TrimStart(s));
    forall i | 0 <= i < |t| ensures Lower(Lower(t))[i] == Lower(t)[i] {
      LowerKeepsSpaces(t[i]);
    }
    assert Lower(Lower(t)) == Lower(t);
  }

  lemma {:induction false} DropOfTrimStart(s: string)
    ensures DropSpaces(TrimStart(s)) == TrimStart(DropSpaces(s))
  {
    if s != [] {
      DropOfTrimStart(s[1..]);
      if s[0] != ' ' {
        assert DropSpaces(s)[0] == s[0] && DropSpaces(s)[1..] == DropSpaces(s[1..]);
      } else {
        assert DropSpaces(s) == DropSpaces(s[1..]);
      }
    }
  }

  lemma {:induction false} DropOfTrimEnd(s: string)
    ensures DropSpaces(TrimEnd(s)) == TrimEnd(DropSpaces(s))
  {
    if s != [] {
      var front, c := s[..|s| - 1], s[|s| - 1];
      DropOfTrimEnd(front);
      assert s == front + [c];
      DropSpacesAppend(front, [c]);
      assert DropSpaces([c]) == if c == ' ' then [] else [c];
      if c != ' ' {
        assert (DropSpaces(front) + [c])[..|DropSpaces(front)|] == DropSpaces(front);
      } else {
        assert DropSpaces(front) + [] == DropSpaces(front);
      }
    }
  }

  lemma {:induction false} DropOfLower(s: string)
    ensures DropSpaces(Lower(s)) == Lower(DropSpaces(s))
  {
    if s != [] {
      DropOfLower(s[1..]);
      assert Lower(s)[1..] == Lower(s[1..]);
    }
  }

  lemma DropSpacesInside(a: string, b: string)
    ensures DropSpaces(a + " " + b) == DropSpaces(a + b)
  {
    assert a + " " + b == a + (" " + b);
    assert (" " + b)[1..] == b && DropSpaces(" " + b) == DropSpaces(b);
    DropSpacesAppend(a, " " + b);
    DropSpacesAppend(a, b);
  }

  /** Spaces may stand anywhere. */
  lemma SpacesAreIgnored(a: string, b: string)
    ensures ParseSize(a + " " + b) == ParseSize(a + b)
  {
    SpacesAreNormalizedAway(a, b);
  }

  lemma SpacesAreNormalizedAway(a: string, b: string)
    ensures Normalized(a + " " + b) == Normalized(a + b)
  {
    NormalizedDropsFirst(a + " " + b);
    NormalizedDropsFirst(a + b);
    DropSpacesInside(a, b);
  }

  lemma NormalizedDropsFirst(s: string)
    ensures Normalized(s) == Lower(TrimEnd(TrimStart(DropSpaces(s))))
  {
    DropOfLower(TrimEnd(TrimStart(s)));
    DropOfTrimEnd(TrimStart(s));
    DropOfTrimStart(s);
  }

  predicate AllSpace(s: string) { forall i :: 0 <= i < |s| ==> IsSpace(s[i]) }

  /** White space of any kind may stand before and after. */
  lemma WhiteSpaceAround(before: string, s: string, after: string)
    requires AllSpace(before) && AllSpace(after)
    ensures ParseSize(before + s + after) == ParseSize(s)
  {
    assert before + s + after == before + (s + after);
    TrimStartOfSpace(before, s + after);
    TrimmedBefore(s, after);
  }

  lemma TrimmedBefore(s: string, after: string)
    requires AllSpace(after)
    ensures TrimEnd(TrimStart(s + after)) == TrimEnd(TrimStart(s))
  {
    if AllSpace(s) {
      TrimStartOfSpace(s, after);
      TrimStartIsEmpty(after);
      TrimStartIsEmpty(s);
    } else {
      TrimStartBefore(s, after);
      TrimEndOfSpace(TrimStart(s), after);
    }
  }

  lemma {:induction false} TrimStartIsEmpty(s: string)
    requires AllSpace(s)
    ensures TrimStart(s) == []
  {
    if s != [] {
      TrimStartIsEmpty(s[1..]);
    }
  }

  lemma {:induction false} TrimStartOfSpace(before: string, s: string)
    requires AllSpace(before)
    ensures TrimStart(before + s) == TrimStart(s)
  {
    if before == [] {
      assert before + s == s;
    } else {
      assert (before + s)[1..] == before[1..] + s;
      TrimStartOfSpace(before[1..], s);
    }
  }

  lemma {:induction false} TrimEndOfSpace(s: string, after: string)
    requires AllSpace(after)
    ensures TrimEnd(s + after) == TrimEnd(s)
  {
    if after == [] {
      assert s + after == s;
    } else {
      assert (s + after)[..|s + after| - 1] == s + after[..|after| - 1];
      TrimEndOfSpace(s, after[..|after| - 1]);
    }
  }

  lemma {:induction false} TrimStartBefore(s: string, after: string)
    requires !AllSpace(s)
    ensures TrimStart(s + after) == TrimStart(s) + after
  {
    assert (s + after)[1..] == s[1..] + after;
    if IsSpace(s[0]) {
      TrimStartBefore(s[1..], after);
    }
  }

  /** Nothing else is left out: within the text, a tab stays. */
  lemma NothingElseIsIgnored(s: string)
    requires s == [] || (!IsSpace(s[0]) && !IsSpace(s[|s| - 1]))
    requires forall i :: 0 <= i < |s| ==> s[i] != ' ' && !('A' <= s[i] <= 'Z')
    ensures Normalized(s) == s
  {
    if s != [] {
      NothingToTrim(s);
    }
    assert Lower(s) == s;
    DropNoSpaces(s);
  }

  // ----- the suffixes

  /** What the suffixes multiply by. */
  lemma SuffixValues()
    ensures Gib.Multiplier() == Gb.Multiplier() == 1_073_741_824
    ensures Mib.Multiplier() == Mb.Multiplier() == 1_048_576
    ensures Kib.Multiplier() == Kb.Multiplier() == 1_024
    ensures B.Multiplier() == Bare.Multiplier() == 1
  {
  }

  /** How sizes are printed. */
  lemma PrintedAs(bytes: nat)
    requires bytes > 0
    ensures FormatSize(bytes) ==
            if bytes % 1_073_741_824 == 0 then Decimal(bytes / 1_073_741_824) + " GiB"
            else if bytes % 1_048_576 == 0 then Decimal(bytes / 1_048_576) + " MiB"
            else if bytes % 1_024 == 0 then Decimal(bytes / 1_024) + " KiB"
            else Decimal(bytes) + " B"
  {
    PrintedUnitIsLargest(bytes);
    assert Decimal(bytes) + " " + "B" == Decimal(bytes) + " B";
    assert forall d: string ::
        d + " " + "GiB" == d + " GiB" && d + " " + "MiB" == d + " MiB" && d + " " + "KiB" == d + " KiB";
  }

  /** Letters that end a text are left alone, whatever precedes them. */
  lemma {:induction false} TrimStartOfEnding(t: string, letters: string)
    requires letters != [] && !IsSpace(letters[0])
    ensures TrimStart(t + letters) == TrimStart(t) + letters
  {
    if t == [] {
      assert t + letters == letters;
    } else {
      assert (t + letters)[1..] == t[1..] + letters;
      TrimStartOfEnding(t[1..], letters);
    }
  }

  predicate IsWord(s: string) {
    s != [] && forall i :: 0 <= i < |s| ==> 'a' <= s[i] <= 'z'
  }

  lemma NormalizedEnding(t: string, word: string)
    requires IsWord(word)
    ensures Normalized(t + word) == DropSpaces(Lower(TrimStart(t))) + word
  {
    TrimStartOfEnding(t, word);
    WordStays(TrimStart(t), word);
    DropSpacesAppend(Lower(TrimStart(t)), word);
    DropNoSpaces(word);
  }

  lemma WordStays(s: string, word: string)
    requires IsWord(word)
    ensures TrimEnd(s + word) == s + word && Lower(s + word) == Lower(s) + word
  {
    var text := s + word;
    assert text[|text| - 1] == word[|word| - 1];
    forall i | 0 <= i < |text| ensures Lower(text)[i] == (Lower(s) + word)[i] {
      assert text[i] == if i < |s| then s[i] else word[i - |s|];
    }
  }

  /** A named unit is found whatever precedes its suffix. */
  lemma NamedIsFound(front: string, u: Unit)
    requires !u.B? && !u.Bare?
    ensures FindUnit(front + u.Suffix()) == u
  {
    var text := front + u.Suffix();
    assert text[|text| - |u.Suffix()|..] == u.Suffix();
    var found := FindUnit(text);
    FirstIsFound(text, u);
    if |found.Suffix()| <= |u.Suffix()| {
      EndingOfEnding(text, found.Suffix(), u.Suffix());
      OnlyEarlierIsItself(u, found);
    } else {
      EndingOfEnding(text, u.Suffix(), found.Suffix());
      NamedEndsOnlyItself(u, found);
    }
  }

  lemma EndingOfEnding(text: string, short: string, long: string)
    requires EndsWith(text, short) && EndsWith(text, long) && |short| <= |long|
    ensures EndsWith(long, short)
  {
    assert long[|long| - |short|..] == text[|text| - |long|..][|long| - |short|..] == text[|text| - |short|..];
  }

  lemma NamedEndsOnlyItself(u: Unit, v: Unit)
    requires !u.B? && !u.Bare? && EndsWith(v.Suffix(), u.Suffix())
    ensures v == u
  {
  }

  /** The short suffixes mean the same as the long ones. */
  lemma ShortSuffixes(t: string)
    ensures ParseSize(t + "gb") == ParseSize(t + "gib")
    ensures ParseSize(t + "mb") == ParseSize(t + "mib")
    ensures ParseSize(t + "kb") == ParseSize(t + "kib")
  {
    assert Gb.Suffix() == "gb" && Gib.Suffix() == "gib" && Mb.Suffix() == "mb" && Mib.Suffix() == "mib";
    assert Kb.Suffix() == "kb" && Kib.Suffix() == "kib";
    SameMeaning(t, Gb, Gib);
    SameMeaning(t, Mb, Mib);
    SameMeaning(t, Kb, Kib);
  }

  lemma SameMeaning(t: string, u: Unit, v: Unit)
    requires !u.B? && !u.Bare? && !v.B? && !v.Bare? && u.Multiplier() == v.Multiplier()
    ensures ParseSize(t + u.Suffix()) == ParseSize(t + v.Suffix())
  {
    SuffixIsRead(t, u);
    SuffixIsRead(t, v);
  }

  lemma SuffixIsRead(t: string, u: Unit)
    requires !u.B? && !u.Bare?
    ensures ParseSize(t + u.Suffix()) == Finish(ParseU64(DropSpaces(Lower(TrimStart(t)))), u.Multiplier())
  {
    var front := DropSpaces(Lower(TrimStart(t)));
    NormalizedEnding(t, u.Suffix());
    NamedIsFound(front, u);
    assert (front + u.Suffix())[..|front|] == front;
  }

  /** A number means as many bytes, with or without saying so. */
  lemma BareMeansBytes(number: string, k: nat)
    requires ParseU64(number) == Some(k) && Normalized(number) == number
    ensures ParseSize(number) == ParseSize(number + "b") == Finish(Some(k), 1)
  {
    BareIsRead(number, k);
    NumberWithB(number);
    BytesAreRead(number + "b", number, k);
  }

  lemma BytesAreRead(s: string, number: string, k: nat)
    requires ParseU64(number) == Some(k) && Normalized(s) == number + "b"
    ensures ParseSize(s) == Finish(Some(k), 1)
  {
    assert ReadsAs(Normalized(s), B, number, k) && B.Multiplier() == 1;
    ReadingIsParsed(s, B, number, k);
  }

  lemma BareIsRead(number: string, k: nat)
    requires ParseU64(number) == Some(k) && Normalized(number) == number
    ensures ParseSize(number) == Finish(Some(k), 1)
  {
    assert number + Bare.Suffix() == number && Bare.Multiplier() == 1;
    ReadingIsParsed(number, Bare, number, k);
  }

  lemma NumberWithB(number: string)
    requires Normalized(number) == number
    ensures Normalized(number + "b") == number + "b"
  {
    NormalizedEnding(number, "b");
    NumberStays(number);
  }

  lemma NumberStays(number: string)
    requires Normalized(number) == number
    ensures DropSpaces(Lower(TrimStart(number))) == number
  {
    NormalizedIsNoLonger(number);
    if TrimStart(number) != number || TrimEnd(number) != number {
      TrimShortens(number);
    }
  }

  lemma {:induction false} TrimShortens(s: string)
    ensures |TrimStart(s)| <= |s| && |TrimEnd(s)| <= |s|
    ensures |TrimStart(s)| == |s| ==> TrimStart(s) == s
    ensures |TrimEnd(s)| == |s| ==> TrimEnd(s) == s
    decreases |s|
  {
    if s != [] {
      TrimShortens(s[1..]);
      TrimShortens(s[..|s| - 1]);
    }
  }

  lemma {:induction false} DropShortens(s: string)
    ensures |DropSpaces(s)| <= |s|
  {
    if s != [] {
      DropShortens(s[1..]);
    }
  }

  lemma NormalizedIsNoLonger(s: string)
    ensures |Normalized(s)| <= |TrimEnd(TrimStart(s))| <= |TrimStart(s)| <= |s|
    ensures |Normalized(s)| == |s| ==> TrimEnd(TrimStart(s)) == TrimStart(s) == s
  {
    TrimShortens(s);
    TrimShortens(TrimStart(s));
    DropShortens(Lower(TrimEnd(TrimStart(s))));
  }

  // ----- what the parser refuses

  /** Each error, exactly: no reading at all, a product beyond 64 bits, a product of zero. */
  lemma ParseSizeErrors(s: string)
    ensures ParseSize(s) == Err(Invalid) <==>
            forall u: Unit, number, k: nat :: !ReadsAs(Normalized(s), u, number, k)
    ensures ParseSize(s) == Err(TooBig) <==>
            exists u: Unit, number, k: nat :: ReadsAs(Normalized(s), u, number, k) && k * u.Multiplier() >= U64_LIMIT
    ensures ParseSize(s) == Err(Zero) <==>
            exists u: Unit, number, k: nat :: ReadsAs(Normalized(s), u, number, k) && k * u.Multiplier() == 0
  {
    forall u: Unit, number, k: nat | ReadsAs(Normalized(s), u, number, k)
      ensures ParseSize(s) == Finish(Some(k), u.Multiplier())
    {
      ReadingIsParsed(s, u, number, k);
    }
    if ParseSize(s) != Err(Invalid) {
      var u, number, k := ParsedIsReading(s);
    }
  }

  // ----- the configured limits

  datatype Config = Config(maxEntries: nat, maxHistorySize: string)

  datatype LimitsResult = Limits(maxEntries: nat, maxHistorySize: nat) | NoEntries | BadSize(error: SizeError)

  function LimitsOf(config: Config): LimitsResult {
    if config.maxEntries == 0 then NoEntries
    else
      match ParseSize(config.maxHistorySize)
      case Ok(bytes) => Limits(config.maxEntries, bytes)
      case Err(error) => BadSize(error)
  }

  /** A configuration is accepted exactly when it allows an entry and its size reads as 1 to 2^64 - 1
      bytes; that includes sizes the store's 64-bit signed column cannot hold. */
  lemma LimitsAcceptedIff(maxEntries: nat, bytes: nat)
    requires 0 < bytes < U64_LIMIT
    ensures LimitsOf(Config(maxEntries, FormatSize(bytes)))
              == (if maxEntries == 0 then NoEntries else Limits(maxEntries, bytes))
  {
    ParseInvertsFormat(bytes);
  }
}
