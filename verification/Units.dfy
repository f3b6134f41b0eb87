/** Sizes and durations: printed with the largest unit that divides them, and read back. */
module Units {
  import opened Bytes
  import opened Division
  import opened Quoting

  const ULONG_MAX: nat := 0xFFFF_FFFF_FFFF_FFFF

  // ---------------------------------------------------------------------------------------------
  // Numbers
  // ---------------------------------------------------------------------------------------------

  predicate IsSpace(c: Byte) {
    c == 32 || 9 <= c <= 13
  }

  function DigitValue(c: Byte): nat {
    if 48 <= c <= 57 then c - 48
    else if 65 <= c <= 90 then c - 55
    else if 97 <= c <= 122 then c - 87
    else 36
  }

  predicate IsDigit(c: Byte, base: nat) {
    DigitValue(c) < base
  }

  function SkipSpaces(s: seq<Byte>, pos: nat): (end: nat)
    requires pos <= |s|
    ensures pos <= end <= |s|
    decreases |s| - pos
  {
    if pos < |s| && IsSpace(s[pos]) then SkipSpaces(s, pos + 1) else pos
  }

  /** Where the digits that start at a position end. */
  function DigitsEnd(s: seq<Byte>, pos: nat, base: nat): (end: nat)
    requires pos <= |s|
    ensures pos <= end <= |s|
    decreases |s| - pos
  {
    if pos < |s| && IsDigit(s[pos], base) then DigitsEnd(s, pos + 1, base) else pos
  }

  function NumberOf(digits: seq<Byte>, base: nat): nat {
    if digits == [] then 0
    else NumberOf(digits[..|digits| - 1], base) * base + DigitValue(digits[|digits| - 1])
  }

  datatype Parsed = Parsed(value: nat, end: nat)

  /** The base of the number that starts at a position. */
  function BaseAt(s: seq<Byte>, j: nat): (base: nat)
    ensures base == 8 || base == 10 || base == 16
    ensures base == 16 ==> j + 2 < |s|
  {
    if j + 2 < |s| && s[j] == 48 && (s[j + 1] == 88 || s[j + 1] == 120) && IsDigit(s[j + 2], 16) then 16
    else if j < |s| && s[j] == 48 then 8
    else 10
  }

  /** `std::strtoull` with base 0: blanks, a sign, then hexadecimal, octal or decimal digits; it saturates. */
  function StrToUll(s: seq<Byte>): (r: Parsed)
    ensures r.value <= ULONG_MAX && r.end <= |s|
  {
    var i := SkipSpaces(s, 0);
    var signed := i < |s| && (s[i] == 43 || s[i] == 45);
    var j := if signed then i + 1 else i;
    var base := BaseAt(s, j);
    var start := if base == 16 then j + 2 else j;
    var end := DigitsEnd(s, start, base);
    if end == start then Parsed(0, 0)
    else
      var n := NumberOf(s[start..end], base);
      if n > ULONG_MAX then Parsed(ULONG_MAX, end)
      else Parsed(if signed && s[i] == 45 && n > 0 then ULONG_MAX + 1 - n else n, end)
  }

  /** `get_ulong` with a suffix: a number, then at most one other character. */
  datatype Measure = Measure(value: nat, suffix: Byte)

  function GetUlong(s: seq<Byte>): (r: Option<Measure>)
    requires s != []
    ensures r.Some? ==> r.value.value <= ULONG_MAX
  {
    var n := StrToUll(s);
    if n.end >= |s| - 1 then Some(Measure(n.value, if n.end < |s| then s[|s| - 1] else 0)) else None
  }

  // ---------------------------------------------------------------------------------------------
  // Ladders of units
  // ---------------------------------------------------------------------------------------------

  /** The letters of the units, smallest first, and how many of each make the next one. */
  datatype Ladder = Ladder(letters: seq<Byte>, factors: seq<nat>)

  const SIZES := Ladder([98, 107, 109, 103, 116], [1024, 1024, 1024, 1024])
  const DURATIONS := Ladder([115, 109, 104, 100, 119], [60, 60, 24, 7])

  predicate Positive(factors: seq<nat>) {
    forall i :: 0 <= i < |factors| ==> factors[i] > 0
  }

  predicate ValidLadder(l: Ladder) {
    && |l.letters| == |l.factors| + 1 && Positive(l.factors)
    && forall i :: 0 <= i < |l.letters| ==> 98 <= l.letters[i] <= 122
  }

  /** How many of the smallest units a unit is. */
  function Unit(factors: seq<nat>, level: nat): nat
    requires level <= |factors|
  {
    if level == 0 then 1 else factors[0] * Unit(factors[1..], level - 1)
  }

  /** A number of units of a level. */
  datatype Amount = Amount(count: nat, level: nat)

  /** The nested conditions of `print_size` and `print_duration`. */
  function Climb(n: nat, factors: seq<nat>): (a: Amount)
    requires Positive(factors)
    ensures a.level <= |factors| && a.count <= n
  {
    if factors == [] || n < factors[0] || n % factors[0] != 0 then Amount(n, 0)
    else
      DivideBounds(n, factors[0]);
      var a := Climb(n / factors[0], factors[1..]);
      Amount(a.count, a.level + 1)
  }

  lemma {:induction false} UnitIsPositive(factors: seq<nat>, level: nat)
    requires level <= |factors| && Positive(factors)
    ensures Unit(factors, level) > 0
  {
    if level > 0 {
      UnitIsPositive(factors[1..], level - 1);
    }
  }

  lemma {:induction false} DividesTwice(n: nat, f: nat, u: nat)
    requires f > 0 && u > 0 && n % (f * u) == 0
    ensures n % f == 0 && (n / f) % u == 0
  {
    var q := n / (f * u);
    DivideBounds(n, f * u);
    ProductTimes(f, u, q);
    QuotientOf(f, u * q);
    QuotientOf(u, q);
  }

  lemma {:induction false} ClimbIsExact(n: nat, factors: seq<nat>)
    requires Positive(factors)
    ensures var a := Climb(n, factors); a.count * Unit(factors, a.level) == n
    decreases |factors|
  {
    var a := Climb(n, factors);
    if a.level == 0 {
      assert Unit(factors, 0) == 1;
    } else {
      var f, u := factors[0], Unit(factors[1..], a.level - 1);
      DivideBounds(n, f);
      ClimbIsExact(n / f, factors[1..]);
      assert a == Amount(Climb(n / f, factors[1..]).count, Climb(n / f, factors[1..]).level + 1);
      assert Unit(factors, a.level) == f * u;
      hide Climb, Unit;
      ProductTimes(a.count, f, u);
    }
  }

  /** No larger unit than the one chosen divides a positive value. */
  lemma {:induction false} ClimbIsLargest(n: nat, factors: seq<nat>, level: nat)
    requires Positive(factors) && Climb(n, factors).level < level <= |factors| && n > 0
    ensures Unit(factors, level) > 0 && n % Unit(factors, level) != 0
    decreases |factors|
  {
    hide Unit;
    var f := factors[0];
    if Climb(n, factors).level == 0 {
      NoLargerUnit(n, factors, level);
    } else {
      DivideBounds(n, f);
      ClimbIsLargest(n / f, factors[1..], level - 1);
      DividesIfQuotient(n, f, Unit(factors[1..], level - 1), factors, level);
    }
  }

  lemma {:induction false} NoLargerUnit(n: nat, factors: seq<nat>, level: nat)
    requires 0 < level <= |factors| && Positive(factors) && n > 0
    requires n < factors[0] || n % factors[0] != 0
    ensures Unit(factors, level) > 0 && n % Unit(factors, level) != 0
  {
    UnitIsPositive(factors, level);
    UnitIsPositive(factors[1..], level - 1);
    var f, u := factors[0], Unit(factors[1..], level - 1);
    if n % (f * u) == 0 {
      DividesTwice(n, f, u);
      DivideBounds(n, f);
      ProductIsFar(f, n / f);
    }
  }

  lemma {:induction false} DividesIfQuotient(n: nat, f: nat, u: nat, factors: seq<nat>, level: nat)
    requires 0 < level <= |factors| && Positive(factors) && f == factors[0] && u == Unit(factors[1..], level - 1)
    requires u > 0 && n % f == 0 && (n / f) % u != 0
    ensures Unit(factors, level) > 0 && n % Unit(factors, level) != 0
  {
    UnitIsPositive(factors, level);
    if n % (f * u) == 0 {
      DividesTwice(n, f, u);
    }
  }

  // ---------------------------------------------------------------------------------------------
  // Printing and reading
  // ---------------------------------------------------------------------------------------------

  /** A number in digits of the given base. */
  function Numeral(n: nat, base: nat, upper: bool): (s: seq<Byte>)
    requires 2 <= base <= 16
    ensures s != []
  {
    if n < base then [Digit(n, upper)]
    else
      QuotientIsLess(n, base);
      Numeral(n / base, base, upper) + [Digit(n % base, upper)]
  }

  lemma {:induction false} QuotientIsLess(n: nat, base: nat)
    requires 2 <= base <= n
    ensures 0 < n / base < n
  {
    DivideBounds(n, base);
    if n / base >= 1 {
      ProductIsFar(n / base, base - 1);
    }
  }

  function Decimal(n: nat): (s: seq<Byte>)
    ensures s != []
  {
    Numeral(n, 10, true)
  }

  /** `print_size` and `print_duration`. */
  function Print(n: nat, l: Ladder): seq<Byte>
    requires ValidLadder(l)
  {
    var a := Climb(n, l.factors);
    Decimal(a.count) + [l.letters[a.level]]
  }

  /** The unit of a letter, in either case; no letter at all means the smallest unit. */
  function LevelOf(l: Ladder, suffix: Byte, level: nat): (r: Option<nat>)
    requires level <= |l.letters|
    ensures r.Some? ==> r.value < |l.letters|
    decreases |l.letters| - level
  {
    if level == |l.letters| then None
    else if suffix == l.letters[level] || suffix + 32 == l.letters[level] || (suffix == 0 && level == 0) then Some(level)
    else LevelOf(l, suffix, level + 1)
  }

  /** `get_size`; the product is truncated to 64 bits. */
  function GetSize(s: seq<Byte>): Option<nat>
    requires s != []
  {
    match GetUlong(s)
    case None => None
    case Some(m) =>
      match LevelOf(SIZES, m.suffix, 0)
      case None => None
      case Some(level) => Some((m.value * Unit(SIZES.factors, level)) % (ULONG_MAX + 1))
  }

  /** `get_duration`; the number must fit 32 bits, and the product is truncated to them. */
  function GetDuration(s: seq<Byte>): Option<nat>
    requires s != []
  {
    match GetUlong(s)
    case None => None
    case Some(m) =>
      if m.value > UINT_MAX then None
      else
        match LevelOf(DURATIONS, m.suffix, 0)
        case None => None
        case Some(level) => Some(U32(m.value * Unit(DURATIONS.factors, level)))
  }

  lemma {:induction false} DigitHasValue(v: nat, upper: bool)
    requires v < 16
    ensures DigitValue(Digit(v, upper)) == v && (v > 0 ==> Digit(v, upper) != 48)
  {
  }

  lemma {:induction false} NumeralDigits(n: nat, base: nat, upper: bool)
    requires 2 <= base <= 16
    ensures forall i :: 0 <= i < |Numeral(n, base, upper)| ==> IsDigit(Numeral(n, base, upper)[i], base)
    ensures NumberOf(Numeral(n, base, upper), base) == n
    ensures n > 0 ==> Numeral(n, base, upper)[0] != 48
  {
    hide Digit, DigitValue;
    if n < base {
      DigitHasValue(n, upper);
      assert [Digit(n, upper)][..0] == [] && NumberOf([], base) * base == 0;
    } else {
      QuotientIsLess(n, base);
      NumeralDigits(n / base, base, upper);
      DigitHasValue(n % base, upper);
      OneMoreDigit(Numeral(n / base, base, upper), n, base, Digit(n % base, upper));
    }
  }

  lemma {:induction false} OneMoreDigit(d: seq<Byte>, n: nat, base: nat, last: Byte)
    requires base > 0 && NumberOf(d, base) == n / base && DigitValue(last) == n % base
    ensures NumberOf(d + [last], base) == n
  {
    hide DigitValue;
    assert (d + [last])[..|d|] == d;
    DivideBounds(n, base);
  }

  lemma {:induction false} DigitsEndAt(s: seq<Byte>, pos: nat, end: nat, base: nat)
    requires pos <= end <= |s| && (end < |s| ==> !IsDigit(s[end], base))
    requires forall i :: pos <= i < end ==> IsDigit(s[i], base)
    ensures DigitsEnd(s, pos, base) == end
    decreases end - pos
  {
    if pos < end {
      DigitsEndAt(s, pos + 1, end, base);
    }
  }

  lemma {:induction false} SpacesEndAt(s: seq<Byte>, pos: nat, end: nat)
    requires pos <= end <= |s| && (end < |s| ==> !IsSpace(s[end]))
    requires forall i :: pos <= i < end ==> IsSpace(s[i])
    ensures SkipSpaces(s, pos) == end
    decreases end - pos
  {
    if pos < end {
      SpacesEndAt(s, pos + 1, end);
    }
  }

  lemma {:induction false} LeadingZero(digits: seq<Byte>, base: nat)
    ensures NumberOf([48] + digits, base) == NumberOf(digits, base)
  {
    var d := [48] + digits;
    if digits == [] {
      assert d[..0] == [] && NumberOf([], base) * base == 0;
    } else {
      LeadingZero(digits[..|digits| - 1], base);
      assert d[..|d| - 1] == [48] + digits[..|digits| - 1];
    }
  }

  datatype Sign = Unsigned | Plus | Minus

  function SignBytes(sign: Sign): (s: seq<Byte>) {
    match sign case Unsigned => [] case Plus => [43] case Minus => [45]
  }

  /** What announces the base. */
  function BaseBytes(base: nat): seq<Byte> {
    if base == 16 then [48, 120] else if base == 8 then [48] else []
  }

  /** What `strtoull` makes of a number that may be too large, and of a negative one. */
  function Limited(n: nat, sign: Sign): nat {
    if n > 0xFFFF_FFFF_FFFF_FFFF then 0xFFFF_FFFF_FFFF_FFFF
    else if sign.Minus? && n > 0 then 0x1_0000_0000_0000_0000 - n
    else n
  }

  /** At most one more character, which is no digit. */
  predicate IsTail(tail: seq<Byte>, base: nat) {
    |tail| <= 1 && (tail != [] ==> !IsDigit(tail[0], base))
  }

  /** Where the parts of a number are. */
  predicate Signed(s: seq<Byte>, sign: Sign, i: nat, j: nat) {
    && i <= j < |s| && SkipSpaces(s, 0) == i
    && match sign
       case Unsigned => j == i && s[i] != 43 && s[i] != 45
       case Plus => j == i + 1 && s[i] == 43
       case Minus => j == i + 1 && s[i] == 45
  }

  lemma {:induction false} SignedIsRead(s: seq<Byte>, sign: Sign, i: nat, j: nat, n: nat, end: nat)
    requires Signed(s, sign, i, j)
    requires var start := if BaseAt(s, j) == 16 then j + 2 else j;
             start < end <= |s| && DigitsEnd(s, start, BaseAt(s, j)) == end && NumberOf(s[start..end], BaseAt(s, j)) == n
    ensures StrToUll(s) == Parsed(Limited(n, sign), end)
  {
    hide BaseAt, DigitsEnd, NumberOf, SkipSpaces;
  }

  /** The digits of a number, with what announces their base before them and at most one character behind. */
  predicate Laid(s: seq<Byte>, j: nat, base: nat, digits: seq<Byte>, tail: seq<Byte>) {
    && j <= |s| && s[j..] == BaseBytes(base) + digits + tail
    && digits != [] && (forall k :: 0 <= k < |digits| ==> IsDigit(digits[k], base))
    && IsTail(tail, base)
  }

  lemma {:induction false} LaidAt(s: seq<Byte>, j: nat, base: nat, digits: seq<Byte>, tail: seq<Byte>)
    requires Laid(s, j, base, digits, tail)
    ensures var start := j + |BaseBytes(base)|;
            && start < |s| && |s| - |tail| == start + |digits|
            && s[start..|s| - |tail|] == digits && s[j..start] == BaseBytes(base)
            && (forall k :: 0 <= k < |digits| ==> s[start + k] == digits[k])
            && (tail != [] ==> s[|s| - 1] == tail[0])
  {
    hide IsDigit, BaseBytes;
    var start := j + |BaseBytes(base)|;
    assert s[j..][|BaseBytes(base)|..] == s[start..] == digits + tail;
    assert s[j..][..|BaseBytes(base)|] == s[j..start];
    assert forall k :: 0 <= k < |digits + tail| ==> s[start + k] == (digits + tail)[k];
  }

  lemma {:induction false} HexIsLaid(s: seq<Byte>, j: nat, digits: seq<Byte>, tail: seq<Byte>)
    requires Laid(s, j, 16, digits, tail)
    ensures BaseAt(s, j) == 16 && j + 2 < |s| - |tail|
    ensures DigitsEnd(s, j + 2, 16) == |s| - |tail| && s[j + 2..|s| - |tail|] == digits
  {
    hide DigitsEnd;
    LaidAt(s, j, 16, digits, tail);
    assert s[j] == s[j..j + 2][0] && s[j + 1] == s[j..j + 2][1];
    DigitsEndAt(s, j + 2, |s| - |tail|, 16);
  }

  lemma {:induction false} OctalIsLaid(s: seq<Byte>, j: nat, digits: seq<Byte>, tail: seq<Byte>)
    requires Laid(s, j, 8, digits, tail)
    ensures BaseAt(s, j) == 8 && j < |s| - |tail|
    ensures DigitsEnd(s, j, 8) == |s| - |tail| && s[j..|s| - |tail|] == [48] + digits
  {
    hide DigitsEnd;
    LaidAt(s, j, 8, digits, tail);
    assert s[j] == s[j..j + 1][0];
    assert s[j + 1] == digits[0];
    DigitsEndAt(s, j, |s| - |tail|, 8);
  }

  lemma {:induction false} DecimalIsLaid(s: seq<Byte>, j: nat, digits: seq<Byte>, tail: seq<Byte>)
    requires Laid(s, j, 10, digits, tail) && (digits[0] == 48 ==> digits == [48])
    ensures BaseAt(s, j) == (if digits[0] == 48 then 8 else 10) && j < |s| - |tail|
    ensures DigitsEnd(s, j, BaseAt(s, j)) == |s| - |tail| && s[j..|s| - |tail|] == digits
  {
    hide DigitsEnd;
    LaidAt(s, j, 10, digits, tail);
    DigitsEndAt(s, j, |s| - |tail|, BaseAt(s, j));
  }

  lemma {:induction false} LaidIsRead(s: seq<Byte>, sign: Sign, i: nat, j: nat, base: nat, digits: seq<Byte>, tail: seq<Byte>)
    requires Signed(s, sign, i, j) && Laid(s, j, base, digits, tail)
    requires base == 8 || base == 10 || base == 16
    requires base == 10 && digits[0] == 48 ==> digits == [48]
    ensures StrToUll(s) == Parsed(Limited(NumberOf(digits, base), sign), |s| - |tail|)
  {
    if base == 10 && digits[0] == 48 {
      assert [48][..0] == [] && NumberOf([48], 8) == NumberOf([48], 10);
    }
    hide *;
    if base == 16 {
      HexIsLaid(s, j, digits, tail);
    } else if base == 8 {
      OctalIsLaid(s, j, digits, tail);
      LeadingZero(digits, 8);
    } else {
      DecimalIsLaid(s, j, digits, tail);
    }
    SignedIsRead(s, sign, i, j, NumberOf(digits, base), |s| - |tail|);
  }

  /**
   Numbers as `strtoull` reads them with base 0: after blanks, with or without a sign, in decimal, octal or
   hexadecimal digits of either case, and with at most one more character.
   */
  lemma {:induction false} NumeralIsRead(blanks: seq<Byte>, sign: Sign, n: nat, base: nat, upper: bool, tail: seq<Byte>)
    requires (forall i :: 0 <= i < |blanks| ==> blanks[i] in {9, 10, 11, 12, 13, 32})
    requires (base == 8 || base == 10 || base == 16) && IsTail(tail, base)
    ensures var s := blanks + SignBytes(sign) + BaseBytes(base) + Numeral(n, base, upper) + tail;
            StrToUll(s) == Parsed(Limited(n, sign), |s| - |tail|)
  {
    hide StrToUll, NumberOf, Limited, Numeral, BaseBytes, IsDigit, Signed;
    var digits := Numeral(n, base, upper);
    var s := blanks + SignBytes(sign) + BaseBytes(base) + digits + tail;
    NumeralDigits(n, base, upper);
    ZeroIsOneDigit(n, base, upper);
    FirstIsNoSpace(base, digits, tail);
    SignIsRead(blanks, sign, BaseBytes(base) + digits + tail);
    assert s == blanks + SignBytes(sign) + (BaseBytes(base) + digits + tail);
    var j := |blanks + SignBytes(sign)|;
    assert s[j..] == BaseBytes(base) + digits + tail;
    LaidIsRead(s, sign, |blanks|, j, base, digits, tail);
  }

  lemma {:induction false} SignIsRead(blanks: seq<Byte>, sign: Sign, rest: seq<Byte>)
    requires (forall i :: 0 <= i < |blanks| ==> blanks[i] in {9, 10, 11, 12, 13, 32})
    requires rest != [] && !IsSpace(rest[0]) && rest[0] != 43 && rest[0] != 45
    ensures Signed(blanks + SignBytes(sign) + rest, sign, |blanks|, |blanks + SignBytes(sign)|)
  {
    hide SkipSpaces;
    var s := blanks + SignBytes(sign) + rest;
    assert s[|blanks|] == (SignBytes(sign) + rest)[0];
    SpacesEndAt(s, 0, |blanks|);
  }

  lemma {:induction false} ZeroIsOneDigit(n: nat, base: nat, upper: bool)
    requires 2 <= base <= 16
    ensures n == 0 ==> Numeral(n, base, upper) == [48]
  {
  }

  lemma {:induction false} FirstIsNoSpace(base: nat, digits: seq<Byte>, tail: seq<Byte>)
    requires digits != [] && 2 <= base <= 16 && IsDigit(digits[0], base)
    ensures var c := (BaseBytes(base) + digits + tail)[0]; !IsSpace(c) && c != 43 && c != 45
  {
  }

  lemma {:induction false} NothingBefore(a: seq<Byte>, b: seq<Byte>)
    ensures [] + SignBytes(Unsigned) + BaseBytes(10) + a + b == a + b
  {
    assert [] + SignBytes(Unsigned) + BaseBytes(10) == [];
    assert [] + a == a;
  }

  /** A decimal number and at most one more character are read as that number and that character. */
  lemma {:induction false} MeasureIsRead(n: nat, tail: seq<Byte>)
    requires n <= ULONG_MAX && IsTail(tail, 10)
    ensures GetUlong(Decimal(n) + tail) == Some(Measure(n, if tail == [] then 0 else tail[0]))
  {
    hide StrToUll, Numeral, IsDigit;
    NumeralIsRead([], Unsigned, n, 10, true, tail);
    NothingBefore(Decimal(n), tail);
  }

  lemma {:induction false} PrintIsRead(n: nat, l: Ladder)
    requires n <= ULONG_MAX && (l == SIZES || l == DURATIONS) && ValidLadder(l)
    ensures var a := Climb(n, l.factors);
            && GetUlong(Print(n, l)) == Some(Measure(a.count, l.letters[a.level]))
            && LevelOf(l, l.letters[a.level], 0) == Some(a.level)
            && a.count <= n && a.count * Unit(l.factors, a.level) == n
  {
    hide Climb, GetUlong, Decimal, Unit;
    var a := Climb(n, l.factors);
    ClimbIsExact(n, l.factors);
    LettersAreApart(l, a.level);
    MeasureIsRead(a.count, [l.letters[a.level]]);
    LetterIsRead(l, a.level);
  }

  lemma {:induction false} LettersAreApart(l: Ladder, level: nat)
    requires (l == SIZES || l == DURATIONS) && level < |l.letters|
    ensures 98 <= l.letters[level] <= 122
  {
  }

  /** Every 64-bit size is read back from its printed form, and the product does not wrap around. */
  lemma {:induction false} SizeReadsBack(n: nat)
    requires n <= ULONG_MAX
    ensures GetSize(Print(n, SIZES)) == Some(n)
  {
    hide GetUlong, LevelOf, Print, Climb, Unit, ValidLadder;
    LetterIsRead(SIZES, 0);
    PrintIsRead(n, SIZES);
  }

  lemma {:induction false} DurationReadsBack(n: nat)
    requires n <= UINT_MAX
    ensures GetDuration(Print(n, DURATIONS)) == Some(n)
  {
    hide GetUlong, LevelOf, Print, Climb, Unit, ValidLadder;
    LetterIsRead(DURATIONS, 0);
    PrintIsRead(n, DURATIONS);
  }

  /** Bytes in the unit of a letter, 0 if it is none. */
  function SizeUnit(letter: Byte): nat {
    match letter as char
    case 'b' | 'B' => 1
    case 'k' | 'K' => 1024
    case 'm' | 'M' => 1024 * 1024
    case 'g' | 'G' => 1024 * 1024 * 1024
    case 't' | 'T' => 1024 * 1024 * 1024 * 1024
    case _ => 0
  }

  /** Seconds in the unit of a letter, 0 if it is none. */
  function DurationUnit(letter: Byte): nat {
    match letter as char
    case 's' | 'S' => 1
    case 'm' | 'M' => 60
    case 'h' | 'H' => 60 * 60
    case 'd' | 'D' => 24 * 60 * 60
    case 'w' | 'W' => 7 * 24 * 60 * 60
    case _ => 0
  }

  lemma {:induction false} UnitStep(f: nat, rest: seq<nat>, level: nat)
    requires level <= |rest|
    ensures Unit([f] + rest, level + 1) == f * Unit(rest, level)
  {
    assert ([f] + rest)[1..] == rest;
  }

  lemma {:induction false} UnitOfFour(a: nat, b: nat, c: nat, d: nat)
    ensures var f := [a, b, c, d];
            Unit(f, 0) == 1 && Unit(f, 1) == a && Unit(f, 2) == a * b && Unit(f, 3) == a * (b * c) && Unit(f, 4) == a * (b * (c * d))
  {
    var none: seq<nat> := [];
    assert Unit(none, 0) == Unit([d], 0) == Unit([c, d], 0) == Unit([b, c, d], 0) == Unit([a, b, c, d], 0) == 1;
    hide Unit;
    assert [d] == [d] + none && [c, d] == [c] + [d] && [b, c, d] == [b] + [c, d] && [a, b, c, d] == [a] + [b, c, d];
    UnitStep(d, none, 0);
    UnitStep(c, [d], 0);
    UnitStep(c, [d], 1);
    UnitStep(b, [c, d], 0);
    UnitStep(b, [c, d], 1);
    UnitStep(b, [c, d], 2);
    UnitStep(a, [b, c, d], 0);
    UnitStep(a, [b, c, d], 1);
    UnitStep(a, [b, c, d], 2);
    UnitStep(a, [b, c, d], 3);
  }

  lemma {:induction false} LevelOfFive(l: Ladder, letter: Byte)
    requires |l.letters| == 5 && letter != 0
    ensures LevelOf(l, letter, 0) ==
            if letter == l.letters[0] || letter + 32 == l.letters[0] then Some(0)
            else if letter == l.letters[1] || letter + 32 == l.letters[1] then Some(1)
            else if letter == l.letters[2] || letter + 32 == l.letters[2] then Some(2)
            else if letter == l.letters[3] || letter + 32 == l.letters[3] then Some(3)
            else if letter == l.letters[4] || letter + 32 == l.letters[4] then Some(4)
            else None
  {
    hide LevelOf;
    LevelStep(l, letter, 0);
    LevelStep(l, letter, 1);
    LevelStep(l, letter, 2);
    LevelStep(l, letter, 3);
    LevelStep(l, letter, 4);
    LevelStep(l, letter, 5);
  }

  lemma {:induction false} LevelStep(l: Ladder, letter: Byte, level: nat)
    requires level <= |l.letters| && letter != 0
    ensures LevelOf(l, letter, level) ==
            if level == |l.letters| then None
            else if letter == l.letters[level] || letter + 32 == l.letters[level] then Some(level)
            else LevelOf(l, letter, level + 1)
  {
  }

  lemma {:induction false} LevelHasUnit(l: Ladder, letter: Byte)
    requires (l == SIZES || l == DURATIONS) && letter != 0
    ensures var level := LevelOf(l, letter, 0);
            && (level.Some? ==> level.value <= |l.factors| && Unit(l.factors, level.value) > 0)
            && (if level.None? then 0 else Unit(l.factors, level.value))
               == if l == SIZES then SizeUnit(letter) else DurationUnit(letter)
  {
    hide LevelOf, Unit;
    LevelOfFive(l, letter);
    UnitOfFour(l.factors[0], l.factors[1], l.factors[2], l.factors[3]);
    assert l.factors == [l.factors[0], l.factors[1], l.factors[2], l.factors[3]];
  }

  lemma {:induction false} NoLetterIsSmallest(l: Ladder)
    requires |l.letters| > 0
    ensures LevelOf(l, 0, 0) == Some(0) && Unit(l.factors, 0) == 1
  {
  }

  /** A decimal number and a letter are read as so many of its units of bytes, and without a letter as bytes. */
  lemma {:induction false} SizeLetters(n: nat, letter: Byte)
    requires n <= ULONG_MAX && letter != 0 && !(48 <= letter <= 57)
    ensures GetSize(Decimal(n)) == Some(n)
    ensures GetSize(Decimal(n) + [letter]) ==
            if SizeUnit(letter) == 0 then None else Some((n * SizeUnit(letter)) % 0x1_0000_0000_0000_0000)
  {
    hide GetUlong, LevelOf, Unit, Decimal, SizeUnit;
    MeasureIsRead(n, []);
    assert Decimal(n) + [] == Decimal(n);
    NoLetterIsSmallest(SIZES);
    MeasureIsRead(n, [letter]);
    LevelHasUnit(SIZES, letter);
  }

  /** The same in seconds; the number itself must fit 32 bits. */
  lemma {:induction false} DurationLetters(n: nat, letter: Byte)
    requires n <= ULONG_MAX && letter != 0 && !(48 <= letter <= 57)
    ensures GetDuration(Decimal(n)) == if n > 0xFFFF_FFFF then None else Some(n)
    ensures GetDuration(Decimal(n) + [letter]) ==
            if n > 0xFFFF_FFFF || DurationUnit(letter) == 0 then None else Some((n * DurationUnit(letter)) % 0x1_0000_0000)
  {
    hide GetUlong, LevelOf, Unit, Decimal, DurationUnit;
    MeasureIsRead(n, []);
    assert Decimal(n) + [] == Decimal(n);
    NoLetterIsSmallest(DURATIONS);
    MeasureIsRead(n, [letter]);
    LevelHasUnit(DURATIONS, letter);
  }

  lemma {:induction false} LetterIsRead(l: Ladder, level: nat)
    requires l == SIZES || l == DURATIONS
    requires level < |l.letters|
    ensures ValidLadder(l) && LevelOf(l, l.letters[level], 0) == Some(level)
  {
    LevelSteps(l, level, 0);
  }

  lemma {:induction false} LevelSteps(l: Ladder, level: nat, from: nat)
    requires l == SIZES || l == DURATIONS
    requires from <= level < |l.letters|
    ensures LevelOf(l, l.letters[level], from) == Some(level)
    decreases level - from
  {
    if from < level {
      LevelSteps(l, level, from + 1);
    }
  }

  /** The printed suffix is the largest unit that divides the value; zero is printed in the smallest unit. */
  lemma {:induction false} PrintsLargestUnit(n: nat, l: Ladder, level: nat)
    requires ValidLadder(l) && n > 0 && level < |l.letters|
    requires Unit(l.factors, level) > 0 && n % Unit(l.factors, level) == 0
    ensures Climb(n, l.factors).level >= level
  {
    hide Climb, Unit;
    if Climb(n, l.factors).level < level {
      ClimbIsLargest(n, l.factors, level);
    }
  }
}
