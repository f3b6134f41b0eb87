/** Quoted tokens as they are written, and the proof that the tokenizer reads exactly those. */
module Quoting {
  import opened Bytes
  import opened Tokens

  /** One way to write a byte within quotes, or a line break that stands for nothing. */
  datatype Glyph =
    | Literal(c: Byte)
    | Named(letter: Byte)
    | Hex(high: Byte, low: Byte)
    | Continued(newLine: seq<Byte>)

  predicate ValidGlyph(g: Glyph, quote: Byte) {
    match g
    case Literal(c) => !IsNewLine(c) && c != VT && c != BACKSLASH && (c != quote || quote == NO_QUOTE)
    case Named(letter) => letter == 114 || letter == 110 || letter == 116 || letter == BACKSLASH || IsQuote(letter)
    case Hex(high, low) => IsHexDigit(high) && IsHexDigit(low)
    case Continued(newLine) => newLine == [LF] || newLine == [CR] || newLine == [CR, LF]
  }

  function Spelling(g: Glyph): (s: seq<Byte>)
    ensures |s| > 0
  {
    match g
    case Literal(c) => [c]
    case Named(letter) => [BACKSLASH, letter]
    case Hex(high, low) => [BACKSLASH, high, low]
    case Continued(newLine) => [BACKSLASH] + newLine
  }

  function Meaning(g: Glyph): seq<Byte>
    requires g.Hex? ==> IsHexDigit(g.high) && IsHexDigit(g.low)
  {
    match g
    case Literal(c) => [c]
    case Named(letter) => [if letter == 114 then CR else if letter == 110 then LF else if letter == 116 then TAB else letter]
    case Hex(high, low) => [16 * HexValue(high) + HexValue(low)]
    case Continued(_) => []
  }

  predicate ValidGlyphs(gs: seq<Glyph>, quote: Byte) {
    forall i :: 0 <= i < |gs| ==> ValidGlyph(gs[i], quote)
  }

  function Spellings(gs: seq<Glyph>): seq<Byte> {
    if gs == [] then [] else Spelling(gs[0]) + Spellings(gs[1..])
  }

  function Meanings(gs: seq<Glyph>, quote: Byte): seq<Byte>
    requires ValidGlyphs(gs, quote)
  {
    if gs == [] then [] else Meaning(gs[0]) + Meanings(gs[1..], quote)
  }

  function Quoted(gs: seq<Glyph>, quote: Byte): seq<Byte> {
    [quote] + Spellings(gs) + [quote]
  }

  /** The text stands in the buffer at a position. */
  predicate At(s: seq<Byte>, pos: nat, part: seq<Byte>) {
    pos + |part| <= |s| && s[pos..pos + |part|] == part
  }

  lemma {:induction false} AtJoin(s: seq<Byte>, pos: nat, a: seq<Byte>, b: seq<Byte>)
    ensures At(s, pos, a + b) <==> At(s, pos, a) && At(s, pos + |a|, b)
  {
    if pos + |a| + |b| <= |s| {
      var whole := s[pos..pos + |a + b|];
      assert whole[..|a|] == s[pos..pos + |a|] && whole[|a|..] == s[pos + |a|..pos + |a| + |b|];
      assert (a + b)[..|a|] == a && (a + b)[|a|..] == b;
      assert whole == whole[..|a|] + whole[|a|..];
    }
  }

  lemma {:induction false} AtByte(s: seq<Byte>, pos: nat, part: seq<Byte>, i: nat)
    requires At(s, pos, part) && i < |part|
    ensures pos + i < |s| && s[pos + i] == part[i]
  {
    assert s[pos..pos + |part|][i] == s[pos + i];
  }

  // ---------------------------------------------------------------------------------------------
  // The tokenizer reads what is written
  // ---------------------------------------------------------------------------------------------

  /** One turn of the loop takes one glyph; a CR alone is taken as such because no glyph starts with a LF. */
  lemma {:induction false} GlyphIsRead(s: seq<Byte>, pos: nat, quote: Byte, g: Glyph)
    requires IsQuote(quote) && ValidGlyph(g, quote) && At(s, pos, Spelling(g))
    requires !Has(s, pos + |Spelling(g)|, LF)
    ensures var next := pos + |Spelling(g)|;
            NextItem(s, pos, quote) == if g.Continued? then Continue(next) else Emit(Meaning(g)[0], next)
  {
    AtByte(s, pos, Spelling(g), 0);
    if !g.Literal? {
      AtByte(s, pos, Spelling(g), 1);
      if g.Hex? || (g.Continued? && |g.newLine| == 2) {
        AtByte(s, pos, Spelling(g), 2);
      }
    }
  }

  lemma {:induction false} SpellingsStart(gs: seq<Glyph>, quote: Byte)
    requires IsQuote(quote) && ValidGlyphs(gs, quote)
    ensures (Spellings(gs) + [quote])[0] != LF
  {
  }

  lemma {:induction false} ScanTakes(s: seq<Byte>, pos: nat, quote: Byte, text: seq<Byte>, added: seq<Byte>)
    requires pos < |s|
    requires match NextItem(s, pos, quote)
             case Emit(c, _) => added == [c]
             case Continue(_) => added == []
             case _ => false
    ensures Scan(s, pos, quote, text) == Scan(s, NextItem(s, pos, quote).next, quote, text + added)
  {
    hide NextItem;
    assert added == [] ==> text + added == text;
  }

  lemma {:induction false} GlyphsAreRead(s: seq<Byte>, pos: nat, quote: Byte, gs: seq<Glyph>, text: seq<Byte>)
    requires IsQuote(quote) && ValidGlyphs(gs, quote) && At(s, pos, Spellings(gs) + [quote])
    ensures var value := text + Meanings(gs, quote);
            Scan(s, pos, quote, text) == Token(Some(value), pos + |Spellings(gs)| + 1, |value| + 1)
    decreases |gs|
  {
    hide NextItem, Scan, Spelling, Meaning, At, Spellings, Meanings;
    if gs == [] {
      NothingToRead(gs, quote);
      AtByte(s, pos, [quote], 0);
      CloseIsRead(s, pos, quote, text);
      assert |Spellings(gs)| == |Spellings(gs) + [quote]| - 1;
      assert text + Meanings(gs, quote) == text;
    } else {
      var first, rest := Spelling(gs[0]), Spellings(gs[1..]) + [quote];
      SpellingsSplit(gs, quote);
      AtJoin(s, pos, first, rest);
      SpellingsStart(gs[1..], quote);
      AtByte(s, pos + |first|, rest, 0);
      GlyphIsRead(s, pos, quote, gs[0]);
      MeaningIsOne(gs[0], quote);
      ScanTakes(s, pos, quote, text, Meaning(gs[0]));
      GlyphsAreRead(s, pos + |first|, quote, gs[1..], text + Meaning(gs[0]));
      assert text + Meaning(gs[0]) + Meanings(gs[1..], quote) == text + Meanings(gs, quote);
    }
  }

  lemma {:induction false} NothingToRead(gs: seq<Glyph>, quote: Byte)
    requires gs == []
    ensures Spellings(gs) + [quote] == [quote] && Meanings(gs, quote) == []
  {
  }

  lemma {:induction false} SpellingsSplit(gs: seq<Glyph>, quote: Byte)
    requires gs != [] && ValidGlyphs(gs, quote)
    ensures Spellings(gs) + [quote] == Spelling(gs[0]) + (Spellings(gs[1..]) + [quote])
    ensures |Spellings(gs)| == |Spelling(gs[0])| + |Spellings(gs[1..])|
    ensures Meanings(gs, quote) == Meaning(gs[0]) + Meanings(gs[1..], quote)
  {
  }

  lemma {:induction false} MeaningIsOne(g: Glyph, quote: Byte)
    requires ValidGlyph(g, quote)
    ensures if g.Continued? then Meaning(g) == [] else Meaning(g) == [Meaning(g)[0]]
  {
  }

  lemma {:induction false} CloseIsRead(s: seq<Byte>, pos: nat, quote: Byte, text: seq<Byte>)
    requires IsQuote(quote) && Has(s, pos, quote)
    ensures Scan(s, pos, quote, text) == Token(Some(text), pos + 1, |text| + 1)
  {
  }

  /** Whatever stands before and after it, a quoted token is returned byte for byte. */
  lemma {:induction false} QuotedTokenIsRead(s: seq<Byte>, pos: nat, quote: Byte, gs: seq<Glyph>)
    requires IsQuote(quote) && ValidGlyphs(gs, quote) && At(s, pos, Quoted(gs, quote))
    ensures var value := Meanings(gs, quote);
            GetToken(s, pos) == Token(Some(value), pos + |Quoted(gs, quote)|, |value| + 1)
  {
    hide Scan;
    assert Quoted(gs, quote) == [quote] + (Spellings(gs) + [quote]);
    AtJoin(s, pos, [quote], Spellings(gs) + [quote]);
    AtByte(s, pos, [quote], 0);
    GlyphsAreRead(s, pos + 1, quote, gs, []);
    assert [] + Meanings(gs, quote) == Meanings(gs, quote);
  }

  // ---------------------------------------------------------------------------------------------
  // It reads nothing else
  // ---------------------------------------------------------------------------------------------

  /** The glyph that one turn of the loop took. */
  function TakenGlyph(s: seq<Byte>, pos: nat, next: nat): Glyph
    requires pos < next <= |s|
  {
    if s[pos] != BACKSLASH || next == pos + 1 then Literal(s[pos])
    else if IsNewLine(s[pos + 1]) then Continued(s[pos + 1..next])
    else if next == pos + 2 then Named(s[pos + 1])
    else Hex(s[pos + 1], s[pos + 2])
  }

  lemma {:induction false} TakenIsGlyph(s: seq<Byte>, pos: nat, quote: Byte)
    requires IsQuote(quote) && pos < |s|
    requires NextItem(s, pos, quote).Emit? || NextItem(s, pos, quote).Continue?
    ensures var r := NextItem(s, pos, quote);
            var g := TakenGlyph(s, pos, r.next);
            && ValidGlyph(g, quote) && Spelling(g) == s[pos..r.next]
            && (if r.Continue? then g.Continued? else Meaning(g) == [r.c])
  {
    var r := NextItem(s, pos, quote);
    var n := r.next - pos;
    if n == 2 {
      assert s[pos..r.next] == [s[pos], s[pos + 1]];
    } else if n == 3 {
      assert s[pos..r.next] == [s[pos], s[pos + 1], s[pos + 2]];
    }
  }

  lemma {:induction false} ScanIsSpelled(s: seq<Byte>, pos: nat, quote: Byte, text: seq<Byte>) returns (gs: seq<Glyph>)
    requires IsQuote(quote) && pos <= |s| && Scan(s, pos, quote, text).text.Some?
    ensures ValidGlyphs(gs, quote)
    ensures var t := Scan(s, pos, quote, text);
            && t.text == Some(text + Meanings(gs, quote))
            && s[pos..t.end] == Spellings(gs) + [quote]
    decreases |s| - pos
  {
    hide NextItem, TakenGlyph, Spelling, Meaning, Spellings, Meanings;
    var r := NextItem(s, pos, quote);
    if r.Close? {
      ClosedByQuote(s, pos, quote);
      gs := [];
      NothingToRead(gs, quote);
      assert s[pos..pos + 1] == [quote];
      assert text + Meanings(gs, quote) == text;
    } else {
      var g := TakenGlyph(s, pos, r.next);
      TakenIsGlyph(s, pos, quote);
      MeaningIsOne(g, quote);
      ScanTakes(s, pos, quote, text, Meaning(g));
      var rest := ScanIsSpelled(s, r.next, quote, text + Meaning(g));
      gs := [g] + rest;
      assert gs[1..] == rest;
      SpellingsSplit(gs, quote);
      var end := Scan(s, pos, quote, text).end;
      assert text + Meaning(g) + Meanings(rest, quote) == text + Meanings(gs, quote);
      assert s[pos..end] == s[pos..r.next] + s[r.next..end];
    }
  }

  lemma {:induction false} ClosedByQuote(s: seq<Byte>, pos: nat, quote: Byte)
    requires pos < |s| && NextItem(s, pos, quote).Close?
    ensures s[pos] == quote && NextItem(s, pos, quote) == Close(pos + 1)
  {
  }

  /** A token that starts with a quote is accepted if and only if it is written as a quoted token. */
  lemma {:induction false} QuotedTokenIff(s: seq<Byte>, pos: nat, value: seq<Byte>)
    requires pos < |s| && IsQuote(s[pos])
    ensures GetToken(s, pos).text == Some(value) <==>
            exists gs: seq<Glyph> :: Writes(s, pos, gs, value)
  {
    hide Scan;
    if GetToken(s, pos).text == Some(value) {
      var gs := ScanIsSpelled(s, pos + 1, s[pos], []);
      var end := GetToken(s, pos).end;
      assert [] + Meanings(gs, s[pos]) == Meanings(gs, s[pos]);
      assert s[pos..end] == [s[pos]] + s[pos + 1..end] == Quoted(gs, s[pos]);
      assert Writes(s, pos, gs, value);
    }
    if gs :| Writes(s, pos, gs, value) {
      QuotedTokenIsRead(s, pos, s[pos], gs);
    }
  }

  predicate Writes(s: seq<Byte>, pos: nat, gs: seq<Glyph>, value: seq<Byte>) {
    && pos < |s| && ValidGlyphs(gs, s[pos]) && At(s, pos, Quoted(gs, s[pos]))
    && value == Meanings(gs, s[pos])
  }

  // ---------------------------------------------------------------------------------------------
  // Tokens without quotes
  // ---------------------------------------------------------------------------------------------

  /** What may stand in a token without quotes; a quote is an ordinary character there, except as the first one. */
  predicate PlainGlyph(g: Glyph) {
    && ValidGlyph(g, NO_QUOTE) && !g.Continued?
    && (g.Literal? ==> !IsBlank(g.c) && g.c != HASH)
  }

  predicate PlainGlyphs(gs: seq<Glyph>) {
    forall i :: 0 <= i < |gs| ==> PlainGlyph(gs[i])
  }

  predicate EndsToken(s: seq<Byte>, pos: nat) {
    pos == |s| || (pos < |s| && (IsBlank(s[pos]) || IsNewLine(s[pos]) || s[pos] == HASH))
  }

  /** A line break that is escaped right after the token. */
  predicate IsGlued(s: seq<Byte>, pos: nat) {
    pos + 1 < |s| && s[pos] == BACKSLASH && IsNewLine(s[pos + 1])
  }

  /** Where the tokenizer stops after the last character of a token: past the backslash, if one is glued to it. */
  predicate Stops(s: seq<Byte>, pos: nat, end: nat) {
    if IsGlued(s, pos) then end == pos + 1 else EndsToken(s, pos) && end == pos
  }

  lemma {:induction false} PlainGlyphIsRead(s: seq<Byte>, pos: nat, g: Glyph)
    requires PlainGlyph(g) && At(s, pos, Spelling(g))
    ensures pos < |s| && pos + |Spelling(g)| <= |s|
    ensures NextItem(s, pos, NO_QUOTE) == Emit(Meaning(g)[0], pos + |Spelling(g)|)
  {
    AtByte(s, pos, Spelling(g), 0);
    if !g.Literal? {
      AtByte(s, pos, Spelling(g), 1);
      if g.Hex? {
        AtByte(s, pos, Spelling(g), 2);
      }
    }
  }

  lemma {:induction false} PlainGlyphsAreRead(s: seq<Byte>, pos: nat, gs: seq<Glyph>, text: seq<Byte>, end: nat)
    requires PlainGlyphs(gs) && ValidGlyphs(gs, NO_QUOTE) && At(s, pos, Spellings(gs))
    requires pos <= |s| && Stops(s, pos + |Spellings(gs)|, end) && text + Meanings(gs, NO_QUOTE) != []
    ensures var value := text + Meanings(gs, NO_QUOTE);
            Scan(s, pos, NO_QUOTE, text) == Token(Some(value), end, |value| + 1)
    decreases |gs|
  {
    hide *;
    if gs == [] {
      NoGlyphsAreRead(s, pos, gs, text, end);
    } else {
      PlainTail(gs);
      SpellingsSplit(gs, NO_QUOTE);
      SpellingsFirst(gs);
      var first, rest := Spelling(gs[0]), Spellings(gs[1..]);
      AtJoin(s, pos, first, rest);
      PlainGlyphIsRead(s, pos, gs[0]);
      ScanTakes(s, pos, NO_QUOTE, text, Meaning(gs[0]));
      assert text + Meaning(gs[0]) + Meanings(gs[1..], NO_QUOTE) == text + Meanings(gs, NO_QUOTE);
      PlainGlyphsAreRead(s, pos + |first|, gs[1..], text + Meaning(gs[0]), end);
    }
  }

  lemma {:induction false} PlainTail(gs: seq<Glyph>)
    requires gs != [] && PlainGlyphs(gs)
    ensures PlainGlyph(gs[0]) && ValidGlyph(gs[0], NO_QUOTE) && Meaning(gs[0]) == [Meaning(gs[0])[0]]
    ensures PlainGlyphs(gs[1..]) && ValidGlyphs(gs[1..], NO_QUOTE)
    ensures gs[0].Hex? ==> IsHexDigit(gs[0].high) && IsHexDigit(gs[0].low)
  {
  }

  lemma {:induction false} SpellingsFirst(gs: seq<Glyph>)
    requires gs != []
    ensures Spellings(gs) == Spelling(gs[0]) + Spellings(gs[1..])
  {
  }

  lemma {:induction false} NoGlyphsAreRead(s: seq<Byte>, pos: nat, gs: seq<Glyph>, text: seq<Byte>, end: nat)
    requires gs == [] && pos <= |s| && Stops(s, pos + |Spellings(gs)|, end) && text + Meanings(gs, NO_QUOTE) != []
    ensures var value := text + Meanings(gs, NO_QUOTE);
            Scan(s, pos, NO_QUOTE, text) == Token(Some(value), end, |value| + 1)
  {
    assert text + Meanings(gs, NO_QUOTE) == text;
  }

  /** A token written at a position without quotes, which starts with no quote either. */
  predicate WritesPlain(s: seq<Byte>, pos: nat, gs: seq<Glyph>) {
    && gs != [] && PlainGlyphs(gs) && ValidGlyphs(gs, NO_QUOTE) && At(s, pos, Spellings(gs))
    && !(gs[0].Literal? && IsQuote(gs[0].c))
  }

  /**
   A token without quotes ends at the first blank, line break, comment or the end, or at a backslash before a
   line break, and is returned unescaped.
   */
  lemma {:induction false} PlainTokenIsRead(s: seq<Byte>, pos: nat, gs: seq<Glyph>, end: nat)
    requires WritesPlain(s, pos, gs) && Stops(s, pos + |Spellings(gs)|, end)
    ensures var value := Meanings(gs, NO_QUOTE);
            pos < |s| && GetToken(s, pos) == Token(Some(value), end, |value| + 1)
  {
    SpellingsFirst(gs);
    AtByte(s, pos, Spellings(gs), 0);
    MeaningIsOne(gs[0], NO_QUOTE);
    assert [] + Meanings(gs, NO_QUOTE) == Meanings(gs, NO_QUOTE);
    hide Scan, Meanings, Spellings, At, Stops;
    SpellingsSplit(gs, NO_QUOTE);
    PlainGlyphsAreRead(s, pos, gs, [], end);
  }

  // ---------------------------------------------------------------------------------------------
  // Every byte can be written
  // ---------------------------------------------------------------------------------------------

  /** A hexadecimal digit in the chosen case. */
  function Digit(v: nat, upper: bool): Byte
    requires v < 16
  {
    (if upper then "0123456789ABCDEF" else "0123456789abcdef")[v] as int
  }

  datatype Cases = Cases(high: bool, low: bool)

  /** A byte as a backslash and two digits. */
  function HexBytes(c: Byte, cases: Cases): seq<Byte> {
    [92, Digit(c / 16, cases.high), Digit(c % 16, cases.low)]
  }

  /** Every byte in this form, each digit in a case of its own. */
  function HexForm(value: seq<Byte>, cases: seq<Cases>): seq<Byte>
    requires |cases| == |value|
  {
    if value == [] then [] else HexBytes(value[0], cases[0]) + HexForm(value[1..], cases[1..])
  }

  function HexGlyph(c: Byte, cases: Cases): Glyph {
    Hex(Digit(c / 16, cases.high), Digit(c % 16, cases.low))
  }

  function Escaped(value: seq<Byte>, cases: seq<Cases>): (gs: seq<Glyph>)
    requires |cases| == |value|
  {
    if value == [] then [] else [HexGlyph(value[0], cases[0])] + Escaped(value[1..], cases[1..])
  }

  lemma {:induction false} DigitIsRead(v: nat, upper: bool)
    requires v < 16
    ensures IsHexDigit(Digit(v, upper)) && HexValue(Digit(v, upper)) == v
  {
  }

  lemma {:induction false} HexGlyphMeansByte(c: Byte, cases: Cases, quote: Byte)
    ensures var g := HexGlyph(c, cases);
            ValidGlyph(g, quote) && Meaning(g) == [c] && Spelling(g) == HexBytes(c, cases)
  {
    hide Digit, HexValue, IsHexDigit;
    DigitIsRead(c / 16, cases.high);
    DigitIsRead(c % 16, cases.low);
  }

  lemma {:induction false} EscapedMeansText(value: seq<Byte>, cases: seq<Cases>, quote: Byte)
    requires |cases| == |value|
    ensures ValidGlyphs(Escaped(value, cases), quote) && Meanings(Escaped(value, cases), quote) == value
    ensures Spellings(Escaped(value, cases)) == HexForm(value, cases)
  {
    if value == [] {
    } else {
      hide HexGlyph, HexBytes, Meanings, Spellings, ValidGlyphs, ValidGlyph, Meaning, Spelling;
      HexGlyphMeansByte(value[0], cases[0], quote);
      EscapedMeansText(value[1..], cases[1..], quote);
      GlyphInFront(HexGlyph(value[0], cases[0]), Escaped(value[1..], cases[1..]), quote);
      assert [value[0]] + value[1..] == value;
    }
  }

  lemma {:induction false} GlyphInFront(g: Glyph, gs: seq<Glyph>, quote: Byte)
    requires ValidGlyph(g, quote) && ValidGlyphs(gs, quote)
    ensures ValidGlyphs([g] + gs, quote)
    ensures Meanings([g] + gs, quote) == Meaning(g) + Meanings(gs, quote)
    ensures Spellings([g] + gs) == Spelling(g) + Spellings(gs)
  {
    hide ValidGlyph, Meaning, Spelling;
    assert ([g] + gs)[1..] == gs;
  }

  /** Every byte string can be written, in upper-case and lower-case digits alike, and is read as it is. */
  lemma {:induction false} EveryTextIsWritten(value: seq<Byte>, cases: seq<Cases>, quote: Byte,
                                              before: seq<Byte>, after: seq<Byte>)
    requires |cases| == |value| && (quote == 34 || quote == 39 || quote == 96)
    ensures var token := [quote] + HexForm(value, cases) + [quote];
            GetToken(before + token + after, |before|) == Token(Some(value), |before + token|, |value| + 1)
  {
    hide GetToken, HexForm, Escaped;
    EscapedMeansText(value, cases, quote);
    var token := Quoted(Escaped(value, cases), quote);
    var s := before + token + after;
    assert s[|before|..|before| + |token|] == token;
    QuotedTokenIsRead(s, |before|, quote, Escaped(value, cases));
  }
}
