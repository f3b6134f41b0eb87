/** The tokens of a configuration file: quotes, escapes, comments and continued lines. */
module Tokens {
  import opened Bytes

  const TAB: Byte := 9
  const LF: Byte := 10
  const VT: Byte := 11
  const CR: Byte := 13
  const SPACE: Byte := 32
  const HASH: Byte := 35
  const BACKSLASH: Byte := 92
  /** The delimiter of a token that has no quotes. */
  const NO_QUOTE: Byte := 0

  predicate IsQuote(c: Byte) {
    c == 39 || c == 34 || c == 96
  }

  predicate IsBlank(c: Byte) {
    c == SPACE || c == TAB || c == VT
  }

  predicate IsNewLine(c: Byte) {
    c == CR || c == LF
  }

  predicate IsHexDigit(c: Byte) {
    65 <= c <= 70 || 97 <= c <= 102 || 48 <= c <= 57
  }

  function HexValue(c: Byte): (v: nat)
    requires IsHexDigit(c)
    ensures v < 16
  {
    if 65 <= c <= 70 then c - 55 else if 97 <= c <= 102 then c - 87 else c - 48
  }

  /** Whether a byte is there: the source compares positions with the size before it looks. */
  predicate Has(s: seq<Byte>, i: nat, c: Byte) {
    i < |s| && s[i] == c
  }

  // ---------------------------------------------------------------------------------------------
  // White space
  // ---------------------------------------------------------------------------------------------

  function CommentEnd(s: seq<Byte>, pos: nat): (end: nat)
    ensures pos <= end && (pos <= |s| ==> end <= |s|)
    decreases |s| - pos
  {
    if pos < |s| && !IsNewLine(s[pos]) then CommentEnd(s, pos + 1) else pos
  }

  /** `skip_ws`: the start of the next statement, or the end. */
  function SkipSpace(s: seq<Byte>, pos: nat): (end: nat)
    requires pos <= |s|
    ensures pos <= end <= |s|
    ensures end < |s| ==> !IsBlank(s[end]) && !IsNewLine(s[end]) && s[end] != HASH
    decreases |s| - pos
  {
    if pos == |s| then pos
    else if s[pos] == CR && Has(s, pos + 1, LF) then SkipSpace(s, pos + 2)
    else if IsNewLine(s[pos]) || IsBlank(s[pos]) then SkipSpace(s, pos + 1)
    else if s[pos] == HASH then SkipSpace(s, CommentEnd(s, pos + 1))
    else pos
  }

  /** The length of a backslash and the new line after it, if there is one. */
  function Continuation(s: seq<Byte>, pos: nat): (n: nat)
    requires pos < |s|
    ensures 1 <= n <= |s| - pos
  {
    if Has(s, pos + 1, CR) then
      if Has(s, pos + 2, LF) then 3 else 2
    else if Has(s, pos + 1, LF) then 2
    else 1
  }

  /** `skip_line_ws`: the next argument of the statement, or what ends the statement. */
  function SkipLineSpace(s: seq<Byte>, pos: nat): (end: nat)
    requires pos <= |s|
    ensures pos <= end <= |s|
    ensures end < |s| ==> !IsBlank(s[end]) && s[end] != BACKSLASH
    decreases |s| - pos
  {
    if pos == |s| then pos
    else if s[pos] == BACKSLASH then SkipLineSpace(s, pos + Continuation(s, pos))
    else if IsBlank(s[pos]) then SkipLineSpace(s, pos + 1)
    else pos
  }

  predicate StartsArgument(s: seq<Byte>, pos: nat) {
    pos < |s| && !IsNewLine(s[pos]) && s[pos] != HASH
  }

  ghost predicate InComment(s: seq<Byte>, from: nat, k: nat)
    requires k < |s|
  {
    exists c :: from <= c <= k && s[c] == HASH && forall j :: c <= j <= k ==> !IsNewLine(s[j])
  }

  ghost predicate IsSpace(s: seq<Byte>, from: nat, k: nat)
    requires k < |s|
  {
    IsBlank(s[k]) || IsNewLine(s[k]) || InComment(s, from, k)
  }

  lemma {:induction false} CommentEndIsFirst(s: seq<Byte>, pos: nat)
    requires pos <= |s|
    ensures forall k :: pos <= k < CommentEnd(s, pos) ==> !IsNewLine(s[k])
    ensures CommentEnd(s, pos) == |s| || IsNewLine(s[CommentEnd(s, pos)])
    decreases |s| - pos
  {
    if pos < |s| && !IsNewLine(s[pos]) {
      CommentEndIsFirst(s, pos + 1);
    }
  }

  lemma {:induction false} CommentStarts(s: seq<Byte>, from: nat, c: nat, k: nat)
    requires from <= c <= k < |s| && s[c] == HASH && forall j :: c <= j <= k ==> !IsNewLine(s[j])
    ensures InComment(s, from, k)
  {
  }

  lemma {:induction false} SpaceFrom(s: seq<Byte>, from: nat, to: nat, k: nat)
    requires from <= to <= k < |s| && IsSpace(s, to, k)
    ensures IsSpace(s, from, k)
  {
  }

  /** `skip_ws` stops at the first byte that is no blank, no line break and in no comment. */
  lemma {:induction false} SkipSpaceIsFirst(s: seq<Byte>, pos: nat)
    requires pos <= |s|
    ensures forall k :: pos <= k < SkipSpace(s, pos) ==> IsSpace(s, pos, k)
    ensures SkipSpace(s, pos) < |s| ==> !IsSpace(s, pos, SkipSpace(s, pos))
    decreases |s| - pos
  {
    hide SkipSpace;
    if pos < |s| {
      var next := NextSpace(s, pos);
      SkipSpaceStep(s, pos);
      if next > pos {
        SkipSpaceIsFirst(s, next);
        var end := SkipSpace(s, pos);
        hide IsSpace;
        forall k | next <= k < end
          ensures IsSpace(s, pos, k)
        {
          SpaceFrom(s, pos, next, k);
        }
        if end < |s| {
          NoCommentOver(s, pos, end);
        }
      }
    }
  }

  /** Where one turn of the loop in `skip_ws` goes. */
  function NextSpace(s: seq<Byte>, pos: nat): (next: nat)
    requires pos < |s|
    ensures pos <= next <= |s|
  {
    if s[pos] == CR && Has(s, pos + 1, LF) then pos + 2
    else if IsNewLine(s[pos]) || IsBlank(s[pos]) then pos + 1
    else if s[pos] == HASH then CommentEnd(s, pos + 1)
    else pos
  }

  lemma {:induction false} SkipSpaceStep(s: seq<Byte>, pos: nat)
    requires pos < |s|
    ensures var next := NextSpace(s, pos);
            && SkipSpace(s, pos) == (if next == pos then pos else SkipSpace(s, next))
            && (next == pos ==> !IsSpace(s, pos, pos))
            && forall k :: pos <= k < next ==> IsSpace(s, pos, k)
  {
    var next := NextSpace(s, pos);
    if s[pos] == HASH {
      CommentEndIsFirst(s, pos + 1);
      forall k | pos <= k < next
        ensures IsSpace(s, pos, k)
      {
        CommentStarts(s, pos, pos, k);
      }
    }
  }

  lemma {:induction false} NoCommentOver(s: seq<Byte>, pos: nat, end: nat)
    requires pos < |s| && pos < NextSpace(s, pos) <= end < |s| && !IsSpace(s, NextSpace(s, pos), end)
    ensures !IsSpace(s, pos, end)
  {
    if s[pos] == HASH {
      CommentEndIsFirst(s, pos + 1);
    }
  }

  /** A byte that `skip_line_ws` passes: a blank, a backslash, or the line break right after a backslash. */
  predicate IsLineSpace(s: seq<Byte>, from: nat, k: nat)
    requires k < |s|
  {
    || IsBlank(s[k]) || s[k] == BACKSLASH
    || (k >= from + 1 && s[k - 1] == BACKSLASH && IsNewLine(s[k]))
    || (k >= from + 2 && s[k - 2] == BACKSLASH && s[k - 1] == CR && s[k] == LF)
  }

  /** `skip_line_ws` stops at the first byte that is none of these. */
  lemma {:induction false} SkipLineSpaceIsFirst(s: seq<Byte>, from: nat, pos: nat)
    requires from <= pos <= |s|
    requires pos < |s| && IsLineSpace(s, from, pos) ==> IsBlank(s[pos]) || s[pos] == BACKSLASH
    ensures forall k :: pos <= k < SkipLineSpace(s, pos) ==> IsLineSpace(s, from, k)
    ensures SkipLineSpace(s, pos) < |s| ==> !IsLineSpace(s, from, SkipLineSpace(s, pos))
    decreases |s| - pos
  {
    if pos < |s| {
      if s[pos] == BACKSLASH {
        SkipLineSpaceIsFirst(s, from, pos + Continuation(s, pos));
      } else if IsBlank(s[pos]) {
        SkipLineSpaceIsFirst(s, from, pos + 1);
      }
    }
  }

  // ---------------------------------------------------------------------------------------------
  // Tokens
  // ---------------------------------------------------------------------------------------------

  /** What one turn of the loop in `get_token` does, and where it leaves the position. */
  datatype Item =
    | Emit(c: Byte, next: nat)
    | Continue(next: nat)
    | Close(next: nat)
    | Stop(next: nat)
    | Fail(next: nat)

  function EscapeItem(s: seq<Byte>, pos: nat, quote: Byte): (r: Item)
    requires pos < |s|
    ensures pos < r.next <= |s| && !r.Close?
  {
    var e := pos + 1;
    if e == |s| then Fail(e)
    else
      var esc := s[e];
      if IsNewLine(esc) then
        if quote == NO_QUOTE then Stop(e) else Continue(pos + Continuation(s, pos))
      else if esc == 114 then Emit(CR, e + 1)
      else if esc == 110 then Emit(LF, e + 1)
      else if esc == 116 then Emit(TAB, e + 1)
      else if esc == BACKSLASH || IsQuote(esc) then Emit(esc, e + 1)
      else if IsHexDigit(esc) && e + 1 < |s| && IsHexDigit(s[e + 1]) then
        Emit(16 * HexValue(esc) + HexValue(s[e + 1]), e + 2)
      else Fail(e)
  }

  function NextItem(s: seq<Byte>, pos: nat, quote: Byte): (r: Item)
    requires pos < |s|
    ensures pos <= r.next <= |s|
    ensures pos == r.next ==> r == Stop(pos)
  {
    var c := s[pos];
    if IsNewLine(c) || c == VT then Stop(pos)
    else if c == SPACE || c == TAB || c == HASH then
      if quote == NO_QUOTE then Stop(pos) else Emit(c, pos + 1)
    else if c == BACKSLASH then EscapeItem(s, pos, quote)
    else if c == quote && quote != NO_QUOTE then Close(pos + 1)
    else Emit(c, pos + 1)
  }

  /** A token, where it ended, and how much of the token buffer it took, with its terminating zero if it is one. */
  datatype Token = Token(text: Option<seq<Byte>>, end: nat, used: nat)

  function Unclosed(quote: Byte, text: seq<Byte>, end: nat): Token {
    if quote == NO_QUOTE && text != [] then Token(Some(text), end, |text| + 1)
    else Token(None, end, |text|)
  }

  function Scan(s: seq<Byte>, pos: nat, quote: Byte, text: seq<Byte>): (t: Token)
    requires pos <= |s|
    ensures pos <= t.end <= |s| && |text| <= t.used
    ensures t.text.Some? ==> |t.text.value| + 1 == t.used
    decreases |s| - pos
  {
    if pos == |s| then Unclosed(quote, text, pos)
    else match NextItem(s, pos, quote)
      case Emit(c, next) => Scan(s, next, quote, text + [c])
      case Continue(next) => Scan(s, next, quote, text)
      case Close(next) => Token(Some(text), next, |text| + 1)
      case Stop(next) => Unclosed(quote, text, next)
      case Fail(next) => Token(None, next, |text|)
  }

  /** `get_token`. */
  function GetToken(s: seq<Byte>, pos: nat): (t: Token)
    requires pos < |s|
    ensures pos <= t.end <= |s|
    ensures t.text.Some? ==> |t.text.value| + 1 == t.used
    ensures !IsBlank(s[pos]) && !IsNewLine(s[pos]) && s[pos] != HASH ==> pos < t.end
  {
    if IsQuote(s[pos]) then Scan(s, pos + 1, s[pos], []) else Scan(s, pos, NO_QUOTE, [])
  }

  // ---------------------------------------------------------------------------------------------
  // Lines
  // ---------------------------------------------------------------------------------------------

  /** The line breaks in the first bytes: each CR, and each LF that does not follow a CR. */
  function LineBreaks(s: seq<Byte>, n: nat): nat
    requires n <= |s|
  {
    if n == 0 then 0
    else LineBreaks(s, n - 1) +
         (if s[n - 1] == CR || (s[n - 1] == LF && !(n >= 2 && s[n - 2] == CR)) then 1 else 0)
  }

  /** The position is between the CR and the LF of one line break. */
  predicate Splits(s: seq<Byte>, pos: nat) {
    0 < pos < |s| && s[pos - 1] == CR && s[pos] == LF
  }

  lemma {:induction false} NoBreak(s: seq<Byte>, pos: nat)
    requires pos < |s| && !IsNewLine(s[pos])
    ensures LineBreaks(s, pos + 1) == LineBreaks(s, pos) && !Splits(s, pos + 1)
  {
  }

  lemma {:induction false} OneBreak(s: seq<Byte>, pos: nat)
    requires pos < |s| && IsNewLine(s[pos]) && !Splits(s, pos)
    ensures var n := if s[pos] == CR && Has(s, pos + 1, LF) then 2 else 1;
            LineBreaks(s, pos + n) == LineBreaks(s, pos) + 1 && !Splits(s, pos + n)
  {
  }

  lemma {:induction false} ContinuationBreaks(s: seq<Byte>, pos: nat)
    requires pos < |s| && s[pos] == BACKSLASH
    ensures var n := Continuation(s, pos);
            && LineBreaks(s, pos + n) == LineBreaks(s, pos) + (if n == 1 then 0 else 1)
            && !Splits(s, pos + n)
  {
    NoBreak(s, pos);
    if Continuation(s, pos) > 1 {
      OneBreak(s, pos + 1);
    }
  }

  /** Only a continued line crosses a line break within a token. */
  lemma {:induction false} ItemBreaks(s: seq<Byte>, pos: nat, quote: Byte)
    requires pos < |s| && !Splits(s, pos)
    ensures var r := NextItem(s, pos, quote);
            && LineBreaks(s, r.next) == LineBreaks(s, pos) + (if r.Continue? then 1 else 0)
            && !Splits(s, r.next)
  {
    if s[pos] == BACKSLASH {
      ContinuationBreaks(s, pos);
      NoBreak(s, pos);
      if pos + 1 < |s| && !IsNewLine(s[pos + 1]) {
        NoBreak(s, pos + 1);
        if pos + 2 < |s| && !IsNewLine(s[pos + 2]) {
          NoBreak(s, pos + 2);
        }
      }
    } else if !IsNewLine(s[pos]) {
      NoBreak(s, pos);
    }
  }
}
