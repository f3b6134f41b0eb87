/** Statements of a configuration file: a command name and its arguments. */
module Statements {
  import opened Bytes
  import opened Tokens
  import opened Quoting

  const MAX_ARGS := 16
  const TOTAL_ARGS_SIZE := 4096

  type Text = Option<seq<Byte>>

  /** The arguments of a statement and where it ends. */
  datatype Arguments = Arguments(tokens: seq<Token>, end: nat)

  /** A token takes its length and one more. */
  predicate Measured(tokens: seq<Token>) {
    forall i :: 0 <= i < |tokens| && tokens[i].text.Some? ==> tokens[i].used == |tokens[i].text.value| + 1
  }

  function GetArguments(s: seq<Byte>, pos: nat): (a: Arguments)
    requires pos <= |s|
    ensures pos <= a.end <= |s|
    decreases |s| - pos
  {
    var p := SkipLineSpace(s, pos);
    if !StartsArgument(s, p) then Arguments([], p)
    else
      var t := GetToken(s, p);
      var rest := GetArguments(s, t.end);
      Arguments([t] + rest.tokens, rest.end)
  }

  /** The statement that starts at a position: its command and the arguments. */
  function GetStatement(s: seq<Byte>, pos: nat): (a: Arguments)
    requires pos < |s|
    ensures a.tokens != [] && pos <= a.end <= |s|
    ensures !IsBlank(s[pos]) && !IsNewLine(s[pos]) && s[pos] != HASH ==> pos < a.end
  {
    var t := GetToken(s, pos);
    var rest := GetArguments(s, t.end);
    Arguments([t] + rest.tokens, rest.end)
  }

  lemma {:induction false} ArgumentsAreMeasured(s: seq<Byte>, pos: nat)
    requires pos <= |s|
    ensures Measured(GetArguments(s, pos).tokens)
    decreases |s| - pos
  {
    hide SkipLineSpace, GetToken;
    var p := SkipLineSpace(s, pos);
    if StartsArgument(s, p) {
      ArgumentsAreMeasured(s, GetToken(s, p).end);
    }
  }

  lemma {:induction false} StatementIsMeasured(s: seq<Byte>, pos: nat)
    requires pos < |s|
    ensures Measured(GetStatement(s, pos).tokens)
  {
    hide GetArguments, GetToken;
    ArgumentsAreMeasured(s, GetToken(s, pos).end);
  }

  function Texts(tokens: seq<Token>): (r: seq<Text>)
    ensures |r| == |tokens|
  {
    seq(|tokens|, i requires 0 <= i < |tokens| => tokens[i].text)
  }

  /** A C string ends at its first zero. */
  function CString(text: seq<Byte>): seq<Byte> {
    if text == [] || text[0] == 0 then [] else [text[0]] + CString(text[1..])
  }

  /** What becomes of a statement. */
  datatype Event = Executed(args: seq<Text>) | Unknown(name: seq<Byte>) | Overfull(name: seq<Byte>) | Malformed

  function EventOf(tokens: seq<Token>, known: set<seq<Byte>>): Event
    requires tokens != []
  {
    match tokens[0].text
    case None => Malformed
    case Some(name) =>
      if CString(name) !in known then Unknown(name)
      else if |tokens| > MAX_ARGS then Overfull(name)
      else Executed(Texts(tokens))
  }

  /** `parse`: all statements of the buffer, in order. */
  function Parse(s: seq<Byte>, pos: nat, known: set<seq<Byte>>): seq<Event>
    requires pos <= |s|
    decreases |s| - pos
  {
    var p := SkipSpace(s, pos);
    if p == |s| then []
    else
      var a := GetStatement(s, p);
      [EventOf(a.tokens, known)] + Parse(s, a.end, known)
  }

  // ---------------------------------------------------------------------------------------------
  // Lines continued after a token without quotes
  // ---------------------------------------------------------------------------------------------

  lemma {:induction false} SkipsGap(s: seq<Byte>, pos: nat, gap: seq<Byte>)
    requires forall i :: 0 <= i < |gap| ==> IsBlank(gap[i])
    requires At(s, pos, gap)
    ensures SkipLineSpace(s, pos) == SkipLineSpace(s, pos + |gap|)
    ensures SkipSpace(s, pos) == SkipSpace(s, pos + |gap|)
    decreases |gap|
  {
    if gap != [] {
      AtByte(s, pos, gap, 0);
      assert gap == gap[..1] + gap[1..];
      AtJoin(s, pos, gap[..1], gap[1..]);
      SkipsGap(s, pos + 1, gap[1..]);
    }
  }

  /** The blanks between a token and an escaped line break. */
  predicate Separates(s: seq<Byte>, pos: nat, gap: seq<Byte>) {
    (forall i :: 0 <= i < |gap| ==> IsBlank(gap[i])) && At(s, pos, gap) && IsGlued(s, pos + |gap|)
  }

  lemma {:induction false} ContinuedArguments(s: seq<Byte>, pos: nat, gap: seq<Byte>)
    requires Separates(s, pos, gap)
    ensures var at := pos + |gap|;
            GetArguments(s, pos) == GetArguments(s, at + Continuation(s, at))
  {
    hide GetToken;
    SkipsGap(s, pos, gap);
    var at := pos + |gap|;
    assert SkipLineSpace(s, at) == SkipLineSpace(s, at + Continuation(s, at));
  }

  /**
   A line that is continued after a token without quotes: if the token and the backslash are apart, the
   arguments of the next line belong to the statement; if not, the statement ends at the line break.
   */
  lemma {:induction false} ContinuesIfApart(s: seq<Byte>, pos: nat, gs: seq<Glyph>, gap: seq<Byte>)
    requires WritesPlain(s, pos, gs) && Separates(s, pos + |Spellings(gs)|, gap)
    ensures pos < |s|
    ensures var p := pos + |Spellings(gs)|;
            var next := p + |gap| + Continuation(s, p + |gap|);
            && GetToken(s, pos).text == Some(Meanings(gs, NO_QUOTE))
            && GetToken(s, pos).end == (if gap == [] then p + 1 else p)
            && GetArguments(s, GetToken(s, pos).end) == (if gap == [] then Arguments([], p + 1) else GetArguments(s, next))
            && (GetArguments(s, next).tokens != [] ==>
                  (GetArguments(s, GetToken(s, pos).end) == GetArguments(s, next) <==> gap != []))
  {
    hide GetToken, Spellings, Meanings, WritesPlain;
    var p := pos + |Spellings(gs)|;
    if gap == [] {
      PlainTokenIsRead(s, pos, gs, p + 1);
      hide *;
      BreakEndsStatement(s, p + 1);
    } else {
      AtByte(s, p, gap, 0);
      PlainTokenIsRead(s, pos, gs, p);
      ContinuedArguments(s, p, gap);
    }
  }

  /** The letter a, a backslash, a line break and the letter b: the b is not an argument. */
  lemma {:induction false} GluedLineIsLost()
    ensures var s: seq<Byte> := [97, BACKSLASH, LF, 98];
            GetStatement(s, 0) == Arguments([Token(Some([97]), 2, 2)], 2)
  {
    var s: seq<Byte> := [97, BACKSLASH, LF, 98];
    var gs := [Literal(97)];
    assert Spellings(gs) == [97] && Meanings(gs, NO_QUOTE) == [97];
    assert s[0..1] == [97] && s[1..1] == [];
    ContinuesIfApart(s, 0, gs, []);
    PlainTokenIsRead(s, 0, gs, 2);
  }

  lemma {:induction false} BreakEndsStatement(s: seq<Byte>, pos: nat)
    requires pos < |s| && IsNewLine(s[pos])
    ensures GetArguments(s, pos) == Arguments([], pos)
  {
  }

  // ---------------------------------------------------------------------------------------------
  // What is skipped before statements and between words
  // ---------------------------------------------------------------------------------------------

  /** Blanks, line breaks and comments. */
  ghost predicate Filler(f: seq<Byte>) {
    forall k :: 0 <= k < |f| ==> IsSpace(f, 0, k)
  }

  /** The last comment is closed by a line break. */
  ghost predicate Closed(f: seq<Byte>) {
    f == [] || !InComment(f, 0, |f| - 1)
  }

  /** Blanks and continued lines. */
  ghost predicate LineGap(gap: seq<Byte>) {
    forall k :: 0 <= k < |gap| ==> IsLineSpace(gap, 0, k)
  }

  lemma {:induction false} SpaceMoves(s: seq<Byte>, pos: nat, part: seq<Byte>, k: nat)
    requires At(s, pos, part) && k < |part|
    ensures pos + k < |s|
    ensures InComment(s, pos, pos + k) <==> InComment(part, 0, k)
    ensures IsSpace(s, pos, pos + k) <==> IsSpace(part, 0, k)
  {
    assert forall j :: 0 <= j < |part| ==> part[j] == s[pos + j];
    if InComment(part, 0, k) {
      var c :| 0 <= c <= k && part[c] == HASH && forall j :: c <= j <= k ==> !IsNewLine(part[j]);
      forall j | pos + c <= j <= pos + k
        ensures !IsNewLine(s[j])
      {
        assert s[j] == part[j - pos];
      }
      CommentStarts(s, pos, pos + c, pos + k);
    }
    if InComment(s, pos, pos + k) {
      var c :| pos <= c <= pos + k && s[c] == HASH && forall j :: c <= j <= pos + k ==> !IsNewLine(s[j]);
      assert part[c - pos] == s[c];
      CommentStarts(part, 0, c - pos, k);
    }
  }

  lemma {:induction false} LineSpaceMoves(s: seq<Byte>, pos: nat, part: seq<Byte>, k: nat)
    requires At(s, pos, part) && k < |part|
    ensures pos + k < |s| && (IsLineSpace(s, pos, pos + k) <==> IsLineSpace(part, 0, k))
  {
    assert forall j :: 0 <= j < |part| ==> part[j] == s[pos + j];
  }

  /** Nothing after a closed filler belongs to its comments. */
  lemma {:induction false} ClosedEnds(s: seq<Byte>, pos: nat, f: seq<Byte>)
    requires At(s, pos, f) && Closed(f) && pos + |f| < |s|
    requires var c := s[pos + |f|]; !IsBlank(c) && !IsNewLine(c) && c != HASH
    ensures !IsSpace(s, pos, pos + |f|)
  {
    if f != [] {
      SpaceMoves(s, pos, f, |f| - 1);
    }
  }

  lemma {:induction false} FillerIsSkipped(s: seq<Byte>, pos: nat, f: seq<Byte>)
    requires At(s, pos, f) && Filler(f)
    requires pos + |f| < |s| ==> !IsSpace(s, pos, pos + |f|)
    ensures SkipSpace(s, pos) == pos + |f|
  {
    hide IsSpace, SkipSpace;
    SkipSpaceIsFirst(s, pos);
    var end := SkipSpace(s, pos);
    if end < pos + |f| {
      SpaceMoves(s, pos, f, end - pos);
    }
  }

  lemma {:induction false} GapIsSkipped(s: seq<Byte>, pos: nat, gap: seq<Byte>)
    requires At(s, pos, gap) && LineGap(gap)
    requires pos + |gap| < |s| ==> !IsLineSpace(s, pos, pos + |gap|)
    ensures SkipLineSpace(s, pos) == pos + |gap|
  {
    hide IsLineSpace, SkipLineSpace;
    NoBreakAtStart(s, pos);
    SkipLineSpaceIsFirst(s, pos, pos);
    var end := SkipLineSpace(s, pos);
    if end < pos + |gap| {
      LineSpaceMoves(s, pos, gap, end - pos);
    }
  }

  lemma {:induction false} NoBreakAtStart(s: seq<Byte>, pos: nat)
    requires pos <= |s|
    ensures pos < |s| && IsLineSpace(s, pos, pos) ==> IsBlank(s[pos]) || s[pos] == BACKSLASH
  {
  }

  // ---------------------------------------------------------------------------------------------
  // Statements of words
  // ---------------------------------------------------------------------------------------------

  /** A token, with quotes or without, and what separates it from the one before. */
  datatype Word = Word(gap: seq<Byte>, quote: Byte, glyphs: seq<Glyph>) {
    predicate IsPlain() {
      quote == NO_QUOTE
    }

    /** Within a statement a backslash in front of a word would be skipped. */
    predicate StartsEscaped() {
      IsPlain() && glyphs != [] && !glyphs[0].Literal?
    }
  }

  /** A statement, what stands before it, and blanks and continued lines behind it. */
  datatype Line = Line(filler: seq<Byte>, words: seq<Word>, trail: seq<Byte>)

  ghost predicate ValidWord(w: Word) {
    && LineGap(w.gap) && ValidGlyphs(w.glyphs, w.quote)
    && if w.IsPlain() then
         w.glyphs != [] && PlainGlyphs(w.glyphs) && !(w.glyphs[0].Literal? && IsQuote(w.glyphs[0].c))
       else IsQuote(w.quote)
  }

  /** The arguments of a statement: none of them starts with a backslash. */
  predicate AreArguments(ws: seq<Word>) {
    forall i :: 0 <= i < |ws| ==> !ws[i].StartsEscaped()
  }

  ghost predicate ValidWords(ws: seq<Word>) {
    forall i :: 0 <= i < |ws| ==> ValidWord(ws[i])
  }

  ghost predicate ValidLine(l: Line) {
    && l.words != [] && l.words[0].gap == [] && ValidWords(l.words) && AreArguments(l.words[1..])
    && Filler(l.filler) && Closed(l.filler) && LineGap(l.trail)
  }

  /** A statement is over where a line break or a comment follows, or at the end. */
  predicate EndsStatement(trail: seq<Byte>, next: seq<Byte>) {
    next != [] ==>
      (IsNewLine(next[0]) || next[0] == HASH) && !IsLineSpace(trail + [next[0]], 0, |trail|)
  }

  function Written(w: Word): seq<Byte> {
    if w.IsPlain() then Spellings(w.glyphs) else Quoted(w.glyphs, w.quote)
  }

  function WordBytes(w: Word): seq<Byte> {
    w.gap + Written(w)
  }

  function WordsBytes(ws: seq<Word>): seq<Byte> {
    if ws == [] then [] else WordBytes(ws[0]) + WordsBytes(ws[1..])
  }

  /** A word without quotes is followed by a blank, a line break, a comment or the end. */
  predicate Separated(ws: seq<Word>, after: seq<Byte>) {
    ws != [] ==>
      && (ws[0].IsPlain() ==> EndsToken(WordsBytes(ws[1..]) + after, 0))
      && Separated(ws[1..], after)
  }

  /** The same, in the buffer. */
  predicate SeparatedAt(s: seq<Byte>, pos: nat, ws: seq<Word>)
    decreases |ws|
  {
    ws != [] ==>
      var end := pos + |WordBytes(ws[0])|;
      && (ws[0].IsPlain() ==> EndsToken(s, end))
      && SeparatedAt(s, end, ws[1..])
  }

  lemma {:induction false} EndsInBuffer(s: seq<Byte>, pos: nat, rest: seq<Byte>)
    requires pos <= |s| && s[pos..] == rest
    ensures EndsToken(rest, 0) ==> EndsToken(s, pos)
  {
    assert rest != [] ==> rest[0] == s[pos];
  }

  lemma {:induction false} SeparatedSplit(ws: seq<Word>, after: seq<Byte>)
    requires ws != [] && Separated(ws, after)
    ensures ws[0].IsPlain() ==> EndsToken(WordsBytes(ws[1..]) + after, 0)
    ensures Separated(ws[1..], after)
    ensures WordsBytes(ws) + after == WordBytes(ws[0]) + (WordsBytes(ws[1..]) + after)
  {
    hide WordBytes, EndsToken;
  }

  lemma {:induction false} SeparatedAtFirst(s: seq<Byte>, pos: nat, ws: seq<Word>)
    requires ws == [] || (ws[0].IsPlain() ==> EndsToken(s, pos + |WordBytes(ws[0])|))
    requires ws == [] || SeparatedAt(s, pos + |WordBytes(ws[0])|, ws[1..])
    ensures SeparatedAt(s, pos, ws)
  {
    hide WordBytes, EndsToken;
  }

  lemma {:induction false} SeparatedInBuffer(s: seq<Byte>, pos: nat, ws: seq<Word>, after: seq<Byte>)
    requires pos <= |s| && s[pos..] == WordsBytes(ws) + after && Separated(ws, after)
    ensures SeparatedAt(s, pos, ws)
    decreases |ws|
  {
    hide *;
    if ws != [] {
      SeparatedSplit(ws, after);
      var first, rest := WordBytes(ws[0]), WordsBytes(ws[1..]) + after;
      StandsAt(s, pos, first, rest);
      EndsInBuffer(s, pos + |first|, rest);
      SeparatedInBuffer(s, pos + |first|, ws[1..], after);
    }
    SeparatedAtFirst(s, pos, ws);
  }

  function LineBytes(l: Line): seq<Byte> {
    l.filler + (WordsBytes(l.words) + l.trail)
  }

  function ScriptBytes(lines: seq<Line>, last: seq<Byte>): seq<Byte> {
    if lines == [] then last else LineBytes(lines[0]) + ScriptBytes(lines[1..], last)
  }

  /** Each statement is valid and ends before the next one starts; the last comment need not be closed. */
  ghost predicate ValidScript(lines: seq<Line>, last: seq<Byte>) {
    if lines == [] then Filler(last)
    else
      && ValidLine(lines[0]) && ValidScript(lines[1..], last)
      && EndsStatement(lines[0].trail, ScriptBytes(lines[1..], last))
      && Separated(lines[0].words, lines[0].trail + ScriptBytes(lines[1..], last))
  }

  ghost function Value(w: Word): seq<Byte>
    requires ValidWord(w)
  {
    Meanings(w.glyphs, w.quote)
  }

  ghost function Values(ws: seq<Word>): seq<Text>
    requires ValidWords(ws)
  {
    seq(|ws|, i requires 0 <= i < |ws| => Some(Value(ws[i])))
  }

  lemma {:induction false} WrittenStarts(w: Word)
    requires ValidWord(w)
    ensures Written(w) != []
    ensures var c := Written(w)[0]; !IsBlank(c) && !IsNewLine(c) && c != HASH && (c == BACKSLASH ==> w.StartsEscaped())
  {
    if w.IsPlain() {
      SpellingsFirst(w.glyphs);
    }
  }

  /** The token of a word, where it stands. */
  lemma {:induction false} WrittenIsRead(s: seq<Byte>, p: nat, w: Word)
    requires ValidWord(w) && At(s, p, Written(w)) && (w.IsPlain() ==> EndsToken(s, p + |Written(w)|))
    ensures p < |s| && GetToken(s, p) == Token(Some(Value(w)), p + |Written(w)|, |Value(w)| + 1)
  {
    hide At, GetToken, LineGap;
    WrittenStarts(w);
    AtByte(s, p, Written(w), 0);
    if w.IsPlain() {
      PlainTokenIsRead(s, p, w.glyphs, p + |Written(w)|);
    } else {
      QuotedTokenIsRead(s, p, w.quote, w.glyphs);
    }
  }

  lemma {:induction false} WordIsRead(s: seq<Byte>, pos: nat, w: Word)
    requires ValidWord(w) && At(s, pos, WordBytes(w)) && (w.IsPlain() ==> EndsToken(s, pos + |WordBytes(w)|))
    ensures var p := pos + |w.gap|;
            && p < |s| && StartsArgument(s, p) && !IsBlank(s[p])
            && (!w.StartsEscaped() ==> SkipLineSpace(s, pos) == p)
            && GetToken(s, p) == Token(Some(Value(w)), pos + |WordBytes(w)|, |Value(w)| + 1)
  {
    hide At, GetToken, LineGap, SkipLineSpace, Written, EndsToken;
    AtJoin(s, pos, w.gap, Written(w));
    WrittenStarts(w);
    AtByte(s, pos + |w.gap|, Written(w), 0);
    WrittenIsRead(s, pos + |w.gap|, w);
    if !w.StartsEscaped() {
      GapIsSkipped(s, pos, w.gap);
    }
  }

  /** One argument, and the rest of them. */
  lemma {:induction false} ArgumentsStep(s: seq<Byte>, pos: nat, t: Token, values: seq<Text>)
    requires pos <= |s| && StartsArgument(s, SkipLineSpace(s, pos)) && GetToken(s, SkipLineSpace(s, pos)) == t
    requires Texts(GetArguments(s, t.end).tokens) == values
    ensures var a := GetArguments(s, pos);
            Texts(a.tokens) == [t.text] + values && a.end == GetArguments(s, t.end).end
  {
    hide SkipLineSpace, GetToken, Texts;
    var rest := GetArguments(s, t.end);
    assert GetArguments(s, pos) == Arguments([t] + rest.tokens, rest.end);
    TextsJoin(t, rest.tokens);
  }

  /** After the last word, nothing but what may stand behind a statement. */
  ghost predicate TrailsOff(s: seq<Byte>, pos: nat, trail: seq<Byte>) {
    && At(s, pos, trail) && LineGap(trail)
    && var end := pos + |trail|;
       !StartsArgument(s, end) && (end < |s| ==> !IsLineSpace(s, pos, end))
  }

  lemma {:induction false} NoWordsAreRead(s: seq<Byte>, pos: nat, ws: seq<Word>, trail: seq<Byte>)
    requires ws == [] && TrailsOff(s, pos + |WordsBytes(ws)|, trail)
    ensures pos <= |s|
    ensures var a := GetArguments(s, pos);
            Texts(a.tokens) == Values(ws) && a.end == pos + |WordsBytes(ws)| + |trail|
  {
    hide SkipLineSpace, StartsArgument, GetToken;
    GapIsSkipped(s, pos, trail);
  }

  lemma {:induction false} WordsAreRead(s: seq<Byte>, pos: nat, ws: seq<Word>, trail: seq<Byte>)
    requires ValidWords(ws) && AreArguments(ws) && SeparatedAt(s, pos, ws)
    requires At(s, pos, WordsBytes(ws)) && TrailsOff(s, pos + |WordsBytes(ws)|, trail)
    ensures pos <= |s|
    ensures var a := GetArguments(s, pos);
            Texts(a.tokens) == Values(ws) && a.end == pos + |WordsBytes(ws)| + |trail|
    decreases |ws|
  {
    hide *;
    if ws == [] {
      NoWordsAreRead(s, pos, ws, trail);
    } else {
      WordsSplit(ws);
      ArgumentsSplit(s, pos, ws);
      AtJoin(s, pos, WordBytes(ws[0]), WordsBytes(ws[1..]));
      WordIsRead(s, pos, ws[0]);
      WordsAreRead(s, pos + |WordBytes(ws[0])|, ws[1..], trail);
      ArgumentsStep(s, pos, GetToken(s, pos + |ws[0].gap|), Values(ws[1..]));
    }
  }

  lemma {:induction false} ArgumentsSplit(s: seq<Byte>, pos: nat, ws: seq<Word>)
    requires ws != []
    ensures AreArguments(ws) ==> !ws[0].StartsEscaped() && AreArguments(ws[1..])
    ensures SeparatedAt(s, pos, ws) ==>
              var end := pos + |WordBytes(ws[0])|;
              (ws[0].IsPlain() ==> EndsToken(s, end)) && SeparatedAt(s, end, ws[1..])
  {
    hide WordBytes, EndsToken;
  }

  lemma {:induction false} WordsSplit(ws: seq<Word>)
    requires ws != [] && ValidWords(ws)
    ensures ValidWord(ws[0]) && ValidWords(ws[1..])
    ensures WordsBytes(ws) == WordBytes(ws[0]) + WordsBytes(ws[1..])
    ensures Values(ws) == [Some(Value(ws[0]))] + Values(ws[1..])
  {
  }

  lemma {:induction false} TextsJoin(t: Token, rest: seq<Token>)
    ensures Texts([t] + rest) == [t.text] + Texts(rest)
  {
  }

  lemma {:induction false} StatementStep(s: seq<Byte>, p: nat, values: seq<Text>)
    requires p < |s| && Texts(GetArguments(s, GetToken(s, p).end).tokens) == values
    ensures Texts(GetStatement(s, p).tokens) == [GetToken(s, p).text] + values
    ensures GetStatement(s, p).end == GetArguments(s, GetToken(s, p).end).end
  {
    hide GetToken, GetArguments, Texts;
    var t := GetToken(s, p);
    TextsJoin(t, GetArguments(s, t.end).tokens);
  }

  /** A line stands in the buffer, and its statement is over where the line is. */
  ghost predicate Stands(s: seq<Byte>, pos: nat, l: Line) {
    && ValidLine(l) && At(s, pos, LineBytes(l))
    && SeparatedAt(s, pos + |l.filler|, l.words)
    && TrailsOff(s, pos + |l.filler| + |WordsBytes(l.words)|, l.trail)
  }

  lemma {:induction false} StandsParts(s: seq<Byte>, pos: nat, l: Line)
    requires Stands(s, pos, l)
    ensures l.words != [] && l.words[0].gap == [] && ValidWords(l.words)
    ensures AreArguments(l.words[1..]) && SeparatedAt(s, pos + |l.filler|, l.words)
    ensures At(s, pos, l.filler) && At(s, pos + |l.filler|, WordsBytes(l.words))
    ensures Filler(l.filler) && Closed(l.filler)
    ensures TrailsOff(s, pos + |l.filler| + |WordsBytes(l.words)|, l.trail)
    ensures |LineBytes(l)| == |l.filler| + |WordsBytes(l.words)| + |l.trail|
  {
    hide At, WordsBytes, TrailsOff;
    AtJoin(s, pos, l.filler, WordsBytes(l.words) + l.trail);
    AtJoin(s, pos + |l.filler|, WordsBytes(l.words), l.trail);
  }

  lemma {:induction false} StatementIsRead(s: seq<Byte>, pos: nat, l: Line)
    requires Stands(s, pos, l)
    ensures ValidWords(l.words) && l.words != []
    ensures var p := pos + |l.filler|;
            && p < |s| && SkipSpace(s, pos) == p
            && Texts(GetStatement(s, p).tokens) == Values(l.words)
            && GetStatement(s, p).end == pos + |LineBytes(l)|
  {
    hide *;
    StandsParts(s, pos, l);
    var p, ws := pos + |l.filler|, l.words;
    WordsSplit(ws);
    ArgumentsSplit(s, p, ws);
    AtJoin(s, p, WordBytes(ws[0]), WordsBytes(ws[1..]));
    WordIsRead(s, p, ws[0]);
    StartsStatementAt(s, p);
    ClosedEnds(s, pos, l.filler);
    FillerIsSkipped(s, pos, l.filler);
    WordsAreRead(s, p + |WordBytes(ws[0])|, ws[1..], l.trail);
    StatementStep(s, p, Values(ws[1..]));
  }

  lemma {:induction false} StartsStatementAt(s: seq<Byte>, p: nat)
    requires p < |s| && StartsArgument(s, p)
    ensures !IsNewLine(s[p]) && s[p] != HASH
  {
  }

  /** What becomes of a statement: its command must be known and have at most fifteen arguments. */
  ghost function Outcome(l: Line, known: set<seq<Byte>>): Event
    requires ValidWords(l.words) && l.words != []
  {
    if CString(Value(l.words[0])) !in known then Unknown(Value(l.words[0]))
    else if |l.words| - 1 > 15 then Overfull(Value(l.words[0]))
    else Executed(Values(l.words))
  }

  lemma {:induction false} StatementHasOutcome(s: seq<Byte>, p: nat, l: Line, known: set<seq<Byte>>)
    requires ValidWords(l.words) && l.words != [] && p < |s| && Texts(GetStatement(s, p).tokens) == Values(l.words)
    ensures EventOf(GetStatement(s, p).tokens, known) == Outcome(l, known)
  {
    hide GetStatement;
    assert Values(l.words)[0] == Some(Value(l.words[0]));
  }

  lemma {:induction false} LineIsParsed(s: seq<Byte>, pos: nat, l: Line, known: set<seq<Byte>>)
    requires Stands(s, pos, l)
    ensures ValidWords(l.words) && l.words != [] && pos + |LineBytes(l)| <= |s|
    ensures Parse(s, pos, known) == [Outcome(l, known)] + Parse(s, pos + |LineBytes(l)|, known)
  {
    hide LineBytes, SkipSpace, Values, Texts, GetStatement, EventOf, Stands, ValidWords, Outcome;
    StatementIsRead(s, pos, l);
    StatementHasOutcome(s, pos + |l.filler|, l, known);
  }

  ghost predicate AreLines(lines: seq<Line>) {
    forall i :: 0 <= i < |lines| ==> ValidWords(lines[i].words) && lines[i].words != []
  }

  ghost function Outcomes(lines: seq<Line>, known: set<seq<Byte>>): (r: seq<Event>)
    requires AreLines(lines)
    ensures |r| == |lines| && forall i :: 0 <= i < |r| ==> r[i] == Outcome(lines[i], known)
  {
    seq(|lines|, i requires 0 <= i < |lines| => Outcome(lines[i], known))
  }

  lemma {:induction false} StandsAt(s: seq<Byte>, pos: nat, part: seq<Byte>, rest: seq<Byte>)
    requires pos <= |s| && s[pos..] == part + rest
    ensures At(s, pos, part) && pos + |part| <= |s| && s[pos + |part|..] == rest
  {
    assert s[pos..][..|part|] == part == s[pos..pos + |part|];
    assert s[pos + |part|..] == s[pos..][|part|..];
  }

  lemma {:induction false} TrailEndsHere(s: seq<Byte>, q: nat, trail: seq<Byte>, rest: seq<Byte>)
    requires At(s, q, trail) && s[q + |trail|..] == rest && LineGap(trail) && EndsStatement(trail, rest)
    ensures TrailsOff(s, q, trail)
  {
    hide LineGap, IsLineSpace;
    var end := q + |trail|;
    if end < |s| {
      assert rest[0] == s[end];
      assert s[q..end + 1] == s[q..end] + [rest[0]];
      LineSpaceMoves(s, q, trail + [rest[0]], |trail|);
    }
  }

  lemma {:induction false} LineParts(s: seq<Byte>, pos: nat, l: Line)
    requires ValidLine(l) && At(s, pos, LineBytes(l))
    ensures var q := pos + |l.filler| + |WordsBytes(l.words)|;
            && LineGap(l.trail) && At(s, q, l.trail) && q + |l.trail| == pos + |LineBytes(l)|
            && (TrailsOff(s, q, l.trail) && SeparatedAt(s, pos + |l.filler|, l.words) ==> Stands(s, pos, l))
  {
    hide At, WordsBytes, TrailsOff, LineGap, ValidWords, SeparatedAt;
    AtJoin(s, pos, l.filler, WordsBytes(l.words) + l.trail);
    AtJoin(s, pos + |l.filler|, WordsBytes(l.words), l.trail);
  }

  lemma {:induction false} WordsStandApart(s: seq<Byte>, pos: nat, l: Line, rest: seq<Byte>)
    requires pos <= |s| && s[pos..] == LineBytes(l) + rest && Separated(l.words, l.trail + rest)
    ensures SeparatedAt(s, pos + |l.filler|, l.words)
  {
    hide Separated, SeparatedAt, WordsBytes;
    var words := WordsBytes(l.words);
    assert LineBytes(l) + rest == l.filler + (words + (l.trail + rest));
    StandsAt(s, pos, l.filler, words + (l.trail + rest));
    SeparatedInBuffer(s, pos + |l.filler|, l.words, l.trail + rest);
  }

  /** The first line of a script stands where the script does. */
  lemma {:induction false} FirstStands(s: seq<Byte>, pos: nat, l: Line, rest: seq<Byte>)
    requires pos <= |s| && s[pos..] == LineBytes(l) + rest
    requires ValidLine(l) && EndsStatement(l.trail, rest) && Separated(l.words, l.trail + rest)
    ensures pos + |LineBytes(l)| <= |s| && s[pos + |LineBytes(l)|..] == rest && Stands(s, pos, l)
  {
    hide *;
    StandsAt(s, pos, LineBytes(l), rest);
    LineParts(s, pos, l);
    WordsStandApart(s, pos, l, rest);
    TrailEndsHere(s, pos + |l.filler| + |WordsBytes(l.words)|, l.trail, rest);
  }

  lemma {:induction false} NoLinesAreParsed(s: seq<Byte>, pos: nat, lines: seq<Line>, last: seq<Byte>, known: set<seq<Byte>>)
    requires lines == [] && pos <= |s| && s[pos..] == ScriptBytes(lines, last) && ValidScript(lines, last)
    ensures SkipSpace(s, pos) == |s| && Parse(s, pos, known) == []
  {
    assert last + [] == last;
    StandsAt(s, pos, last, []);
    FillerIsSkipped(s, pos, last);
  }

  lemma {:induction false} ScriptSplits(lines: seq<Line>, last: seq<Byte>)
    requires lines != [] && ValidScript(lines, last)
    ensures ValidLine(lines[0]) && ValidScript(lines[1..], last)
    ensures EndsStatement(lines[0].trail, ScriptBytes(lines[1..], last))
    ensures Separated(lines[0].words, lines[0].trail + ScriptBytes(lines[1..], last))
    ensures ScriptBytes(lines, last) == LineBytes(lines[0]) + ScriptBytes(lines[1..], last)
  {
    hide LineBytes, ValidLine, EndsStatement, Separated;
  }

  lemma {:induction false} OutcomesSplit(l: Line, lines: seq<Line>, known: set<seq<Byte>>)
    requires ValidWords(l.words) && l.words != [] && AreLines(lines)
    ensures AreLines([l] + lines) && Outcomes([l] + lines, known) == [Outcome(l, known)] + Outcomes(lines, known)
  {
    hide Outcome, ValidWords;
  }

  /**
   Every statement reaches its command with its words, quoted or not, byte for byte, whatever blanks,
   continued lines, comments, empty lines and line breaks of any kind stand around them; or it is refused.
   */
  lemma {:induction false} ScriptIsParsed(s: seq<Byte>, pos: nat, lines: seq<Line>, last: seq<Byte>, known: set<seq<Byte>>)
    requires pos <= |s| && s[pos..] == ScriptBytes(lines, last)
    requires ValidScript(lines, last)
    ensures AreLines(lines) && Parse(s, pos, known) == Outcomes(lines, known)
    decreases |lines|
  {
    hide *;
    if lines == [] {
      NoLinesAreParsed(s, pos, lines, last, known);
      NoOutcomes(lines, known);
    } else {
      var l, rest := lines[0], lines[1..];
      ScriptSplits(lines, last);
      FirstStands(s, pos, l, ScriptBytes(rest, last));
      LineIsParsed(s, pos, l, known);
      ScriptIsParsed(s, pos + |LineBytes(l)|, rest, last, known);
      OutcomesSplit(l, rest, known);
      assert [l] + rest == lines;
    }
  }

  lemma {:induction false} NoOutcomes(lines: seq<Line>, known: set<seq<Byte>>)
    requires lines == []
    ensures AreLines(lines) && Outcomes(lines, known) == []
  {
  }

  // ---------------------------------------------------------------------------------------------
  // Single bytes
  // ---------------------------------------------------------------------------------------------

  /** A name ends at its first zero, and at no other byte. */
  lemma {:induction false} NameEndsAtZero(name: seq<Byte>, rest: seq<Byte>)
    requires 0 !in name
    ensures CString(name) == name && CString(name + [0] + rest) == name
  {
    if name == [] {
      assert (name + [0] + rest)[0] == 0;
    } else {
      var whole := name + [0] + rest;
      assert whole[0] == name[0] && whole[1..] == name[1..] + [0] + rest;
      assert forall c :: c in name[1..] ==> c in name;
      NameEndsAtZero(name[1..], rest);
    }
  }

  /** What a byte does before a letter: the white space, the comment, and everything else. */
  lemma {:induction false} ByteBeforeStatement(c: Byte)
    ensures SkipSpace([c, 98], 0) == if c in {9, 10, 11, 13, 32} then 1 else if c == 35 then 2 else 0
  {
    var s := [c, 98];
    assert s[0] == c && s[1] == 98;
    if c == 35 {
      assert CommentEnd(s, 2) == 2;
    }
  }

  lemma {:induction false} LetterIsToken(s: seq<Byte>, p: nat)
    requires p < |s| && 97 <= s[p] <= 98 && EndsToken(s, p + 1)
    ensures GetToken(s, p) == Token(Some([s[p]]), p + 1, 2)
  {
    hide Scan;
    ScanTakes(s, p, NO_QUOTE, [], [s[p]]);
    assert [] + [s[p]] == [s[p]];
    PlainTokenEnds(s, p + 1, [s[p]]);
  }

  lemma {:induction false} PlainTokenEnds(s: seq<Byte>, p: nat, text: seq<Byte>)
    requires p <= |s| && EndsToken(s, p) && text != []
    ensures Scan(s, p, NO_QUOTE, text) == Token(Some(text), p, |text| + 1)
  {
  }

  /** The last letter of a statement is its last argument. */
  lemma {:induction false} LastLetter(s: seq<Byte>, p: nat)
    requires p + 1 == |s| && s[p] == 98
    ensures GetArguments(s, p) == Arguments([Token(Some([98]), |s|, 2)], |s|)
  {
    hide GetToken;
    LetterIsToken(s, p);
    assert GetArguments(s, |s|) == Arguments([], |s|);
  }

  lemma {:induction false} LetterSeparated(c: Byte)
    requires c in {9, 10, 11, 13, 32, 35}
    ensures Texts(GetStatement([97, c, 98], 0).tokens) ==
            if c in {9, 11, 32} then [Some([97]), Some([98])] else [Some([97])]
  {
    hide GetToken;
    var s := [97, c, 98];
    LetterIsToken(s, 0);
    LastLetter(s, 2);
    if c in {9, 11, 32} {
      assert SkipLineSpace(s, 1) == SkipLineSpace(s, 2) == 2;
      assert GetArguments(s, 1) == GetArguments(s, 2);
    } else {
      assert GetArguments(s, 1) == Arguments([], 1);
    }
  }

  lemma {:induction false} LetterEscaped()
    ensures Texts(GetStatement([97, 92, 98], 0).tokens) == [None, Some([98])]
  {
    var s: seq<Byte> := [97, 92, 98];
    LastLetter(s, 2);
    assert Scan(s, 0, NO_QUOTE, []) == Scan(s, 1, NO_QUOTE, [97]) == Token(None, 2, 1);
  }

  lemma {:induction false} ThreeCharacters(s: seq<Byte>)
    requires |s| == 3 && forall i :: 0 <= i < 3 ==> s[i] !in {9, 10, 11, 13, 32, 35, 92}
    ensures Scan(s, 0, NO_QUOTE, []) == Token(Some(s), 3, 4)
  {
    hide Scan;
    assert s[..1] == [] + [s[0]] && s[..2] == s[..1] + [s[1]] && s == s[..2] + [s[2]];
    ScanTakes(s, 0, NO_QUOTE, [], [s[0]]);
    ScanTakes(s, 1, NO_QUOTE, s[..1], [s[1]]);
    ScanTakes(s, 2, NO_QUOTE, s[..2], [s[2]]);
    PlainTokenEnds(s, 3, s);
  }

  lemma {:induction false} LetterAmongLetters(c: Byte)
    requires c !in {9, 10, 11, 13, 32, 35, 92}
    ensures Texts(GetStatement([97, c, 98], 0).tokens) == [Some([97, c, 98])]
  {
    hide Scan;
    var s := [97, c, 98];
    ThreeCharacters(s);
    assert GetArguments(s, 3) == Arguments([], 3);
  }

  /** What a byte does between two letters: it separates them, ends the statement, escapes, or is one more character. */
  lemma {:induction false} ByteBetweenLetters(c: Byte)
    ensures Texts(GetStatement([97, c, 98], 0).tokens) ==
            if c in {9, 11, 32} then [Some([97]), Some([98])]
            else if c in {10, 13, 35} then [Some([97])]
            else if c == 92 then [None, Some([98])]
            else [Some([97, c, 98])]
  {
    hide GetStatement;
    if c in {9, 10, 11, 13, 32, 35} {
      LetterSeparated(c);
    } else if c == 92 {
      LetterEscaped();
    } else {
      LetterAmongLetters(c);
    }
  }

  /** The three kinds of quotes, and no other byte, make a token of what stands between two of them. */
  lemma {:induction false} ByteAroundLetter(c: Byte)
    ensures GetToken([c, 98, c], 0).text == Some([98]) <==> c in {34, 39, 96}
  {
    var s := [c, 98, c];
    if c in {34, 39, 96} {
      hide Scan;
      ScanTakes(s, 1, c, [], [98]);
      assert [] + [98] == [98];
      CloseIsRead(s, 2, c, [98]);
    } else if c !in {9, 10, 11, 13, 32, 35, 92} {
      hide Scan;
      ThreeCharacters(s);
    } else {
      assert Scan(s, 0, NO_QUOTE, []).text == None;
    }
  }
}
