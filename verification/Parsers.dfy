/** `Parser`: the tokenizer and the statement loop over its mutable state. */
module Parsers {
  import opened Bytes
  import opened Tokens
  import opened Statements

  /** An argument as the source keeps it: a null, or a place in the token buffer. */
  datatype Slot = Null | Slot(start: nat, length: nat)

  predicate Inside(slot: Slot, n: nat) {
    slot.Slot? ==> slot.start + slot.length < n
  }

  function SlotText(buffer: seq<Byte>, slot: Slot): Text
    requires Inside(slot, |buffer| + 1)
  {
    if slot.Null? then None else Some(buffer[slot.start..slot.start + slot.length])
  }

  /** The slots hold these texts, below a position of the token buffer. */
  ghost predicate Hold(buffer: seq<Byte>, n: nat, slots: seq<Slot>, texts: seq<Text>) {
    && n <= |buffer| && |slots| == |texts|
    && forall i :: 0 <= i < |slots| ==> Inside(slots[i], n + 1) && SlotText(buffer, slots[i]) == texts[i]
  }

  function SlotTexts(buffer: seq<Byte>, slots: seq<Slot>): (r: seq<Text>)
    requires forall i :: 0 <= i < |slots| ==> Inside(slots[i], |buffer| + 1)
    ensures |r| == |slots| && forall i :: 0 <= i < |r| ==> r[i] == SlotText(buffer, slots[i])
  {
    seq(|slots|, i requires 0 <= i < |slots| => SlotText(buffer, slots[i]))
  }

  lemma {:induction false} SlotOfToken(b: seq<Byte>, start: nat, text: seq<Byte>)
    requires start + |text| < |b| && b[start..start + |text| + 1] == text + [0]
    ensures var slot := Slot(start, |text|);
            Inside(slot, start + |text| + 1) && Inside(slot, start + |text| + 2) && Inside(slot, |b| + 1) && SlotText(b, slot) == Some(text)
  {
    assert b[start..start + |text|] == b[start..start + |text| + 1][..|text|];
  }

  lemma {:induction false} NullIsNone(b: seq<Byte>, n: nat)
    ensures Inside(Null, n + 1) && Inside(Null, |b| + 1) && SlotText(b, Null) == None
  {
  }

  /** What is written further on does not disturb them. */
  lemma {:induction false} HoldsOn(a: seq<Byte>, b: seq<Byte>, n: nat, m: nat, slots: seq<Slot>, texts: seq<Text>)
    requires Hold(a, n, slots, texts) && n <= m <= |b| && a[..n] == b[..n]
    ensures Hold(b, m, slots, texts)
  {
    forall i | 0 <= i < |slots|
      ensures SlotText(b, slots[i]) == texts[i]
    {
      if slots[i].Slot? {
        var from, to := slots[i].start, slots[i].start + slots[i].length;
        assert a[from..to] == a[..n][from..to] && b[from..to] == b[..n][from..to];
      }
    }
  }

  /** The token buffer has room for a token, including the zero at its end. */
  predicate TokenFits(t: Token, room: int) {
    if t.text.Some? then t.used <= room else t.used < room
  }

  predicate Fit(tokens: seq<Token>, room: int) {
    tokens == [] || (TokenFits(tokens[0], room) && Fit(tokens[1..], room - tokens[0].used))
  }

  /** Every statement from a position on fits the token buffer. */
  predicate AllFit(s: seq<Byte>, pos: nat)
    requires pos <= |s|
    decreases |s| - pos
  {
    var p := SkipSpace(s, pos);
    p == |s| || (Fit(GetStatement(s, p).tokens, TOTAL_ARGS_SIZE) && AllFit(s, GetStatement(s, p).end))
  }

  predicate StartsStatement(s: seq<Byte>, pos: nat) {
    pos < |s| && !IsBlank(s[pos]) && !IsNewLine(s[pos]) && s[pos] != HASH
  }

  predicate Fine(event: Event, handler: seq<Text> -> bool) {
    match event
    case Executed(args) => handler(args)
    case Malformed => true
    case _ => false
  }

  /** The result of `parse`: no command was unknown, none had too many arguments, every handler succeeded. */
  predicate Succeeds(events: seq<Event>, handler: seq<Text> -> bool) {
    forall i :: 0 <= i < |events| ==> Fine(events[i], handler)
  }

  class Parser {
    const buffer: seq<Byte>
    const known: set<seq<Byte>>
    const tokens: array<Byte>
    var pos: nat
    var line: nat
    var tokpos: nat
    var args: seq<Slot>

    /** The line number is one more than the line breaks that were consumed. */
    ghost predicate Valid()
      reads this`pos, this`line, this`tokpos
    {
      && pos <= |buffer| && line == 1 + LineBreaks(buffer, pos) && !Splits(buffer, pos)
      && tokens.Length == TOTAL_ARGS_SIZE && tokpos <= TOTAL_ARGS_SIZE
    }

    constructor (buffer: seq<Byte>, known: set<seq<Byte>>)
      ensures Valid() && fresh(tokens) && pos == 0 && tokpos == 0
      ensures this.buffer == buffer && this.known == known
    {
      this.buffer, this.known := buffer, known;
      tokens := new Byte[TOTAL_ARGS_SIZE];
      pos, line, tokpos, args := 0, 1, 0, [];
    }

    method SkipWs() returns (more: bool)
      requires Valid()
      modifies this`pos, this`line
      ensures Valid() && pos == SkipSpace(buffer, old(pos)) && more == (pos < |buffer|)
      ensures more ==> StartsStatement(buffer, pos)
    {
      hide LineBreaks, Splits;
      while pos < |buffer|
        invariant Valid() && SkipSpace(buffer, pos) == SkipSpace(buffer, old(pos))
      {
        var c := buffer[pos];
        if IsNewLine(c) {
          OneBreak(buffer, pos);
          if c == CR && Has(buffer, pos + 1, LF) {
            pos := pos + 1;
          }
          line := line + 1;
          pos := pos + 1;
        } else if IsBlank(c) {
          NoBreak(buffer, pos);
          pos := pos + 1;
        } else if c == HASH {
          SkipComment();
        } else {
          return true;
        }
      }
      return false;
    }

    method SkipComment()
      requires Valid() && Has(buffer, pos, HASH)
      modifies this`pos
      ensures Valid() && pos == CommentEnd(buffer, old(pos) + 1)
    {
      hide LineBreaks, Splits;
      NoBreak(buffer, pos);
      pos := pos + 1;
      while pos < |buffer| && !IsNewLine(buffer[pos])
        invariant Valid() && CommentEnd(buffer, pos) == CommentEnd(buffer, old(pos) + 1)
      {
        NoBreak(buffer, pos);
        pos := pos + 1;
      }
    }

    method SkipLineWs() returns (more: bool)
      requires Valid()
      modifies this`pos, this`line
      ensures Valid() && pos == SkipLineSpace(buffer, old(pos)) && more == StartsArgument(buffer, pos)
    {
      hide LineBreaks, Splits;
      while pos < |buffer|
        invariant Valid() && SkipLineSpace(buffer, pos) == SkipLineSpace(buffer, old(pos))
      {
        var c := buffer[pos];
        if c == BACKSLASH {
          ContinuationBreaks(buffer, pos);
          var next, newLine := pos + 1, false;
          if Has(buffer, next, CR) {
            newLine, pos, next := true, next, next + 1;
          }
          if Has(buffer, next, LF) {
            newLine, pos := true, next;
          }
          if newLine {
            line := line + 1;
          }
          pos := pos + 1;
        } else if IsBlank(c) {
          NoBreak(buffer, pos);
          pos := pos + 1;
        } else {
          return !IsNewLine(c) && c != HASH;
        }
      }
      return false;
    }

    ghost predicate Scans(start: nat, quote: Byte, whole: Token)
      reads this, tokens
    {
      && Valid() && start <= tokpos
      && Scan(buffer, pos, quote, tokens[start..tokpos]) == whole
      && TokenFits(whole, TOTAL_ARGS_SIZE - start)
    }

    /** Appends one byte to the token being read. */
    method Append(c: Byte, ghost start: nat)
      requires Valid() && start <= tokpos < TOTAL_ARGS_SIZE
      modifies this`tokpos, tokens
      ensures tokpos == old(tokpos) + 1
      ensures tokens[..old(tokpos)] == old(tokens[..tokpos])
      ensures tokens[start..tokpos] == old(tokens[start..tokpos]) + [c]
    {
      tokens[tokpos] := c;
      tokpos := tokpos + 1;
      assert tokens[start..tokpos] == tokens[start..tokpos - 1] + [c];
    }

    /** The loop of `get_token`; true if the token is complete, with its closing quote if it has an opening one. */
    method ReadToken(quote: Byte) returns (good: bool)
      requires Valid()
      requires TokenFits(Scan(buffer, pos, quote, []), TOTAL_ARGS_SIZE - tokpos)
      modifies this`pos, this`line, this`tokpos, tokens
      ensures Valid() && old(tokpos) <= tokpos
      ensures tokens[..old(tokpos)] == old(tokens[..tokpos])
      ensures var t := Scan(buffer, old(pos), quote, []);
              && pos == t.end
              && (if good then t.text == Some(tokens[old(tokpos)..tokpos]) && tokpos < TOTAL_ARGS_SIZE
                  else t.text == None && t.used == tokpos - old(tokpos))
    {
      hide NextItem, LineBreaks, Splits;
      var start := tokpos;
      ghost var whole := Scan(buffer, pos, quote, []);
      assert tokens[start..tokpos] == [];
      while pos < |buffer|
        invariant Scans(start, quote, whole) && pos <= |buffer|
        invariant tokens[..start] == old(tokens[..tokpos])
        decreases |buffer| - pos
      {
        ItemBreaks(buffer, pos, quote);
        match NextItem(buffer, pos, quote) {
          case Emit(c, next) =>
            pos := next;
            Append(c, start);
          case Continue(next) =>
            pos, line := next, line + 1;
          case Close(next) =>
            pos := next;
            return true;
          case Stop(next) =>
            pos := next;
            return quote == NO_QUOTE && tokpos > start;
          case Fail(next) =>
            pos := next;
            return false;
        }
      }
      return quote == NO_QUOTE && tokpos > start;
    }

    /** `get_token`. */
    method GetToken() returns (slot: Slot)
      requires Valid() && pos < |buffer|
      requires TokenFits(Tokens.GetToken(buffer, pos), TOTAL_ARGS_SIZE - tokpos)
      modifies this`pos, this`line, this`tokpos, tokens
      ensures Valid() && Inside(slot, tokpos + 1)
      ensures tokens[..old(tokpos)] == old(tokens[..tokpos])
      ensures var t := Tokens.GetToken(buffer, old(pos));
              pos == t.end && tokpos == old(tokpos) + t.used && SlotText(tokens[..], slot) == t.text
    {
      hide Scan, LineBreaks, Splits, SlotText, Inside;
      var start := tokpos;
      var quote := NO_QUOTE;
      if IsQuote(buffer[pos]) {
        quote := buffer[pos];
        NoBreak(buffer, pos);
        pos := pos + 1;
      }
      var good := ReadToken(quote);
      if good {
        slot := Slot(start, tokpos - start);
        ghost var n, text := tokpos, tokens[start..tokpos];
        ghost var before := tokens[..n];
        Append(0, start);
        assert before[..start] == old(tokens[..tokpos]);
        assert tokens[..start] == tokens[..n][..start];
        assert tokens[..][start..tokpos] == tokens[start..tokpos];
        SlotOfToken(tokens[..], start, text);
      } else {
        slot := Null;
        NullIsNone(tokens[..], tokpos);
      }
    }

    /** `add_argument`. */
    method AddArgument(slot: Slot) returns (done: bool)
      modifies this`args
      ensures done == (old(|args|) < MAX_ARGS)
      ensures args == if done then old(args) + [slot] else old(args)
    {
      done := |args| < MAX_ARGS;
      if done {
        args := args + [slot];
      }
    }

    /** The arguments that remain of a statement fit, and these are the ones it ends with. */
    ghost predicate Remaining(rest: Arguments)
      reads this`pos, this`line, this`tokpos
    {
      && Valid() && GetArguments(buffer, pos) == rest
      && Fit(rest.tokens, TOTAL_ARGS_SIZE - tokpos)
    }

    /** The position is at the first of the arguments that remain. */
    ghost predicate AtArgument(rest: Arguments)
      reads this`pos, this`line, this`tokpos
    {
      && Valid() && rest.tokens != [] && Fit(rest.tokens, TOTAL_ARGS_SIZE - tokpos)
      && pos < |buffer| && Tokens.GetToken(buffer, pos) == rest.tokens[0]
      && GetArguments(buffer, rest.tokens[0].end) == Arguments(rest.tokens[1..], rest.end)
    }

    method NextArgument(ghost rest: Arguments) returns (more: bool)
      requires Remaining(rest)
      modifies this`pos, this`line
      ensures Valid() && more == (rest.tokens != [])
      ensures if more then AtArgument(rest) else pos == rest.end
    {
      hide LineBreaks, Splits, SkipLineSpace, Tokens.GetToken, Fit;
      more := SkipLineWs();
    }

    /** Reads the argument that `NextArgument` found. */
    method TakeArgument(ghost rest: Arguments) returns (slot: Slot)
      requires AtArgument(rest)
      modifies this`pos, this`line, this`tokpos, tokens
      ensures Remaining(Arguments(rest.tokens[1..], rest.end))
      ensures old(tokpos) <= tokpos && tokens[..old(tokpos)] == old(tokens[..tokpos])
      ensures Inside(slot, tokpos + 1) && SlotText(tokens[..], slot) == rest.tokens[0].text
    {
      hide LineBreaks, Splits, Tokens.GetToken, GetArguments;
      slot := GetToken();
    }

    /** Skips the arguments that remain of a statement that will not be executed. */
    method SkipArguments(ghost all: Arguments)
      requires Remaining(all)
      modifies this`pos, this`line, this`tokpos, tokens
      ensures Valid() && pos == all.end
    {
      hide AtArgument, Remaining, Valid;
      ghost var rest := all;
      var more := NextArgument(rest);
      while more
        invariant Valid() && rest.end == all.end
        invariant if more then AtArgument(rest) else pos == all.end
        decreases |rest.tokens|, more
      {
        NotAtEnd(rest);
        var _ := TakeArgument(rest);
        rest := Arguments(rest.tokens[1..], rest.end);
        more := NextArgument(rest);
      }
    }

    lemma {:induction false} NotAtEnd(rest: Arguments)
      requires AtArgument(rest)
      ensures rest.tokens != []
    {
    }

    /** Adds the arguments that remain after those that are there; not complete if they are too many. */
    method CollectArguments(ghost all: Arguments, ghost name: seq<Text>)
      returns (complete: bool, ghost rest: Arguments)
      requires Remaining(all) && |name| == 1 && Hold(tokens[..], tokpos, args, name)
      modifies this`pos, this`line, this`tokpos, this`args, tokens
      ensures Valid() && complete == (|all.tokens| < MAX_ARGS)
      ensures complete ==> pos == all.end && Hold(tokens[..], tokpos, args, name + Texts(all.tokens))
      ensures !complete ==> Remaining(rest) && rest.end == all.end
    {
      hide AtArgument, GetArguments, Fit, LineBreaks, Splits, Hold, SlotText, Inside, Texts;
      NoTexts();
      rest := all;
      ghost var done: seq<Token> := [];
      assert name + Texts(done) == name;
      var more := NextArgument(rest);
      HeldSlots(tokens[..], tokpos, args, name);
      while more
        invariant Valid() && rest.end == all.end && all.tokens == done + rest.tokens
        invariant if more then AtArgument(rest) else pos == all.end && rest.tokens == []
        invariant Hold(tokens[..], tokpos, args, name + Texts(done)) && |args| == 1 + |done| <= MAX_ARGS
        decreases |rest.tokens|, more
      {
        NotAtEnd(rest);
        ghost var before, n := tokens[..], tokpos;
        var arg := TakeArgument(rest);
        ghost var t := rest.tokens[0];
        rest := Arguments(rest.tokens[1..], rest.end);
        var added := AddArgument(arg);
        if !added {
          return false, rest;
        }
        assert before[..n] == tokens[..][..n];
        HoldsMore(before, tokens[..], n, tokpos, args[..|done| + 1], arg, name + Texts(done), t.text);
        TextsAppend(done, t);
        assert name + Texts(done) + [t.text] == name + Texts(done + [t]);
        done := done + [t];
        more := NextArgument(rest);
      }
      assert done == all.tokens;
      complete := true;
    }

    /** One statement: its command, its arguments, and what becomes of it. */
    method ParseStatement() returns (event: Event)
      requires Valid() && pos < |buffer| && Fit(GetStatement(buffer, pos).tokens, TOTAL_ARGS_SIZE)
      modifies this, tokens
      ensures Valid() && pos == GetStatement(buffer, old(pos)).end
      ensures StartsStatement(buffer, old(pos)) ==> old(pos) < pos
      ensures event == EventOf(GetStatement(buffer, old(pos)).tokens, known)
    {
      hide LineBreaks, Splits, Tokens.GetToken, GetArguments;
      tokpos, args := 0, [];
      ghost var t := Tokens.GetToken(buffer, pos);
      ghost var all := GetArguments(buffer, t.end);
      assert GetStatement(buffer, pos).tokens[1..] == all.tokens;
      var command := GetToken();
      assert Remaining(all);
      if command == Null {
        SkipArguments(all);
        return Malformed;
      }
      var _ := AddArgument(command);
      var name := tokens[..][command.start..command.start + command.length];
      if CString(name) !in known {
        SkipArguments(all);
        return Unknown(name);
      }
      var complete, rest := CollectArguments(all, [t.text]);
      TextsJoin(t, all.tokens);
      if complete {
        var content, slots := tokens[..], args;
        event := Executed(SlotTexts(content, slots));
      } else {
        SkipArguments(rest);
        event := Overfull(name);
      }
    }

    /** `parse`: the events of the buffer, in order, and whether all went well. */
    method ParseAll(handler: seq<Text> -> bool) returns (events: seq<Event>, result: bool)
      requires Valid() && pos == 0 && AllFit(buffer, 0)
      modifies this, tokens
      ensures Valid() && pos == |buffer| && line == 1 + LineBreaks(buffer, |buffer|)
      ensures events == Parse(buffer, 0, known) && result == Succeeds(events, handler)
    {
      hide StartsStatement, LineBreaks, Splits, SkipSpace, Parse, AllFit, Pending, GetStatement, EventOf, Fit, Succeeds, Fine;
      NoEvents(handler);
      events, result := [], true;
      ParseIsPending(buffer, 0, known);
      var more := SkipWs();
      assert [] + Pending(buffer, pos, known) == Pending(buffer, pos, known);
      while more
        invariant Valid() && more == (pos < |buffer|) && result == Succeeds(events, handler)
        invariant more ==> StartsStatement(buffer, pos)
        invariant Parse(buffer, 0, known) == events + Pending(buffer, pos, known) && PendingFits(buffer, pos)
        decreases |buffer| - pos
      {
        PendingStep(buffer, pos, known);
        ghost var rest := Pending(buffer, pos, known)[1..];
        var event := ParseStatement();
        SucceedsMore(events, event, handler);
        assert events + ([event] + rest) == events + [event] + rest;
        result := result && Fine(event, handler);
        events := events + [event];
        ParseIsPending(buffer, pos, known);
        more := SkipWs();
      }
      PendingEnds(buffer, known);
    }
  }

  /** What is left to parse at the start of a statement, or at the end. */
  ghost function Pending(s: seq<Byte>, p: nat, known: set<seq<Byte>>): seq<Event>
    requires p <= |s|
  {
    if p == |s| then []
    else [EventOf(GetStatement(s, p).tokens, known)] + Parse(s, GetStatement(s, p).end, known)
  }

  ghost predicate PendingFits(s: seq<Byte>, p: nat)
    requires p <= |s|
  {
    p == |s| || (Fit(GetStatement(s, p).tokens, TOTAL_ARGS_SIZE) && AllFit(s, GetStatement(s, p).end))
  }

  lemma {:induction false} ParseIsPending(s: seq<Byte>, pos: nat, known: set<seq<Byte>>)
    requires pos <= |s| && AllFit(s, pos)
    ensures Parse(s, pos, known) == Pending(s, SkipSpace(s, pos), known) && PendingFits(s, SkipSpace(s, pos))
  {
    hide SkipSpace, GetStatement, EventOf, Fit;
  }

  lemma {:induction false} PendingStep(s: seq<Byte>, p: nat, known: set<seq<Byte>>)
    requires p < |s|
    ensures Pending(s, p, known) ==
            [EventOf(GetStatement(s, p).tokens, known)] + Parse(s, GetStatement(s, p).end, known)
  {
  }

  lemma {:induction false} PendingEnds(s: seq<Byte>, known: set<seq<Byte>>)
    ensures Pending(s, |s|, known) == []
  {
  }

  lemma {:induction false} HeldSlots(a: seq<Byte>, n: nat, slots: seq<Slot>, texts: seq<Text>)
    requires Hold(a, n, slots, texts)
    ensures |slots| == |texts| && n <= |a|
  {
  }

  lemma {:induction false} HoldsMore(a: seq<Byte>, b: seq<Byte>, n: nat, m: nat,
                                     slots: seq<Slot>, slot: Slot, texts: seq<Text>, text: Text)
    requires Hold(a, n, slots, texts) && n <= m <= |b| && a[..n] == b[..n]
    requires Inside(slot, m + 1) && SlotText(b, slot) == text
    ensures Hold(b, m, slots + [slot], texts + [text])
  {
    HoldsOn(a, b, n, m, slots, texts);
  }

  lemma {:induction false} NoTexts()
    ensures Texts([]) == []
  {
  }

  lemma {:induction false} TextsAppend(tokens: seq<Token>, t: Token)
    ensures Texts(tokens + [t]) == Texts(tokens) + [t.text]
  {
  }

  lemma {:induction false} NoEvents(handler: seq<Text> -> bool)
    ensures Succeeds([], handler)
  {
  }

  lemma {:induction false} SucceedsMore(events: seq<Event>, event: Event, handler: seq<Text> -> bool)
    ensures Succeeds(events + [event], handler) <==> Succeeds(events, handler) && Fine(event, handler)
  {
    assert (events + [event])[|events|] == event;
    assert forall i :: 0 <= i < |events| ==> (events + [event])[i] == events[i];
  }

  /** What the statement loop asks of a statement. */
  ghost predicate Obeyed(l: Line, known: set<seq<Byte>>, handler: seq<Text> -> bool)
    requires ValidWords(l.words) && l.words != []
  {
    CString(Value(l.words[0])) in known && |l.words| <= 16 && handler(Values(l.words))
  }

  /**
   A script succeeds if and only if every command in it is known, has at most fifteen arguments, and
   succeeds with them.
   */
  lemma {:induction false} ScriptSucceeds(s: seq<Byte>, lines: seq<Line>, last: seq<Byte>, known: set<seq<Byte>>,
                                          handler: seq<Text> -> bool)
    requires s == ScriptBytes(lines, last) && ValidScript(lines, last)
    ensures AreLines(lines)
    ensures Succeeds(Parse(s, 0, known), handler) <==>
            forall i :: 0 <= i < |lines| ==> Obeyed(lines[i], known, handler)
  {
    hide Parse, ScriptBytes, ValidScript, Values, Value, CString, ValidWords;
    assert s[0..] == s;
    ScriptIsParsed(s, 0, lines, last, known);
    var events := Outcomes(lines, known);
    forall i | 0 <= i < |lines|
      ensures Fine(events[i], handler) <==> Obeyed(lines[i], known, handler)
    {
      assert events[i] == Outcome(lines[i], known);
    }
  }

  // ---------------------------------------------------------------------------------------------
  // Scripts fit if the words of each line do
  // ---------------------------------------------------------------------------------------------

  ghost function TotalSize(ws: seq<Word>): nat
    requires ValidWords(ws)
  {
    if ws == [] then 0 else |Value(ws[0])| + 1 + TotalSize(ws[1..])
  }

  lemma {:induction false} WordsFit(tokens: seq<Token>, ws: seq<Word>, room: nat)
    requires ValidWords(ws) && Measured(tokens) && Texts(tokens) == Values(ws) && TotalSize(ws) <= room
    ensures Fit(tokens, room)
    decreases |ws|
  {
    if ws != [] {
      hide Value, ValidWord;
      assert |tokens| == |ws|;
      assert tokens[0].text == Texts(tokens)[0] == Some(Value(ws[0]));
      assert Texts(tokens[1..]) == Texts(tokens)[1..] == Values(ws)[1..] == Values(ws[1..]);
      WordsFit(tokens[1..], ws[1..], room - tokens[0].used);
    }
  }

  ghost predicate FittingLines(lines: seq<Line>) {
    forall i :: 0 <= i < |lines| ==>
      ValidWords(lines[i].words) && TotalSize(lines[i].words) <= 4096
  }

  /** The statement loop may be given any script whose statements fit the token buffer. */
  lemma {:induction false} ScriptFits(s: seq<Byte>, pos: nat, lines: seq<Line>, last: seq<Byte>)
    requires pos <= |s| && s[pos..] == ScriptBytes(lines, last) && ValidScript(lines, last)
    requires FittingLines(lines)
    ensures AllFit(s, pos)
    decreases |lines|
  {
    hide *;
    if lines == [] {
      NoLinesFit(s, pos, lines, last);
    } else {
      FittingSplit(lines);
      ScriptSplits(lines, last);
      FirstStands(s, pos, lines[0], ScriptBytes(lines[1..], last));
      ScriptFits(s, pos + |LineBytes(lines[0])|, lines[1..], last);
      LineFits(s, pos, lines[0]);
    }
  }

  lemma {:induction false} NoLinesFit(s: seq<Byte>, pos: nat, lines: seq<Line>, last: seq<Byte>)
    requires lines == [] && pos <= |s| && s[pos..] == ScriptBytes(lines, last) && ValidScript(lines, last)
    ensures AllFit(s, pos)
  {
    hide SkipSpace, ValidScript, ScriptBytes;
    NoLinesAreParsed(s, pos, lines, last, {});
  }

  lemma {:induction false} FittingSplit(lines: seq<Line>)
    requires lines != [] && FittingLines(lines)
    ensures ValidWords(lines[0].words) && TotalSize(lines[0].words) <= TOTAL_ARGS_SIZE
    ensures FittingLines(lines[1..])
  {
    hide TotalSize, ValidWords;
  }

  lemma {:induction false} LineFits(s: seq<Byte>, pos: nat, l: Line)
    requires Stands(s, pos, l) && ValidWords(l.words) && TotalSize(l.words) <= TOTAL_ARGS_SIZE
    requires pos + |LineBytes(l)| <= |s| && AllFit(s, pos + |LineBytes(l)|)
    ensures AllFit(s, pos)
  {
    hide Stands, LineBytes, Values, Fit, TotalSize, GetStatement, ValidWords, SkipSpace, Texts;
    StatementIsRead(s, pos, l);
    var p := pos + |l.filler|;
    StatementIsMeasured(s, p);
    WordsFit(GetStatement(s, p).tokens, l.words, TOTAL_ARGS_SIZE);
  }
}
