/** `LineInput::get_line` as a step function: the text, and the window of it that is visible. */
module Editing {
  import opened Bytes
  import Quoting
  import Tokens

  const BUFFER_SIZE := 4096
  const MIN_ENTRY_WIDTH := 4
  const SPACE: Byte := 32

  type Text = seq<Byte>

  /** The width of the entry area. */
  type Width = w: nat | w >= MIN_ENTRY_WIDTH witness MIN_ENTRY_WIDTH

  datatype Key =
    | Left | CtrlLeft | Right | CtrlRight | Home | End
    | Backspace | Delete | CtrlDelete
    | Regular(c: Byte)
    | OtherKey

  /** The text, the first visible character, and the column of the cursor. */
  datatype Editor = Editor(text: Text, offset: nat, col: nat) {
    /** The place of the cursor in the text. */
    function Cursor(): nat {
      offset + col
    }
  }

  /** The widths of the entry area and of the window, as the editor takes it to be. */
  datatype Layout = Layout(entry: Width, window: nat)

  /** Prompt, entry area and one more column make up the window, which is taken to be wider if need be. */
  function LayOut(window: nat, prompt: nat): (l: Layout)
    ensures prompt + l.entry + 1 == l.window
    ensures window <= l.window && (window < l.window ==> l.entry == MIN_ENTRY_WIDTH)
  {
    if prompt + MIN_ENTRY_WIDTH < window then Layout(window - prompt - 1, window)
    else Layout(MIN_ENTRY_WIDTH, prompt + MIN_ENTRY_WIDTH + 1)
  }

  /** The viewport invariant. */
  predicate Inv(s: Editor, w: Width) {
    s.Cursor() <= |s.text| < BUFFER_SIZE - 1 && s.col <= w
  }

  function Start(contents: Text, w: Width): Editor {
    var offset := if |contents| > w then |contents| - w else 0;
    Editor(contents, offset, |contents| - offset)
  }

  /** How much text the window shows. */
  function Visible(s: Editor, w: Width): nat
    requires s.offset <= |s.text|
  {
    Min(|s.text| - s.offset, w)
  }

  // ---------------------------------------------------------------------------------------------
  // Words
  // ---------------------------------------------------------------------------------------------

  predicate IsAlnum(c: Byte) {
    48 <= c <= 57 || 65 <= c <= 90 || 97 <= c <= 122
  }

  predicate IsPunct(c: Byte) {
    33 <= c <= 126 && !IsAlnum(c)
  }

  /** `is_word_char`; the zero after the text is none. */
  predicate IsWord(text: Text, i: nat) {
    i < |text| && (text[i] == 95 || IsAlnum(text[i]))
  }

  function BackOverGap(text: Text, at: nat): (r: nat)
    ensures r <= at && (r == 0 || IsWord(text, r))
    ensures forall k :: r < k <= at ==> !IsWord(text, k)
  {
    if at > 0 && !IsWord(text, at) then BackOverGap(text, at - 1) else at
  }

  function BackOverWord(text: Text, at: nat): (r: nat)
    ensures r <= at && (r == 0 || !IsWord(text, r - 1))
    ensures forall k :: r <= k < at ==> IsWord(text, k)
  {
    if at > 0 && IsWord(text, at - 1) then BackOverWord(text, at - 1) else at
  }

  function OverWord(text: Text, at: nat): (r: nat)
    requires at <= |text|
    ensures at <= r <= |text| && !IsWord(text, r)
    ensures forall k :: at <= k < r ==> IsWord(text, k)
    decreases |text| - at
  {
    if at < |text| && IsWord(text, at) then OverWord(text, at + 1) else at
  }

  function OverGap(text: Text, at: nat): (r: nat)
    requires at <= |text|
    ensures at <= r <= |text| && (r == |text| || IsWord(text, r))
    ensures forall k :: at <= k < r ==> !IsWord(text, k)
    decreases |text| - at
  {
    if at < |text| && !IsWord(text, at) then OverGap(text, at + 1) else at
  }

  function WordLeft(text: Text, at: nat): nat {
    var from := if at > 0 && IsWord(text, at) && !IsWord(text, at - 1) then at - 1 else at;
    BackOverWord(text, BackOverGap(text, from))
  }

  function WordRight(text: Text, at: nat): (r: nat)
    requires at <= |text|
    ensures at <= r
  {
    OverGap(text, OverWord(text, at))
  }

  predicate WordStart(text: Text, i: nat) {
    IsWord(text, i) && (i == 0 || !IsWord(text, i - 1))
  }

  /** To the right: the nearest start of a word after the cursor, or the end. */
  lemma {:induction false} WordRightIsNearest(text: Text, at: nat)
    requires at < |text|
    ensures at < WordRight(text, at) <= |text|
    ensures WordRight(text, at) == |text| || WordStart(text, WordRight(text, at))
    ensures forall k :: at < k < WordRight(text, at) ==> !WordStart(text, k)
  {
  }

  /** To the left: the nearest start of a word before the cursor, or the beginning. */
  lemma {:induction false} WordLeftIsNearest(text: Text, at: nat)
    requires 0 < at <= |text|
    ensures WordLeft(text, at) < at
    ensures WordLeft(text, at) == 0 || WordStart(text, WordLeft(text, at))
    ensures forall k :: WordLeft(text, at) < k < at ==> !WordStart(text, k)
  {
    var from := if IsWord(text, at) && !IsWord(text, at - 1) then at - 1 else at;
    var gap := BackOverGap(text, from);
    assert gap > 0 ==> IsWord(text, gap);
  }

  /** Where `Ctrl-Delete` stops: after the word and the spaces behind it, or after the spaces. */
  function ErasedEnd(text: Text, from: nat, spaces: bool): (r: nat)
    requires from <= |text|
    ensures from <= r <= |text|
    decreases |text| - from
  {
    if from == |text| then from
    else if text[from] == SPACE then ErasedEnd(text, from + 1, true)
    else if spaces || IsPunct(text[from]) then from
    else ErasedEnd(text, from + 1, spaces)
  }

  // ---------------------------------------------------------------------------------------------
  // Keys
  // ---------------------------------------------------------------------------------------------

  /** A printable character is inserted as it is, another as a backslash and two hexadecimal digits. */
  function Inserted(c: Byte): (s: Text)
    ensures |s| == 1 || |s| == 3
  {
    if 32 <= c <= 126 then [c] else [92, HexDigit(c / 16), HexDigit(c % 16)]
  }

  /** The cursor moves over inserted characters; at the right edge the window moves instead. */
  function Slide(offset: nat, col: nat, n: nat, w: Width): (r: (nat, nat))
    decreases n
  {
    if n == 0 then (offset, col)
    else if col < w then Slide(offset, col + 1, n - 1, w)
    else Slide(offset + 1, col, n - 1, w)
  }

  function Cut(text: Text, from: nat, to: nat): Text
    requires from <= to <= |text|
  {
    text[..from] + text[to..]
  }

  function Paste(text: Text, at: nat, piece: Text): Text
    requires at <= |text|
  {
    text[..at] + piece + text[at..]
  }

  function Step(s: Editor, w: Width, key: Key): Editor
    requires Inv(s, w)
  {
    var at, size, visible := s.Cursor(), |s.text|, Visible(s, w);
    match key
    case Left =>
      if s.col > 0 then s.(col := s.col - 1)
      else if s.offset > 0 then s.(offset := s.offset - 1)
      else s
    case CtrlLeft =>
      if at > 0 then
        var to := WordLeft(s.text, at);
        var offset := if to < s.offset then to else s.offset;
        Editor(s.text, offset, to - offset)
      else s
    case Right =>
      if s.col < visible then s.(col := s.col + 1)
      else if s.offset + visible < size then s.(offset := s.offset + 1)
      else s
    case CtrlRight =>
      if at < size then
        var to := WordRight(s.text, at);
        var offset: nat := if to - s.offset >= w then to - w + 1 else s.offset;
        Editor(s.text, offset, to - offset)
      else s
    case Home =>
      s.(offset := 0, col := 0)
    case End =>
      if s.col < visible || s.offset + visible < size then
        if size >= w then Editor(s.text, size - w, w) else s.(col := size)
      else s
    case Backspace =>
      if s.col > 0 then Editor(Cut(s.text, at - 1, at), s.offset, s.col - 1) else s
    case Delete =>
      if s.col < visible then s.(text := Cut(s.text, at, at + 1)) else s
    case CtrlDelete =>
      if s.col < visible then s.(text := Cut(s.text, at, ErasedEnd(s.text, at + 1, s.text[at] == SPACE))) else s
    case Regular(c) =>
      if size + |Inserted(c)| + 1 < BUFFER_SIZE then
        var (offset, col) := Slide(s.offset, s.col, |Inserted(c)|, w);
        Editor(Paste(s.text, at, Inserted(c)), offset, col)
      else s
    case OtherKey => s
  }

  // ---------------------------------------------------------------------------------------------
  // The viewport
  // ---------------------------------------------------------------------------------------------

  /** The branch of `KEY_END` that leaves the window where it is although it does not start at the beginning. */
  predicate Overshoots(s: Editor, w: Width, key: Key) {
    key == End && s.offset > 0 && |s.text| < w && s.Cursor() < |s.text|
  }

  lemma {:induction false} SlideAdds(offset: nat, col: nat, n: nat, w: Width)
    requires col <= w
    ensures var (o, c) := Slide(offset, col, n, w);
            && o + c == offset + col + n && c <= w
            && offset <= o && (o > offset ==> c == w)
    decreases n
  {
    if n > 0 {
      if col < w {
        SlideAdds(offset, col + 1, n - 1, w);
      } else {
        SlideAdds(offset + 1, col, n - 1, w);
      }
    }
  }

  lemma {:induction false} StartIsInv(contents: Text, w: Width)
    requires |contents| < BUFFER_SIZE - 1
    ensures Inv(Start(contents, w), w) && Start(contents, w).Cursor() == |contents|
    ensures Start(contents, w).offset > 0 ==> Start(contents, w).col == w
  {
  }

  /** A key keeps the viewport invariant if and only if it is not that one. */
  lemma {:induction false} StepKeepsInv(s: Editor, w: Width, key: Key)
    requires Inv(s, w)
    ensures Inv(Step(s, w, key), w) <==> !Overshoots(s, w, key)
  {
    hide WordRight, WordLeft, ErasedEnd, Inserted, Slide;
    if key.CtrlLeft? && s.Cursor() > 0 {
      WordLeftIsNearest(s.text, s.Cursor());
    } else if key.CtrlRight? && s.Cursor() < |s.text| {
      WordRightIsNearest(s.text, s.Cursor());
    } else if key.Regular? {
      SlideAdds(s.offset, s.col, |Inserted(key.c)|, w);
    }
  }

  /**
   The window stays where it is while the cursor stays within it, except for Home and End. If the cursor
   leaves it to the left, the window starts at the cursor; if to the right, the cursor is at its right edge,
   or one column before it after a move over a word.
   */
  lemma {:induction false} WindowFollows(s: Editor, w: Width, key: Key)
    requires Inv(s, w)
    ensures var t := Step(s, w, key);
            match key
            case Home => t.offset == 0
            case End => !Overshoots(s, w, key) ==> t.offset == s.offset || (t.offset + w == |s.text| && t.col == w)
            case _ =>
              && (s.offset <= t.Cursor() < s.offset + w ==> t.offset == s.offset)
              && (t.Cursor() < s.offset ==> t.col == 0)
              && (t.Cursor() > s.offset + w ==> t.col == if key.CtrlRight? then w - 1 else w)
  {
    hide WordRight, WordLeft, ErasedEnd, Inserted, Slide;
    if key.CtrlLeft? && s.Cursor() > 0 {
      WordLeftIsNearest(s.text, s.Cursor());
    } else if key.CtrlRight? && s.Cursor() < |s.text| {
      WordRightIsNearest(s.text, s.Cursor());
    } else if key.Regular? {
      SlideAdds(s.offset, s.col, |Inserted(key.c)|, w);
    }
  }

  /** How many characters stand after the cursor, with the terminating zero: what an insertion moves. */
  function Following(s: Editor): int {
    |s.text| - s.Cursor() + 1
  }

  /**
   The End key that overshoots puts the cursor beyond the text by the offset of the window. An insertion there
   would have a negative number of characters to move if and only if that offset is more than one.
   */
  lemma {:induction false} OvershootIsOffset(s: Editor, w: Width, key: Key)
    requires Inv(s, w) && Overshoots(s, w, key)
    ensures var t := Step(s, w, key);
            && t.text == s.text && t.offset == s.offset && t.Cursor() == |s.text| + s.offset
            && (Following(t) < 0 <==> s.offset > 1)
  {
    hide WordRight, WordLeft, ErasedEnd, Inserted, Slide;
    assert s.col < Visible(s, w);
  }

  /** All states of a run satisfy the invariant. */
  predicate KeepsInv(s: Editor, w: Width, keys: seq<Key>)
    decreases |keys|
  {
    Inv(s, w) && (keys != [] ==> KeepsInv(Step(s, w, keys[0]), w, keys[1..]))
  }

  /** No key of a run overshoots. */
  predicate NeverOvershoots(s: Editor, w: Width, keys: seq<Key>)
    requires Inv(s, w)
    decreases |keys|
  {
    keys != [] ==>
      && !Overshoots(s, w, keys[0])
      && (StepKeepsInv(s, w, keys[0]); NeverOvershoots(Step(s, w, keys[0]), w, keys[1..]))
  }

  lemma {:induction false} RunKeepsInv(s: Editor, w: Width, keys: seq<Key>)
    requires Inv(s, w)
    ensures KeepsInv(s, w, keys) <==> NeverOvershoots(s, w, keys)
    decreases |keys|
  {
    if keys != [] {
      StepKeepsInv(s, w, keys[0]);
      hide Step, Inv, Overshoots;
      if !Overshoots(s, w, keys[0]) {
        RunKeepsInv(Step(s, w, keys[0]), w, keys[1..]);
      } else {
        NotKept(Step(s, w, keys[0]), w, keys[1..]);
      }
    }
  }

  lemma {:induction false} NotKept(s: Editor, w: Width, keys: seq<Key>)
    requires !Inv(s, w)
    ensures !KeepsInv(s, w, keys)
  {
  }

  /** A run from a line of six characters in the narrowest window leaves the cursor beyond the text. */
  lemma {:induction false} InvCanFail()
    ensures var keys := [Backspace, Backspace, Backspace, Backspace, Left, End];
            !KeepsInv(Start([97, 98, 99, 100, 101, 102], 4), 4, keys)
  {
    var s0 := Start([97, 98, 99, 100, 101, 102], 4);
    assert s0 == Editor([97, 98, 99, 100, 101, 102], 2, 4);
    var s1 := Step(s0, 4, Backspace);
    assert s1 == Editor([97, 98, 99, 100, 101], 2, 3);
    var s2 := Step(s1, 4, Backspace);
    assert s2 == Editor([97, 98, 99, 100], 2, 2);
    var s3 := Step(s2, 4, Backspace);
    assert s3 == Editor([97, 98, 99], 2, 1);
    var s4 := Step(s3, 4, Backspace);
    assert s4 == Editor([97, 98], 2, 0);
    var s5 := Step(s4, 4, Left);
    assert s5 == Editor([97, 98], 1, 0);
    hide Step;
    StepKeepsInv(s5, 4, End);
    NotKept(Step(s5, 4, End), 4, []);
    KeepsStep(s5, 4, End, []);
    KeepsStep(s4, 4, Left, [End]);
    KeepsStep(s3, 4, Backspace, [Left, End]);
    KeepsStep(s2, 4, Backspace, [Backspace, Left, End]);
    KeepsStep(s1, 4, Backspace, [Backspace, Backspace, Left, End]);
    KeepsStep(s0, 4, Backspace, [Backspace, Backspace, Backspace, Left, End]);
  }

  lemma {:induction false} KeepsStep(s: Editor, w: Width, key: Key, keys: seq<Key>)
    requires Inv(s, w) && !KeepsInv(Step(s, w, key), w, keys)
    ensures !KeepsInv(s, w, [key] + keys)
  {
    assert ([key] + keys)[1..] == keys;
  }

  // ---------------------------------------------------------------------------------------------
  // The text
  // ---------------------------------------------------------------------------------------------

  /** What a key may do to the text. */
  datatype Change = Same | Insertion(piece: Text) | Deletion(from: nat, to: nat)

  function Changed(text: Text, at: nat, change: Change): Text
    requires at <= |text| && (change.Deletion? ==> change.from <= change.to <= |text|)
  {
    match change
    case Same => text
    case Insertion(piece) => Paste(text, at, piece)
    case Deletion(from, to) => Cut(text, from, to)
  }

  /**
   The change that a key makes: an insertion at the cursor if there is room for it; a deletion before the
   cursor unless the cursor is in the first column, or after it unless it is in the last.
   */
  function ChangeOf(text: Text, at: nat, col: nat, w: Width, key: Key): (c: Change)
    requires at <= |text|
    ensures c.Deletion? ==> c.from <= c.to <= |text| && (c.from == at || c.to == at)
  {
    match key
    case Backspace => if col > 0 && at > 0 then Deletion(at - 1, at) else Same
    case Delete => if col < w && at < |text| then Deletion(at, at + 1) else Same
    case CtrlDelete => if col < w && at < |text| then Deletion(at, ErasedEnd(text, at + 1, text[at] == SPACE)) else Same
    case Regular(c) => if |text| + |Inserted(c)| <= BUFFER_SIZE - 2 then Insertion(Inserted(c)) else Same
    case _ => Same
  }

  /** Where the cursor goes in the text, whatever the window shows. */
  function CursorAfter(text: Text, at: nat, key: Key, change: Change): nat
    requires at <= |text|
  {
    match change
    case Insertion(piece) => at + |piece|
    case Deletion(from, _) => from
    case Same =>
      match key
      case Left => if at > 0 then at - 1 else 0
      case Right => if at < |text| then at + 1 else at
      case CtrlLeft => if at > 0 then WordLeft(text, at) else 0
      case CtrlRight => if at < |text| then WordRight(text, at) else at
      case Home => 0
      case End => |text|
      case _ => at
  }

  /**
   A printable character goes into the text as it is. Another one goes in as three characters which, within
   quotes of any kind, the parser of commands reads back as exactly this character.
   */
  lemma {:induction false} TypedIsInserted(s: Editor, w: Width, c: Byte, quote: Byte)
    requires Inv(s, w) && (quote == 34 || quote == 39 || quote == 96)
    ensures var t, at := Step(s, w, Regular(c)), s.Cursor();
            if 32 <= c <= 126 then
              t.text == if |s.text| < 4094 then s.text[..at] + [c] + s.text[at..] else s.text
            else if |s.text| < 4092 then
              && |t.text| == |s.text| + 3
              && t.text[..at] == s.text[..at] && t.text[at + 3..] == s.text[at..]
              && Tokens.GetToken([quote] + t.text[at..at + 3] + [quote], 0).text == Some([c])
            else t.text == s.text
  {
    hide Slide, Tokens.GetToken, HexDigit, WordRight, WordLeft, ErasedEnd;
    if c < 32 || c > 126 {
      var piece := Inserted(c);
      EscapeIsRead(c, quote);
      var text := Paste(s.text, s.Cursor(), piece);
      assert text[s.Cursor()..s.Cursor() + 3] == piece;
    }
  }

  lemma {:induction false} EscapeIsRead(c: Byte, quote: Byte)
    requires quote == 34 || quote == 39 || quote == 96
    ensures Tokens.GetToken([quote] + [92, HexDigit(c / 16), HexDigit(c % 16)] + [quote], 0).text == Some([c])
  {
    hide Tokens.GetToken;
    var cases := Quoting.Cases(true, true);
    var token := [quote] + [92, HexDigit(c / 16), HexDigit(c % 16)] + [quote];
    DigitsAgree(c / 16);
    DigitsAgree(c % 16);
    assert [c][1..] == [] && [cases][1..] == [];
    assert Quoting.HexForm([c], [cases]) == Quoting.HexBytes(c, cases);
    Quoting.EveryTextIsWritten([c], [cases], quote, [], []);
    assert [] + token + [] == token;
  }

  lemma {:induction false} DigitsAgree(v: nat)
    requires v < 16
    ensures Quoting.Digit(v, true) == HexDigit(v)
  {
  }

  /** The punctuation of ASCII. */
  predicate Punctuation(c: Byte) {
    33 <= c <= 47 || 58 <= c <= 64 || 91 <= c <= 96 || 123 <= c <= 126
  }

  /**
   From a space, only the spaces there. From any other character, everything before the next space or
   punctuation mark at `mark`, and the spaces there.
   */
  ghost predicate Erases(text: Text, at: nat, mark: nat, end: nat) {
    && at < mark <= end <= |text|
    && (if text[at] == 32 then mark == at + 1
        else
          && (forall k :: at < k < mark ==> text[k] != 32 && !Punctuation(text[k]))
          && (mark < |text| ==> text[mark] == 32 || Punctuation(text[mark])))
    && (forall k :: mark <= k < end ==> text[k] == 32)
    && (end < |text| ==> text[end] != 32)
  }

  /** What `Ctrl-Delete` erases, if the cursor is before the last column and the end of the text. */
  lemma {:induction false} CtrlDeleteErases(s: Editor, w: Width) returns (mark: nat, end: nat)
    requires Inv(s, w) && s.col < w && s.Cursor() < |s.text|
    ensures Erases(s.text, s.Cursor(), mark, end)
    ensures Step(s, w, CtrlDelete).text == s.text[..s.Cursor()] + s.text[end..]
  {
    hide WordRight, WordLeft, ErasedEnd, Inserted, Slide;
    var at := s.Cursor();
    mark := if s.text[at] == 32 then at + 1 else MarkAfter(s.text, at + 1);
    end := ErasedEnd(s.text, at + 1, s.text[at] == SPACE);
    if s.text[at] != 32 {
      ErasedToMark(s.text, at + 1);
    }
    ErasedSpaces(s.text, mark, s.text[at] == 32 || (mark < |s.text| && s.text[mark] == 32));
  }

  /** The next space or punctuation mark. */
  function MarkAfter(text: Text, from: nat): (r: nat)
    requires from <= |text|
    ensures from <= r <= |text|
    ensures forall k :: from <= k < r ==> text[k] != 32 && !Punctuation(text[k])
    ensures r < |text| ==> text[r] == 32 || Punctuation(text[r])
    decreases |text| - from
  {
    if from < |text| && text[from] != 32 && !Punctuation(text[from]) then MarkAfter(text, from + 1) else from
  }

  lemma {:induction false} ErasedToMark(text: Text, from: nat)
    requires from <= |text|
    ensures var mark := MarkAfter(text, from);
            ErasedEnd(text, from, false) == ErasedEnd(text, mark, mark < |text| && text[mark] == 32)
    decreases |text| - from
  {
    if from < |text| && text[from] != 32 && !Punctuation(text[from]) {
      ErasedToMark(text, from + 1);
    }
  }

  lemma {:induction false} ErasedSpaces(text: Text, from: nat, spaces: bool)
    requires from <= |text| && (spaces || from == |text| || Punctuation(text[from]))
    ensures var end := ErasedEnd(text, from, spaces);
            && (forall k :: from <= k < end ==> text[k] == 32)
            && (end < |text| ==> text[end] != 32)
    decreases |text| - from
  {
    if from < |text| && text[from] == SPACE {
      ErasedSpaces(text, from + 1, true);
    }
  }

  /** The characters of words: letters, digits and the underscore. */
  lemma {:induction false} WordCharacters(c: Byte, w: Width)
    ensures var ch := c as char;
            Step(Editor([32, c], 0, 0), w, CtrlRight).Cursor() ==
            if 'a' <= ch <= 'z' || 'A' <= ch <= 'Z' || '0' <= ch <= '9' || ch == '_' then 1 else 2
  {
    var text := [32, c];
    WordRightIsNearest(text, 0);
    assert text[1] == c && WordStart(text, 1) == IsWord(text, 1);
  }

  /** Each key leaves the text as it is, or inserts or deletes at the cursor, and moves the cursor accordingly. */
  lemma {:induction false} KeyEditsAtCursor(s: Editor, w: Width, key: Key)
    requires Inv(s, w)
    ensures var change := ChangeOf(s.text, s.Cursor(), s.col, w, key);
            && Step(s, w, key).text == Changed(s.text, s.Cursor(), change)
            && (Step(s, w, key).Cursor() == CursorAfter(s.text, s.Cursor(), key, change) <==> !Overshoots(s, w, key))
  {
    hide WordRight, WordLeft, ErasedEnd, Inserted, Slide, Cut, Paste;
    if key.CtrlLeft? && s.Cursor() > 0 {
      WordLeftIsNearest(s.text, s.Cursor());
    } else if key.CtrlRight? && s.Cursor() < |s.text| {
      WordRightIsNearest(s.text, s.Cursor());
    } else if key.Regular? {
      SlideAdds(s.offset, s.col, |Inserted(key.c)|, w);
    }
  }

  // ---------------------------------------------------------------------------------------------
  // The screen
  // ---------------------------------------------------------------------------------------------

  const BACK: Byte := 8

  /** The entry area of the terminal. */
  datatype Screen = Screen(cells: Text, cursor: nat)

  /** What the terminal does with one character. */
  function Show(s: Screen, c: Byte): Screen {
    if c == BACK then s.(cursor := if s.cursor > 0 then s.cursor - 1 else 0)
    else if s.cursor < |s.cells| then Screen(s.cells[s.cursor := c], s.cursor + 1)
    else s
  }

  function ShowAll(s: Screen, line: Text): Screen
    decreases |line|
  {
    if line == [] then s else ShowAll(Show(s, line[0]), line[1..])
  }

  function Window(text: Text, offset: nat, w: Width): (r: Text)
    ensures |r| == w && forall j :: 0 <= j < w ==> r[j] == if offset + j < |text| then text[offset + j] else SPACE
  {
    seq(w, j requires 0 <= j < w => if offset + j < |text| then text[offset + j] else SPACE)
  }

  function Backs(n: nat): (r: Text)
    ensures |r| == n && forall i :: 0 <= i < n ==> r[i] == BACK
  {
    seq(n, _ => BACK)
  }

  /** The line that redraws the window, from one column of the cursor to another. */
  function Redrawn(text: Text, offset: nat, w: Width, from: nat, to: nat): Text
    requires to <= w
  {
    Backs(from) + Window(text, offset, w) + Backs(w - to)
  }

  lemma {:induction false} ShowsInTurn(s: Screen, a: Text, b: Text)
    ensures ShowAll(s, a + b) == ShowAll(ShowAll(s, a), b)
    decreases |a|
  {
    if a == [] {
      assert a + b == b;
    } else {
      assert (a + b)[1..] == a[1..] + b;
      ShowsInTurn(Show(s, a[0]), a[1..], b);
    }
  }

  lemma {:induction false} ShowsBacks(s: Screen, n: nat)
    requires n <= s.cursor
    ensures ShowAll(s, Backs(n)) == s.(cursor := s.cursor - n)
    decreases n
  {
    if n > 0 {
      assert Backs(n)[1..] == Backs(n - 1);
      ShowsBacks(Show(s, BACK), n - 1);
    }
  }

  lemma {:induction false} ShowsText(s: Screen, part: Text)
    requires s.cursor + |part| <= |s.cells| && forall i :: 0 <= i < |part| ==> part[i] != BACK
    ensures ShowAll(s, part) == Screen(s.cells[..s.cursor] + part + s.cells[s.cursor + |part|..], s.cursor + |part|)
    decreases |part|
  {
    if part == [] {
      assert s.cells[..s.cursor] + part + s.cells[s.cursor..] == s.cells;
    } else {
      var next := Show(s, part[0]);
      ShowsText(next, part[1..]);
      assert next.cells[..next.cursor] == s.cells[..s.cursor] + [part[0]];
      assert part == [part[0]] + part[1..];
    }
  }

  /** No backspace is ever shown as a character. */
  lemma {:induction false} ShowsNoBack(s: Screen, line: Text)
    requires BACK !in s.cells
    ensures BACK !in ShowAll(s, line).cells
    decreases |line|
  {
    if line != [] {
      ShowsNoBack(Show(s, line[0]), line[1..]);
    }
  }

  /**
   Whatever was shown before, redrawing shows the window and puts the cursor in its column if and only if the
   window holds no backspace; the line has at most 3w characters in any case.
   */
  lemma {:induction false} RedrawShowsWindow(cells: Text, text: Text, offset: nat, w: Width, from: nat, to: nat)
    requires |cells| == w && from <= w && to <= w
    ensures var line := Redrawn(text, offset, w, from, to);
            var window := Window(text, offset, w);
            var shown := ShowAll(Screen(cells, from), line);
            && |line| < 3 * w + 1
            && (BACK !in window ==> shown == Screen(window, to))
            && (BACK in window && BACK !in cells ==> shown.cells != window)
  {
    hide ShowAll, Backs, Window;
    var s := Screen(cells, from);
    var window := Window(text, offset, w);
    if BACK !in window {
      ShowsInTurn(s, Backs(from) + window, Backs(w - to));
      ShowsInTurn(s, Backs(from), window);
      ShowsBacks(s, from);
      ShowsText(Screen(cells, 0), window);
      assert cells[..0] + window + cells[w..] == window;
      ShowsBacks(Screen(window, w), w - to);
    } else if BACK !in cells {
      ShowsNoBack(s, Redrawn(text, offset, w, from, to));
    }
  }

  // ---------------------------------------------------------------------------------------------
  // The screen during a run
  // ---------------------------------------------------------------------------------------------

  predicate Printable(text: Text) {
    forall i :: 0 <= i < |text| ==> 32 <= text[i] <= 126
  }

  lemma {:induction false} InsertedIsPrintable(c: Byte)
    ensures Printable(Inserted(c))
  {
  }

  /** A printable text stays printable, because other characters are inserted as escapes. */
  lemma {:induction false} StepKeepsPrintable(s: Editor, w: Width, key: Key)
    requires Inv(s, w) && Printable(s.text)
    ensures Printable(Step(s, w, key).text)
  {
    hide Step, Inserted, ErasedEnd;
    KeyEditsAtCursor(s, w, key);
    if key.Regular? {
      InsertedIsPrintable(key.c);
    }
  }

  ghost function Final(s: Editor, w: Width, keys: seq<Key>): Editor
    requires KeepsInv(s, w, keys)
    decreases |keys|
  {
    if keys == [] then s else Final(Step(s, w, keys[0]), w, keys[1..])
  }

  /** The screen after a run: after each key the window is redrawn from the column where the cursor was. */
  ghost function Displayed(screen: Screen, s: Editor, w: Width, keys: seq<Key>): Screen
    requires KeepsInv(s, w, keys)
    decreases |keys|
  {
    if keys == [] then screen
    else
      var t := Step(s, w, keys[0]);
      Displayed(ShowAll(screen, Redrawn(t.text, t.offset, w, s.col, t.col)), t, w, keys[1..])
  }

  function Picture(s: Editor, w: Width): Screen {
    Screen(Window(s.text, s.offset, w), s.col)
  }

  lemma {:induction false} RedrawShowsPicture(cells: Text, s: Editor, w: Width, from: nat)
    requires |cells| == w && from <= w && Inv(s, w) && Printable(s.text)
    ensures ShowAll(Screen(cells, from), Redrawn(s.text, s.offset, w, from, s.col)) == Picture(s, w)
  {
    hide ShowAll, Redrawn;
    RedrawShowsWindow(cells, s.text, s.offset, w, from, s.col);
  }

  lemma {:induction false} ScreenFollows(s: Editor, w: Width, keys: seq<Key>)
    requires KeepsInv(s, w, keys) && Printable(s.text)
    ensures Displayed(Picture(s, w), s, w, keys) == Picture(Final(s, w, keys), w)
    decreases |keys|
  {
    if keys != [] {
      hide Step, ShowAll, Window, Redrawn, Printable;
      var t := Step(s, w, keys[0]);
      StepKeepsPrintable(s, w, keys[0]);
      RedrawShowsPicture(Window(s.text, s.offset, w), t, w, s.col);
      ScreenFollows(t, w, keys[1..]);
    }
  }

  /**
   From any printable contents, whatever was on the screen, and through any keys of which none overshoots,
   the screen shows the window of the text and the cursor in its column.
   */
  lemma {:induction false} ScreenShowsText(contents: Text, w: Width, keys: seq<Key>, cells: Text)
    requires Printable(contents) && |contents| < BUFFER_SIZE - 1 && |cells| == w
    ensures Inv(Start(contents, w), w)
    ensures NeverOvershoots(Start(contents, w), w, keys) ==>
              var s := Start(contents, w);
              var first := ShowAll(Screen(cells, 0), Redrawn(s.text, s.offset, w, 0, s.col));
              KeepsInv(s, w, keys) && Displayed(first, s, w, keys) == Picture(Final(s, w, keys), w)
  {
    hide ShowAll, Window, Redrawn, Displayed, KeepsInv, NeverOvershoots, Final;
    StartIsInv(contents, w);
    var s := Start(contents, w);
    RunKeepsInv(s, w, keys);
    if NeverOvershoots(s, w, keys) {
      RedrawShowsPicture(cells, s, w, 0);
      ScreenFollows(s, w, keys);
    }
  }
}
