/** `LineInput` over its character buffer. */
module LineInputs {
  import opened Bytes
  import opened Editing

  class LineInput {
    const width: Width
    const buffer: array<Byte>
    var size: nat
    var offset: nat
    var col: nat

    /** The buffer holds the text and a zero after it. */
    ghost predicate Valid()
      reads this, buffer
    {
      buffer.Length == BUFFER_SIZE && size < BUFFER_SIZE - 1 && buffer[size] == 0
    }

    ghost function State(): Editor
      requires Valid()
      reads this, buffer
    {
      Editor(buffer[..size], offset, col)
    }

    constructor (contents: Text, window: nat, prompt: nat)
      requires |contents| < BUFFER_SIZE - 1
      ensures Valid() && fresh(buffer) && width == LayOut(window, prompt).entry
      ensures State() == Start(contents, width) && Inv(State(), width)
    {
      var w := LayOut(window, prompt).entry;
      StartIsInv(contents, w);
      width := w;
      size := |contents|;
      offset := if |contents| > w then |contents| - w else 0;
      col := |contents| - (if |contents| > w then |contents| - w else 0);
      buffer := new Byte[BUFFER_SIZE](i => if 0 <= i < |contents| then contents[i] else 0);
      new;
      assert buffer[..size] == contents;
    }

    /** `memmove` within the buffer. */
    method Move(to: nat, from: nat, n: nat)
      requires to + n <= buffer.Length && from + n <= buffer.Length
      modifies buffer
      ensures buffer[..] == Overwrite(old(buffer[..]), to, old(buffer[from..from + n]))
    {
      ghost var was := buffer[..];
      forall i | 0 <= i < n {
        buffer[to + i] := buffer[from + i];
      }
      assert buffer[..] == Overwrite(was, to, was[from..from + n]);
    }

    /** `memcpy` into the buffer. */
    method Write(at: nat, piece: Text)
      requires at + |piece| <= buffer.Length
      modifies buffer
      ensures buffer[..] == Overwrite(old(buffer[..]), at, piece)
    {
      ghost var was := buffer[..];
      forall i | 0 <= i < |piece| {
        buffer[at + i] := piece[i];
      }
      assert buffer[..] == Overwrite(was, at, piece);
    }

    /** Deletes a part of the text, with the zero moving along. */
    method Erase(from: nat, to: nat)
      requires Valid() && from <= to <= size
      modifies buffer, this`size
      ensures Valid() && buffer[..size] == Cut(old(buffer[..size]), from, to)
    {
      ghost var was := buffer[..];
      Move(from, to, size - to + 1);
      ErasedBuffer(was, size, from, to);
      size := size - (to - from);
      assert buffer[..size] == buffer[..][..size];
      assert was[..old(size)] == old(buffer[..size]);
    }

    /** Inserts into the text, with the zero moving along. */
    method Insert(at: nat, piece: Text)
      requires Valid() && at <= size && size + |piece| + 1 < BUFFER_SIZE
      modifies buffer, this`size
      ensures Valid() && buffer[..size] == Paste(old(buffer[..size]), at, piece)
    {
      hide Overwrite, Paste;
      ghost var was := buffer[..];
      Move(at + |piece|, at, size - at + 1);
      ghost var moved := buffer[..];
      Write(at, piece);
      InsertedBuffer(was, size, at, piece);
      size := size + |piece|;
      assert buffer[..size] == buffer[..][..size];
      assert was[..old(size)] == old(buffer[..size]);
    }

    /** `is_word_char`. */
    method WordAt(i: nat) returns (r: bool)
      requires Valid() && i <= size
      ensures r == IsWord(buffer[..size], i)
    {
      var c := buffer[i];
      r := c == 95 || IsAlnum(c);
    }

    method FindWordLeft(from: nat) returns (at: nat)
      requires Valid() && 0 < from <= size
      ensures at == WordLeft(buffer[..size], from) && at <= from
    {
      hide IsWord;
      at := from;
      ghost var text := buffer[..size];
      var here := WordAt(at);
      var before := WordAt(at - 1);
      if here && !before {
        at := at - 1;
      }
      ghost var start := at;
      here := WordAt(at);
      while at > 0 && !here
        invariant at <= start && here == IsWord(text, at) && BackOverGap(text, at) == BackOverGap(text, start)
      {
        at := at - 1;
        here := WordAt(at);
      }
      ghost var edge := at;
      while at > 0
        invariant at <= edge && BackOverWord(text, at) == BackOverWord(text, edge)
      {
        before := WordAt(at - 1);
        if !before {
          break;
        }
        at := at - 1;
      }
    }

    method FindWordRight(from: nat) returns (at: nat)
      requires Valid() && from <= size
      ensures at == WordRight(buffer[..size], from) && from <= at <= size
    {
      at := from;
      ghost var text := buffer[..size];
      while at < size
        invariant from <= at <= size && OverWord(text, at) == OverWord(text, from)
      {
        var here := WordAt(at);
        if !here {
          break;
        }
        at := at + 1;
      }
      ghost var edge := at;
      while at < size
        invariant edge <= at <= size && OverGap(text, at) == OverGap(text, edge)
      {
        var here := WordAt(at);
        if here {
          break;
        }
        at := at + 1;
      }
    }

    method FindErasedEnd(to: nat) returns (from: nat)
      requires Valid() && to < size
      ensures from == ErasedEnd(buffer[..size], to + 1, buffer[to] == SPACE) && to < from <= size
    {
      var spaces := buffer[to] == SPACE;
      from := to + 1;
      ghost var text := buffer[..size];
      ghost var whole := ErasedEnd(text, from, spaces);
      while from < size
        invariant to < from <= size && ErasedEnd(text, from, spaces) == whole
      {
        var c := buffer[from];
        if c == SPACE {
          spaces := true;
        } else if spaces || IsPunct(c) {
          break;
        }
        from := from + 1;
      }
    }

    /** Moves the cursor over inserted characters. */
    method SlideBy(n: nat)
      requires col <= width
      modifies this`offset, this`col
      ensures (offset, col) == Slide(old(offset), old(col), n, width)
    {
      for k := 0 to n
        invariant Slide(offset, col, n - k, width) == Slide(old(offset), old(col), n, width)
      {
        if col < width {
          col := col + 1;
        } else {
          offset := offset + 1;
        }
      }
    }

    method MoveCursor(key: Key)
      requires Valid() && Inv(State(), width)
      requires key.Left? || key.Right? || key.CtrlLeft? || key.CtrlRight? || key.Home? || key.End?
      modifies this`offset, this`col
      ensures Valid() && State() == Step(old(State()), width, key)
    {
      hide WordLeft, WordRight;
      var at := offset + col;
      var visible := Min(size - offset, width);
      match key
      case Left =>
        if col > 0 {
          col := col - 1;
        } else if offset > 0 {
          offset := offset - 1;
        }
      case CtrlLeft =>
        if at > 0 {
          at := FindWordLeft(at);
          if at < offset {
            offset := at;
          }
          col := at - offset;
        }
      case Right =>
        if col < visible {
          col := col + 1;
        } else if offset + visible < size {
          offset := offset + 1;
        }
      case CtrlRight =>
        if at < size {
          at := FindWordRight(at);
          if at - offset >= width {
            offset := at - width + 1;
          }
          col := at - offset;
        }
      case Home =>
        offset, col := 0, 0;
      case End =>
        if col < visible || offset + visible < size {
          if size >= width {
            offset, col := size - width, width;
          } else {
            col := size;
          }
        }
    }

    method EditText(key: Key)
      requires Valid() && Inv(State(), width)
      requires key.Backspace? || key.Delete? || key.CtrlDelete? || key.Regular?
      modifies this`size, this`offset, this`col, buffer
      ensures Valid() && State() == Step(old(State()), width, key)
    {
      hide ErasedEnd, Inserted, Slide, Cut, Paste;
      var at := offset + col;
      var visible := Min(size - offset, width);
      match key
      case Backspace =>
        if col > 0 {
          Erase(at - 1, at);
          col := col - 1;
        }
      case Delete =>
        if col < visible {
          Erase(at, at + 1);
        }
      case CtrlDelete =>
        if col < visible {
          var from := FindErasedEnd(at);
          Erase(at, from);
        }
      case Regular(c) =>
        var piece := Inserted(c);
        if size + |piece| + 1 < BUFFER_SIZE {
          Insert(at, piece);
          SlideBy(|piece|);
        }
    }

    /** One turn of the editing loop. */
    method HandleKey(key: Key)
      requires Valid() && Inv(State(), width)
      modifies this`size, this`offset, this`col, buffer
      ensures Valid() && State() == Step(old(State()), width, key)
      ensures Inv(State(), width) <==> !Overshoots(old(State()), width, key)
    {
      StepKeepsInv(State(), width, key);
      hide Inv, Overshoots;
      match key
      case Backspace => EditText(key);
      case Delete => EditText(key);
      case CtrlDelete => EditText(key);
      case Regular(_) => EditText(key);
      case OtherKey =>
      case _ => MoveCursor(key);
    }

    /** Appends backspaces to the line that redraws the window. */
    method AppendBacks(line: array<Byte>, start: nat, n: nat) returns (length: nat)
      requires start + n <= line.Length
      modifies line
      ensures length == start + n && line[..length] == old(line[..start]) + Backs(n)
    {
      length := start;
      for i := 0 to n
        invariant length == start + i && line[..length] == old(line[..start]) + Backs(i)
      {
        line[length] := BACK;
        length := length + 1;
        assert line[..length] == line[..length - 1] + [BACK] && Backs(i + 1) == Backs(i) + [BACK];
      }
    }

    method AppendWindow(line: array<Byte>, start: nat) returns (length: nat)
      requires Valid() && line != buffer && start + width <= line.Length
      modifies line
      ensures length == start + width
      ensures line[..length] == old(line[..start]) + Window(buffer[..size], offset, width)
    {
      hide Window;
      length := start;
      ghost var window := Window(buffer[..size], offset, width);
      for j := 0 to width
        invariant length == start + j && line[..length] == old(line[..start]) + window[..j]
      {
        line[length] := if offset + j < size then buffer[offset + j] else SPACE;
        length := length + 1;
        assert line[..length] == line[..length - 1] + [window[j]];
      }
      assert window[..width] == window;
    }

    /** Builds the line that redraws the window, in the space that the source gives it. */
    method Redraw(from: nat) returns (line: array<Byte>, length: nat)
      requires Valid() && from <= width && col <= width
      ensures fresh(line) && line.Length == 3 * width + 1 && length < line.Length && line[length] == 0
      ensures line[..length] == Redrawn(buffer[..size], offset, width, from, col)
    {
      hide Window, Backs;
      line := new Byte[3 * width + 1];
      assert line[..0] == [];
      length := AppendBacks(line, 0, from);
      assert [] + Backs(from) == Backs(from);
      length := AppendWindow(line, length);
      length := AppendBacks(line, length, width - col);
      line[length] := 0;
    }
  }

  lemma {:induction false} ErasedBuffer(was: Text, size: nat, from: nat, to: nat)
    requires from <= to <= size < |was| && was[size] == 0
    ensures var b := Overwrite(was, from, was[to..size + 1]);
            var n := size - (to - from);
            n < |b| && b[..n] == Cut(was[..size], from, to) && b[n] == 0
  {
  }

  lemma {:induction false} InsertedBuffer(was: Text, size: nat, at: nat, piece: Text)
    requires at <= size && size + |piece| < |was| && was[size] == 0
    ensures var moved := Overwrite(was, at + |piece|, was[at..size + 1]);
            var b := Overwrite(moved, at, piece);
            var n := size + |piece|;
            n < |b| && b[..n] == Paste(was[..size], at, piece) && b[n] == 0
  {
    var end, n := at + |piece|, size + |piece|;
    var moved := Overwrite(was, end, was[at..size + 1]);
    var b := Overwrite(moved, at, piece);
    assert b[..end] == was[..at] + piece;
    forall i | end <= i <= n
      ensures b[i] == was[i - |piece|]
    {
      assert b[i] == moved[i] == was[at..size + 1][i - end];
    }
    assert b[end..n] == was[at..size];
    assert b[..n] == b[..end] + b[end..n];
    assert was[..size][..at] == was[..at] && was[..size][at..] == was[at..size];
  }
}
