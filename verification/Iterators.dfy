/** The iterators of io_chunk_iterators, which move through the chunks of a header or of a payload. */
module Iterators {
  import opened Bytes
  import opened Chunks

  /** What `get_next_chunk` reports: strings by position, lists by the number of elements to fetch. */
  datatype Item =
    | NumberItem(n: int)
    | TextItem(offset: nat, length: nat)
    | ListItem(count: nat)
    | NoItem

  class ChunkIterator {
    const data: array<Byte>
    var offset: nat
    var remains: nat

    constructor (data: array<Byte>, offset: nat, size: nat)
      requires offset + size <= data.Length
      ensures this.data == data && this.offset == offset && remains == size && Valid()
    {
      this.data, this.offset, remains := data, offset, size;
    }

    ghost predicate Valid()
      reads this
    {
      offset + remains <= data.Length
    }

    /** The bytes still ahead. */
    ghost function Ahead(): seq<Byte>
      requires Valid()
      reads this, data
    {
      data[offset..offset + remains]
    }

    method Skip(n: nat)
      requires Valid() && n <= remains
      modifies this
      ensures Valid() && Ahead() == old(Ahead())[n..]
      ensures offset == old(offset) + n && remains == old(remains) - n
    {
      offset, remains := offset + n, remains - n;
    }

    /** `get_count`: the counter after the chunk byte. */
    method GetCount(width: nat) returns (n: nat)
      requires Valid() && HasCounter(Ahead(), width)
      modifies this
      ensures Valid() && Ahead() == old(Ahead())[1 + width..]
      ensures offset == old(offset) + 1 + width && remains == old(remains) - 1 - width
      ensures n == Counter(old(Ahead()), width)
    {
      ghost var bytes := Ahead()[1..1 + width];
      SliceOfSlice(data[..], offset, Ahead(), 1, 1 + width);
      n := 0;
      var k: nat := width;
      while k > 0
        invariant k <= width == |bytes| && bytes == data[offset + 1..offset + 1 + width]
        invariant n == FromLe(bytes[k..])
      {
        k := k - 1;
        n := data[offset + 1 + k] + 0x100 * n;
        assert bytes[k] == data[offset + 1 + k];
        assert bytes[k..][1..] == bytes[k + 1..];
      }
      assert bytes[0..] == bytes;
      Skip(1 + width);
    }

    /** `get_next_chunk`; a string is skipped as a whole, of a list only its count. */
    method GetNextChunk() returns (item: Item)
      requires Valid() && Readable(Ahead())
      modifies this
      ensures Valid() && offset + remains == old(offset + remains)
      ensures Reported(old(Ahead()), old(offset), item, Ahead())
    {
      hide U32, Counter, HasCounter, AnnouncedWidth;
      if remains == 0 {
        return NoItem;
      }
      var c := data[offset];
      ghost var ahead := Ahead();
      assert c == ahead[0];
      if BIG_NEGATIVE <= c < SMALL_INTEGER {
        var n: int := GetCount(AnnouncedWidth(c - BIG_NEGATIVE));
        return NumberItem(-9 - n);
      } else if c < BIG_INTEGER {
        item := GetSmall(c);
      } else if c < LONG_STRING {
        item := GetLarge(c, Integers);
      } else if c < LONG_LIST {
        item := GetLarge(c, Texts);
      } else {
        item := GetLarge(c, Lists);
      }
    }

    /** The cases of `get_next_chunk` where the chunk byte says all. */
    method GetSmall(c: Byte) returns (item: Item)
      requires Valid() && remains > 0 && c == data[offset] && Readable(Ahead())
      requires c < BIG_INTEGER && !(BIG_NEGATIVE <= c < SMALL_INTEGER)
      modifies this
      ensures Valid() && offset + remains == old(offset + remains)
      ensures Reported(old(Ahead()), old(offset), item, Ahead())
    {
      hide U32, Counter, HasCounter, AnnouncedWidth, ParseLarge;
      assert c == Ahead()[0];
      if c < 0x40 {
        item := NumberItem(c + MEDIUM_BIAS);
        Skip(1);
      } else if c < 0x80 {
        item := TextItem(offset + 1, c - 0x40 + MEDIUM_BIAS);
        Skip(1 + item.length);
      } else if c < 0xC0 {
        item := ListItem(c - 0x80 + MEDIUM_BIAS);
        Skip(1);
      } else if c < BIG_NEGATIVE {
        item := NumberItem(SMALL_NEGATIVE - c - 1);
        Skip(1);
      } else if c < SHORT_STRING {
        item := NumberItem(c - SMALL_INTEGER);
        Skip(1);
      } else if c < SHORT_LIST {
        item := TextItem(offset + 1, c - SHORT_STRING);
        Skip(1 + item.length);
      } else {
        item := ListItem(c - SHORT_LIST);
        Skip(1);
      }
    }

    /** The cases of `get_next_chunk` whose value, length or count follows the chunk byte. */
    method GetLarge(c: Byte, f: Family) returns (item: Item)
      requires Valid() && remains > 0 && c == data[offset] && LargeMask(f) <= c
      requires HasSize(ParseLarge(Ahead(), f))
      requires f.Texts? ==> ParseLarge(Ahead(), f).size + ParseLarge(Ahead(), f).length <= remains
      modifies this
      ensures Valid() && offset + remains == old(offset + remains)
      ensures var h := ParseLarge(old(Ahead()), f);
              match f
              case Integers => item == NumberItem(h.n) && Ahead() == old(Ahead())[h.size..]
              case Texts => item == TextItem(old(offset) + h.size, h.length) && Ahead() == old(Ahead())[h.size + h.length..]
              case Lists => item == ListItem(h.count) && Ahead() == old(Ahead())[h.size..]
    {
      hide U32, Counter;
      var n := GetCount(AnnouncedWidth(c - LargeMask(f)));
      n := U32(n + LARGE_BIAS);
      match f {
        case Integers =>
          item := NumberItem(n);
        case Texts =>
          item := TextItem(offset, n);
          Skip(n);
        case Lists =>
          item := ListItem(n);
      }
    }

    /** `ListChunk::get_string`. */
    method GetElement() returns (s: seq<Byte>)
      requires Valid() && DecodeElement(Ahead()).Element?
      modifies this
      ensures Valid()
      ensures remains <= old(remains)
      ensures DecodeElement(old(Ahead())) == Element(s, old(remains) - remains)
      ensures Ahead() == old(Ahead())[old(remains) - remains..]
    {
      hide ElementPrefix;
      ghost var ahead, start := Ahead(), offset;
      var length := GetLength();
      s := Copy(start, |ahead|, offset, length);
      Skip(length);
    }

    /** The length prefix of a list element. */
    method GetLength() returns (length: nat)
      requires Valid() && ElementPrefix(Ahead()).Prefix?
      modifies this
      ensures Valid() && remains <= old(remains) && offset + remains == old(offset + remains)
      ensures var p := ElementPrefix(old(Ahead())); length == U32(p.length) && p.size == old(remains) - remains
      ensures Ahead() == old(Ahead())[old(remains) - remains..]
    {
      ghost var ahead := Ahead();
      ghost var whole := ElementPrefix(ahead);
      length := 0;
      var more := true;
      while more
        invariant Valid() && remains <= |ahead| && offset + remains == old(offset + remains)
        invariant Ahead() == ahead[|ahead| - remains..]
        invariant more ==>
                    && ElementPrefix(Ahead()).Prefix?
                    && whole == Prefix(length + ElementPrefix(Ahead()).length,
                                       |ahead| - remains + ElementPrefix(Ahead()).size)
        invariant !more ==> whole == Prefix(length, |ahead| - remains)
        decreases more, remains
      {
        ghost var now := Ahead();
        var c := data[offset];
        assert c == now[0];
        Skip(1);
        assert now[1..] == ahead[|ahead| - remains..];
        length := length + c;
        more := c == 0xFF;
      }
      length := U32(length);
    }

    /** All strings of a list. */
    method GetElements(count: nat) returns (ss: seq<seq<Byte>>)
      requires Valid() && DecodeElements(Ahead(), count).Elements?
      modifies this
      ensures Valid()
      ensures remains <= old(remains)
      ensures DecodeElements(old(Ahead()), count) == Elements(ss, old(remains) - remains)
      ensures Ahead() == old(Ahead())[old(remains) - remains..]
    {
      hide DecodeElements, DecodeElement, Fetched;
      ghost var ahead := Ahead();
      ghost var whole := DecodeElements(ahead, count);
      FetchedNone(ahead, count);
      ss := [];
      var k := 0;
      while k < count
        invariant k <= count && Valid() && remains <= |ahead|
        invariant Ahead() == ahead[|ahead| - remains..]
        invariant Fetched(whole, ss, |ahead| - remains, Ahead(), count - k)
      {
        FetchedStep(whole, ss, |ahead| - remains, Ahead(), count - k);
        var s := GetElement();
        assert Ahead() == ahead[|ahead| - remains..];
        ss := ss + [s];
        k := k + 1;
      }
      FetchedAll(whole, ss, |ahead| - remains, Ahead());
    }

    /** `get_chars`: the bytes of a string, which lie in the part of the data from `start` on. */
    method Copy(ghost start: nat, ghost size: nat, at: nat, length: nat) returns (s: seq<Byte>)
      requires start + size <= data.Length && start <= at && at + length <= start + size
      ensures s == data[start..start + size][at - start..at - start + length]
    {
      s := data[at..at + length];
      SliceAhead(data[..], start, size, at - start, at - start + length);
    }

    /** A whole chunk: `get_number`, `get_string`, or `get_list` and its strings. */
    method GetChunk() returns (c: Chunk)
      requires Valid() && DecodeChunk(Ahead()).Decoded?
      modifies this
      ensures Valid() && remains < old(remains)
      ensures DecodeChunk(old(Ahead())) == Decoded(c, old(remains) - remains)
      ensures Ahead() == old(Ahead())[old(remains) - remains..]
    {
      hide DecodeChunk, Reported, DecodeElements, Readable;
      ghost var ahead, start := Ahead(), offset;
      DecodedIsReadable(ahead);
      var item := GetNextChunk();
      ghost var rest := Ahead();
      ReportedDecodes(ahead, start, item, rest);
      match item {
        case NumberItem(n) =>
          c := Number(n);
        case TextItem(at, length) =>
          var s := Copy(start, |ahead|, at, length);
          c := Text(s);
        case ListItem(count) =>
          var ss := GetElements(count);
          DropTwice(ahead, |ahead| - |rest|, |rest| - remains);
          c := Strings(ss);
      }
    }

    /** All chunks still ahead. */
    method GetChunks() returns (cs: seq<Chunk>)
      requires Valid() && DecodeChunks(Ahead()).Some?
      modifies this
      ensures Valid() && remains == 0
      ensures DecodeChunks(old(Ahead())) == Some(cs)
    {
      hide DecodeChunk;
      ghost var whole := DecodeChunks(Ahead()).value;
      cs := [];
      assert [] + whole == whole;
      while remains > 0
        invariant Valid() && DecodeChunks(Ahead()).Some?
        invariant whole == cs + DecodeChunks(Ahead()).value
        decreases remains
      {
        ghost var before := cs;
        var c := GetChunk();
        cs := cs + [c];
        ghost var others := DecodeChunks(Ahead()).value;
        assert before + ([c] + others) == cs + others;
      }
      assert Ahead() == [] && cs + [] == cs;
    }
  }

  /** What the iterator's assertions ask of the bytes ahead. */
  predicate Readable(ahead: seq<Byte>) {
    var h := ParseHead(ahead);
    !h.BadHead? && (h.TextHead? ==> h.size + h.length <= |ahead|)
  }

  /** The item reported for the chunk at the start of `ahead`, which begins at `start`, and what is left. */
  ghost predicate Reported(ahead: seq<Byte>, start: nat, item: Item, rest: seq<Byte>)
    requires Readable(ahead)
  {
    match ParseHead(ahead)
    case NumberHead(n, size) => item == NumberItem(n) && rest == ahead[size..]
    case TextHead(length, size) => item == TextItem(start + size, length) && rest == ahead[size + length..]
    case ListHead(count, size) => item == ListItem(count) && rest == ahead[size..]
    case NoHead => item == NoItem && rest == ahead
  }

  lemma {:induction false} DecodedIsReadable(ahead: seq<Byte>)
    requires DecodeChunk(ahead).Decoded?
    ensures Readable(ahead) && ahead != []
  {
    hide ParseHead, DecodeElements;
    assert ahead == [] ==> ParseHead(ahead).NoHead?;
  }

  /** How the reported item leads to the decoded chunk. */
  lemma {:induction false} ReportedDecodes(ahead: seq<Byte>, start: nat, item: Item, rest: seq<Byte>)
    requires DecodeChunk(ahead).Decoded? && Readable(ahead) && Reported(ahead, start, item, rest)
    ensures |rest| < |ahead| && rest == ahead[|ahead| - |rest|..]
    ensures match item
            case NumberItem(n) => DecodeChunk(ahead) == Decoded(Number(n), |ahead| - |rest|)
            case TextItem(at, length) =>
              && start <= at && at - start + length == |ahead| - |rest|
              && DecodeChunk(ahead) == Decoded(Text(ahead[at - start..at - start + length]), |ahead| - |rest|)
            case ListItem(count) =>
              var e := DecodeElements(rest, count);
              && e.Elements?
              && DecodeChunk(ahead) == Decoded(Strings(e.items), |ahead| - |rest| + e.size)
            case NoItem => false
  {
    hide ParseHead, DecodeElements;
  }

  lemma {:induction false} SliceAhead(data: seq<Byte>, offset: nat, size: nat, i: nat, j: nat)
    requires offset + size <= |data| && i <= j <= size
    ensures data[offset..offset + size][i..j] == data[offset + i..offset + j]
  {
    SliceOfSlice(data, offset, data[offset..offset + size], i, j);
  }

  lemma {:induction false} DropTwice(s: seq<Byte>, i: nat, j: nat)
    requires i + j <= |s|
    ensures s[i..][j..] == s[i + j..]
  {
  }

  /** `ss` and what `left` more elements of `rest` give make up `whole`. */
  ghost predicate Fetched(whole: Elements, ss: seq<seq<Byte>>, size: nat, rest: seq<Byte>, left: nat) {
    && DecodeElements(rest, left).Elements?
    && whole == Elements(ss + DecodeElements(rest, left).items, size + DecodeElements(rest, left).size)
  }

  lemma {:induction false} FetchedNone(s: seq<Byte>, count: nat)
    requires DecodeElements(s, count).Elements?
    ensures Fetched(DecodeElements(s, count), [], 0, s, count)
  {
  }

  lemma {:induction false} FetchedStep(whole: Elements, ss: seq<seq<Byte>>, size: nat, rest: seq<Byte>, left: nat)
    requires Fetched(whole, ss, size, rest, left) && left > 0
    ensures var first := DecodeElement(rest);
            && first.Element?
            && Fetched(whole, ss + [first.bytes], size + first.size, rest[first.size..], left - 1)
  {
    var first := DecodeElement(rest);
    var others := DecodeElements(rest[first.size..], left - 1).items;
    assert ss + ([first.bytes] + others) == (ss + [first.bytes]) + others;
  }

  lemma {:induction false} FetchedAll(whole: Elements, ss: seq<seq<Byte>>, size: nat, rest: seq<Byte>)
    requires Fetched(whole, ss, size, rest, 0)
    ensures whole == Elements(ss, size)
  {
  }
}
