/**
 The stream of biased variable-length chunks of a header (io_protocol.h, io_chunk_builders,
 io_chunk_iterators): what the builders emit, what the iterators recover, and that the two agree.
 */
module Chunks {
  import opened Bytes

  datatype Chunk =
    | Number(n: int)
    | Text(s: seq<Byte>)
    | Strings(ss: seq<seq<Byte>>)

  /** What one header can hold: numbers from INT_MIN to UINT_MAX, sizes and counts of 32 bits. */
  predicate ValidChunk(c: Chunk) {
    match c
    case Number(n) => -0x8000_0000 <= n <= UINT_MAX
    case Text(s) => |s| <= UINT_MAX
    case Strings(ss) => |ss| <= UINT_MAX && forall i :: 0 <= i < |ss| ==> |ss[i]| <= UINT_MAX
  }

  const MEDIUM_BIAS := 8
  const LARGE_BIAS := 72

  // `CHNK_SUBTYPE` combined with the eight `CHNK_xxx` subtypes
  const SMALL_NEGATIVE := 0xC0
  const BIG_NEGATIVE := 0xC8
  const SMALL_INTEGER := 0xD0
  const SHORT_STRING := 0xD8
  const SHORT_LIST := 0xE0
  const BIG_INTEGER := 0xE8
  const LONG_STRING := 0xF0
  const LONG_LIST := 0xF8

  /** The three families of chunks that share the small, medium and large encodings. */
  datatype Family = Integers | Texts | Lists

  function SmallMask(f: Family): Byte {
    match f case Integers => SMALL_INTEGER case Texts => SHORT_STRING case Lists => SHORT_LIST
  }

  function MediumMask(f: Family): Byte {
    match f case Integers => 0x00 case Texts => 0x40 case Lists => 0x80
  }

  function LargeMask(f: Family): Byte {
    match f case Integers => BIG_INTEGER case Texts => LONG_STRING case Lists => LONG_LIST
  }

  // ---------------------------------------------------------------------------------------------
  // Builders
  // ---------------------------------------------------------------------------------------------

  /** Number of bytes that hold a value with its leading zero bytes dropped. */
  function CountWidth(n: nat): (w: nat)
    requires n <= UINT_MAX
    ensures 1 <= w <= 4
    ensures n < Pow256(w)
    ensures w > 1 ==> Pow256(w - 1) <= n
  {
    PowersOf256();
    if n < 0x100 then 1
    else if n < 0x1_0000 then 2
    else if n < 0x100_0000 then 3
    else 4
  }

  function EncodeEntity(n: nat, f: Family): (s: seq<Byte>)
    requires n <= UINT_MAX
  {
    if n < MEDIUM_BIAS then [SmallMask(f) + n]
    else if n < LARGE_BIAS then [MediumMask(f) + (n - MEDIUM_BIAS)]
    else
      var m := n - LARGE_BIAS;
      [LargeMask(f) + (CountWidth(m) - 1)] + Le(m, CountWidth(m))
  }

  function EncodeNumber(n: int): (s: seq<Byte>)
    requires ValidChunk(Number(n))
  {
    if n >= 0 then EncodeEntity(n, Integers)
    else if n > -9 then [SMALL_NEGATIVE + (-n - 1)]
    else [BIG_NEGATIVE + (CountWidth(-n - 9) - 1)] + Le(-n - 9, CountWidth(-n - 9))
  }

  /** A list element: its length as a run of 255s and a final smaller byte, then its bytes. */
  function EncodeElement(s: seq<Byte>): (r: seq<Byte>) {
    Repeat(0xFF, |s| / 0xFF) + [|s| % 0xFF] + s
  }

  function EncodeElements(ss: seq<seq<Byte>>): (r: seq<Byte>) {
    if ss == [] then [] else EncodeElement(ss[0]) + EncodeElements(ss[1..])
  }

  function EncodeChunk(c: Chunk): (r: seq<Byte>)
    requires ValidChunk(c)
  {
    match c
    case Number(n) => EncodeNumber(n)
    case Text(s) => EncodeEntity(|s|, Texts) + s
    case Strings(ss) => EncodeEntity(|ss|, Lists) + EncodeElements(ss)
  }

  predicate ValidChunks(cs: seq<Chunk>) {
    forall i :: 0 <= i < |cs| ==> ValidChunk(cs[i])
  }

  function EncodeChunks(cs: seq<Chunk>): (r: seq<Byte>)
    requires ValidChunks(cs)
  {
    if cs == [] then [] else EncodeChunk(cs[0]) + EncodeChunks(cs[1..])
  }

  function MeasureEntity(n: nat): (size: nat)
    requires n <= UINT_MAX
  {
    if n < LARGE_BIAS then 1
    else
      var m := n - LARGE_BIAS;
      if m < 0x100 then 2 else if m < 0x1_0000 then 3 else if m < 0x100_0000 then 4 else 5
  }

  function MeasureNumber(n: int): (size: nat)
    requires ValidChunk(Number(n))
  {
    if n >= 0 then MeasureEntity(n)
    else if n > -9 then 1
    else
      var m := -n - 9;
      if m < 0x100 then 2 else if m < 0x1_0000 then 3 else if m < 0x100_0000 then 4 else 5
  }

  /** Before truncation to 32 bits. */
  function MeasureElement(size: nat): nat {
    size / 0xFF + 1 + size
  }

  lemma {:induction false} MeasureEntityIsExact(n: nat, f: Family)
    requires n <= UINT_MAX
    ensures |EncodeEntity(n, f)| == MeasureEntity(n)
  {
  }

  lemma {:induction false} MeasureNumberIsExact(n: int)
    requires ValidChunk(Number(n))
    ensures |EncodeNumber(n)| == MeasureNumber(n)
  {
  }

  lemma {:induction false} MeasureElementIsExact(s: seq<Byte>)
    ensures |EncodeElement(s)| == MeasureElement(|s|)
  {
  }

  // ---------------------------------------------------------------------------------------------
  // Iterators
  // ---------------------------------------------------------------------------------------------

  /** Outcome of reading the fixed part of a chunk; `size` counts the bytes it takes. */
  datatype Head =
    | NumberHead(n: int, size: nat)
    | TextHead(length: nat, size: nat)
    | ListHead(count: nat, size: nat)
    | NoHead   // no bytes left
    | BadHead  // the iterator's own assertions reject the bytes

  predicate HasSize(h: Head) {
    !h.NoHead? && !h.BadHead?
  }

  /** Width of the counter announced by the low bits of a chunk byte, 0 if there is no such width. */
  function AnnouncedWidth(low: nat): nat {
    if low < 4 then low + 1 else 0
  }

  predicate HasCounter(s: seq<Byte>, width: nat) {
    width != 0 && 1 + width <= |s|
  }

  function Counter(s: seq<Byte>, width: nat): nat
    requires HasCounter(s, width)
  {
    FromLe(s[1..1 + width])
  }

  /**
   The chunk at the start of `s`, as `get_next_chunk` dispatches on its first byte. The ranges are the
   values that the type bits (0xC0) and the subtype bits (0x38) of the byte select; see `HeadOnWire`.
   */
  function ParseHead(s: seq<Byte>): (h: Head)
    ensures HasSize(h) ==> 0 < h.size <= |s|
  {
    if s == [] then NoHead
    else if s[0] < 0x40 then NumberHead(s[0] + MEDIUM_BIAS, 1)
    else if s[0] < 0x80 then TextHead(s[0] - 0x40 + MEDIUM_BIAS, 1)
    else if s[0] < 0xC0 then ListHead(s[0] - 0x80 + MEDIUM_BIAS, 1)
    else if s[0] < BIG_NEGATIVE then NumberHead(SMALL_NEGATIVE - s[0] - 1, 1)
    else if s[0] < SMALL_INTEGER then
      var width := AnnouncedWidth(s[0] - BIG_NEGATIVE);
      if HasCounter(s, width) then NumberHead(-9 - Counter(s, width), 1 + width) else BadHead
    else if s[0] < SHORT_STRING then NumberHead(s[0] - SMALL_INTEGER, 1)
    else if s[0] < SHORT_LIST then TextHead(s[0] - SHORT_STRING, 1)
    else if s[0] < BIG_INTEGER then ListHead(s[0] - SHORT_LIST, 1)
    else if s[0] < LONG_STRING then ParseLarge(s, Integers)
    else if s[0] < LONG_LIST then ParseLarge(s, Texts)
    else ParseLarge(s, Lists)
  }

  function ParseLarge(s: seq<Byte>, f: Family): (h: Head)
    requires s != [] && LargeMask(f) <= s[0]
    ensures HasSize(h) ==> 0 < h.size <= |s|
  {
    var width := AnnouncedWidth(s[0] - LargeMask(f));
    if HasCounter(s, width) then FamilyHead(f, U32(Counter(s, width) + LARGE_BIAS), 1 + width) else BadHead
  }

  function FamilyHead(f: Family, n: nat, size: nat): Head {
    match f
    case Integers => NumberHead(n, size)
    case Texts => TextHead(n, size)
    case Lists => ListHead(n, size)
  }

  datatype ChunkType = NoChunk | NumberChunk | TextChunk | ListChunk

  /** `get_next_chunk_type`: looks at the next chunk without moving. */
  function PeekType(s: seq<Byte>): ChunkType {
    if s == [] then NoChunk
    else if s[0] < 0x40 then NumberChunk
    else if s[0] < 0x80 then TextChunk
    else if s[0] < 0xC0 then ListChunk
    else if SHORT_STRING <= s[0] < SHORT_LIST || LONG_STRING <= s[0] < LONG_LIST then TextChunk
    else if SHORT_LIST <= s[0] < BIG_INTEGER || LONG_LIST <= s[0] then ListChunk
    else NumberChunk
  }

  /** The masks of io_protocol.h as arithmetic. */
  lemma {:induction false} ChunkMasks(c: bv8)
    ensures (c & 0xC0) as int == c as int / 0x40 * 0x40
    ensures (c & 0x3F) as int == c as int % 0x40
    ensures (c & 0x38) as int == 8 * (c as int / 8 % 8)
    ensures (c & 0x07) as int == c as int % 8
  {
    TypeMasks(c);
    SubtypeMask(c);
    ShortMask(c);
  }

  lemma {:induction false} TypeMasks(c: bv8)
    ensures (c & 0xC0) as int == c as int / 0x40 * 0x40
    ensures (c & 0x3F) as int == c as int % 0x40
  {
  }

  lemma {:induction false} SubtypeMask(c: bv8)
    ensures (c & 0x38) as int == 8 * (c as int / 8 % 8)
  {
  }

  lemma {:induction false} ShortMask(c: bv8)
    ensures (c & 0x07) as int == c as int % 8
  {
  }

  /** What one to four counter bytes after the first byte of `s` make of `f`. */
  function WithCounter(s: seq<Byte>, low: nat, f: nat -> Head): Head {
    if low < 4 && low + 2 <= |s| then f(FromLe(s[1..low + 2])) else BadHead
  }

  /** The chunk that every first byte starts, as io_protocol.h lays it out in type, subtype and value bits. */
  lemma {:induction false} HeadOnWire(s: seq<Byte>, c: bv8)
    requires s != [] && s[0] == c as int
    ensures var long, low := (c & 0x3F) as int, (c & 0x07) as int;
            ParseHead(s) ==
            match (c & 0xC0) as int
            case 0x00 => NumberHead(long + 8, 1)
            case 0x40 => TextHead(long + 8, 1)
            case 0x80 => ListHead(long + 8, 1)
            case _ =>
              match (c & 0x38) as int
              case 0x00 => NumberHead(-low - 1, 1)
              case 0x08 => WithCounter(s, low, n => NumberHead(-n - 9, low + 2))
              case 0x10 => NumberHead(low, 1)
              case 0x18 => TextHead(low, 1)
              case 0x20 => ListHead(low, 1)
              case 0x28 => WithCounter(s, low, n => NumberHead(U32(n + 72), low + 2))
              case 0x30 => WithCounter(s, low, n => TextHead(U32(n + 72), low + 2))
              case _ => WithCounter(s, low, n => ListHead(U32(n + 72), low + 2))
  {
    ChunkMasks(c);
  }

  /** Every head is that of one encoding, which is the shortest: any other with its meaning is longer. */
  lemma {:induction false} EncodingIsShortest(s: seq<Byte>)
    requires HasSize(ParseHead(s))
    ensures match ParseHead(s)
            case NumberHead(n, size) =>
              ValidChunk(Number(n)) ==>
                MeasureNumber(n) <= size && (MeasureNumber(n) == size ==> s[..size] == EncodeNumber(n))
            case TextHead(n, size) =>
              && n <= UINT_MAX && MeasureEntity(n) <= size
              && (MeasureEntity(n) == size ==> s[..size] == EncodeEntity(n, Texts))
            case ListHead(n, size) =>
              && n <= UINT_MAX && MeasureEntity(n) <= size
              && (MeasureEntity(n) == size ==> s[..size] == EncodeEntity(n, Lists))
  {
    var h := ParseHead(s);
    if h.size == 1 {
      ShortHeadIsEncoded(s);
    } else {
      CounterIsEncoded(s, h.size - 1);
      if s[0] < SMALL_INTEGER {
        NegativeIsEncoded(s);
      } else {
        LargeIsEncoded(s, if s[0] < LONG_STRING then Integers else if s[0] < LONG_LIST then Texts else Lists);
      }
    }
  }

  lemma {:induction false} ShortHeadIsEncoded(s: seq<Byte>)
    requires HasSize(ParseHead(s)) && ParseHead(s).size == 1
    ensures match ParseHead(s)
            case NumberHead(n, _) => ValidChunk(Number(n)) && s[..1] == EncodeNumber(n)
            case TextHead(n, _) => n <= UINT_MAX && s[..1] == EncodeEntity(n, Texts)
            case ListHead(n, _) => n <= UINT_MAX && s[..1] == EncodeEntity(n, Lists)
  {
    hide Le, FromLe;
    assert s[..1] == [s[0]];
  }

  lemma {:induction false} NegativeIsEncoded(s: seq<Byte>)
    requires HasSize(ParseHead(s)) && BIG_NEGATIVE <= s[0] < SMALL_INTEGER
    ensures ParseHead(s).NumberHead?
    ensures var n, size := ParseHead(s).n, ParseHead(s).size;
            ValidChunk(Number(n)) ==>
              MeasureNumber(n) <= size && (MeasureNumber(n) == size ==> s[..size] == EncodeNumber(n))
  {
    hide Le, FromLe;
    CounterIsEncoded(s, ParseHead(s).size - 1);
  }

  lemma {:induction false} LargeIsEncoded(s: seq<Byte>, f: Family)
    requires s != [] && LargeMask(f) <= s[0] < LargeMask(f) + 8 && HasSize(ParseLarge(s, f))
    ensures var size := ParseLarge(s, f).size;
            && 1 < size <= |s|
            && var n := U32(Counter(s, size - 1) + LARGE_BIAS);
               && ParseLarge(s, f) == FamilyHead(f, n, size) && MeasureEntity(n) <= size
               && (MeasureEntity(n) == size ==> s[..size] == EncodeEntity(n, f))
  {
    hide Le, FromLe;
    CounterIsEncoded(s, AnnouncedWidth(s[0] - LargeMask(f)));
  }

  lemma {:induction false} CounterIsEncoded(s: seq<Byte>, width: nat)
    requires HasCounter(s, width) && width <= 4
    ensures var m := Counter(s, width);
            && m <= UINT_MAX && CountWidth(m) <= width
            && (CountWidth(m) == width ==> s[..1 + width] == [s[0]] + Le(m, width))
  {
    var t := s[1..1 + width];
    LeInvertsFromLe(t);
    PowersOf256();
    assert s[..1 + width] == [s[0]] + t;
  }

  function HeadType(h: Head): ChunkType
    requires !h.BadHead?
  {
    match h
    case NumberHead(_, _) => NumberChunk
    case TextHead(_, _) => TextChunk
    case ListHead(_, _) => ListChunk
    case NoHead => NoChunk
  }

  lemma {:induction false} PeekAgreesWithParse(s: seq<Byte>)
    requires !ParseHead(s).BadHead?
    ensures PeekType(s) == HeadType(ParseHead(s))
  {
  }

  // What the decoders find at the start of a byte string; `size` counts the bytes it takes.
  datatype Prefix = Prefix(length: nat, size: nat) | NoPrefix
  datatype Element = Element(bytes: seq<Byte>, size: nat) | NoElement
  datatype Elements = Elements(items: seq<seq<Byte>>, size: nat) | NoElements
  datatype Decoded = Decoded(chunk: Chunk, size: nat) | NotDecoded

  /** Length prefix of a list element: the sum of its bytes up to the first one that is not 255. */
  function ElementPrefix(s: seq<Byte>): (p: Prefix)
    ensures p.Prefix? ==> 0 < p.size <= |s|
  {
    if s == [] then NoPrefix
    else if s[0] < 0xFF then Prefix(s[0], 1)
    else
      var p := ElementPrefix(s[1..]);
      if p.Prefix? then Prefix(0xFF + p.length, p.size + 1) else NoPrefix
  }

  function DecodeElement(s: seq<Byte>): (r: Element)
    ensures r.Element? ==> 0 < r.size <= |s|
  {
    var p := ElementPrefix(s);
    if p.Prefix? && p.size + U32(p.length) <= |s|
    then Element(s[p.size..p.size + U32(p.length)], p.size + U32(p.length))
    else NoElement
  }

  function DecodeElements(s: seq<Byte>, count: nat): (r: Elements)
    ensures r.Elements? ==> r.size <= |s|
  {
    if count == 0 then Elements([], 0)
    else
      var first := DecodeElement(s);
      if first.NoElement? then NoElements
      else
        var others := DecodeElements(s[first.size..], count - 1);
        if others.NoElements? then NoElements
        else Elements([first.bytes] + others.items, first.size + others.size)
  }

  /** The chunk whose fixed part is `h` and whose bytes start at the start of `s`. */
  function DecodeAs(h: Head, s: seq<Byte>): (r: Decoded)
    requires HasSize(h) ==> 0 < h.size <= |s|
    ensures r.Decoded? ==> 0 < r.size <= |s|
  {
    match h
    case NumberHead(n, size) => Decoded(Number(n), size)
    case TextHead(length, size) =>
      if size + length <= |s| then Decoded(Text(s[size..size + length]), size + length) else NotDecoded
    case ListHead(count, size) =>
      var e := DecodeElements(s[size..], count);
      if e.Elements? then Decoded(Strings(e.items), size + e.size) else NotDecoded
    case _ => NotDecoded
  }

  function DecodeChunk(s: seq<Byte>): (r: Decoded)
    ensures r.Decoded? ==> 0 < r.size <= |s|
  {
    DecodeAs(ParseHead(s), s)
  }

  /** All chunks of `s`, None when `s` is not a sequence of chunks. */
  function DecodeChunks(s: seq<Byte>): Option<seq<Chunk>>
    decreases |s|
  {
    if s == [] then Some([])
    else
      var first := DecodeChunk(s);
      if first.NotDecoded? then None
      else
        match DecodeChunks(s[first.size..])
        case None => None
        case Some(others) => Some([first.chunk] + others)
  }

  // ---------------------------------------------------------------------------------------------
  // Round trip
  // ---------------------------------------------------------------------------------------------

  lemma {:induction false} CounterReadsBack(c: Byte, m: nat, rest: seq<Byte>)
    requires m <= UINT_MAX
    ensures HasCounter([c] + Le(m, CountWidth(m)) + rest, CountWidth(m))
    ensures Counter([c] + Le(m, CountWidth(m)) + rest, CountWidth(m)) == m
  {
    var s := [c] + Le(m, CountWidth(m)) + rest;
    assert s[1..1 + CountWidth(m)] == Le(m, CountWidth(m));
    FromLeInvertsLe(m, CountWidth(m));
  }

  /** The three biased encodings are disjoint and each is undone by the iterator. */
  lemma {:induction false} EntityReadsBack(n: nat, f: Family, rest: seq<Byte>)
    requires n <= UINT_MAX
    ensures ParseHead(EncodeEntity(n, f) + rest) == FamilyHead(f, n, MeasureEntity(n))
  {
    if n >= LARGE_BIAS {
      LargeReadsBack(n, f, rest);
    }
  }

  lemma {:induction false} LargeReadsBack(n: nat, f: Family, rest: seq<Byte>)
    requires LARGE_BIAS <= n <= UINT_MAX
    ensures ParseHead(EncodeEntity(n, f) + rest) == FamilyHead(f, n, MeasureEntity(n))
  {
    hide Le, Counter;
    var m := n - LARGE_BIAS;
    var s := EncodeEntity(n, f) + rest;
    CounterReadsBack(LargeMask(f) + (CountWidth(m) - 1), m, rest);
    assert ParseHead(s) == ParseLarge(s, f);
  }

  lemma {:induction false} NumberReadsBack(n: int, rest: seq<Byte>)
    requires ValidChunk(Number(n))
    ensures ParseHead(EncodeNumber(n) + rest) == NumberHead(n, MeasureNumber(n))
  {
    if n >= 0 {
      EntityReadsBack(n, Integers, rest);
    } else if n <= -9 {
      var m := -n - 9;
      CounterReadsBack(BIG_NEGATIVE + (CountWidth(m) - 1), m, rest);
    }
  }

  lemma {:induction false} PrefixReadsBack(k: nat, last: Byte, rest: seq<Byte>)
    requires last < 0xFF
    ensures ElementPrefix(Repeat(0xFF, k) + [last] + rest) == Prefix(0xFF * k + last, k + 1)
  {
    var s := Repeat(0xFF, k) + [last] + rest;
    if k > 0 {
      PrefixReadsBack(k - 1, last, rest);
      assert s[1..] == Repeat(0xFF, k - 1) + [last] + rest;
    }
  }

  lemma {:induction false} ElementReadsBack(e: seq<Byte>, rest: seq<Byte>)
    requires |e| <= UINT_MAX
    ensures DecodeElement(EncodeElement(e) + rest) == Element(e, |EncodeElement(e)|)
  {
    hide ElementPrefix, Repeat;
    var s := EncodeElement(e) + rest;
    var k, last := |e| / 0xFF, |e| % 0xFF;
    assert s == Repeat(0xFF, k) + [last] + (e + rest);
    PrefixReadsBack(k, last, e + rest);
    assert s[k + 1..k + 1 + |e|] == e;
  }

  lemma {:induction false} FirstElementReadsBack(ss: seq<seq<Byte>>, first: seq<Byte>, others: seq<Byte>, rest: seq<Byte>)
    requires ss != []
    requires DecodeElement(first + (others + rest)) == Element(ss[0], |first|)
    requires DecodeElements(others + rest, |ss| - 1) == Elements(ss[1..], |others|)
    ensures DecodeElements(first + others + rest, |ss|) == Elements(ss, |first| + |others|)
  {
    hide DecodeElement;
    var s := first + others + rest;
    assert s == first + (others + rest);
    assert s[|first|..] == others + rest;
    assert [ss[0]] + ss[1..] == ss;
  }

  lemma {:induction false} ElementsReadBack(ss: seq<seq<Byte>>, rest: seq<Byte>)
    requires forall i :: 0 <= i < |ss| ==> |ss[i]| <= UINT_MAX
    ensures DecodeElements(EncodeElements(ss) + rest, |ss|) == Elements(ss, |EncodeElements(ss)|)
  {
    if ss != [] {
      var first, others := EncodeElement(ss[0]), EncodeElements(ss[1..]);
      ElementReadsBack(ss[0], others + rest);
      ElementsReadBack(ss[1..], rest);
      FirstElementReadsBack(ss, first, others, rest);
    }
  }

  lemma {:induction false} TextReadsBack(t: seq<Byte>, head: seq<Byte>, rest: seq<Byte>)
    requires ParseHead(head + (t + rest)) == TextHead(|t|, |head|)
    ensures DecodeChunk(head + t + rest) == Decoded(Text(t), |head| + |t|)
  {
    var s := head + t + rest;
    assert s == head + (t + rest);
    assert s[|head|..|head| + |t|] == t;
  }

  lemma {:induction false} StringsReadBack(ss: seq<seq<Byte>>, head: seq<Byte>, body: seq<Byte>, rest: seq<Byte>)
    requires ParseHead(head + (body + rest)) == ListHead(|ss|, |head|)
    requires DecodeElements(body + rest, |ss|) == Elements(ss, |body|)
    ensures DecodeChunk(head + body + rest) == Decoded(Strings(ss), |head| + |body|)
  {
    var s := head + body + rest;
    assert s == head + (body + rest);
    assert s[|head|..] == body + rest;
  }

  lemma {:induction false} ChunkReadsBack(c: Chunk, rest: seq<Byte>)
    requires ValidChunk(c)
    ensures DecodeChunk(EncodeChunk(c) + rest) == Decoded(c, |EncodeChunk(c)|)
  {
    match c {
      case Number(n) =>
        NumberReadsBack(n, rest);
        MeasureNumberIsExact(n);
      case Text(t) =>
        EntityReadsBack(|t|, Texts, t + rest);
        MeasureEntityIsExact(|t|, Texts);
        TextReadsBack(t, EncodeEntity(|t|, Texts), rest);
      case Strings(ss) =>
        EntityReadsBack(|ss|, Lists, EncodeElements(ss) + rest);
        MeasureEntityIsExact(|ss|, Lists);
        ElementsReadBack(ss, rest);
        StringsReadBack(ss, EncodeEntity(|ss|, Lists), EncodeElements(ss), rest);
    }
  }

  lemma {:induction false} ChunkIsNotEmpty(c: Chunk)
    requires ValidChunk(c)
    ensures EncodeChunk(c) != []
  {
  }

  /** Every sequence of numbers, strings and string lists decodes to itself. */
  lemma {:induction false} ChunksReadBack(cs: seq<Chunk>)
    requires ValidChunks(cs)
    ensures DecodeChunks(EncodeChunks(cs)) == Some(cs)
  {
    hide EncodeChunk, DecodeChunk, ValidChunk;
    if cs != [] {
      var first, others := EncodeChunk(cs[0]), EncodeChunks(cs[1..]);
      ChunkReadsBack(cs[0], others);
      ChunkIsNotEmpty(cs[0]);
      assert EncodeChunks(cs)[|first|..] == others;
      ChunksReadBack(cs[1..]);
      assert [cs[0]] + cs[1..] == cs;
    }
  }

  lemma {:induction false} EncodeChunksAppends(a: seq<Chunk>, b: seq<Chunk>)
    requires ValidChunks(a) && ValidChunks(b)
    ensures ValidChunks(a + b)
    ensures EncodeChunks(a + b) == EncodeChunks(a) + EncodeChunks(b)
  {
    if a == [] {
      assert a + b == b;
    } else {
      assert (a + b)[1..] == a[1..] + b;
      EncodeChunksAppends(a[1..], b);
    }
  }
}
