/**
 The two-phase builders of io_chunk_builders: everything is estimated first, `configure` then lays the
 header out, and the same things are added into it.
 */
module Builders {
  import opened Bytes
  import opened Chunks
  import opened Headers
  import Reading

  // ---------------------------------------------------------------------------------------------
  // Writing into buffers
  // ---------------------------------------------------------------------------------------------

  /** Copies `bytes` into `buffer` from `at` on. */
  method PutBytes(buffer: array<Byte>, at: nat, bytes: seq<Byte>)
    requires at + |bytes| <= buffer.Length
    modifies buffer
    ensures buffer[..] == Overwrite(old(buffer[..]), at, bytes)
  {
    hide Overwrite;
    ghost var was := buffer[..];
    OverwriteNothing(was, at);
    var k := 0;
    while k < |bytes|
      invariant k <= |bytes|
      invariant buffer[..] == Overwrite(was, at, bytes[..k])
    {
      ghost var before := buffer[..];
      buffer[at + k] := bytes[k];
      assert buffer[..] == before[at + k := bytes[k]];
      OverwriteOneMore(was, at, bytes, k);
      k := k + 1;
    }
    assert bytes[..k] == bytes;
  }

  /** `set_header_byte_at`, `set_header_ushort_at` and so on: `width` bytes, least significant first. */
  method PutLe(buffer: array<Byte>, at: nat, n: nat, width: nat)
    requires at + width <= buffer.Length
    modifies buffer
    ensures buffer[..] == Overwrite(old(buffer[..]), at, Le(n, width))
  {
    hide Le, Overwrite;
    ghost var was, bytes := buffer[..], Le(n, width);
    OverwriteNothing(was, at);
    var m, k := n, 0;
    while k < width
      invariant k <= width && |bytes| == width
      invariant Le(m, width - k) == bytes[k..]
      invariant buffer[..] == Overwrite(was, at, bytes[..k])
    {
      LeHead(m, width - k);
      ghost var before := buffer[..];
      buffer[at + k] := m % 0x100;
      assert buffer[..] == before[at + k := m % 0x100];
      OverwriteOneMore(was, at, bytes, k);
      assert bytes[k + 1..] == bytes[k..][1..];
      m := m / 0x100;
      k := k + 1;
    }
    assert bytes[..k] == bytes;
  }

  lemma {:induction false} LeHead(n: nat, width: nat)
    requires width > 0
    ensures Le(n, width)[0] == n % 0x100 && Le(n, width)[1..] == Le(n / 0x100, width - 1)
  {
  }

  /** A byte and then a number right after it. */
  lemma {:induction false} OverwriteByte(s: seq<Byte>, at: nat, b: Byte)
    requires at < |s|
    ensures s[at := b] == Overwrite(s, at, [b])
  {
  }

  lemma {:induction false} OverwriteByteThen(s: seq<Byte>, at: nat, b: Byte, bytes: seq<Byte>)
    requires at + 1 + |bytes| <= |s|
    ensures Overwrite(s[at := b], at + 1, bytes) == Overwrite(s, at, [b] + bytes)
  {
  }

  /** `put_entity`. */
  method PutEntity(buffer: array<Byte>, at: nat, n: nat, f: Family) returns (size: nat)
    requires n <= UINT_MAX && at + MeasureEntity(n) <= buffer.Length
    modifies buffer
    ensures size == MeasureEntity(n) == |EncodeEntity(n, f)|
    ensures buffer[..] == Overwrite(old(buffer[..]), at, EncodeEntity(n, f))
  {
    hide Le, Overwrite;
    MeasureEntityIsExact(n, f);
    ghost var was := buffer[..];
    if n < MEDIUM_BIAS {
      var b: Byte := SmallMask(f) + n;
      buffer[at] := b;
      size := 1;
      assert buffer[..] == was[at := b];
      OverwriteByte(was, at, b);
    } else if n < LARGE_BIAS {
      var b: Byte := MediumMask(f) + (n - MEDIUM_BIAS);
      buffer[at] := b;
      size := 1;
      assert buffer[..] == was[at := b];
      OverwriteByte(was, at, b);
    } else {
      var m := n - LARGE_BIAS;
      var width := if m < 0x100 then 1 else if m < 0x1_0000 then 2 else if m < 0x100_0000 then 3 else 4;
      var b: Byte := LargeMask(f) + (width - 1);
      buffer[at] := b;
      assert buffer[..] == was[at := b];
      PutLe(buffer, at + 1, m, width);
      OverwriteByteThen(was, at, b, Le(m, width));
      size := width + 1;
    }
  }

  /** The bytes of `add_number` in the header. */
  method PutNumber(buffer: array<Byte>, at: nat, n: int) returns (size: nat)
    requires ValidChunk(Number(n)) && at + MeasureNumber(n) <= buffer.Length
    modifies buffer
    ensures size == MeasureNumber(n) == |EncodeNumber(n)|
    ensures buffer[..] == Overwrite(old(buffer[..]), at, EncodeNumber(n))
  {
    MeasureNumberIsExact(n);
    ghost var was := buffer[..];
    if n >= 0 {
      size := PutEntity(buffer, at, n, Integers);
    } else if n > -9 {
      buffer[at] := SMALL_NEGATIVE + (-n - 1);
      size := 1;
    } else {
      var big := -n - 9;
      var width := if big < 0x100 then 1 else if big < 0x1_0000 then 2 else if big < 0x100_0000 then 3 else 4;
      var b: Byte := BIG_NEGATIVE + (width - 1);
      buffer[at] := b;
      assert buffer[..] == was[at := b];
      PutLe(buffer, at + 1, big, width);
      OverwriteByteThen(was, at, b, Le(big, width));
      size := width + 1;
    }
  }

  /** Bytes appended to the used part of a buffer. */
  lemma {:induction false} AppendsToUsed(s: seq<Byte>, used: nat, bytes: seq<Byte>)
    requires used + |bytes| <= |s|
    ensures Overwrite(s, used, bytes)[..used + |bytes|] == s[..used] + bytes
  {
  }

  // ---------------------------------------------------------------------------------------------
  // Lists
  // ---------------------------------------------------------------------------------------------

  /** The length prefix of `put_string`: a run of 255s and the remainder. */
  method PutLength(buffer: array<Byte>, at: nat, length: nat) returns (end: nat)
    requires at + length / 0xFF + 1 <= buffer.Length
    modifies buffer
    ensures end == at + length / 0xFF + 1
    ensures buffer[..end] == old(buffer[..at]) + Repeat(0xFF, length / 0xFF) + [length % 0xFF]
    ensures buffer[end..] == old(buffer[end..])
  {
    hide Repeat;
    ghost var was := buffer[..];
    var n: nat := length;
    end := at;
    while n >= 0xFF
      invariant at <= end && n + 0xFF * (end - at) == length
      invariant end + n / 0xFF == at + length / 0xFF
      invariant buffer[..end] == was[..at] + Repeat(0xFF, end - at)
      invariant buffer[end..] == was[end..]
    {
      ghost var before := buffer[..];
      buffer[end] := 0xFF;
      assert buffer[..] == before[end := 0xFF];
      assert buffer[..end + 1] == before[..end] + [0xFF];
      assert buffer[end + 1..] == before[end..][1..] == was[end..][1..];
      RepeatAppends(0xFF, end - at);
      end := end + 1;
      n := n - 0xFF;
    }
    assert end - at == length / 0xFF && n == length % 0xFF;
    ghost var before := buffer[..];
    buffer[end] := n;
    assert buffer[..end + 1] == before[..end] + [n];
    assert buffer[end + 1..] == before[end..][1..] == was[end..][1..];
    end := end + 1;
  }

  /** `put_string`: the length prefix, then the bytes. */
  method PutString(buffer: array<Byte>, at: nat, s: seq<Byte>) returns (end: nat)
    requires at + MeasureElement(|s|) <= buffer.Length
    modifies buffer
    ensures end == at + MeasureElement(|s|) == at + |EncodeElement(s)|
    ensures buffer[..end] == old(buffer[..at]) + EncodeElement(s)
    ensures buffer[end..] == old(buffer[end..])
  {
    MeasureElementIsExact(s);
    ghost var was := buffer[..];
    end := PutLength(buffer, at, |s|);
    ghost var prefix := buffer[..];
    PutBytes(buffer, end, s);
    AppendsToUsed(prefix, end, s);
    end := end + |s|;
    assert buffer[end..] == prefix[end..] == was[end..];
    assert buffer[..end] == was[..at] + EncodeElement(s);
  }

  lemma {:induction false} RepeatAppends(b: Byte, n: nat)
    ensures Repeat(b, n) + [b] == Repeat(b, n + 1)
  {
  }

  /**
   `HeaderListChunkBuilder`. Calls come in three phases: `Estimate` for every string, `Configure`, and
   `Add` for every string. Sizes are 32-bit, so what is estimated must not exceed that.
   */
  class HeaderListBuilder {
    var buffer: array<Byte>
    var used: nat
    var count: nat
    var estimated: nat

    constructor ()
      ensures fresh(buffer) && used == 0 && count == 0 && estimated == 0
    {
      buffer := new Byte[0];
      used, count, estimated := 0, 0, 0;
    }

    method Estimate(size: nat) returns (n: nat)
      requires estimated + MeasureElement(size) <= UINT_MAX
      modifies this`estimated, this`count
      ensures n == MeasureElement(size) && estimated == old(estimated) + n && count == old(count) + 1
    {
      n := MeasureElement(size);
      estimated := estimated + n;
      count := count + 1;
    }

    method Configure()
      requires count <= UINT_MAX && estimated + MeasureEntity(count) <= UINT_MAX
      modifies this
      ensures fresh(buffer) && buffer.Length == estimated == old(estimated) + used && count == old(count)
      ensures used <= buffer.Length && buffer[..used] == EncodeEntity(count, Lists)
    {
      MeasureEntityIsExact(count, Lists);
      estimated := estimated + MeasureEntity(count);
      buffer := new Byte[estimated](_ => 0);
      ghost var was := buffer[..];
      used := PutEntity(buffer, 0, count, Lists);
      AppendsToUsed(was, 0, EncodeEntity(count, Lists));
    }

    method Add(s: seq<Byte>)
      requires used + MeasureElement(|s|) <= buffer.Length
      modifies this`used, buffer
      ensures used == old(used) + MeasureElement(|s|)
      ensures buffer[..used] == old(buffer[..used]) + EncodeElement(s)
    {
      used := PutString(buffer, used, s);
    }
  }

  lemma {:induction false} InfoIs(p: Option<Meta>)
    requires p.Some? ==> ValidMeta(p.value)
    ensures InfoBytes(p) ==
            if p.None? then []
            else
              var w := ClassWidth(SizeClass(p.value.usize));
              if p.value.compressor == 0 then Le(p.value.size, w)
              else [p.value.compressor] + Le(p.value.size, w) + Le(p.value.usize, w)
  {
  }

  /** What a list takes in the header. */
  function ListBytes(ss: seq<seq<Byte>>): seq<Byte>
    requires |ss| <= UINT_MAX
  {
    EncodeEntity(|ss|, Lists) + EncodeElements(ss)
  }

  lemma {:induction false} ElementsSplit(ss: seq<seq<Byte>>, k: nat)
    requires k < |ss|
    ensures EncodeElements(ss[..k + 1]) == EncodeElements(ss[..k]) + EncodeElement(ss[k])
    ensures |EncodeElements(ss[..k])| + MeasureElement(|ss[k]|) <= |EncodeElements(ss)|
    decreases k
  {
    hide EncodeElement, MeasureElement;
    MeasureElementIsExact(ss[k]);
    if k == 0 {
      assert ss[..1] == [ss[0]];
      assert EncodeElements(ss[..1]) == EncodeElement(ss[0]) + EncodeElements([]);
    } else {
      ElementsSplit(ss[1..], k - 1);
      assert ss[..k + 1][1..] == ss[1..][..k] && ss[..k][1..] == ss[1..][..k - 1];
    }
  }

  method EstimateList(list: HeaderListBuilder, ss: seq<seq<Byte>>)
    requires list.count == 0 && list.estimated == 0
    requires |EncodeElements(ss)| <= UINT_MAX
    modifies list`estimated, list`count
    ensures list.count == |ss| && list.estimated == |EncodeElements(ss)|
  {
    for k := 0 to |ss|
      invariant list.count == k && list.estimated == |EncodeElements(ss[..k])|
    {
      ElementsSplit(ss, k);
      MeasureElementIsExact(ss[k]);
      var n := list.Estimate(|ss[k]|);
    }
    assert ss[..|ss|] == ss;
  }

  method AddList(list: HeaderListBuilder, ss: seq<seq<Byte>>)
    requires list.used + |EncodeElements(ss)| <= list.buffer.Length
    modifies list`used, list.buffer
    ensures list.used == old(list.used) + |EncodeElements(ss)|
    ensures list.buffer[..list.used] == old(list.buffer[..list.used]) + EncodeElements(ss)
  {
    hide EncodeElement, MeasureElement;
    ghost var head, start := list.buffer[..list.used], list.used;
    for k := 0 to |ss|
      invariant list.used == start + |EncodeElements(ss[..k])| <= list.buffer.Length
      invariant list.buffer[..list.used] == head + EncodeElements(ss[..k])
    {
      ElementsSplit(ss, k);
      MeasureElementIsExact(ss[k]);
      list.Add(ss[k]);
    }
    assert ss[..|ss|] == ss;
  }

  /** When additions mirror estimates the list fills its buffer exactly, so that `check` cannot fail. */
  method BuildList(ss: seq<seq<Byte>>) returns (list: HeaderListBuilder)
    requires |ss| <= UINT_MAX && |ListBytes(ss)| <= UINT_MAX
    ensures fresh(list) && fresh(list.buffer)
    ensures list.used == list.buffer.Length && list.buffer[..] == ListBytes(ss)
  {
    MeasureEntityIsExact(|ss|, Lists);
    hide EncodeEntity, EncodeElements;
    list := new HeaderListBuilder();
    EstimateList(list, ss);
    list.Configure();
    AddList(list, ss);
    assert list.buffer[..list.used] == list.buffer[..];
  }

  // ---------------------------------------------------------------------------------------------
  // Headers
  // ---------------------------------------------------------------------------------------------

  /** A header up to its chunks depends only on how many bytes the chunks take. */
  function HeaderStart(l: Lead, p: Option<Meta>, size: nat): seq<Byte>
    requires ValidHeader(l, p, Repeat(0, size))
  {
    Join(HeaderParts(l, p, Repeat(0, size)).(chunks := []))
  }

  lemma {:induction false} HeaderIsStartAndChunks(l: Lead, p: Option<Meta>, chunks: seq<Byte>)
    requires ValidHeader(l, p, chunks)
    ensures ValidHeader(l, p, Repeat(0, |chunks|))
    ensures HeaderBytes(l, p, chunks) == HeaderStart(l, p, |chunks|) + chunks
  {
    var zeros := Repeat(0, |chunks|);
    assert |Body(l, p, zeros)| == |Body(l, p, chunks)|;
    assert HeaderParts(l, p, zeros).(chunks := chunks) == HeaderParts(l, p, chunks);
  }

  /** `HeaderChunkBuilder` for a given lead; `header` is the container's header buffer. */
  class HeaderBuilder {
    const lead: Lead
    var header: array<Byte>
    var estimated: nat
    var used: nat

    constructor (lead: Lead)
      ensures this.lead == lead && fresh(header) && header.Length == Reading.AUX_DATA_SIZE
      ensures estimated == 0 && used == 0
    {
      this.lead := lead;
      header := new Byte[Reading.AUX_DATA_SIZE](_ => 0);
      estimated, used := 0, 0;
    }

    method EstimateNumber(n: int) returns (size: nat)
      requires ValidChunk(Number(n)) && estimated + MeasureNumber(n) <= UINT_MAX
      modifies this`estimated
      ensures size == |EncodeChunk(Number(n))| && estimated == old(estimated) + size
    {
      MeasureNumberIsExact(n);
      size := MeasureNumber(n);
      estimated := estimated + size;
    }

    method EstimateString(length: nat) returns (size: nat)
      requires length <= UINT_MAX && estimated + MeasureEntity(length) + length <= UINT_MAX
      modifies this`estimated
      ensures size == MeasureEntity(length) + length && estimated == old(estimated) + size
    {
      size := MeasureEntity(length) + length;
      estimated := estimated + size;
    }

    method EstimateList(list: HeaderListBuilder) returns (size: nat)
      requires estimated + list.used <= UINT_MAX
      modifies this`estimated
      ensures size == list.used && estimated == old(estimated) + size
    {
      size := list.used;
      estimated := estimated + size;
    }

    method AddNumber(n: int)
      requires ValidChunk(Number(n)) && used + |EncodeChunk(Number(n))| <= header.Length
      modifies this`used, header
      ensures used == old(used) + |EncodeChunk(Number(n))|
      ensures header[..used] == old(header[..used]) + EncodeChunk(Number(n))
    {
      MeasureNumberIsExact(n);
      ghost var was := header[..];
      var size := PutNumber(header, used, n);
      AppendsToUsed(was, used, EncodeNumber(n));
      used := used + size;
    }

    /** Copies `bytes` and moves past them. */
    method PutNextBytes(bytes: seq<Byte>)
      requires used + |bytes| <= header.Length
      modifies this`used, header
      ensures used == old(used) + |bytes|
      ensures header[..used] == old(header[..used]) + bytes
    {
      ghost var was := header[..];
      PutBytes(header, used, bytes);
      AppendsToUsed(was, used, bytes);
      used := used + |bytes|;
    }

    /** `put`. */
    method PutNextEntity(n: nat, f: Family)
      requires n <= UINT_MAX && used + MeasureEntity(n) <= header.Length
      modifies this`used, header
      ensures used == old(used) + MeasureEntity(n)
      ensures header[..used] == old(header[..used]) + EncodeEntity(n, f)
    {
      hide EncodeEntity;
      ghost var was := header[..];
      var size := PutEntity(header, used, n, f);
      AppendsToUsed(was, used, EncodeEntity(n, f));
      used := used + size;
    }

    method AddString(s: seq<Byte>)
      requires ValidChunk(Text(s)) && used + |EncodeChunk(Text(s))| <= header.Length
      modifies this`used, header
      ensures used == old(used) + |EncodeChunk(Text(s))|
      ensures header[..used] == old(header[..used]) + EncodeChunk(Text(s))
    {
      hide EncodeEntity, MeasureEntity;
      MeasureEntityIsExact(|s|, Texts);
      PutNextEntity(|s|, Texts);
      if |s| > 0 {
        PutNextBytes(s);
      }
    }

    method AddList(list: HeaderListBuilder)
      requires header != list.buffer && list.used <= list.buffer.Length && used + list.used <= header.Length
      modifies this`used, header
      ensures used == old(used) + list.used
      ensures header[..used] == old(header[..used]) + list.buffer[..list.used]
    {
      PutNextBytes(list.buffer[..list.used]);
    }

    /** Stores a number of the given width and moves past it. */
    method PutNext(n: nat, width: nat)
      requires used + width <= header.Length
      modifies this`used, header
      ensures used == old(used) + width
      ensures header[..used] == old(header[..used]) + Le(n, width)
    {
      hide Le;
      ghost var was := header[..];
      PutLe(header, used, n, width);
      AppendsToUsed(was, used, Le(n, width));
      used := used + width;
    }

    method PutNextByte(b: Byte)
      requires used < header.Length
      modifies this`used, header
      ensures used == old(used) + 1
      ensures header[..used] == old(header[..used]) + [b]
    {
      header[used] := b;
      used := used + 1;
    }

    /** Steps c) and d) of `configure`: the command ID and the password hash. */
    method PutLead()
      requires ValidLead(lead) && used + |LeadBytes(lead)| <= header.Length
      modifies this`used, header
      ensures used == old(used) + |LeadBytes(lead)|
      ensures header[..used] == old(header[..used]) + LeadBytes(lead)
    {
      hide Le;
      if lead.kind.Command? {
        PutNextByte(lead.id);
        if lead.low != 0 {
          PutNext(lead.hash, HASH_SIZE);
        }
      }
    }

    /** Step e) of `configure`: the compressor and the sizes of the payload. */
    method PutInfo(payload: Option<Meta>)
      requires payload.Some? ==> ValidMeta(payload.value)
      requires used + |InfoBytes(payload)| <= header.Length
      modifies this`used, header
      ensures used == old(used) + |InfoBytes(payload)|
      ensures header[..used] == old(header[..used]) + InfoBytes(payload)
    {
      hide Le, ClassWidth, SizeClass, InfoBytes;
      InfoIs(payload);
      ghost var start := header[..used];
      if payload.Some? {
        var m := payload.value;
        var width := ClassWidth(SizeClass(m.usize));
        if m.compressor != 0 {
          PutNextByte(m.compressor);
          PutNext(m.size, width);
          PutNext(m.usize, width);
          assert start + [m.compressor] + Le(m.size, width) + Le(m.usize, width) == start + InfoBytes(payload);
        } else {
          PutNext(m.size, width);
        }
      }
    }

    /** What `configure` counts: the bytes after the header size, 0 for a sizeless header. */
    method MeasureHeader(payload: Option<Meta>) returns (size: nat)
      requires ValidHeader(lead, payload, Repeat(0, estimated))
      ensures size == if estimated == 0 && payload.None? then 0 else |Body(lead, payload, Repeat(0, estimated))|
    {
      size := 0;
      if estimated > 0 || payload.Some? {
        size := estimated;
        if lead.id != 0 {
          size := size + 1;
        }
        if lead.kind.Command? && lead.low != 0 {
          size := size + HASH_SIZE;
        }
        if payload.Some? {
          var width := ClassWidth(SizeClass(payload.value.usize));
          size := size + if payload.value.compressor != 0 then width * 2 + 1 else width;
        }
      }
    }

    /** Steps a) to e) of `configure`. */
    method PutStart(d: Byte, size: nat, width: nat, payload: Option<Meta>)
      requires ValidLead(lead) && (payload.Some? ==> ValidMeta(payload.value))
      requires used == 0 && 1 + width + |LeadBytes(lead)| + |InfoBytes(payload)| <= header.Length
      modifies this`used, header
      ensures used == 1 + width + |LeadBytes(lead)| + |InfoBytes(payload)|
      ensures header[..used] == [d] + Le(size, width) + LeadBytes(lead) + InfoBytes(payload)
    {
      hide Le, LeadBytes, InfoBytes, ValidLead, ValidMeta;
      PutNextByte(d);
      assert header[..used] == [d];
      PutNext(size, width);
      PutLead();
      PutInfo(payload);
    }

    /** `configure`: allocates the header and writes all of it but the chunks. */
    method Configure(payload: Option<Meta>)
      requires used == 0 && header.Length == Reading.AUX_DATA_SIZE
      requires ValidHeader(lead, payload, Repeat(0, estimated))
      modifies this`header, this`used, this`estimated, header
      ensures header == old(header) || fresh(header)
      ensures estimated == used + old(estimated) <= header.Length
      ensures header[..used] == HeaderStart(lead, payload, old(estimated))
    {
      hide HeaderStart, ValidHeader, ValidMeta, Le, LeadBytes, InfoBytes, SizeClass, ClassWidth, Body, Repeat,
           LeadLength;
      StartOfHeader(lead, payload, estimated);
      var size := MeasureHeader(payload);
      var class_ := if size > 0 then SizeClass(size) else 0;
      var width := ClassWidth(class_);
      var full := if size > 0 then 1 + width + size else 1 + LeadLength(lead.kind, lead.low);
      if full > Reading.AUX_DATA_SIZE {
        header := new Byte[full](_ => 0);
      }
      var d := Descriptor(lead.low, class_, MetaClass(payload), MetaCompressed(payload), lead.marker);
      PutStart(d, size, width, payload);
      estimated := full;
    }
  }

  lemma {:induction false} StartOfHeader(l: Lead, p: Option<Meta>, size: nat)
    requires ValidHeader(l, p, Repeat(0, size))
    ensures var n := if size == 0 && p.None? then 0 else |Body(l, p, Repeat(0, size))|;
            var class_ := if n > 0 then SizeClass(n) else 0;
            var width := ClassWidth(class_);
            && n <= UINT_MAX
            && HeaderStart(l, p, size) ==
               [Descriptor(l.low, class_, MetaClass(p), MetaCompressed(p), l.marker)] + Le(n, width)
               + LeadBytes(l) + InfoBytes(p)
            && (n > 0 ==> n == |LeadBytes(l)| + |InfoBytes(p)| + size)
            && (n == 0 ==> width == 0 && |InfoBytes(p)| == 0 && size == 0)
            && |LeadBytes(l)| == LeadLength(l.kind, l.low)
            && ValidLead(l) && (p.Some? ==> ValidMeta(p.value))
  {
  }

  lemma {:induction false} ChunksSplit(cs: seq<Chunk>, k: nat)
    requires ValidChunks(cs) && k < |cs|
    ensures EncodeChunks(cs[..k + 1]) == EncodeChunks(cs[..k]) + EncodeChunk(cs[k])
    ensures |EncodeChunks(cs[..k + 1])| <= |EncodeChunks(cs)|
  {
    assert cs[..k + 1] == cs[..k] + [cs[k]];
    EncodeChunksAppends(cs[..k], [cs[k]]);
    assert EncodeChunks([cs[k]]) == EncodeChunk(cs[k]) + EncodeChunks([]);
    assert cs == cs[..k + 1] + cs[k + 1..];
    EncodeChunksAppends(cs[..k + 1], cs[k + 1..]);
  }

  method EstimateChunk(builder: HeaderBuilder, c: Chunk)
    requires ValidChunk(c) && builder.estimated + |EncodeChunk(c)| <= UINT_MAX
    modifies builder`estimated
    ensures builder.estimated == old(builder.estimated) + |EncodeChunk(c)|
  {
    match c {
      case Number(n) =>
        MeasureNumberIsExact(n);
        var size := builder.EstimateNumber(n);
      case Text(s) =>
        MeasureEntityIsExact(|s|, Texts);
        var size := builder.EstimateString(|s|);
      case Strings(ss) =>
        var list := BuildList(ss);
        var size := builder.EstimateList(list);
    }
  }

  method AddChunk(builder: HeaderBuilder, c: Chunk)
    requires ValidChunk(c) && |EncodeChunk(c)| <= UINT_MAX
    requires builder.used + |EncodeChunk(c)| <= builder.header.Length
    modifies builder`used, builder.header
    ensures builder.used == old(builder.used) + |EncodeChunk(c)|
    ensures builder.header[..builder.used] == old(builder.header[..builder.used]) + EncodeChunk(c)
  {
    match c {
      case Number(n) =>
        builder.AddNumber(n);
      case Text(s) =>
        builder.AddString(s);
      case Strings(ss) =>
        var list := BuildList(ss);
        assert list.buffer[..list.used] == list.buffer[..];
        builder.AddList(list);
    }
  }

  method EstimateChunks(builder: HeaderBuilder, cs: seq<Chunk>)
    requires ValidChunks(cs) && builder.estimated == 0 && |EncodeChunks(cs)| <= UINT_MAX
    modifies builder`estimated
    ensures builder.estimated == |EncodeChunks(cs)|
  {
    hide EncodeChunk;
    for k := 0 to |cs|
      invariant builder.estimated == |EncodeChunks(cs[..k])|
    {
      ChunksSplit(cs, k);
      EstimateChunk(builder, cs[k]);
    }
    assert cs[..|cs|] == cs;
  }

  method AddChunks(builder: HeaderBuilder, cs: seq<Chunk>)
    requires ValidChunks(cs) && |EncodeChunks(cs)| <= UINT_MAX
    requires builder.used + |EncodeChunks(cs)| <= builder.header.Length
    modifies builder`used, builder.header
    ensures builder.used == old(builder.used) + |EncodeChunks(cs)|
    ensures builder.header[..builder.used] == old(builder.header[..builder.used]) + EncodeChunks(cs)
  {
    hide EncodeChunk;
    ghost var head, start := builder.header[..builder.used], builder.used;
    for k := 0 to |cs|
      invariant builder.used == start + |EncodeChunks(cs[..k])| <= builder.header.Length
      invariant builder.header[..builder.used] == head + EncodeChunks(cs[..k])
    {
      ChunksSplit(cs, k);
      AddChunk(builder, cs[k]);
    }
    assert cs[..|cs|] == cs;
  }

  /**
   The usage pattern of the builders, as in `post_data_response_impl`: estimate everything, configure, add the
   same things. The additions fill exactly what was estimated, so that `check` cannot fail, and the
   header is the one that the accessors understand.
   */
  method BuildHeader(lead: Lead, cs: seq<Chunk>, payload: Option<Meta>) returns (builder: HeaderBuilder)
    requires ValidChunks(cs) && ValidHeader(lead, payload, EncodeChunks(cs))
    ensures fresh(builder) && fresh(builder.header)
    ensures builder.used == builder.estimated <= builder.header.Length
    ensures builder.header[..builder.used] == HeaderBytes(lead, payload, EncodeChunks(cs))
  {
    HeaderIsStartAndChunks(lead, payload, EncodeChunks(cs));
    assert |EncodeChunks(cs)| <= |Body(lead, payload, EncodeChunks(cs))|;
    hide HeaderBytes, HeaderStart, ValidHeader, EncodeChunks;
    builder := new HeaderBuilder(lead);
    EstimateChunks(builder, cs);
    builder.Configure(payload);
    AddChunks(builder, cs);
  }
}
