/**
 Message headers: the layout that `HeaderChunkBuilder::configure` writes, and the accessors of commands
 and responses that recover every position from the descriptor byte alone.
 */
module Headers {
  import opened Bytes

  datatype Kind = Command | Response

  // ---------------------------------------------------------------------------------------------
  // Descriptor byte
  // ---------------------------------------------------------------------------------------------

  /** `DESC_AUTH_BITS` of a command, `RESP_TYPE_BITS` of a response. */
  function LowBits(d: Byte): nat { d % 4 }

  /** `DESC_HEADER_BITS` >> 2: 0 for "no header size", then byte, word and dword sizes. */
  function HeaderClass(d: Byte): nat { d / 4 % 4 }

  /** `DESC_PAYLOAD_BITS` >> 4, encoded the same way. */
  function PayloadClass(d: Byte): (c: nat)
    ensures c < 4
  {
    d / 16 % 4
  }

  /** `DESC_PAYLOAD_IS_COMPRESSED`. */
  predicate IsCompressed(d: Byte) { d / 64 % 2 == 1 }

  /** `DESC_MARKER_IS_PRESENT`. */
  predicate HasMarker(d: Byte) { d / 128 == 1 }

  function Bit(b: bool): nat { if b then 1 else 0 }

  function Descriptor(low: nat, headerClass: nat, payloadClass: nat, compressed: bool, marker: bool): Byte
    requires low < 4 && headerClass < 4 && payloadClass < 4
  {
    low + 4 * headerClass + 16 * payloadClass + 64 * Bit(compressed) + 128 * Bit(marker)
  }

  lemma {:induction false} DescriptorFields(low: nat, hc: nat, pc: nat, compressed: bool, marker: bool)
    requires low < 4 && hc < 4 && pc < 4
    ensures var d := Descriptor(low, hc, pc, compressed, marker);
            && LowBits(d) == low && HeaderClass(d) == hc && PayloadClass(d) == pc
            && IsCompressed(d) == compressed && HasMarker(d) == marker
  {
    var d := Descriptor(low, hc, pc, compressed, marker);
    var q := pc + 4 * Bit(compressed) + 8 * Bit(marker);
    assert d / 4 == hc + 4 * q;
    assert d / 16 == q;
    assert d / 64 == Bit(compressed) + 2 * Bit(marker);
  }

  /** The fields read by division are the ones that the masks of io_protocol.h select. */
  lemma {:induction false} DescriptorMasks(d: bv8)
    ensures (d & 0x03) as int == LowBits(d as int)
    ensures (d & 0x0C) as int == 4 * HeaderClass(d as int)
    ensures (d & 0x30) as int == 16 * PayloadClass(d as int)
    ensures (d & 0x40 != 0) == IsCompressed(d as int)
    ensures (d & 0x80 != 0) == HasMarker(d as int)
  {
    LowMask(d);
    HeaderMask(d);
    PayloadMask(d);
    CompressedMask(d);
    MarkerMask(d);
  }

  lemma {:induction false} LowMask(d: bv8)
    ensures (d & 0x03) as int == LowBits(d as int)
  {
  }

  lemma {:induction false} HeaderMask(d: bv8)
    ensures (d & 0x0C) as int == 4 * HeaderClass(d as int)
  {
  }

  lemma {:induction false} PayloadMask(d: bv8)
    ensures (d & 0x30) as int == 16 * PayloadClass(d as int)
  {
  }

  lemma {:induction false} CompressedMask(d: bv8)
    ensures (d & 0x40 != 0) == IsCompressed(d as int)
  {
  }

  lemma {:induction false} MarkerMask(d: bv8)
    ensures (d & 0x80 != 0) == HasMarker(d as int)
  {
  }

  /** Width in bytes of a size field of the given class. */
  function ClassWidth(class_: nat): (w: nat)
    requires class_ < 4
    ensures w <= 4
  {
    match class_ case 0 => 0 case 1 => 1 case 2 => 2 case 3 => 4
  }

  /** Smallest class whose field holds `size`; its width is `estimate_size_bytes(size)`. */
  function SizeClass(size: nat): (c: nat)
    requires size <= UINT_MAX
    ensures 1 <= c < 4
    ensures size < Pow256(ClassWidth(c))
  {
    PowersOf256();
    if size <= 0xFF then 1 else if size <= 0xFFFF then 2 else 3
  }

  // ---------------------------------------------------------------------------------------------
  // Layout
  // ---------------------------------------------------------------------------------------------

  const CT_NUMBER_OF_ELEMENTS := 9
  const HASH_SIZE := 8

  /**
   What the virtual functions of the builders supply: the low descriptor bits (authentication level of
   a command, type of a response), the marker flag, and, for commands, the ID and the password hash,
   which is present exactly when the low bits are not zero.
   */
  datatype Lead = Lead(kind: Kind, low: nat, marker: bool, id: Byte, hash: nat)

  predicate ValidLead(l: Lead) {
    && l.low < 4
    && l.hash < 0x1_0000_0000_0000_0000
    && (l.kind.Command? ==> l.id != 0)
    && (l.kind.Response? ==> l.id == 0)
    && (l.kind.Response? || l.low == 0 ==> l.hash == 0)
  }

  function LeadBytes(l: Lead): (s: seq<Byte>)
    ensures |s| == LeadLength(l.kind, l.low)
  {
    if l.kind.Response? then []
    else [l.id] + (if l.low != 0 then Le(l.hash, HASH_SIZE) else [])
  }

  /** Number of bytes between the header size and the payload information. */
  function LeadLength(kind: Kind, low: nat): nat {
    if kind.Response? then 0 else if low != 0 then 1 + HASH_SIZE else 1
  }

  /** Stored size, uncompressed size and compressor (0 for none) of a payload. */
  datatype Meta = Meta(compressor: Byte, size: nat, usize: nat)

  predicate ValidMeta(m: Meta) {
    && m.size <= m.usize <= UINT_MAX
    && m.compressor < CT_NUMBER_OF_ELEMENTS
    && if m.compressor == 0 then m.size == m.usize else 0 < m.size < m.usize
  }

  function InfoBytes(p: Option<Meta>): (s: seq<Byte>)
    requires p.Some? ==> ValidMeta(p.value)
    ensures |s| == InfoLength(MetaClass(p), MetaCompressed(p))
  {
    if p.None? then []
    else
      var w := ClassWidth(SizeClass(p.value.usize));
      if p.value.compressor == 0 then Le(p.value.size, w)
      else [p.value.compressor] + Le(p.value.size, w) + Le(p.value.usize, w)
  }

  function MetaClass(p: Option<Meta>): (c: nat)
    requires p.Some? ==> ValidMeta(p.value)
    ensures c < 4
  {
    if p.None? then 0 else SizeClass(p.value.usize)
  }

  predicate MetaCompressed(p: Option<Meta>) {
    p.Some? && p.value.compressor != 0
  }

  function InfoLength(payloadClass: nat, compressed: bool): nat
    requires payloadClass < 4
  {
    if payloadClass == 0 then 0
    else if compressed then 2 * ClassWidth(payloadClass) + 1
    else ClassWidth(payloadClass)
  }

  /** Everything that follows the header size: ID, hash, payload information and chunks. */
  function Body(l: Lead, p: Option<Meta>, chunks: seq<Byte>): seq<Byte>
    requires p.Some? ==> ValidMeta(p.value)
  {
    LeadBytes(l) + InfoBytes(p) + chunks
  }

  /** Header sizes whose 32-bit sums do not wrap. */
  predicate ValidHeader(l: Lead, p: Option<Meta>, chunks: seq<Byte>) {
    && ValidLead(l)
    && (p.Some? ==> ValidMeta(p.value))
    && |Body(l, p, chunks)| <= UINT_MAX - 5
  }

  function BodyClass(l: Lead, p: Option<Meta>, chunks: seq<Byte>): (c: nat)
    requires ValidHeader(l, p, chunks)
    ensures c < 4
  {
    if chunks == [] && p.None? then 0 else SizeClass(|Body(l, p, chunks)|)
  }

  function HeaderDescriptor(l: Lead, p: Option<Meta>, chunks: seq<Byte>): Byte
    requires ValidHeader(l, p, chunks)
  {
    Descriptor(l.low, BodyClass(l, p, chunks), MetaClass(p), MetaCompressed(p), l.marker)
  }

  /** The parts of a header. */
  datatype Parts = Parts(d: Byte, size: seq<Byte>, lead: seq<Byte>, info: seq<Byte>, chunks: seq<Byte>)

  function Join(x: Parts): seq<Byte> {
    [x.d] + x.size + x.lead + x.info + x.chunks
  }

  /** The parts that `configure` and the additions after it write. */
  function HeaderParts(l: Lead, p: Option<Meta>, chunks: seq<Byte>): Parts
    requires ValidHeader(l, p, chunks)
  {
    Parts(HeaderDescriptor(l, p, chunks), Le(|Body(l, p, chunks)|, ClassWidth(BodyClass(l, p, chunks))),
          LeadBytes(l), InfoBytes(p), chunks)
  }

  /** The whole header, sizeless when there are neither chunks nor a payload. */
  function HeaderBytes(l: Lead, p: Option<Meta>, chunks: seq<Byte>): seq<Byte>
    requires ValidHeader(l, p, chunks)
  {
    Join(HeaderParts(l, p, chunks))
  }

  // ---------------------------------------------------------------------------------------------
  // Accessors
  // ---------------------------------------------------------------------------------------------

  /** `get_command_header_data_size_length` and its response twin. */
  function SizeLength(d: Byte): (n: nat)
    ensures n <= 4
  {
    ClassWidth(HeaderClass(d))
  }

  /** `get_command_sizeless_header_size`, or the lone descriptor of a response. */
  function SizelessHeaderSize(kind: Kind, d: Byte): nat {
    1 + LeadLength(kind, LowBits(d))
  }

  predicate HasSizeField(h: seq<Byte>) {
    h != [] && 1 + SizeLength(h[0]) <= |h|
  }

  /** `get_command_header_size`, `get_response_header_size`. */
  function HeaderSize(kind: Kind, h: seq<Byte>): nat
    requires HasSizeField(h)
  {
    var n := SizeLength(h[0]);
    if n == 0 then SizelessHeaderSize(kind, h[0])
    else U32(FromLe(h[1..1 + n]) + 1 + n)
  }

  datatype Region = Region(offset: nat, size: nat) | NoRegion

  function InfoOffset(kind: Kind, d: Byte): nat {
    1 + SizeLength(d) + LeadLength(kind, LowBits(d))
  }

  /** `get_header_info`: where the chunks are. */
  function HeaderInfo(kind: Kind, h: seq<Byte>): Region
    requires HasSizeField(h)
  {
    var d := h[0];
    if SizeLength(d) == 0 then NoRegion
    else
      var offset := InfoOffset(kind, d) + InfoLength(PayloadClass(d), IsCompressed(d));
      var size := HeaderSize(kind, h);
      if offset < size then Region(offset, size - offset) else NoRegion
  }

  /** Payload information at the given offset of a header, with sizes of the given width. */
  function MetaAt(h: seq<Byte>, offset: nat, w: nat, compressed: bool): Meta
    requires offset + (if compressed then 2 * w + 1 else w) <= |h|
  {
    if compressed then
      Meta(h[offset], FromLe(h[offset + 1..offset + 1 + w]), FromLe(h[offset + 1 + w..offset + 1 + 2 * w]))
    else
      Meta(0, FromLe(h[offset..offset + w]), FromLe(h[offset..offset + w]))
  }

  /** Results of `get_payload_info`; `stored` is the payload buffer if it has been received. */
  datatype PayloadInfo =
    | NoPayload
    | BadPayload
    | PayloadInfo(meta: Meta, stored: Option<seq<Byte>>)

  function GetPayloadInfo(kind: Kind, h: seq<Byte>, payload: seq<Byte>): PayloadInfo
    requires h != []
  {
    var d := h[0];
    var class_ := PayloadClass(d);
    if class_ == 0 then NoPayload
    else
      if |h| < InfoOffset(kind, d) + InfoLength(class_, IsCompressed(d)) then BadPayload
      else
        var m := MetaAt(h, InfoOffset(kind, d), ClassWidth(class_), IsCompressed(d));
        if IsCompressed(d) && (m.compressor == 0 || m.compressor >= CT_NUMBER_OF_ELEMENTS || m.size == 0 || m.size >= m.usize)
        then BadPayload
        else if payload == [] then PayloadInfo(m, None)
        else if |payload| == m.size then PayloadInfo(m, Some(payload))
        else BadPayload
  }

  /** `get_command_id_byte`. */
  function CommandId(h: seq<Byte>): Byte
    requires h != [] && 2 + SizeLength(h[0]) <= |h|
  {
    h[1 + SizeLength(h[0])]
  }

  // ---------------------------------------------------------------------------------------------
  // Agreement of layout and accessors
  // ---------------------------------------------------------------------------------------------

  /** The lengths of the parts agree with the descriptor and with the size field. */
  predicate Consistent(kind: Kind, x: Parts) {
    && |x.size| == SizeLength(x.d)
    && |x.lead| == LeadLength(kind, LowBits(x.d))
    && |x.info| == InfoLength(PayloadClass(x.d), IsCompressed(x.d))
    && if x.size == [] then x.info == [] && x.chunks == []
       else FromLe(x.size) == |x.lead| + |x.info| + |x.chunks| <= UINT_MAX - 5
  }

  lemma {:induction false} SlicesOfJoin(x: Parts, spare: seq<Byte>)
    ensures var h := Join(x) + spare;
            var lead := 1 + |x.size|;
            var info := lead + |x.lead|;
            var chunks := info + |x.info|;
            && |Join(x)| == chunks + |x.chunks|
            && h[0] == x.d && h[1..lead] == x.size && h[lead..info] == x.lead
            && h[info..chunks] == x.info && h[chunks..|Join(x)|] == x.chunks
  {
  }

  /** Accessors read a consistent header the same way whatever spare bytes follow it in the buffer. */
  lemma {:induction false} AccessorsAgree(kind: Kind, x: Parts, spare: seq<Byte>)
    requires Consistent(kind, x)
    ensures var h := Join(x) + spare;
            && HasSizeField(h)
            && HeaderSize(kind, h) == |Join(x)| <= UINT_MAX
            && InfoOffset(kind, h[0]) == 1 + |x.size| + |x.lead|
            && HeaderInfo(kind, h) ==
               (if x.chunks == [] then NoRegion else Region(|Join(x)| - |x.chunks|, |x.chunks|))
  {
    SlicesOfJoin(x, spare);
  }

  lemma {:induction false} DescriptorOfHeader(l: Lead, p: Option<Meta>, chunks: seq<Byte>)
    requires ValidHeader(l, p, chunks)
    ensures var d := HeaderDescriptor(l, p, chunks);
            && LowBits(d) == l.low && HeaderClass(d) == BodyClass(l, p, chunks)
            && PayloadClass(d) == MetaClass(p) && IsCompressed(d) == MetaCompressed(p)
            && HasMarker(d) == l.marker
  {
    DescriptorFields(l.low, BodyClass(l, p, chunks), MetaClass(p), MetaCompressed(p), l.marker);
  }

  lemma {:induction false} HeaderIsConsistent(l: Lead, p: Option<Meta>, chunks: seq<Byte>)
    requires ValidHeader(l, p, chunks)
    ensures Consistent(l.kind, HeaderParts(l, p, chunks))
  {
    DescriptorOfHeader(l, p, chunks);
    var class_ := BodyClass(l, p, chunks);
    if class_ != 0 {
      FromLeInvertsLe(|Body(l, p, chunks)|, ClassWidth(class_));
    }
  }

  /**
   `full_header_size` is what the accessors read, and the chunks are exactly the region they delimit,
   in every size class and for the sizeless header.
   */
  lemma {:induction false} LayoutAgrees(l: Lead, p: Option<Meta>, chunks: seq<Byte>, spare: seq<Byte>)
    requires ValidHeader(l, p, chunks)
    ensures var h := HeaderBytes(l, p, chunks) + spare;
            var size := |HeaderBytes(l, p, chunks)|;
            && HasSizeField(h) && |chunks| <= size
            && HeaderSize(l.kind, h) == size <= UINT_MAX
            && HeaderInfo(l.kind, h) == (if chunks == [] then NoRegion else Region(size - |chunks|, |chunks|))
            && h[size - |chunks|..size] == chunks
            && HasMarker(h[0]) == l.marker && LowBits(h[0]) == l.low
  {
    var x := HeaderParts(l, p, chunks);
    HeaderIsConsistent(l, p, chunks);
    AccessorsAgree(l.kind, x, spare);
    SlicesOfJoin(x, spare);
    DescriptorOfHeader(l, p, chunks);
  }

  /** `estimate_size_bytes`: the least of one, two and four bytes that holds `n`. */
  function SizeBytes(n: nat): nat {
    if n <= 0xFF then 1 else if n <= 0xFFFF then 2 else 4
  }

  /** Bytes of the payload information. */
  function InfoSize(p: Option<Meta>): nat {
    if p.None? then 0
    else if p.value.compressor == 0 then SizeBytes(p.value.usize)
    else 1 + 2 * SizeBytes(p.value.usize)
  }

  /** Bytes that follow the header size. */
  function BodySize(l: Lead, p: Option<Meta>, chunks: seq<Byte>): nat {
    (if l.kind.Response? then 0 else if l.low == 0 then 1 else 9) + InfoSize(p) + |chunks|
  }

  /** Bytes of the header size. */
  function SizeSize(l: Lead, p: Option<Meta>, chunks: seq<Byte>): nat {
    if p.None? && chunks == [] then 0 else SizeBytes(BodySize(l, p, chunks))
  }

  lemma {:induction false} BodyOnWire(l: Lead, p: Option<Meta>, chunks: seq<Byte>)
    requires ValidHeader(l, p, chunks)
    ensures |Body(l, p, chunks)| == BodySize(l, p, chunks)
    ensures ClassWidth(BodyClass(l, p, chunks)) == SizeSize(l, p, chunks)
  {
    hide Le;
  }

  /** How many bytes each part of a header takes, and that the size, if any, counts those after it. */
  lemma {:induction false} HeaderOnWire(l: Lead, p: Option<Meta>, chunks: seq<Byte>)
    requires ValidHeader(l, p, chunks)
    ensures var h, w := HeaderBytes(l, p, chunks), SizeSize(l, p, chunks);
            && |h| == 1 + w + BodySize(l, p, chunks)
            && (w != 0 ==> FromLe(h[1..1 + w]) == BodySize(l, p, chunks))
  {
    hide Le, FromLe, BodySize, SizeSize, Descriptor, SizeLength;
    var x := HeaderParts(l, p, chunks);
    BodyOnWire(l, p, chunks);
    HeaderIsConsistent(l, p, chunks);
    SlicesOfJoin(x, []);
    assert Join(x) + [] == Join(x);
  }

  /** Which bits of the descriptor say what, with the masks of io_protocol.h. */
  lemma {:induction false} DescriptorOnWire(l: Lead, p: Option<Meta>, chunks: seq<Byte>, d: bv8)
    requires ValidHeader(l, p, chunks) && HeaderBytes(l, p, chunks)[0] == d as int
    ensures (d & 0x03) as int == l.low
    ensures (d & 0x0C) as int == match SizeSize(l, p, chunks) case 0 => 0 case 1 => 0x04 case 2 => 0x08 case _ => 0x0C
    ensures (d & 0x30) as int ==
            if p.None? then 0 else match SizeBytes(p.value.usize) case 1 => 0x10 case 2 => 0x20 case _ => 0x30
    ensures d & 0x40 != 0 <==> p.Some? && p.value.compressor != 0
    ensures d & 0x80 != 0 <==> l.marker
  {
    DescriptorMasks(d);
    FieldsOnWire(l, p, chunks, d as int);
  }

  lemma {:induction false} FieldsOnWire(l: Lead, p: Option<Meta>, chunks: seq<Byte>, d: Byte)
    requires ValidHeader(l, p, chunks) && HeaderBytes(l, p, chunks)[0] == d
    ensures LowBits(d) == l.low && HasMarker(d) == l.marker
    ensures 4 * HeaderClass(d) == match SizeSize(l, p, chunks) case 0 => 0 case 1 => 0x04 case 2 => 0x08 case _ => 0x0C
    ensures 16 * PayloadClass(d) ==
            if p.None? then 0 else match SizeBytes(p.value.usize) case 1 => 0x10 case 2 => 0x20 case _ => 0x30
    ensures IsCompressed(d) <==> p.Some? && p.value.compressor != 0
  {
    hide LowBits, HeaderClass, PayloadClass, IsCompressed, HasMarker, Le, Body, BodySize;
    DescriptorOfHeader(l, p, chunks);
    BodyOnWire(l, p, chunks);
  }

  lemma {:induction false} InfoReadsBack(m: Meta)
    requires ValidMeta(m)
    ensures var s := InfoBytes(Some(m));
            var w := ClassWidth(SizeClass(m.usize));
            if m.compressor == 0 then |s| == w && FromLe(s) == m.size
            else
              && |s| == 2 * w + 1 && s[0] == m.compressor
              && FromLe(s[1..1 + w]) == m.size && FromLe(s[1 + w..]) == m.usize
  {
    var s := InfoBytes(Some(m));
    var w := ClassWidth(SizeClass(m.usize));
    FromLeInvertsLe(m.size, w);
    FromLeInvertsLe(m.usize, w);
    if m.compressor != 0 {
      assert s[1..1 + w] == Le(m.size, w);
      assert s[1 + w..] == Le(m.usize, w);
    }
  }

  /** `get_payload_info` on a buffer whose payload information starts at `offset`. */
  lemma {:induction false} InfoAgrees(kind: Kind, h: seq<Byte>, m: Meta, payload: seq<Byte>)
    requires ValidMeta(m) && h != []
    requires PayloadClass(h[0]) == SizeClass(m.usize) && IsCompressed(h[0]) == (m.compressor != 0)
    requires var offset := InfoOffset(kind, h[0]);
             offset + |InfoBytes(Some(m))| <= |h| && h[offset..offset + |InfoBytes(Some(m))|] == InfoBytes(Some(m))
    requires payload == [] || |payload| == m.size
    ensures GetPayloadInfo(kind, h, payload) == PayloadInfo(m, if payload == [] then None else Some(payload))
  {
    hide Le, FromLe, SizeClass;
    InfoReadsBack(m);
    var offset := InfoOffset(kind, h[0]);
    var w := ClassWidth(PayloadClass(h[0]));
    var s := InfoBytes(Some(m));
    if m.compressor != 0 {
      assert h[offset] == h[offset..offset + |s|][0];
      SliceOfSlice(h, offset, s, 1, 1 + w);
      SliceOfSlice(h, offset, s, 1 + w, 1 + 2 * w);
    }
  }

  /**
   Payload information that its header holds is refused if and only if it claims a compression by none of the
   eight compressors, or one that does not make the payload shorter.
   */
  lemma {:induction false} InfoIsRefused(kind: Kind, h: seq<Byte>)
    requires h != [] && PayloadClass(h[0]) != 0
    requires InfoOffset(kind, h[0]) + InfoLength(PayloadClass(h[0]), IsCompressed(h[0])) <= |h|
    ensures var at, w := InfoOffset(kind, h[0]), ClassWidth(PayloadClass(h[0]));
            GetPayloadInfo(kind, h, []).BadPayload? <==>
              && IsCompressed(h[0])
              && !(1 <= h[at] <= 8 && 0 < FromLe(h[at + 1..at + 1 + w]) < FromLe(h[at + 1 + w..at + 1 + 2 * w]))
  {
    hide FromLe, InfoOffset, ClassWidth;
  }

  /** `get_payload_info` returns the stored compressor and sizes, before and after the payload arrives. */
  lemma {:induction false} PayloadInfoAgrees(l: Lead, p: Option<Meta>, chunks: seq<Byte>, spare: seq<Byte>,
                                             payload: seq<Byte>)
    requires ValidHeader(l, p, chunks)
    requires payload == [] || (p.Some? && |payload| == p.value.size)
    ensures var h := HeaderBytes(l, p, chunks) + spare;
            GetPayloadInfo(l.kind, h, payload) ==
            if p.None? then NoPayload
            else PayloadInfo(p.value, if payload == [] then None else Some(payload))
  {
    var x := HeaderParts(l, p, chunks);
    HeaderIsConsistent(l, p, chunks);
    AccessorsAgree(l.kind, x, spare);
    SlicesOfJoin(x, spare);
    DescriptorOfHeader(l, p, chunks);
    if p.Some? {
      InfoAgrees(l.kind, HeaderBytes(l, p, chunks) + spare, p.value, payload);
    }
  }

  lemma {:induction false} CommandIdAgrees(l: Lead, p: Option<Meta>, chunks: seq<Byte>, spare: seq<Byte>)
    requires ValidHeader(l, p, chunks) && l.kind.Command?
    ensures var h := HeaderBytes(l, p, chunks) + spare;
            2 + SizeLength(h[0]) <= |h| && CommandId(h) == l.id
  {
    var x := HeaderParts(l, p, chunks);
    HeaderIsConsistent(l, p, chunks);
    SlicesOfJoin(x, spare);
    assert x.lead[0] == l.id;
  }

  // ---------------------------------------------------------------------------------------------
  // Password hashes of commands
  // ---------------------------------------------------------------------------------------------

  predicate HasLead(h: seq<Byte>) {
    h != [] && InfoOffset(Command, h[0]) <= |h|
  }

  datatype Password = NoPassword | Password(level: nat, hash: nat)

  /** `get_command_pwd_hash`. */
  function GetPassword(h: seq<Byte>): Password
    requires HasLead(h)
  {
    var level := LowBits(h[0]);
    if level == 0 then NoPassword
    else
      var at := SizeLength(h[0]) + 2;
      Password(level, FromLe(h[at..at + HASH_SIZE]))
  }

  /** `set_command_pwd_hash`: the new header, None when the header would have to grow or shrink. */
  function SetPassword(h: seq<Byte>, level: nat, hash: nat): (r: Option<seq<Byte>>)
    requires HasLead(h) && level < 4
  {
    var auth := LowBits(h[0]);
    if auth != level && (auth == 0 || level == 0) then None
    else
      var h1 := h[0 := h[0] - auth + level];
      if level == 0 then Some(h1)
      else Some(Overwrite(h1, SizeLength(h1[0]) + 2, Le(hash, HASH_SIZE)))
  }

  lemma {:induction false} DescriptorKeepsFields(d: Byte, level: nat)
    requires level < 4
    ensures var d' := d - LowBits(d) + level;
            && 0 <= d' < 0x100
            && LowBits(d') == level && HeaderClass(d') == HeaderClass(d) && PayloadClass(d') == PayloadClass(d)
            && IsCompressed(d') == IsCompressed(d) && HasMarker(d') == HasMarker(d)
  {
    var q := d / 4;
    assert d - LowBits(d) == 4 * q;
    var d' := 4 * q + level;
    assert d' / 4 == q;
    assert d' / 16 == q / 4 == d / 16;
    assert d' / 64 == q / 16 == d / 64;
    assert d' / 128 == q / 32 == d / 128;
  }

  /** `x` with another level and another hash, in the same number of bytes. */
  function WithPassword(x: Parts, level: nat, hash: nat): Parts
    requires level < 4 && x.lead != []
  {
    x.(d := x.d - LowBits(x.d) + level,
       lead := if level == 0 then x.lead else [x.lead[0]] + Le(hash, HASH_SIZE))
  }

  /** Whatever header the password is replaced in, the new one is returned, and the size of the header is kept. */
  lemma {:induction false} SetPasswordIsSeen(h: seq<Byte>, level: nat, hash: nat)
    requires HasLead(h) && level < 4 && hash < 0x1_0000_0000_0000_0000 && SetPassword(h, level, hash).Some?
    ensures var g := SetPassword(h, level, hash).value;
            && |g| == |h| && HasLead(g) && HasSizeField(g) && HasSizeField(h)
            && HeaderSize(Command, g) == HeaderSize(Command, h)
            && GetPassword(g) == if level == 0 then NoPassword else Password(level, hash)
  {
    hide Le, FromLe, U32;
    DescriptorKeepsFields(h[0], level);
    var n := SizeLength(h[0]);
    var g := SetPassword(h, level, hash).value;
    assert g[1..1 + n] == h[1..1 + n];
    if level != 0 {
      assert g[n + 2..n + 2 + HASH_SIZE] == Le(hash, HASH_SIZE);
      PowersOf256();
      FromLeInvertsLe(hash, HASH_SIZE);
    }
  }

  /** Replacing a command's password changes the level bits and the hash and not one other byte. */
  lemma {:induction false} PasswordIsReplaced(x: Parts, spare: seq<Byte>, level: nat, hash: nat)
    requires Consistent(Command, x) && level < 4 && (LowBits(x.d) == 0 <==> level == 0)
    ensures HasLead(Join(x) + spare) && Consistent(Command, WithPassword(x, level, hash))
    ensures SetPassword(Join(x) + spare, level, hash) == Some(Join(WithPassword(x, level, hash)) + spare)
  {
    hide Le, Join;
    SlicesOfJoin(x, spare);
    DescriptorKeepsFields(x.d, level);
    var d := x.d - LowBits(x.d) + level;
    ReplaceFirst(x, d, spare);
    if level != 0 {
      ReplaceHash(x.(d := d), Le(hash, HASH_SIZE), spare);
    }
  }

  lemma {:induction false} PasswordIsRefused(x: Parts, spare: seq<Byte>, level: nat, hash: nat)
    requires Consistent(Command, x) && level < 4 && !(LowBits(x.d) == 0 <==> level == 0)
    ensures HasLead(Join(x) + spare)
    ensures SetPassword(Join(x) + spare, level, hash) == None
  {
    SlicesOfJoin(x, spare);
  }

  lemma {:induction false} ReplaceFirst(x: Parts, d: Byte, spare: seq<Byte>)
    ensures (Join(x) + spare)[0 := d] == Join(x.(d := d)) + spare
  {
  }

  lemma {:induction false} ReplaceHash(x: Parts, hash: seq<Byte>, spare: seq<Byte>)
    requires |x.lead| == 1 + |hash|
    ensures var at := |x.size| + 2;
            && at + |hash| <= |Join(x) + spare|
            && Overwrite(Join(x) + spare, at, hash) == Join(x.(lead := [x.lead[0]] + hash)) + spare
  {
  }

  /** `l` with another authentication level and another hash. */
  function Relabel(l: Lead, level: nat, hash: nat): Lead {
    l.(low := level, hash := if level == 0 then 0 else hash)
  }

  lemma {:induction false} RelabelledParts(l: Lead, p: Option<Meta>, chunks: seq<Byte>, level: nat, hash: nat)
    requires ValidHeader(l, p, chunks) && l.kind.Command?
    requires level < 4 && hash < 0x1_0000_0000_0000_0000 && (l.low == 0 <==> level == 0)
    ensures ValidHeader(Relabel(l, level, hash), p, chunks)
    ensures HeaderParts(Relabel(l, level, hash), p, chunks) == WithPassword(HeaderParts(l, p, chunks), level, hash)
  {
    var x := HeaderParts(l, p, chunks);
    assert |Body(Relabel(l, level, hash), p, chunks)| == |Body(l, p, chunks)|;
    assert HeaderParts(Relabel(l, level, hash), p, chunks) ==
           x.(d := x.d - l.low + level, lead := if level == 0 then x.lead else [x.lead[0]] + Le(hash, HASH_SIZE));
    LowBitsOfHeader(l, p, chunks);
  }

  /**
   On a built command, `set_command_pwd_hash` succeeds exactly when the header need not grow or shrink,
   and the result is then the header that would have been built with the new level and hash.
   */
  lemma {:induction false} SetPasswordRebuilds(l: Lead, p: Option<Meta>, chunks: seq<Byte>, spare: seq<Byte>,
                                               level: nat, hash: nat)
    requires ValidHeader(l, p, chunks) && l.kind.Command?
    requires level < 4 && hash < 0x1_0000_0000_0000_0000
    ensures HasLead(HeaderBytes(l, p, chunks) + spare)
    ensures (l.low == 0 <==> level == 0) ==>
              && ValidHeader(Relabel(l, level, hash), p, chunks)
              && SetPassword(HeaderBytes(l, p, chunks) + spare, level, hash)
                 == Some(HeaderBytes(Relabel(l, level, hash), p, chunks) + spare)
    ensures !(l.low == 0 <==> level == 0) ==>
              SetPassword(HeaderBytes(l, p, chunks) + spare, level, hash) == None
  {
    var x := HeaderParts(l, p, chunks);
    HeaderIsConsistent(l, p, chunks);
    LowBitsOfHeader(l, p, chunks);
    if l.low == 0 <==> level == 0 {
      PasswordIsReplaced(x, spare, level, hash);
      RelabelledParts(l, p, chunks, level, hash);
    } else {
      PasswordIsRefused(x, spare, level, hash);
    }
  }

  lemma {:induction false} LowBitsOfHeader(l: Lead, p: Option<Meta>, chunks: seq<Byte>)
    requires ValidHeader(l, p, chunks)
    ensures LowBits(HeaderParts(l, p, chunks).d) == l.low
  {
    DescriptorOfHeader(l, p, chunks);
  }

  lemma {:induction false} PasswordReadsBack(l: Lead, p: Option<Meta>, chunks: seq<Byte>, spare: seq<Byte>)
    requires ValidHeader(l, p, chunks) && l.kind.Command?
    ensures var h := HeaderBytes(l, p, chunks) + spare;
            HasLead(h) && GetPassword(h) == if l.low == 0 then NoPassword else Password(l.low, l.hash)
  {
    var x := HeaderParts(l, p, chunks);
    var h := HeaderBytes(l, p, chunks) + spare;
    HeaderIsConsistent(l, p, chunks);
    DescriptorOfHeader(l, p, chunks);
    SlicesOfJoin(x, spare);
    if l.low != 0 {
      SliceOfSlice(h, 1 + |x.size|, x.lead, 1, 1 + HASH_SIZE);
      assert x.lead[1..] == Le(l.hash, HASH_SIZE);
      PowersOf256();
      FromLeInvertsLe(l.hash, HASH_SIZE);
    }
  }
}
