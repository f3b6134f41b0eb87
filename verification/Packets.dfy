/**
 Whole messages on the wire: a header, its payload and the optional integrity marker. Readers recover
 exactly the message whatever the schedule, and know its end without reading past it.
 */
module Packets {
  import opened Bytes
  import opened Headers
  import opened Devices
  import opened Reading

  datatype Packet = Packet(kind: Kind, header: seq<Byte>, payload: seq<Byte>)

  predicate IsLoneDescriptor(p: Packet)
    requires p.header != []
  {
    p.kind.Response? && SizeLength(p.header[0]) == 0
  }

  /** The payload is the one that the payload information announces. */
  predicate PayloadFits(p: Packet)
    requires p.header != []
  {
    match GetPayloadInfo(p.kind, p.header, [])
    case NoPayload => p.payload == []
    case BadPayload => false
    case PayloadInfo(m, _) => |p.payload| == m.size
  }

  /** A header has the size it announces, and only an OK response may be a lone descriptor. */
  predicate WellFormed(p: Packet)
    ensures WellFormed(p) ==> HasSizeField(p.header)
  {
    && HasSizeField(p.header)
    && HeaderSize(p.kind, p.header) == |p.header|
    && (if IsLoneDescriptor(p) then LowBits(p.header[0]) == 0 && p.payload == []
        else 1 + SizeLength(p.header[0]) < |p.header| && PayloadFits(p))
  }

  function MarkerBytes(d: Byte): seq<Byte> {
    if HasMarker(d) then [INTEGRITY_MARKER] else []
  }

  function Wire(p: Packet): seq<Byte>
    requires p.header != []
  {
    p.header + p.payload + MarkerBytes(p.header[0])
  }

  /** The header buffer after reading: headers of more than 12 bytes fill a buffer of their own. */
  function Buffer(header: seq<Byte>, aux: seq<Byte>): seq<Byte>
    requires |aux| == AUX_DATA_SIZE
  {
    if |header| > AUX_DATA_SIZE then header else header + aux[|header|..]
  }

  /** A reader that has read all of `p`. */
  function Received(p: Packet, junk: Byte, aux: seq<Byte>): Reader
    requires |aux| == AUX_DATA_SIZE
  {
    Completed(AtMarker(p, junk, aux))
  }

  // ---------------------------------------------------------------------------------------------
  // Reading a message part by part
  // ---------------------------------------------------------------------------------------------

  /** The reader is about to read what follows the size field. */
  function AtBody(p: Packet, junk: Byte, aux: seq<Byte>): Reader
    requires WellFormed(p) && !IsLoneDescriptor(p) && |aux| == AUX_DATA_SIZE
  {
    var n := 1 + SizeLength(p.header[0]);
    var start := p.header[..n] + aux[n..];
    Reader(p.kind, junk, ReadHeader, n, |p.header| - n, Configure(start, n, |p.header|, junk), [])
  }

  /** The reader has the header and is about to read the payload. */
  function AtPayload(p: Packet, junk: Byte, aux: seq<Byte>): Reader
    requires |aux| == AUX_DATA_SIZE
  {
    Reader(p.kind, junk, ReadPayload, 0, |p.payload|, Buffer(p.header, aux), Repeat(junk, |p.payload|))
  }

  /** The reader has the header and the payload and may still expect the marker. */
  function AtMarker(p: Packet, junk: Byte, aux: seq<Byte>): Reader
    requires |aux| == AUX_DATA_SIZE
  {
    Reader(p.kind, junk, ReadMarker, 0, 0, Buffer(p.header, aux), p.payload)
  }

  lemma {:induction false} BufferKeepsHeader(p: Packet, aux: seq<Byte>)
    requires WellFormed(p) && |aux| == AUX_DATA_SIZE
    ensures var b := Buffer(p.header, aux);
            && AUX_DATA_SIZE <= |b| && |p.header| <= |b| && b[..|p.header|] == p.header && b[0] == p.header[0]
            && HeaderSize(p.kind, b) == |p.header|
  {
    var b := Buffer(p.header, aux);
    assert b[..|p.header|] == p.header == p.header[..|p.header|];
    assert b[0] == b[..|p.header|][0];
    SizeSurvives(p.kind, p.header, b, |p.header|);
  }

  lemma {:induction false} StatesAreValid(p: Packet, junk: Byte, aux: seq<Byte>)
    requires WellFormed(p) && |aux| == AUX_DATA_SIZE
    ensures Valid(AtMarker(p, junk, aux)) && Valid(Received(p, junk, aux))
    ensures p.payload != [] ==> Valid(AtPayload(p, junk, aux))
    ensures !IsLoneDescriptor(p) ==> Valid(AtBody(p, junk, aux))
  {
    BufferKeepsHeader(p, aux);
    if !IsLoneDescriptor(p) {
      var n := 1 + SizeLength(p.header[0]);
      var g := AtBody(p, junk, aux).header;
      assert g[..n] == (p.header[..n] + aux[n..])[..n] == p.header[..n];
      SizeSurvives(p.kind, p.header, g, n);
    }
  }

  lemma {:induction false} ReadsLoneDescriptor(p: Packet, junk: Byte, aux: seq<Byte>)
    requires WellFormed(p) && |aux| == AUX_DATA_SIZE && IsLoneDescriptor(p)
    requires Valid(AtMarker(p, junk, aux))
    ensures Feed(Fresh(p.kind, junk, aux), p.header) == Settle(AtMarker(p, junk, aux))
  {
    var r := Settle(Fresh(p.kind, junk, aux));
    assert r.header[0 := p.header[0]] == p.header + aux[1..];
    assert Receive(r, p.header) == AtMarker(p, junk, aux);
    ReceiveIsFeed(r, p.header);
    FeedSettled(Fresh(p.kind, junk, aux), p.header);
  }

  lemma {:induction false} ReadsSizeless(p: Packet, junk: Byte, aux: seq<Byte>)
    requires WellFormed(p) && |aux| == AUX_DATA_SIZE && !IsLoneDescriptor(p) && SizeLength(p.header[0]) == 0
    requires Valid(AtBody(p, junk, aux))
    ensures Feed(Fresh(p.kind, junk, aux), p.header[..1]) == AtBody(p, junk, aux)
  {
    var first := p.header[..1];
    var r := Settle(Fresh(p.kind, junk, aux));
    assert r.header[0 := first[0]] == first + aux[1..];
    assert Receive(r, first) == AtBody(p, junk, aux);
    ReceiveIsFeed(r, first);
    FeedSettled(Fresh(p.kind, junk, aux), first);
  }

  lemma {:induction false} ReadsSize(p: Packet, junk: Byte, aux: seq<Byte>)
    requires WellFormed(p) && |aux| == AUX_DATA_SIZE && SizeLength(p.header[0]) > 0
    requires Valid(AtBody(p, junk, aux))
    ensures Feed(Fresh(p.kind, junk, aux), p.header[..1 + SizeLength(p.header[0])]) == AtBody(p, junk, aux)
  {
    hide Feed, GetPayloadInfo, Repeat;
    var n := SizeLength(p.header[0]);
    var first, size := p.header[..1], p.header[1..1 + n];
    var r := Settle(Fresh(p.kind, junk, aux));
    var s := Receive(r, first);
    assert s == Reader(p.kind, junk, ReadSize, 1, n, aux[0 := p.header[0]], []);
    var start := p.header[..1 + n] + aux[1 + n..];
    assert Overwrite(s.header, 1, size) == start;
    assert start[..1 + n] == p.header[..1 + n];
    SizeSurvives(p.kind, p.header, start, 1 + n);
    assert Receive(s, size) == AtBody(p, junk, aux);
    ReceiveIsFeed(r, first);
    ReceiveIsFeed(s, size);
    FeedJoins(r, first, size);
    assert first + size == p.header[..1 + n];
    FeedSettled(Fresh(p.kind, junk, aux), p.header[..1 + n]);
  }

  lemma {:induction false} MetaIgnoresSpare(h: seq<Byte>, spare: seq<Byte>, offset: nat, w: nat, compressed: bool)
    requires offset + (if compressed then 2 * w + 1 else w) <= |h|
    ensures MetaAt(h + spare, offset, w, compressed) == MetaAt(h, offset, w, compressed)
  {
    hide FromLe;
    if compressed {
      assert (h + spare)[offset + 1..offset + 1 + w] == h[offset + 1..offset + 1 + w];
      assert (h + spare)[offset + 1 + w..offset + 1 + 2 * w] == h[offset + 1 + w..offset + 1 + 2 * w];
    } else {
      assert (h + spare)[offset..offset + w] == h[offset..offset + w];
    }
  }

  lemma {:induction false} InfoIgnoresSpare(kind: Kind, h: seq<Byte>, spare: seq<Byte>)
    requires h != []
    requires PayloadClass(h[0]) != 0 ==>
               InfoOffset(kind, h[0]) + InfoLength(PayloadClass(h[0]), IsCompressed(h[0])) <= |h|
    ensures GetPayloadInfo(kind, h + spare, []) == GetPayloadInfo(kind, h, [])
  {
    hide InfoOffset, ClassWidth, MetaAt, IsCompressed, PayloadClass;
    if PayloadClass(h[0]) != 0 {
      MetaIgnoresSpare(h, spare, InfoOffset(kind, h[0]), ClassWidth(PayloadClass(h[0])), IsCompressed(h[0]));
    }
  }

  lemma {:induction false} BodyFillsBuffer(header: seq<Byte>, n: nat, junk: Byte, aux: seq<Byte>)
    requires n <= |header| && n <= |aux| == AUX_DATA_SIZE
    ensures Overwrite(Configure(header[..n] + aux[n..], n, |header|, junk), n, header[n..]) == Buffer(header, aux)
  {
    var start := header[..n] + aux[n..];
    var g := Configure(start, n, |header|, junk);
    assert start[..n] == header[..n];
    assert g[..n] == header[..n];
    if |header| > AUX_DATA_SIZE {
      assert g[..n] + header[n..] + g[|header|..] == header;
    } else {
      assert g[..n] + header[n..] + g[|header|..] == header + aux[|header|..];
    }
  }

  lemma {:induction false} InfoOfBuffer(p: Packet, aux: seq<Byte>)
    requires |aux| == AUX_DATA_SIZE && p.header != [] && !GetPayloadInfo(p.kind, p.header, []).BadPayload?
    ensures GetPayloadInfo(p.kind, Buffer(p.header, aux), []) == GetPayloadInfo(p.kind, p.header, [])
  {
    var b := Buffer(p.header, aux);
    InfoIgnoresSpare(p.kind, p.header, b[|p.header|..]);
    assert p.header + b[|p.header|..] == b;
  }

  lemma {:induction false} ReadsBody(p: Packet, junk: Byte, aux: seq<Byte>)
    requires WellFormed(p) && |aux| == AUX_DATA_SIZE && !IsLoneDescriptor(p)
    requires Valid(AtBody(p, junk, aux)) && Valid(AtMarker(p, junk, aux))
    requires p.payload != [] ==> Valid(AtPayload(p, junk, aux))
    ensures Feed(AtBody(p, junk, aux), p.header[1 + SizeLength(p.header[0])..])
            == if p.payload == [] then Settle(AtMarker(p, junk, aux)) else AtPayload(p, junk, aux)
  {
    hide GetPayloadInfo, Configure;
    var n := 1 + SizeLength(p.header[0]);
    var r := AtBody(p, junk, aux);
    var rest := p.header[n..];
    var b := Buffer(p.header, aux);
    BodyFillsBuffer(p.header, n, junk, aux);
    InfoOfBuffer(p, aux);
    assert Receive(r, rest) == if p.payload == [] then AtMarker(p, junk, aux) else AtPayload(p, junk, aux);
    ReceiveIsFeed(r, rest);
  }

  lemma {:induction false} ReadsPayload(p: Packet, junk: Byte, aux: seq<Byte>)
    requires |aux| == AUX_DATA_SIZE && p.payload != []
    requires Valid(AtPayload(p, junk, aux)) && Valid(AtMarker(p, junk, aux))
    ensures Feed(AtPayload(p, junk, aux), p.payload) == Settle(AtMarker(p, junk, aux))
  {
    var r := AtPayload(p, junk, aux);
    assert Overwrite(r.payload, 0, p.payload) == p.payload;
    assert Receive(r, p.payload) == AtMarker(p, junk, aux);
    ReceiveIsFeed(r, p.payload);
  }

  lemma {:induction false} ReadsMarker(p: Packet, junk: Byte, aux: seq<Byte>)
    requires WellFormed(p) && |aux| == AUX_DATA_SIZE
    requires Valid(AtMarker(p, junk, aux))
    ensures Feed(AtMarker(p, junk, aux), MarkerBytes(p.header[0])) == Received(p, junk, aux)
  {
    BufferKeepsHeader(p, aux);
    var r := AtMarker(p, junk, aux);
    if HasMarker(p.header[0]) {
      ReceiveIsFeed(r, [INTEGRITY_MARKER]);
    }
  }

  lemma {:induction false} ReadsStart(p: Packet, junk: Byte, aux: seq<Byte>)
    requires WellFormed(p) && |aux| == AUX_DATA_SIZE && !IsLoneDescriptor(p)
    requires Valid(AtBody(p, junk, aux))
    ensures Feed(Fresh(p.kind, junk, aux), p.header[..1 + SizeLength(p.header[0])]) == AtBody(p, junk, aux)
  {
    if SizeLength(p.header[0]) == 0 {
      ReadsSizeless(p, junk, aux);
    } else {
      ReadsSize(p, junk, aux);
    }
  }

  lemma {:induction false} ReadsHeader(p: Packet, junk: Byte, aux: seq<Byte>)
    requires WellFormed(p) && |aux| == AUX_DATA_SIZE
    requires Valid(AtMarker(p, junk, aux)) && (p.payload != [] ==> Valid(AtPayload(p, junk, aux)))
    ensures Feed(Fresh(p.kind, junk, aux), p.header)
            == if p.payload == [] then Settle(AtMarker(p, junk, aux)) else AtPayload(p, junk, aux)
  {
    hide Feed, AtMarker, AtPayload, AtBody, Settle, GetPayloadInfo;
    if IsLoneDescriptor(p) {
      ReadsLoneDescriptor(p, junk, aux);
    } else {
      StatesAreValid(p, junk, aux);
      var start, body := p.header[..1 + SizeLength(p.header[0])], p.header[1 + SizeLength(p.header[0])..];
      ReadsStart(p, junk, aux);
      ReadsBody(p, junk, aux);
      FeedJoins(Fresh(p.kind, junk, aux), start, body);
      assert start + body == p.header;
    }
  }

  /** A well-formed message leads the reader, byte by byte, to completion with its header and payload. */
  lemma {:induction false} FeedReceives(p: Packet, junk: Byte, aux: seq<Byte>)
    requires WellFormed(p) && |aux| == AUX_DATA_SIZE
    ensures Feed(Fresh(p.kind, junk, aux), Wire(p)) == Received(p, junk, aux)
  {
    StatesAreValid(p, junk, aux);
    var r := Fresh(p.kind, junk, aux);
    var m := AtMarker(p, junk, aux);
    var tail := MarkerBytes(p.header[0]);
    assert Feed(r, p.header + p.payload) == Settle(m) by {
      ReadsHeader(p, junk, aux);
      if p.payload == [] {
        assert p.header + p.payload == p.header;
      } else {
        ReadsPayload(p, junk, aux);
        FeedJoins(r, p.header, p.payload);
      }
    }
    FeedJoins(r, p.header + p.payload, tail);
    FeedSettled(m, tail);
    ReadsMarker(p, junk, aux);
  }

  // ---------------------------------------------------------------------------------------------
  // Where a message ends
  // ---------------------------------------------------------------------------------------------

  /** The header without the spare bytes of its buffer. */
  function HeaderRead(r: Reader): seq<Byte>
    requires Sized(r)
  {
    r.header[..HeaderSize(r.kind, r.header)]
  }

  /** The bytes read so far, as the state shows them. */
  function Shown(r: Reader): seq<Byte>
    requires Valid(r) && !r.phase.ReadError?
  {
    match r.phase
    case Created => []
    case ReadDescriptor => []
    case ReadSize => r.header[..r.pos]
    case ReadHeader => r.header[..r.pos]
    case ReadPayload => HeaderRead(r) + r.payload[..r.pos]
    case ReadMarker => HeaderRead(r) + r.payload
    case ReadDone => HeaderRead(r) + r.payload + MarkerBytes(r.header[0])
  }

  lemma {:induction false} OverwriteShows(s: seq<Byte>, at: nat, bytes: seq<Byte>)
    requires at + |bytes| <= |s|
    ensures Overwrite(s, at, bytes)[..at] == s[..at]
    ensures Overwrite(s, at, bytes)[..at + |bytes|] == s[..at] + bytes
  {
  }

  lemma {:induction false} DescriptorShows(r: Reader, b: Byte)
    requires Valid(r) && r.phase.ReadDescriptor? && !ReceiveDescriptor(r, b).phase.ReadError?
    ensures Shown(ReceiveDescriptor(r, b)) == [b]
  {
    hide Repeat, GetPayloadInfo;
    var h := r.header[0 := b];
    assert h[..1] == [b];
  }

  lemma {:induction false} SizeShows(r: Reader, bytes: seq<Byte>)
    requires Valid(r) && r.phase.ReadSize? && 0 < |bytes| <= r.remains && !ReceiveSize(r, bytes).phase.ReadError?
    ensures Shown(ReceiveSize(r, bytes)) == Shown(r) + bytes
  {
    hide HeaderSize, Overwrite, Repeat;
    OverwriteShows(r.header, r.pos, bytes);
  }

  lemma {:induction false} HeaderShows(r: Reader, bytes: seq<Byte>)
    requires Valid(r) && r.phase.ReadHeader? && 0 < |bytes| <= r.remains && !ReceiveHeader(r, bytes).phase.ReadError?
    ensures Shown(ReceiveHeader(r, bytes)) == Shown(r) + bytes
  {
    hide GetPayloadInfo, Repeat, HeaderSize, Overwrite;
    OverwriteShows(r.header, r.pos, bytes);
    SizeSurvives(r.kind, r.header, Overwrite(r.header, r.pos, bytes), r.pos);
  }

  lemma {:induction false} PayloadShows(r: Reader, bytes: seq<Byte>)
    requires Valid(r) && r.phase.ReadPayload? && 0 < |bytes| <= r.remains
    ensures Shown(ReceivePayload(r, bytes)) == Shown(r) + bytes
  {
    hide Overwrite, HeaderSize;
    OverwriteShows(r.payload, r.pos, bytes);
    var p := Overwrite(r.payload, r.pos, bytes);
    assert p[..|p|] == p;
  }

  lemma {:induction false} ReceiveShows(r: Reader, bytes: seq<Byte>)
    requires Valid(r) && 0 < |bytes| <= Wanted(r) && !Receive(r, bytes).phase.ReadError?
    ensures Shown(Receive(r, bytes)) == Shown(r) + bytes
  {
    hide ReceiveDescriptor, ReceiveSize, ReceiveHeader, ReceivePayload, HeaderSize;
    match r.phase {
      case ReadDescriptor => DescriptorShows(r, bytes[0]);
      case ReadSize => SizeShows(r, bytes);
      case ReadHeader => HeaderShows(r, bytes);
      case ReadPayload => PayloadShows(r, bytes);
      case ReadMarker =>
    }
  }

  lemma {:induction false} SettleShows(r: Reader)
    requires Valid(r) && !r.phase.ReadError?
    ensures !Settle(r).phase.ReadError? && Shown(Settle(r)) == Shown(r)
  {
  }

  lemma {:induction false} FinishedStays(r: Reader, bytes: seq<Byte>)
    requires Valid(r)
    ensures Finished(r) ==> Feed(r, bytes) == r
  {
  }

  lemma {:induction false} FeedShows(r: Reader, bytes: seq<Byte>)
    requires Valid(r) && !r.phase.ReadError? && !Feed(r, bytes).phase.ReadError?
    ensures Shown(Feed(r, bytes)) <= Shown(r) + bytes
    ensures !Finished(Feed(r, bytes)) ==> Shown(Feed(r, bytes)) == Shown(r) + bytes
    decreases |bytes|
  {
    hide Shown, Receive, Wanted, Settle, Valid;
    var s := Settle(r);
    SettleShows(r);
    if bytes != [] && !Finished(s) {
      var next := Receive(s, bytes[..1]);
      FinishedStays(next, bytes[1..]);
      ReceiveShows(s, bytes[..1]);
      FeedShows(next, bytes[1..]);
      assert Shown(s) + bytes[..1] + bytes[1..] == Shown(s) + bytes;
    }
  }

  /** A call of `read` adds exactly the bytes it takes from the device, and counts them. */
  lemma {:induction false} ReadShows(r: Reader, source: Source)
    requires Valid(r) && !Finished(r) && !Read(r, source).reader.phase.ReadError?
    ensures var c := Read(r, source);
            c.total <= |source.input| && Shown(c.reader) == Shown(r) + source.input[..c.total]
    decreases Rank(r.phase), r.remains
  {
    hide Shown;
    if Settle(r) != r {
      SettleShows(r);
      if !Settle(r).phase.ReadDone? {
        ReadShows(Settle(r), source);
      }
    } else {
      var t := Take(source, Wanted(r));
      if t.result.Ok? {
        DeliveryShows(r, source, t);
      }
    }
  }

  lemma {:induction false} DeliveryShows(r: Reader, source: Source, t: Taken)
    requires Valid(r) && !Finished(r) && Settle(r) == r && !Read(r, source).reader.phase.ReadError?
    requires t == Take(source, Wanted(r)) && t.result.Ok?
    ensures var c := Read(r, source);
            c.total <= |source.input| && Shown(c.reader) == Shown(r) + source.input[..c.total]
    decreases Rank(r.phase), r.remains, 0
  {
    hide Shown, Take, Receive, Wanted, Settle, Valid;
    var s := Receive(r, t.bytes);
    ReceiveProgresses(r, t.bytes);
    ReceiveShows(r, t.bytes);
    assert source.input[..|t.bytes|] == t.bytes;
    if !Finished(s) && !StopsEarly(r, s) {
      ReadShows(s, t.source);
      var n := Read(s, t.source).total;
      assert source.input[..|t.bytes| + n] == t.bytes + t.source.input[..n];
    }
  }

  lemma {:induction false} ReceivedShows(p: Packet, junk: Byte, aux: seq<Byte>)
    requires WellFormed(p) && |aux| == AUX_DATA_SIZE
    ensures Valid(Received(p, junk, aux)) && Shown(Received(p, junk, aux)) == Wire(p)
  {
    StatesAreValid(p, junk, aux);
    BufferKeepsHeader(p, aux);
  }

  /** The reader is not finished before the last byte of a well-formed message. */
  lemma {:induction false} NotFinishedEarly(p: Packet, junk: Byte, aux: seq<Byte>, k: nat)
    requires WellFormed(p) && |aux| == AUX_DATA_SIZE && k < |Wire(p)|
    ensures !Finished(Feed(Fresh(p.kind, junk, aux), Wire(p)[..k]))
  {
    hide Feed, Wire, WellFormed;
    var r := Fresh(p.kind, junk, aux);
    var s := Feed(r, Wire(p)[..k]);
    if Finished(s) {
      FeedJoins(r, Wire(p)[..k], Wire(p)[k..]);
      FinishedStays(s, Wire(p)[k..]);
      assert Wire(p)[..k] + Wire(p)[k..] == Wire(p);
      FeedReceives(p, junk, aux);
      assert s == Received(p, junk, aux);
      ReceivedShows(p, junk, aux);
      FeedShows(r, Wire(p)[..k]);
      assert false;
    }
  }

  lemma {:induction false} PrefixFreeOrdered(p: Packet, q: Packet, aux: seq<Byte>)
    requires WellFormed(p) && WellFormed(q) && p.kind == q.kind && |aux| == AUX_DATA_SIZE
    requires |Wire(p)| <= |Wire(q)| && Wire(p) == Wire(q)[..|Wire(p)|]
    ensures p == q
  {
    FeedReceives(p, 0, aux);
    ReceivedShows(p, 0, aux);
    if |Wire(p)| < |Wire(q)| {
      NotFinishedEarly(q, 0, aux, |Wire(p)|);
      assert false;
    }
    assert Wire(q)[..|Wire(p)|] == Wire(q);
    FeedReceives(q, 0, aux);
    BufferKeepsHeader(p, aux);
    BufferKeepsHeader(q, aux);
  }

  /**
   The format is self-delimiting: no well-formed message is a proper prefix of another one, and two
   streams that start with well-formed messages start with the same one.
   */
  lemma {:induction false} PrefixFree(p: Packet, q: Packet, x: seq<Byte>, y: seq<Byte>)
    requires WellFormed(p) && WellFormed(q) && p.kind == q.kind
    requires Wire(p) + x == Wire(q) + y
    ensures p == q && x == y
  {
    var aux := Repeat(0, AUX_DATA_SIZE);
    var s := Wire(p) + x;
    assert s[..|Wire(p)|] == Wire(p) && s[..|Wire(q)|] == Wire(q);
    assert s[|Wire(p)|..] == x && s[|Wire(q)|..] == y;
    if |Wire(p)| <= |Wire(q)| {
      assert s[..|Wire(q)|][..|Wire(p)|] == s[..|Wire(p)|];
      PrefixFreeOrdered(p, q, aux);
    } else {
      assert s[..|Wire(p)|][..|Wire(q)|] == s[..|Wire(q)|];
      PrefixFreeOrdered(q, p, aux);
    }
  }

  // ---------------------------------------------------------------------------------------------
  // What a reader accepts
  // ---------------------------------------------------------------------------------------------

  /** Once the header is there, the payload has the size that the header announces. */
  ghost predicate Announced(r: Reader) {
    match r.phase
    case ReadHeader => Sized(r) && (r.kind.Response? ==> SizeLength(r.header[0]) != 0)
    case ReadPayload => Sized(r) && HasAnnounced(r.kind, r.header, r.payload)
    case ReadMarker => Sized(r) && HasAnnounced(r.kind, r.header, r.payload)
    case ReadDone => Sized(r) && HasAnnounced(r.kind, r.header, r.payload)
    case _ => true
  }

  ghost predicate HasAnnounced(kind: Kind, h: seq<Byte>, payload: seq<Byte>)
    requires HasSizeField(h)
  {
    if kind.Response? && SizeLength(h[0]) == 0 then LowBits(h[0]) == 0 && payload == []
    else
      && 1 + SizeLength(h[0]) < HeaderSize(kind, h)
      && match GetPayloadInfo(kind, h, [])
         case NoPayload => payload == []
         case BadPayload => false
         case PayloadInfo(m, _) => |payload| == m.size
  }

  lemma {:induction false} HeaderAnnounces(r: Reader, bytes: seq<Byte>)
    requires Valid(r) && Announced(r) && r.phase.ReadHeader? && 0 < |bytes| <= r.remains
    ensures Announced(ReceiveHeader(r, bytes))
  {
    hide GetPayloadInfo, HeaderSize, Overwrite;
    var h := Overwrite(r.header, r.pos, bytes);
    OverwriteShows(r.header, r.pos, bytes);
    SizeSurvives(r.kind, r.header, h, r.pos);
    assert h[0] == h[..r.pos][0] == r.header[0];
  }

  lemma {:induction false} SizeAnnounces(r: Reader, bytes: seq<Byte>)
    requires Valid(r) && r.phase.ReadSize? && 0 < |bytes| <= r.remains
    ensures Announced(ReceiveSize(r, bytes))
  {
    hide GetPayloadInfo, HeaderSize, Overwrite, Repeat;
    var h := Overwrite(r.header, r.pos, bytes);
    OverwriteShows(r.header, r.pos, bytes);
    assert h[0] == h[..r.pos][0] == r.header[0];
  }

  lemma {:induction false} ReceiveAnnounces(r: Reader, bytes: seq<Byte>)
    requires Valid(r) && Announced(r) && 0 < |bytes| <= Wanted(r)
    ensures Announced(Receive(r, bytes))
  {
    hide GetPayloadInfo, ReceiveSize, ReceiveHeader;
    match r.phase {
      case ReadSize => SizeAnnounces(r, bytes);
      case ReadHeader => HeaderAnnounces(r, bytes);
      case _ =>
    }
  }

  lemma {:induction false} FeedAnnounces(r: Reader, bytes: seq<Byte>)
    requires Valid(r) && Announced(r)
    ensures Announced(Feed(r, bytes))
    decreases |bytes|
  {
    hide GetPayloadInfo, Receive, HasAnnounced;
    var s := Settle(r);
    if bytes != [] && !Finished(s) {
      ReceiveAnnounces(s, bytes[..1]);
      FeedAnnounces(Receive(s, bytes[..1]), bytes[1..]);
    }
  }

  /** The message in the buffers of a reader. */
  function PacketRead(r: Reader): Packet
    requires Sized(r)
  {
    Packet(r.kind, HeaderRead(r), r.payload)
  }

  /** The header is long enough for the payload information that its descriptor announces. */
  predicate HoldsInfo(p: Packet)
    requires p.header != []
  {
    InfoOffset(p.kind, p.header[0]) + InfoLength(PayloadClass(p.header[0]), IsCompressed(p.header[0])) <= |p.header|
  }

  lemma {:induction false} CutHeader(r: Reader)
    requires Sized(r)
    ensures var p := PacketRead(r);
            && HasSizeField(p.header) && p.header[0] == r.header[0]
            && HeaderSize(r.kind, p.header) == |p.header|
  {
    var n := HeaderSize(r.kind, r.header);
    SizeSurvives(r.kind, r.header, r.header[..n], n);
  }

  lemma {:induction false} DoneIsWellFormed(r: Reader)
    requires Sized(r) && HasAnnounced(r.kind, r.header, r.payload)
    ensures PacketRead(r).header != []
    ensures WellFormed(PacketRead(r)) <==>
              IsLoneDescriptor(PacketRead(r)) || PayloadClass(r.header[0]) == 0 || HoldsInfo(PacketRead(r))
  {
    hide HeaderSize, SizeLength, InfoOffset, InfoLength;
    CutHeader(r);
    var p := PacketRead(r);
    if !IsLoneDescriptor(p) && (PayloadClass(r.header[0]) == 0 || HoldsInfo(p)) {
      assert p.header + r.header[|p.header|..] == r.header;
      InfoIgnoresSpare(r.kind, p.header, r.header[|p.header|..]);
    }
  }

  /**
   What it takes to complete: the bytes start with the header and the payload that the reader then holds
   and, if the header announces it, with the integrity marker. They are a well-formed message if and only
   if the header holds its payload information, which the source looks up in the whole header buffer.
   */
  lemma {:induction false} DoneIsMessage(kind: Kind, junk: Byte, aux: seq<Byte>, bytes: seq<Byte>)
    requires |aux| == AUX_DATA_SIZE && Feed(Fresh(kind, junk, aux), bytes).phase.ReadDone?
    ensures var r := Feed(Fresh(kind, junk, aux), bytes);
            && r.kind == kind && Sized(r) && PacketRead(r).header != []
            && HeaderRead(r) + r.payload + (if HasMarker(r.header[0]) then [0xC3] else []) <= bytes
            && (WellFormed(PacketRead(r)) <==>
                  IsLoneDescriptor(PacketRead(r)) || PayloadClass(r.header[0]) == 0 || HoldsInfo(PacketRead(r)))
  {
    hide Feed, HasAnnounced, WellFormed, IsLoneDescriptor, HoldsInfo;
    var first := Fresh(kind, junk, aux);
    FeedShows(first, bytes);
    FeedAnnounces(first, bytes);
    DoneIsWellFormed(Feed(first, bytes));
    assert [] + bytes == bytes;
  }

  /** The buffer of a reader whose header ends before the size of its payload. */
  ghost predicate IsShort(h: seq<Byte>) {
    |h| == AUX_DATA_SIZE && h[0] == 0x14 && h[1] == 1 && h[3] == 0
  }

  lemma {:induction false} ShortInfo(h: seq<Byte>)
    requires IsShort(h)
    ensures HasSizeField(h) && HeaderSize(Command, h) == 3 && SizeLength(h[0]) == 1 && !HasMarker(h[0])
    ensures GetPayloadInfo(Command, h, []) == PayloadInfo(Meta(0, 0, 0), None)
    ensures GetPayloadInfo(Command, h[..3], []) == BadPayload
  {
    assert h[1..2] == [1] && h[3..4] == [0];
    assert FromLe([0]) == 0 && FromLe([1]) == 1;
  }

  lemma {:induction false} ShortSizeIsRead(r: Reader, b: Reader)
    requires Valid(r) && r.kind.Command? && r.phase.ReadSize? && r.pos == 1 && r.remains == 1
    requires var h := r.header[1 := 1]; IsShort(h) && b == Reader(Command, r.junk, ReadHeader, 2, 1, h, [])
    ensures Receive(r, [1]) == b
  {
    hide GetPayloadInfo, FromLe;
    var h := r.header[1 := 1];
    ShortInfo(h);
    assert Overwrite(r.header, 1, [1]) == h;
  }

  lemma {:induction false} ShortHeaderIsRead(r: Reader)
    requires Valid(r) && r.kind.Command? && r.phase.ReadHeader? && r.pos == 2 && r.remains == 1 && IsShort(r.header)
    ensures Settle(Receive(r, [7])) == Completed(r.(header := r.header[2 := 7]))
  {
    hide GetPayloadInfo, FromLe;
    var h := r.header[2 := 7];
    ShortInfo(h);
    assert Overwrite(r.header, 2, [7]) == h;
  }

  /** A command whose header ends before the size of its payload: that is taken from a spare byte of the buffer. */
  lemma {:induction false} ShortHeaderIsAccepted(junk: Byte, aux: seq<Byte>)
    requires |aux| == AUX_DATA_SIZE && aux[3] == 0
    ensures var r := Feed(Fresh(Command, junk, aux), [0x14, 1, 7]);
            r.phase.ReadDone? && Sized(r) && !WellFormed(PacketRead(r))
  {
    hide Feed, Repeat, GetPayloadInfo, FromLe, Receive, HeaderSize;
    var a := Settle(Fresh(Command, junk, aux));
    var h := aux[0 := 0x14];
    var b := Reader(Command, junk, ReadSize, 1, 1, h, []);
    var c := Reader(Command, junk, ReadHeader, 2, 1, h[1 := 1], []);
    DescriptorOfShort(a, b);
    ShortInfo(c.header);
    ShortSizeIsRead(b, c);
    ShortHeaderIsRead(c);
    ReceiveIsFeed(a, [0x14]);
    ReceiveIsFeed(b, [1]);
    ReceiveIsFeed(c, [7]);
    FeedJoins(a, [0x14], [1]);
    FeedJoins(a, [0x14] + [1], [7]);
    assert [0x14] + [1] + [7] == [0x14, 1, 7];
    FeedSettled(Fresh(Command, junk, aux), [0x14, 1, 7]);
    ShortInfo(c.header[2 := 7]);
    CutHeader(Completed(c.(header := c.header[2 := 7])));
  }

  lemma {:induction false} DescriptorOfShort(a: Reader, b: Reader)
    requires Valid(a) && a.kind.Command? && a.phase.ReadDescriptor?
    requires b == Reader(Command, a.junk, ReadSize, 1, 1, a.header[0 := 0x14], [])
    ensures Receive(a, [0x14]) == b
  {
  }

  /** A reader refuses no well-formed message: neither a whole one nor the beginning of one. */
  lemma {:induction false} RefusedIsNoMessage(p: Packet, junk: Byte, aux: seq<Byte>, bytes: seq<Byte>)
    requires WellFormed(p) && |aux| == AUX_DATA_SIZE && Feed(Fresh(p.kind, junk, aux), bytes).phase.ReadError?
    ensures !(Wire(p) <= bytes) && !(bytes <= Wire(p))
  {
    hide Feed, Wire, WellFormed;
    var r, w := Fresh(p.kind, junk, aux), Wire(p);
    FeedReceives(p, junk, aux);
    if w <= bytes {
      FeedJoins(r, w, bytes[|w|..]);
      assert w + bytes[|w|..] == bytes;
      FinishedStays(Received(p, junk, aux), bytes[|w|..]);
      assert false;
    }
    if bytes <= w {
      assert bytes == w[..|bytes|];
      NotFinishedEarly(p, junk, aux, |bytes|);
      assert false;
    }
  }
}
