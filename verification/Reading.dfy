/**
 The resumable readers of commands and responses (`CommandReader::read`, `ResponseReader::read`) as a
 state machine over device calls, and what holds of it for every stream and every schedule.
 */
module Reading {
  import opened Bytes
  import opened Headers
  import opened Devices

  const AUX_DATA_SIZE := 12
  const INTEGRITY_MARKER: Byte := 0xC3

  datatype Phase =
    | Created
    | ReadDescriptor
    | ReadSize
    | ReadHeader
    | ReadPayload
    | ReadMarker
    | ReadDone
    | ReadError

  /**
   `header` is the inline buffer of 12 bytes until `configure_header` replaces it by a larger one;
   `junk` is what freshly allocated memory happens to hold. The source leaves `rw_pos` and `rw_remains`
   as they are in phases that no longer read them; here they are 0 while the marker is awaited, and
   as `set_error_state` sets them after any error.
   */
  datatype Reader = Reader(kind: Kind, junk: Byte, phase: Phase, pos: nat, remains: nat,
                           header: seq<Byte>, payload: seq<Byte>)

  function Fresh(kind: Kind, junk: Byte, aux: seq<Byte>): (r: Reader)
    requires |aux| == AUX_DATA_SIZE
    ensures Valid(r)
  {
    Reader(kind, junk, Created, 0, 0, aux, [])
  }

  predicate Finished(r: Reader) {
    r.phase.ReadDone? || r.phase.ReadError?
  }

  /** Header of which the size is known and fits the buffer. */
  predicate Sized(r: Reader) {
    && AUX_DATA_SIZE <= |r.header|
    && 1 + SizeLength(r.header[0]) <= HeaderSize(r.kind, r.header) <= |r.header|
  }

  predicate Valid(r: Reader) {
    && AUX_DATA_SIZE <= |r.header|
    && match r.phase
       case Created => r.payload == []
       case ReadDescriptor => r.payload == []
       case ReadSize =>
         && r.payload == []
         && 1 <= r.pos && 0 < r.remains
         && r.pos + r.remains == 1 + SizeLength(r.header[0])
       case ReadHeader =>
         && r.payload == []
         && Sized(r) && 1 + SizeLength(r.header[0]) <= r.pos && 0 < r.remains
         && r.pos + r.remains == HeaderSize(r.kind, r.header)
       case ReadPayload => Sized(r) && 0 < r.remains && r.pos + r.remains == |r.payload|
       case ReadMarker => Sized(r)
       case ReadDone => Sized(r)
       case ReadError => r == Rejected(r)
  }

  /** `configure_header`. */
  function Configure(header: seq<Byte>, used: nat, full: nat, junk: Byte): (h: seq<Byte>)
    requires used <= AUX_DATA_SIZE <= |header| && used <= full
    ensures AUX_DATA_SIZE <= |h| && full <= |h|
    ensures h[..used] == header[..used]
    ensures if full <= 12 then h == header else |h| == full
  {
    if full > AUX_DATA_SIZE then header[..used] + Repeat(junk, full - used) else header
  }

  /** Number of bytes that the next device call asks for; 0 if the reader makes no call. */
  function Wanted(r: Reader): nat
    requires Valid(r)
  {
    match r.phase
    case ReadDescriptor => 1
    case ReadSize => r.remains
    case ReadHeader => r.remains
    case ReadPayload => r.remains
    case ReadMarker => if HasMarker(r.header[0]) then 1 else 0
    case _ => 0
  }

  /** The transitions that need no device call. */
  function Settle(r: Reader): (s: Reader)
    requires Valid(r)
    ensures Valid(s) && s.kind == r.kind
    ensures Wanted(s) == 0 <==> Finished(s)
  {
    if r.phase.Created? then r.(phase := ReadDescriptor)
    else if r.phase.ReadMarker? && !HasMarker(r.header[0]) then Completed(r)
    else r
  }

  function Completed(r: Reader): Reader {
    r.(phase := ReadDone, pos := UINT_MAX, remains := 0)
  }

  function Awaiting(r: Reader): Reader {
    r.(phase := ReadMarker, pos := 0, remains := 0)
  }

  /** `set_error_state`. */
  function Rejected(r: Reader): Reader {
    r.(phase := ReadError, pos := UINT_MAX, remains := 0)
  }

  lemma {:induction false} SizeSurvives(kind: Kind, h: seq<Byte>, g: seq<Byte>, n: nat)
    requires HasSizeField(h) && 1 + SizeLength(h[0]) <= n <= |h| && n <= |g| && h[..n] == g[..n]
    ensures HasSizeField(g) && HeaderSize(kind, g) == HeaderSize(kind, h)
  {
    assert g[0] == g[..n][0] == h[..n][0] == h[0];
    var k := 1 + SizeLength(h[0]);
    SliceOfSlice(h, 0, h[..n], 1, k);
    SliceOfSlice(g, 0, h[..n], 1, k);
  }

  function ReceiveDescriptor(r: Reader, b: Byte): (s: Reader)
    requires Valid(r) && r.phase.ReadDescriptor?
    ensures Valid(s) && s.kind == r.kind
  {
    var h := r.header[0 := b];
    if SizeLength(b) != 0 then
      r.(header := h, phase := ReadSize, pos := 1, remains := SizeLength(b))
    else if r.kind.Command? then
      var full := SizelessHeaderSize(r.kind, b);
      r.(header := Configure(h, 1, full, r.junk), phase := ReadHeader, pos := 1, remains := full - 1)
    else if LowBits(b) == 0 then
      Awaiting(r.(header := h))
    else
      Rejected(r.(header := h))
  }

  /** A header size that leaves nothing to read is what the source asserts against: it is an error here. */
  function ReceiveSize(r: Reader, bytes: seq<Byte>): (s: Reader)
    requires Valid(r) && r.phase.ReadSize? && 0 < |bytes| <= r.remains
    ensures Valid(s) && s.kind == r.kind
  {
    var h := Overwrite(r.header, r.pos, bytes);
    var pos := r.pos + |bytes|;
    if |bytes| < r.remains then
      r.(header := h, pos := pos, remains := r.remains - |bytes|)
    else
      var full := HeaderSize(r.kind, h);
      if full <= pos then Rejected(r.(header := h))
      else
        var g := Configure(h, pos, full, r.junk);
        SizeSurvives(r.kind, h, g, pos);
        r.(header := g, phase := ReadHeader, pos := pos, remains := full - pos)
  }

  function ReceiveHeader(r: Reader, bytes: seq<Byte>): (s: Reader)
    requires Valid(r) && r.phase.ReadHeader? && 0 < |bytes| <= r.remains
    ensures Valid(s) && s.kind == r.kind
  {
    var h := Overwrite(r.header, r.pos, bytes);
    SizeSurvives(r.kind, r.header, h, r.pos);
    if |bytes| < r.remains then
      r.(header := h, pos := r.pos + |bytes|, remains := r.remains - |bytes|)
    else
      match GetPayloadInfo(r.kind, h, [])
      case BadPayload => Rejected(r.(header := h))
      case PayloadInfo(m, _) =>
        if m.size > 0 then
          r.(header := h, payload := Repeat(r.junk, m.size), phase := ReadPayload, pos := 0, remains := m.size)
        else Awaiting(r.(header := h))
      case NoPayload => Awaiting(r.(header := h))
  }

  function ReceivePayload(r: Reader, bytes: seq<Byte>): (s: Reader)
    requires Valid(r) && r.phase.ReadPayload? && 0 < |bytes| <= r.remains
    ensures Valid(s) && s.kind == r.kind
  {
    var p := Overwrite(r.payload, r.pos, bytes);
    if |bytes| < r.remains then
      r.(payload := p, pos := r.pos + |bytes|, remains := r.remains - |bytes|)
    else
      Awaiting(r.(payload := p))
  }

  /** Effect of a device call that delivers `bytes`. */
  function Receive(r: Reader, bytes: seq<Byte>): (s: Reader)
    requires Valid(r) && 0 < |bytes| <= Wanted(r)
    ensures Valid(s) && s.kind == r.kind
  {
    match r.phase
    case ReadDescriptor => ReceiveDescriptor(r, bytes[0])
    case ReadSize => ReceiveSize(r, bytes)
    case ReadHeader => ReceiveHeader(r, bytes)
    case ReadPayload => ReceivePayload(r, bytes)
    case ReadMarker => if bytes[0] == INTEGRITY_MARKER then Completed(r) else Rejected(r)
  }

  // ---------------------------------------------------------------------------------------------
  // One byte at a time
  // ---------------------------------------------------------------------------------------------

  /** The reader fed byte by byte: what any way of splitting the bytes is compared with. */
  function Feed(r: Reader, bytes: seq<Byte>): (s: Reader)
    requires Valid(r)
    ensures Valid(s) && s.kind == r.kind
    decreases |bytes|
  {
    var s := Settle(r);
    if bytes == [] || Finished(s) then s else Feed(Receive(s, bytes[..1]), bytes[1..])
  }

  lemma {:induction false} SizeJoins(r: Reader, a: seq<Byte>, b: seq<Byte>)
    requires Valid(r) && r.phase.ReadSize? && a != [] && b != [] && |a| + |b| <= r.remains
    ensures ReceiveSize(r, a).phase.ReadSize? && ReceiveSize(r, a).remains == r.remains - |a|
    ensures ReceiveSize(ReceiveSize(r, a), b) == ReceiveSize(r, a + b)
  {
    hide Repeat, HeaderSize, Overwrite;
    OverwriteJoins(r.header, r.pos, a, b);
  }

  lemma {:induction false} HeaderJoins(r: Reader, a: seq<Byte>, b: seq<Byte>)
    requires Valid(r) && r.phase.ReadHeader? && a != [] && b != [] && |a| + |b| <= r.remains
    ensures ReceiveHeader(r, a).phase.ReadHeader? && ReceiveHeader(r, a).remains == r.remains - |a|
    ensures ReceiveHeader(ReceiveHeader(r, a), b) == ReceiveHeader(r, a + b)
  {
    hide GetPayloadInfo, Repeat, HeaderSize, SizeLength, Overwrite;
    OverwriteJoins(r.header, r.pos, a, b);
  }

  lemma {:induction false} PayloadJoins(r: Reader, a: seq<Byte>, b: seq<Byte>)
    requires Valid(r) && r.phase.ReadPayload? && a != [] && b != [] && |a| + |b| <= r.remains
    ensures ReceivePayload(r, a).phase.ReadPayload? && ReceivePayload(r, a).remains == r.remains - |a|
    ensures ReceivePayload(ReceivePayload(r, a), b) == ReceivePayload(r, a + b)
  {
    OverwriteJoins(r.payload, r.pos, a, b);
    var s := ReceivePayload(r, a);
    assert s == r.(payload := Overwrite(r.payload, r.pos, a), pos := r.pos + |a|, remains := r.remains - |a|);
  }

  /** Two deliveries in a row are one delivery of their bytes together. */
  lemma {:induction false} ReceiveJoins(r: Reader, a: seq<Byte>, b: seq<Byte>)
    requires Valid(r) && a != [] && b != [] && |a| + |b| <= Wanted(r)
    ensures Receive(r, a).phase == r.phase && Wanted(Receive(r, a)) == Wanted(r) - |a|
    ensures Receive(Receive(r, a), b) == Receive(r, a + b)
  {
    match r.phase {
      case ReadSize => SizeJoins(r, a, b);
      case ReadHeader => HeaderJoins(r, a, b);
      case ReadPayload => PayloadJoins(r, a, b);
    }
  }

  lemma {:induction false} SettleTwice(r: Reader)
    requires Valid(r)
    ensures Settle(Settle(r)) == Settle(r)
  {
  }

  /** A delivery of any admissible size has the effect of its bytes one by one. */
  lemma {:induction false} ReceiveIsFeed(r: Reader, bytes: seq<Byte>)
    requires Valid(r) && 0 < |bytes| <= Wanted(r)
    ensures Feed(r, bytes) == Settle(Receive(r, bytes))
    decreases |bytes|
  {
    assert Settle(r) == r;
    if |bytes| == 1 {
      assert bytes[..1] == bytes;
    } else {
      ReceiveJoins(r, bytes[..1], bytes[1..]);
      assert bytes[..1] + bytes[1..] == bytes;
      ReceiveIsFeed(Receive(r, bytes[..1]), bytes[1..]);
    }
  }

  lemma {:induction false} FeedSettled(r: Reader, bytes: seq<Byte>)
    requires Valid(r)
    ensures Feed(Settle(r), bytes) == Feed(r, bytes)
  {
    SettleTwice(r);
  }

  lemma {:induction false} FeedJoins(r: Reader, a: seq<Byte>, b: seq<Byte>)
    requires Valid(r)
    ensures Feed(Feed(r, a), b) == Feed(r, a + b)
    decreases |a|
  {
    var s := Settle(r);
    if a == [] {
      assert a + b == b;
      FeedSettled(r, b);
    } else if !Finished(s) {
      assert (a + b)[..1] == a[..1] && (a + b)[1..] == a[1..] + b;
      FeedJoins(Receive(s, a[..1]), a[1..], b);
    }
  }

  // ---------------------------------------------------------------------------------------------
  // A call of `read`
  // ---------------------------------------------------------------------------------------------

  function Rank(p: Phase): nat {
    match p
    case Created => 6
    case ReadDescriptor => 5
    case ReadSize => 4
    case ReadHeader => 3
    case ReadPayload => 2
    case ReadMarker => 1
    case _ => 0
  }

  datatype Call = Call(reader: Reader, source: Source, total: nat, result: IoResult)

  /** Each delivery leads to a later phase, or leaves fewer bytes to be read in the same one. */
  lemma {:induction false} ReceiveProgresses(r: Reader, bytes: seq<Byte>)
    requires Valid(r) && 0 < |bytes| <= Wanted(r)
    ensures var s := Receive(r, bytes);
            Rank(s.phase) < Rank(r.phase) || (s.phase == r.phase && s.remains < r.remains)
  {
  }

  /** `read` stops early, asking to be called again, when a response payload arrives in part. */
  predicate StopsEarly(before: Reader, after: Reader) {
    before.kind.Response? && before.phase.ReadPayload? && after.phase.ReadPayload?
  }

  /** The call returns after the delivery `t` left the reader in state `s`. */
  function Stop(s: Reader, t: Taken): Call {
    Call(s, t.source, |t.bytes|, if s.phase.ReadError? then Error else if s.phase.ReadDone? then Ok else Retry)
  }

  /** `read`: device calls until the message is complete, or the device or the message forbids more. */
  function Read(r: Reader, source: Source): (c: Call)
    requires Valid(r)
    ensures Valid(c.reader)
    decreases Rank(r.phase), r.remains
  {
    if Finished(r) then Call(Rejected(r), source, 0, Error)
    else if Settle(r) != r then
      var s := Settle(r);
      if s.phase.ReadDone? then Call(s, source, 0, Ok) else Read(s, source)
    else
      var t := Take(source, Wanted(r));
      match t.result
      case Retry => Call(r, t.source, 0, Retry)
      case Eof => Call(Rejected(r), t.source, 0, Eof)
      case Error => Call(Rejected(r), t.source, 0, Error)
      case Ok =>
        var s := Receive(r, t.bytes);
        ReceiveProgresses(r, t.bytes);
        if Finished(s) || StopsEarly(r, s) then Stop(s, t)
        else
          var c := Read(s, t.source);
          c.(total := |t.bytes| + c.total)
  }

  /**
   The outcome of a call against the state of the byte-by-byte reader; without failures of the device,
   only the message can be at fault.
   */
  ghost predicate Matches(c: Call, fed: Reader, harmless: bool) {
    match c.result
    case Ok => c.reader == fed && fed.phase.ReadDone?
    case Retry => c.reader == fed && !Finished(fed)
    case _ =>
      && c.reader == Rejected(fed) && !fed.phase.ReadDone?
      && (harmless ==> fed.phase.ReadError?)
  }

  /** A call of `read` that consumed `total` bytes, against the reader fed these bytes. */
  ghost predicate Explains(r: Reader, source: Source, c: Call)
    requires Valid(r)
  {
    && c.total <= |source.input|
    && c.source.input == source.input[c.total..]
    && Matches(c, Feed(r, source.input[..c.total]), Harmless(source.script))
  }

  lemma {:induction false} ExplainsStop(r: Reader, bytes: seq<Byte>, source: Source, c: Call)
    requires Valid(r) && c.total == |bytes| && bytes + c.source.input == source.input
    requires Matches(c, Feed(r, bytes), Harmless(source.script))
    ensures Explains(r, source, c)
  {
    assert source.input[..|bytes|] == bytes;
    assert source.input[|bytes|..] == c.source.input;
  }

  /** A delivery followed by a call that is explained from the state after it. */
  lemma {:induction false} ExplainsAfter(r: Reader, s: Reader, bytes: seq<Byte>, source: Source, next: Source, c: Call)
    requires Valid(r) && Valid(s) && Feed(r, bytes) == Settle(s)
    requires bytes + next.input == source.input
    requires Harmless(source.script) ==> Harmless(next.script)
    requires Explains(s, next, c)
    ensures Explains(r, source, c.(total := |bytes| + c.total))
  {
    hide Feed, Settle, Valid;
    var taken := next.input[..c.total];
    assert Feed(r, bytes + taken) == Feed(s, taken) by {
      FeedJoins(r, bytes, taken);
      FeedSettled(s, taken);
    }
    assert bytes + taken + next.input[c.total..] == bytes + next.input;
    ExplainsStop(r, bytes + taken, source, c.(total := |bytes| + c.total));
  }

  /**
   Split independence, for every stream, well formed or not, and every schedule: a call of `read` leaves
   the reader in the state that the bytes it consumed lead to one at a time.
   */
  lemma {:induction false} ReadIsFeed(r: Reader, source: Source)
    requires Valid(r) && !Finished(r)
    ensures Explains(r, source, Read(r, source))
    decreases Rank(r.phase), r.remains
  {
    var c := Read(r, source);
    if Settle(r) != r {
      var s := Settle(r);
      if s.phase.ReadDone? {
        ExplainsStop(r, [], source, c);
      } else {
        ReadIsFeed(s, source);
        ExplainsAfter(r, s, [], source, source, Read(s, source));
      }
    } else {
      ReadStepIsFeed(r, source);
    }
  }

  lemma {:induction false} ReadStepIsFeed(r: Reader, source: Source)
    requires Valid(r) && !Finished(r) && Settle(r) == r
    ensures Explains(r, source, Read(r, source))
    decreases Rank(r.phase), r.remains, 0
  {
    var t := Take(source, Wanted(r));
    if Harmless(source.script) {
      TakeStaysHarmless(source, Wanted(r));
    }
    if !t.result.Ok? {
      assert Feed(r, []) == r;
      ExplainsStop(r, [], source, Read(r, source));
    } else {
      var s := Receive(r, t.bytes);
      ReceiveIsFeed(r, t.bytes);
      if Finished(s) || StopsEarly(r, s) {
        StopIsFeed(r, s, source, t);
      } else {
        DeliveryIsFeed(r, source, t, s);
      }
    }
  }

  lemma {:induction false} DeliveryIsFeed(r: Reader, source: Source, t: Taken, s: Reader)
    requires Valid(r) && !Finished(r) && Settle(r) == r
    requires t == Take(source, Wanted(r)) && t.result.Ok? && s == Receive(r, t.bytes)
    requires !Finished(s) && !StopsEarly(r, s)
    requires Feed(r, t.bytes) == Settle(s)
    requires Harmless(source.script) ==> Harmless(t.source.script)
    ensures Explains(r, source, Read(r, source))
    decreases Rank(r.phase), r.remains, 0, 0
  {
    hide Feed, Receive, Valid, Explains, Take, Settle;
    ReceiveProgresses(r, t.bytes);
    var c := Read(s, t.source);
    assert Read(r, source) == c.(total := |t.bytes| + c.total);
    ReadIsFeed(s, t.source);
    ExplainsAfter(r, s, t.bytes, source, t.source, c);
  }

  lemma {:induction false} StopIsFeed(r: Reader, s: Reader, source: Source, t: Taken)
    requires Valid(r) && Valid(s) && Feed(r, t.bytes) == Settle(s)
    requires Finished(s) || s.phase.ReadPayload?
    requires t.bytes + t.source.input == source.input
    ensures Explains(r, source, Stop(s, t))
  {
    assert Settle(s) == s;
    ExplainsStop(r, t.bytes, source, Stop(s, t));
  }

  // ---------------------------------------------------------------------------------------------
  // What a call reports
  // ---------------------------------------------------------------------------------------------

  /** The result of a call against the last outcome of the device that it used up. */
  ghost predicate Reports(r: Reader, source: Source, c: Call)
    requires Valid(r)
  {
    var used := |source.script| - |c.source.script|;
    && 0 <= used && c.source.script == source.script[used..] && c.total <= |source.input|
    && if used == 0 then
         && (c.result.Ok? || (c.result.Retry? && c.source.script == []))
         && !Feed(r, source.input[..c.total]).phase.ReadError?
       else
         match source.script[used - 1]
         case Waits => c.result.Retry?
         case Ends => c.result.Eof?
         case Fails => c.result.Error?
         case Moves(_) =>
           && !c.result.Eof?
           && (c.result.Error? <==> Feed(r, source.input[..c.total]).phase.ReadError?)
           && (c.result.Retry? ==>
                 c.source.input == [] || c.source.script == [] || (r.kind.Response? && c.reader.phase.ReadPayload?))
  }

  /** No delivery. */
  lemma {:induction false} ReportsRefusal(r: Reader, source: Source, want: nat, c: Call)
    requires Valid(r) && want > 0 && !Finished(r) && Feed(r, []) == r
    requires !Take(source, want).result.Ok?
    requires c.result == Take(source, want).result && c.source == Take(source, want).source && c.total == 0
    ensures Reports(r, source, c)
  {
    hide Valid, Feed;
    assert source.input[..0] == [];
  }

  /** A delivery after which the call returns. */
  lemma {:induction false} ReportsDelivery(r: Reader, source: Source, want: nat, s: Reader)
    requires Valid(r) && want > 0 && Take(source, want).result.Ok?
    requires Feed(r, Take(source, want).bytes) == s && (Finished(s) || StopsEarly(r, s))
    ensures Reports(r, source, Stop(s, Take(source, want)))
  {
    hide Valid, Feed, Take;
    OkIsMoved(source, want);
    var t := Take(source, want);
    assert source.input[..|t.bytes|] == t.bytes;
  }

  lemma {:induction false} DeliveredIsFed(r: Reader, bytes: seq<Byte>)
    requires Valid(r) && 0 < |bytes| <= Wanted(r)
    requires Finished(Receive(r, bytes)) || StopsEarly(r, Receive(r, bytes))
    ensures Feed(r, bytes) == Receive(r, bytes)
  {
    hide Receive, Feed;
    ReceiveIsFeed(r, bytes);
  }

  lemma {:induction false} ReportsAfter(r: Reader, s: Reader, bytes: seq<Byte>, source: Source, next: Source, c: Call)
    requires Valid(r) && Valid(s) && Feed(r, bytes) == Settle(s) && bytes + next.input == source.input
    requires next.script == source.script || (source.script != [] && next.script == source.script[1..] && source.script[0].Moves?)
    requires Reports(s, next, c)
    ensures Reports(r, source, c.(total := |bytes| + c.total))
  {
    hide Feed, Settle, Valid;
    var taken := next.input[..c.total];
    assert source.input[..|bytes| + c.total] == bytes + taken;
    FeedJoins(r, bytes, taken);
    FeedSettled(s, taken);
  }

  lemma {:induction false} NothingFed(s: Reader)
    requires Valid(s)
    ensures Feed(s, []) == Settle(s)
  {
  }

  /**
   A call ends at the first outcome of the device that is not a delivery, and reports it: retry, end of file
   or error. If it ends at a delivery, it reports an error if and only if the bytes are at fault, and asks to
   be called again only in the middle of the payload of a response, or if the device has no more to give.
   */
  lemma {:induction false} ReadReports(r: Reader, source: Source)
    requires Valid(r) && !Finished(r)
    ensures Reports(r, source, Read(r, source))
    decreases Rank(r.phase), r.remains
  {
    if Settle(r) != r {
      var s := Settle(r);
      if !s.phase.ReadDone? {
        ReadReports(s, source);
        NothingFed(r);
        ReportsAfter(r, s, [], source, source, Read(s, source));
      }
    } else {
      var t := Take(source, Wanted(r));
      if t.result.Ok? && !Finished(Receive(r, t.bytes)) && !StopsEarly(r, Receive(r, t.bytes)) {
        DeliveryReports(r, source, t, Receive(r, t.bytes));
      } else if t.result.Ok? {
        DeliveredIsFed(r, t.bytes);
        ReportsDelivery(r, source, Wanted(r), Receive(r, t.bytes));
      } else {
        NothingFed(r);
        ReportsRefusal(r, source, Wanted(r), Read(r, source));
      }
    }
  }

  lemma {:induction false} DeliveryReports(r: Reader, source: Source, t: Taken, s: Reader)
    requires Valid(r) && !Finished(r) && Settle(r) == r
    requires t == Take(source, Wanted(r)) && t.result.Ok? && s == Receive(r, t.bytes)
    requires !Finished(s) && !StopsEarly(r, s)
    ensures Reports(r, source, Read(r, source))
    decreases Rank(r.phase), r.remains, 0
  {
    hide Feed, Receive, Valid, Take, Settle, Reports, Wanted;
    ReceiveProgresses(r, t.bytes);
    ReceiveIsFeed(r, t.bytes);
    OkIsMoved(source, Wanted(r));
    ReadReports(s, t.source);
    assert Read(r, source) == Read(s, t.source).(total := |t.bytes| + Read(s, t.source).total);
    ReportsAfter(r, s, t.bytes, source, t.source, Read(s, t.source));
  }

  lemma {:induction false} OkIsMoved(source: Source, want: nat)
    requires want > 0 && Take(source, want).result.Ok?
    ensures source.script != [] && source.script[0].Moves? && Take(source, want).source.script == source.script[1..]
  {
  }
}
