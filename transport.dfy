/** Socket's length-prefixed framing. A frame on the wire is a uint16 payload
    length in native (little-endian) order followed by that many payload
    bytes. Sending drains a DataPacket into one frame; receiving keeps a
    residual buffer across calls and hands out one complete frame per
    successful call, reading from the OS until one is present. The OS is
    not modelled: each `recv` and `send` outcome is an input. */
module Transport {
  import opened Sj
  import opened Packet

  /** sizeof(DATAPACKET_SIZE_T), the width of the length prefix. */
  const PrefixSize: nat := 2
  /** DATAPACKET_SIZE_T_MAX (SJNetSock.cpp:8). */
  const MaxPayload: nat := 65535

  /** The uint16 stored in the first two bytes, lowest address first
      (SJNetSock.cpp:78-86 copies them into a DATAPACKET_SIZE_T). */
  function DeclaredLength(r: seq<byte>): (n: nat)
    requires |r| >= PrefixSize
    ensures n <= MaxPayload
  {
    r[0] as nat + 256 * r[1] as nat
  }

  lemma SplitUint16(n: nat)
    ensures n % 65536 == n % 256 + 256 * ((n / 256) % 256)
  {
    var m := n % 65536;
    assert n == 65536 * (n / 65536) + m;
    assert n / 256 == 256 * (n / 65536) + m / 256;
  }

  lemma Uint16Digits(lo: nat, hi: nat)
    requires lo < 256 && hi < 256
    ensures (lo + 256 * hi) % 256 == lo && ((lo + 256 * hi) / 256) % 256 == hi
  {
    assert (lo + 256 * hi) / 256 == hi;
  }

  /** The memory of `(DATAPACKET_SIZE_T) n` (SJNetSock.cpp:128-131): the
      cast keeps n modulo 2^16. */
  function LengthPrefix(n: nat): (r: seq<byte>)
    ensures |r| == PrefixSize
    ensures DeclaredLength(r) == n % 65536
  {
    SplitUint16(n);
    [n % 256, (n / 256) % 256]
  }

  /** Every length field is the prefix of the length it declares. */
  lemma PrefixOfDeclared(r: seq<byte>)
    requires |r| >= PrefixSize
    ensures LengthPrefix(DeclaredLength(r)) == r[..PrefixSize]
  {
    Uint16Digits(r[0], r[1]);
  }

  /** The bytes `sendTo(DataPacket&)` hands to the OS for a packet holding
      `payload`. */
  function EncodeFrame(payload: seq<byte>): (f: seq<byte>)
    ensures |f| == PrefixSize + |payload|
    ensures DeclaredLength(f) == |payload| % 65536
    ensures f[PrefixSize..] == payload
  {
    LengthPrefix(|payload|) + payload
  }

  /** Splits a residual buffer that starts with a complete frame into that
      frame's payload and the bytes after it; None while the frame is
      incomplete (SJNetSock.cpp:75-98, with the comparison of line 88 the
      right way round). */
  function ExtractFrame(r: seq<byte>): (x: Option<(seq<byte>, seq<byte>)>)
    ensures x.Some? <==> |r| >= PrefixSize && DeclaredLength(r) <= |r| - PrefixSize
    ensures x.Some? ==> r == EncodeFrame(x.value.0) + x.value.1
    ensures x.Some? ==> x.value == (r[PrefixSize..PrefixSize + DeclaredLength(r)], r[PrefixSize + DeclaredLength(r)..])
  {
    if |r| >= PrefixSize && DeclaredLength(r) <= |r| - PrefixSize then
      var n := DeclaredLength(r);
      PrefixOfDeclared(r);
      assert r == r[..PrefixSize] + r[PrefixSize..PrefixSize + n] + r[PrefixSize + n..];
      Some((r[PrefixSize..PrefixSize + n], r[PrefixSize + n..]))
    else
      None
  }

  /** A frame whose payload fits the prefix is taken back intact, and
      whatever followed it stays behind. */
  lemma FrameRoundTrip(payload: seq<byte>, rest: seq<byte>)
    requires |payload| <= MaxPayload
    ensures ExtractFrame(EncodeFrame(payload) + rest) == Some((payload, rest))
  {
    var f := EncodeFrame(payload);
    var r := f + rest;
    assert r[0] == f[0] && r[1] == f[1];
    assert DeclaredLength(r) == DeclaredLength(f) == |payload|;
    assert r[PrefixSize..PrefixSize + |payload|] == payload;
    assert r[PrefixSize + |payload|..] == rest;
  }

  /** A larger payload wraps the prefix: the receiver takes only the first
      |payload| mod 2^16 bytes as the frame and treats the others as the
      start of the next one. */
  lemma OversizedFrameIsCut(payload: seq<byte>, rest: seq<byte>)
    requires |payload| > MaxPayload
    ensures var n := |payload| % 65536;
            ExtractFrame(EncodeFrame(payload) + rest) == Some((payload[..n], payload[n..] + rest))
  {
    var f := EncodeFrame(payload);
    var r := f + rest;
    var n := |payload| % 65536;
    assert r[0] == f[0] && r[1] == f[1];
    assert DeclaredLength(r) == DeclaredLength(f) == n;
    assert r[PrefixSize..PrefixSize + n] == payload[..n];
    assert r[PrefixSize + n..] == payload[n..] + rest;
  }

  /** Any prefix of a byte stream that starts with a frame: shorter than the
      frame, no frame is found; at least as long, exactly that frame is. */
  lemma ExtractFromStream(payload: seq<byte>, rest: seq<byte>, r: seq<byte>)
    requires |payload| <= MaxPayload
    requires |r| <= |EncodeFrame(payload) + rest|
    requires r == (EncodeFrame(payload) + rest)[..|r|]
    ensures |r| < |EncodeFrame(payload)| ==> ExtractFrame(r) == None
    ensures |r| >= |EncodeFrame(payload)| ==> ExtractFrame(r) == Some((payload, r[|EncodeFrame(payload)|..]))
  {
    var f := EncodeFrame(payload);
    if |r| >= PrefixSize {
      assert r[0] == f[0] && r[1] == f[1];
      assert DeclaredLength(r) == DeclaredLength(f) == |payload|;
    }
    if |r| >= |f| {
      assert r == f + r[|f|..];
      FrameRoundTrip(payload, r[|f|..]);
    }
  }

  /** What the OS `recv` returned: a count of bytes read (0 at end of
      stream) with those bytes, or -1 with errno. */
  datatype RecvResult = Received(bytes: seq<byte>) | RecvFailed(errno: int)

  /** What `send`/`sendto` returned: success, or -1 with errno. */
  datatype SendResult = Sent | SendFailed(errno: int)

  /** The status and the bytes of `Socket::receiveInto(void*, size_t, size_t*)`
      (SJNetSock.cpp:111-124): a failed call reads nothing. */
  datatype RawRead = RawRead(status: Status, bytes: seq<byte>)

  function ClassifyRecv(mode: Mode, res: RecvResult): (r: RawRead)
    ensures r.status == OK <==> res.Received?
    ensures r.status == OK ==> r.bytes == res.bytes
    ensures r.status != OK ==> r.bytes == [] && r.status == FailureStatus(mode, res.errno)
  {
    match res
    case Received(bytes) => RawRead(OK, bytes)
    case RecvFailed(errno) => RawRead(FailureStatus(mode, errno), [])
  }

  /** The bytes a run of `recv` results delivered, in order. */
  function Delivered(source: seq<RecvResult>): seq<byte>
  {
    if source == [] then []
    else (if source[0].Received? then source[0].bytes else []) + Delivered(source[1..])
  }

  lemma {:induction false} DeliveredSplit(source: seq<RecvResult>, k: nat)
    requires k <= |source|
    ensures Delivered(source) == Delivered(source[..k]) + Delivered(source[k..])
  {
    if k > 0 {
      DeliveredSplit(source[1..], k - 1);
      assert source[1..][..k - 1] == source[..k][1..];
      assert source[1..][k - 1..] == source[k..];
    } else {
      assert source[..k] == [];
      assert source[k..] == source;
    }
  }

  /** The outcome of one `receiveInto(DataPacket&)` call: the status (None
      when the given `recv` results ran out before the call returned), the
      payload handed to the packet, the residual buffer afterwards, and how
      many `recv` results the call used. */
  datatype Reception = Reception(status: Option<Status>, payload: seq<byte>, residual: seq<byte>, used: nat)

  /** One call of the reassembler from residual buffer r, with `source`
      standing for the results its successive `recv` calls get. */
  function Receive(mode: Mode, r: seq<byte>, source: seq<RecvResult>): (x: Reception)
    ensures x.used <= |source|
    ensures x.status != Some(OK) ==> x.payload == []
    ensures x.status.Some? && x.status.value != OK ==> 1 <= x.used
    ensures x.status == None ==> x.used == |source|
    decreases |source|
  {
    match ExtractFrame(r)
    case Some((payload, rest)) => Reception(Some(OK), payload, rest, 0)
    case None =>
      if source == [] then Reception(None, [], r, 0)
      else
        var raw := ClassifyRecv(mode, source[0]);
        if raw.status != OK then Reception(Some(raw.status), [], r, 1)
        else
          var x := Receive(mode, r + raw.bytes, source[1..]);
          x.(used := x.used + 1)
  }

  /** The only success exit: a residual buffer that already holds a whole
      frame yields it without reading, and keeps the bytes after it. */
  lemma CompleteFrameReturnedAtOnce(mode: Mode, r: seq<byte>, source: seq<RecvResult>)
    requires |r| >= PrefixSize && DeclaredLength(r) <= |r| - PrefixSize
    ensures var n := DeclaredLength(r);
            Receive(mode, r, source) == Reception(Some(OK), r[PrefixSize..PrefixSize + n], r[PrefixSize + n..], 0)
  {
  }

  /** A failed raw read ends the call with its own status and leaves the
      residual buffer as it was. */
  lemma FailedReadReturned(mode: Mode, r: seq<byte>, source: seq<RecvResult>)
    requires ExtractFrame(r) == None
    requires source != [] && source[0].RecvFailed?
    ensures Receive(mode, r, source) == Reception(Some(FailureStatus(mode, source[0].errno)), [], r, 1)
  {
  }

  /** No byte is lost or duplicated: what the call consumed from its
      residual buffer and from the bytes it read is exactly the frame it
      returned followed by the new residual. A call that returns without a
      frame leaves no complete frame behind. */
  lemma {:induction false} ReceiveConserves(mode: Mode, r: seq<byte>, source: seq<RecvResult>)
    decreases |source|
    ensures var x := Receive(mode, r, source);
            && (x.status == Some(OK) ==> EncodeFrame(x.payload) + x.residual == r + Delivered(source[..x.used]))
            && (x.status != Some(OK) ==> x.residual == r + Delivered(source[..x.used]))
            && (x.status != Some(OK) ==> ExtractFrame(x.residual) == None)
  {
    var x := Receive(mode, r, source);
    if ExtractFrame(r).None? && source != [] && source[0].Received? {
      var y := Receive(mode, r + source[0].bytes, source[1..]);
      ReceiveConserves(mode, r + source[0].bytes, source[1..]);
      assert Accounted((r + source[0].bytes) + Delivered(source[1..][..y.used]), y.status, y.payload, y.residual);
      AccountedStep(mode, r, source);
    } else {
      AccountedWithoutRead(mode, r, source);
    }
    assert Accounted(r + Delivered(source[..x.used]), x.status, x.payload, x.residual);
  }

  /** A call ending with `status`, `payload` and `residual` accounts for
      every byte of `input`. */
  predicate Accounted(input: seq<byte>, status: Option<Status>, payload: seq<byte>, residual: seq<byte>)
  {
    && (status == Some(OK) ==> EncodeFrame(payload) + residual == input)
    && (status != Some(OK) ==> residual == input)
    && (status != Some(OK) ==> ExtractFrame(residual) == None)
  }

  /** A call that returns before appending any bytes keeps them all. */
  lemma AccountedWithoutRead(mode: Mode, r: seq<byte>, source: seq<RecvResult>)
    requires !(ExtractFrame(r).None? && source != [] && source[0].Received?)
    ensures var x := Receive(mode, r, source);
            Accounted(r + Delivered(source[..x.used]), x.status, x.payload, x.residual)
  {
    if ExtractFrame(r).Some? {
      assert source[..0] == [];
      assert r + Delivered([]) == r;
    } else if source == [] {
      assert source[..0] == [] && r + [] == r;
    } else {
      assert source[..1] == [source[0]];
      assert Delivered(source[..1]) == [] + Delivered([]);
      assert r + [] == r;
    }
  }

  /** A successful read passes the accounting up from the call on the
      longer buffer. */
  lemma AccountedStep(mode: Mode, r: seq<byte>, source: seq<RecvResult>)
    requires ExtractFrame(r).None? && source != [] && source[0].Received?
    requires var y := Receive(mode, r + source[0].bytes, source[1..]);
             Accounted((r + source[0].bytes) + Delivered(source[1..][..y.used]), y.status, y.payload, y.residual)
    ensures var x := Receive(mode, r, source);
            Accounted(r + Delivered(source[..x.used]), x.status, x.payload, x.residual)
  {
    var bytes := source[0].bytes;
    var y := Receive(mode, r + bytes, source[1..]);
    AccountedAfter(r, bytes, Delivered(source[1..][..y.used]), y.status, y.payload, y.residual);
    ReceiveStep(mode, r, source);
    DeliveredHead(source, y.used);
  }

  /** Accounting for the bytes before a read and those it delivered is
      accounting for both together. */
  lemma AccountedAfter(r: seq<byte>, bytes: seq<byte>, later: seq<byte>, status: Option<Status>, payload: seq<byte>, residual: seq<byte>)
    requires Accounted((r + bytes) + later, status, payload, residual)
    ensures Accounted(r + (bytes + later), status, payload, residual)
  {
    assert (r + bytes) + later == r + (bytes + later);
  }

  /** The bytes of the first k + 1 results are the first result's bytes
      followed by those of the next k. */
  lemma DeliveredHead(source: seq<RecvResult>, k: nat)
    requires k < |source| && source[0].Received?
    ensures Delivered(source[..k + 1]) == source[0].bytes + Delivered(source[1..][..k])
  {
    assert source[..k + 1][1..] == source[1..][..k];
  }

  /** In blocking mode a call never reports UNAVAILABLE. */
  lemma {:induction false} BlockingNeverUnavailable(r: seq<byte>, source: seq<RecvResult>)
    ensures Receive(BLOCKING, r, source).status != Some(UNAVAILABLE)
    decreases |source|
  {
    if ExtractFrame(r).None? && source != [] && source[0].Received? {
      BlockingNeverUnavailable(r + source[0].bytes, source[1..]);
    }
  }

  /** Each `recv` result either delivers bytes or says "try again later". */
  predicate Transient(mode: Mode, source: seq<RecvResult>)
  {
    forall k :: 0 <= k < |source| ==> source[k].Received? || FailureStatus(mode, source[k].errno) == UNAVAILABLE
  }

  /** Where a call starts on a stream that begins with a frame: with the
      whole frame buffered it returns it at once; otherwise more must be
      read, so some `recv` result must remain. */
  lemma BufferedFrame(mode: Mode, r: seq<byte>, source: seq<RecvResult>, payload: seq<byte>, rest: seq<byte>)
    requires |payload| <= MaxPayload
    requires r + Delivered(source) == EncodeFrame(payload) + rest
    ensures var f := EncodeFrame(payload);
            |r| >= |f| ==> Receive(mode, r, source) == Reception(Some(OK), payload, r[|f|..], 0)
                           && r[|f|..] + Delivered(source) == rest
    ensures |r| < |EncodeFrame(payload)| ==> ExtractFrame(r) == None && source != []
  {
    var f := EncodeFrame(payload);
    assert r == (f + rest)[..|r|];
    ExtractFromStream(payload, rest, r);
    assert Delivered([]) == [];
  }

  /** A successful raw read on an incomplete buffer: the call goes on with
      the bytes appended. */
  lemma ReceiveStep(mode: Mode, r: seq<byte>, source: seq<RecvResult>)
    requires ExtractFrame(r) == None && source != [] && source[0].Received?
    ensures var y := Receive(mode, r + source[0].bytes, source[1..]);
            Receive(mode, r, source) == y.(used := y.used + 1)
    ensures Delivered(source) == source[0].bytes + Delivered(source[1..])
  {
  }

  /** A stream that starts with a frame, cut into any chunks: one call
      either returns that frame, with the rest of the stream kept for later,
      or stops with UNAVAILABLE having kept everything read so far. */
  lemma {:induction false} FrameProgress(mode: Mode, r: seq<byte>, source: seq<RecvResult>, payload: seq<byte>, rest: seq<byte>)
    requires |payload| <= MaxPayload
    requires Transient(mode, source)
    requires r + Delivered(source) == EncodeFrame(payload) + rest
    ensures var x := Receive(mode, r, source);
            || (x.status == Some(OK) && x.payload == payload && x.residual + Delivered(source[x.used..]) == rest)
            || (x.status == Some(UNAVAILABLE) && x.residual + Delivered(source[x.used..]) == EncodeFrame(payload) + rest)
    decreases |source|
  {
    var f := EncodeFrame(payload);
    BufferedFrame(mode, r, source, payload, rest);
    if |r| >= |f| {
      assert source[0..] == source;
    } else if source[0].Received? {
      var bytes := source[0].bytes;
      ReceiveStep(mode, r, source);
      Associative(r, bytes, Delivered(source[1..]));
      TransientSuffix(mode, source, 1);
      FrameProgress(mode, r + bytes, source[1..], payload, rest);
      var y := Receive(mode, r + bytes, source[1..]);
      SuffixOfSuffix(source, 1, y.used);
    } else {
      assert FailureStatus(mode, source[0].errno) == UNAVAILABLE;
      assert Delivered(source) == [] + Delivered(source[1..]);
    }
  }

  /** A caller that calls again on every UNAVAILABLE, until something else
      is returned. */
  function ReceiveRetrying(mode: Mode, r: seq<byte>, source: seq<RecvResult>): (x: Reception)
    ensures x.used <= |source|
    decreases |source|
  {
    var x := Receive(mode, r, source);
    if x.status == Some(UNAVAILABLE) then
      var y := ReceiveRetrying(mode, x.residual, source[x.used..]);
      y.(used := x.used + y.used)
    else
      x
  }

  /** What is left of a run of transient results is transient. */
  lemma TransientSuffix(mode: Mode, source: seq<RecvResult>, k: nat)
    requires Transient(mode, source) && k <= |source|
    ensures Transient(mode, source[k..])
  {
    var later := source[k..];
    forall i | 0 <= i < |later|
      ensures later[i].Received? || FailureStatus(mode, later[i].errno) == UNAVAILABLE
    {
      assert later[i] == source[k + i];
    }
  }

  /** A retrying caller that got UNAVAILABLE goes on from the residual and
      the results not yet used. */
  lemma RetryStep(mode: Mode, r: seq<byte>, source: seq<RecvResult>)
    ensures var x := Receive(mode, r, source);
            x.status == Some(UNAVAILABLE) ==>
              ReceiveRetrying(mode, r, source) == Later(ReceiveRetrying(mode, x.residual, source[x.used..]), x.used)
    ensures var x := Receive(mode, r, source);
            x.status != Some(UNAVAILABLE) ==> ReceiveRetrying(mode, r, source) == x
  {
  }

  lemma SuffixOfSuffix<T>(s: seq<T>, a: nat, b: nat)
    requires a + b <= |s|
    ensures s[a..][b..] == s[a + b..]
  {
  }

  lemma Associative<T>(a: seq<T>, b: seq<T>, c: seq<T>)
    ensures (a + b) + c == a + (b + c)
  {
  }

  /** Chunked delivery: however a frame (and whatever follows it) is cut
      into reads, with "no data yet" answers anywhere in between, the frame
      comes back intact and the bytes after it are kept for the next call. */
  lemma {:induction false} ChunkedDelivery(mode: Mode, r: seq<byte>, source: seq<RecvResult>, payload: seq<byte>, rest: seq<byte>)
    requires |payload| <= MaxPayload
    requires Transient(mode, source)
    requires r + Delivered(source) == EncodeFrame(payload) + rest
    ensures var x := ReceiveRetrying(mode, r, source);
            x.status == Some(OK) && x.payload == payload && x.residual + Delivered(source[x.used..]) == rest
    decreases |source|
  {
    FrameProgress(mode, r, source, payload, rest);
    RetryStep(mode, r, source);
    var x := Receive(mode, r, source);
    if x.status == Some(UNAVAILABLE) {
      var later := source[x.used..];
      TransientSuffix(mode, source, x.used);
      ChunkedDelivery(mode, x.residual, later, payload, rest);
      DeliveredLater(ReceiveRetrying(mode, x.residual, later), x.used, source, payload, rest);
    }
  }

  /** A frame delivered after k results were used up is delivered, with the
      same leftover, when those k results are counted in. */
  lemma DeliveredLater(y: Reception, k: nat, source: seq<RecvResult>, payload: seq<byte>, rest: seq<byte>)
    requires k + y.used <= |source|
    requires y.status == Some(OK) && y.payload == payload && y.residual + Delivered(source[k..][y.used..]) == rest
    ensures var z := Later(y, k);
            z.status == Some(OK) && z.payload == payload && z.residual + Delivered(source[z.used..]) == rest
  {
    SuffixOfSuffix(source, k, y.used);
  }

  /** Two frames sent back to back, however they are cut into reads, come
      back in order from two successive calls, and nothing is left over. */
  lemma TwoFramesInOrder(mode: Mode, source: seq<RecvResult>, p1: seq<byte>, p2: seq<byte>)
    requires |p1| <= MaxPayload && |p2| <= MaxPayload
    requires Transient(mode, source)
    requires Delivered(source) == EncodeFrame(p1) + EncodeFrame(p2)
    ensures var first := ReceiveRetrying(mode, [], source);
            var second := ReceiveRetrying(mode, first.residual, source[first.used..]);
            && first.status == Some(OK) && first.payload == p1
            && second.status == Some(OK) && second.payload == p2
            && second.residual == []
  {
    assert [] + Delivered(source) == EncodeFrame(p1) + EncodeFrame(p2);
    ChunkedDelivery(mode, [], source, p1, EncodeFrame(p2));
    var first := ReceiveRetrying(mode, [], source);
    var later := source[first.used..];
    TransientSuffix(mode, source, first.used);
    assert first.residual + Delivered(later) == EncodeFrame(p2) + [];
    ChunkedDelivery(mode, first.residual, later, p2, []);
  }

  /** A reception counted from a later starting point: k more `recv`
      results used. */
  function Later(x: Reception, k: nat): Reception
  {
    x.(used := x.used + k)
  }

  /** The frame the source's copy loops take out of the buffer when the
      declared length is available. */
  lemma FrameFound(r: seq<byte>, declared: nat)
    requires |r| >= PrefixSize && declared == DeclaredLength(r) && declared <= |r| - PrefixSize
    ensures ExtractFrame(r) == Some((r[PrefixSize..PrefixSize + declared], r[PrefixSize + declared..]))
  {
  }

  /** A `recv` result read on an incomplete buffer, seen from position i of
      the results. */
  lemma ReceiveAt(mode: Mode, r: seq<byte>, source: seq<RecvResult>, i: nat)
    requires ExtractFrame(r) == None && i < |source|
    ensures var raw := ClassifyRecv(mode, source[i]);
            && (raw.status != OK ==> Receive(mode, r, source[i..]) == Reception(Some(raw.status), [], r, 1))
            && (raw.status == OK ==> Receive(mode, r, source[i..]) == Later(Receive(mode, r + raw.bytes, source[i + 1..]), 1))
  {
    assert source[i..][0] == source[i];
    assert source[i..][1..] == source[i + 1..];
  }

  /** The length field at the head of the buffer, copied byte by byte into
      a DATAPACKET_SIZE_T (SJNetSock.cpp:78-86). */
  method PeekLength(buffer: seq<byte>) returns (declared: nat)
    requires |buffer| >= PrefixSize
    ensures declared == DeclaredLength(buffer)
  {
    var prefix: seq<byte> := [];
    while |prefix| < PrefixSize
      invariant |prefix| <= PrefixSize
      invariant prefix == buffer[..|prefix|]
    {
      prefix := prefix + [buffer[|prefix|]];
    }
    declared := DeclaredLength(prefix);
  }

  /** Pushes bytes one at a time onto a packet's queue (SJNetSock.cpp:89-94). */
  method PushBytes(packet: DataPacket, bytes: seq<byte>)
    modifies packet`data
    ensures packet.data == old(packet.data) + bytes
  {
    for i := 0 to |bytes|
      invariant packet.data == old(packet.data) + bytes[..i]
    {
      packet.data := packet.data + [bytes[i]];
    }
    assert bytes[..|bytes|] == bytes;
  }

  /** One socket: its descriptor (-1 while closed), its blocking mode and the
      residual buffer of the reassembler (SJNetSock.hpp:128-131). */
  class Socket {
    var fd: int
    const mode: Mode
    var residual: seq<byte>

    constructor (mode: Mode)
      ensures this.mode == mode && fd == -1 && residual == []
    {
      this.mode := mode;
      fd := -1;
      residual := [];
    }

    /** `receiveInto(DataPacket&)` (SJNetSock.cpp:73-110), with the `recv`
        results it gets given as `source`. The payload is appended to the
        packet's queue. Corrected against the source: line 88 compares
        `declared >= size - 2`, true exactly when the payload is NOT yet
        complete; line 108 appends `readedBytes - 1` bytes, through
        `end()`, instead of all of them. */
    method ReceiveInto(packet: DataPacket, source: seq<RecvResult>) returns (status: Option<Status>, used: nat)
      modifies this`residual, packet`data
      ensures var x := Receive(mode, old(residual), source);
              status == x.status && used == x.used && residual == x.residual
              && packet.data == old(packet.data) + x.payload
    {
      used := 0;
      while true
        invariant used <= |source|
        invariant packet.data == old(packet.data)
        invariant Receive(mode, old(residual), source) == Later(Receive(mode, residual, source[used..]), used)
        decreases |source| - used
      {
        var buffer := residual;
        if |buffer| >= PrefixSize {
          var declared := PeekLength(buffer);
          if declared <= |buffer| - PrefixSize {
            FrameFound(buffer, declared);
            PushBytes(packet, buffer[PrefixSize..PrefixSize + declared]);
            residual := buffer[PrefixSize + declared..];
            status := Some(OK);
            return;
          }
        }
        if used == |source| {
          status := None;
          return;
        }
        ReceiveAt(mode, buffer, source, used);
        var raw := ClassifyRecv(mode, source[used]);
        used := used + 1;
        if raw.status != OK {
          status := Some(raw.status);
          return;
        }
        residual := buffer + raw.bytes;
      }
    }

    /** `sendTo(DataPacket&)` (SJNetSock.cpp:127-137): drain the packet
        behind its length prefix and hand the frame to `send`, whose outcome
        is `sent`. Corrected against the source: line 129 sizes the buffer
        without the two prefix bytes, and the loop of line 132 re-reads the
        shrinking queue size, so it stops half-way. */
    method SendTo(packet: DataPacket, sent: SendResult) returns (status: Status, wire: seq<byte>)
      modifies packet`data
      ensures wire == EncodeFrame(old(packet.data))
      ensures packet.data == []
      ensures status == if sent.Sent? then OK else FailureStatus(mode, sent.errno)
    {
      wire := LengthPrefix(|packet.data|);
      while packet.data != []
        invariant wire + packet.data == EncodeFrame(old(packet.data))
        decreases |packet.data|
      {
        wire := wire + [packet.data[0]];
        packet.data := packet.data[1..];
      }
      status := if sent.Sent? then OK else FailureStatus(mode, sent.errno);
    }
  }
}
