/** The behaviour of six places in SJNetSock.cpp / SJNetSock.hpp as they
    are written, next to the corrected behaviour the rest of the model
    uses. Each group pairs an as-written member with a lemma that exhibits
    where it departs from the corrected one. */
module AsWritten {
  import opened Sj
  import opened ScalarCodec
  import opened Packet
  import opened Transport

  /** 2^64: size_t arithmetic wraps modulo this. */
  const SizeMax: nat := 0x1_0000_0000_0000_0000

  /* ---- SJNetSock.cpp:88: the completeness test of the reassembler ---- */

  /** The test of SJNetSock.cpp:88, `packetSizeInBuffer >= size - 2`: it
      holds exactly when the buffer is no longer than the frame it declares. */
  function CompleteAsWritten(r: seq<byte>): (b: bool)
    requires |r| >= PrefixSize
    ensures b <==> |r| <= PrefixSize + DeclaredLength(r)
  {
    DeclaredLength(r) >= |r| - PrefixSize
  }

  /** Except when the buffer holds exactly one frame and nothing more, the
      test as written says the opposite of whether a frame is complete. */
  lemma GuardInverted(r: seq<byte>)
    requires |r| >= PrefixSize
    ensures DeclaredLength(r) != |r| - PrefixSize ==> (CompleteAsWritten(r) <==> ExtractFrame(r).None?)
    ensures DeclaredLength(r) == |r| - PrefixSize ==> CompleteAsWritten(r) && ExtractFrame(r).Some?
  {
  }

  /** A 5-byte frame of which one payload byte has arrived is taken as
      complete (the copy loop then reads past the buffer), and a complete
      1-byte frame followed by one more byte is taken as incomplete. */
  lemma GuardCounterexamples()
    ensures CompleteAsWritten([5, 0, 1]) && ExtractFrame([5, 0, 1]) == None
    ensures !CompleteAsWritten([1, 0, 9, 9]) && ExtractFrame([1, 0, 9, 9]) == Some(([9], [9]))
  {
    assert DeclaredLength([5, 0, 1]) == 5;
    assert DeclaredLength([1, 0, 9, 9]) == 1;
    FrameFound([1, 0, 9, 9], 1);
    assert [1, 0, 9, 9][2..3] == [9] && [1, 0, 9, 9][3..] == [9];
  }

  /* ---- SJNetSock.cpp:108: appending a raw read to the buffer ---- */

  /** The count SJNetSock.cpp:108 passes to `copy_n`: `readedBytes - 1`
      computed in size_t. */
  function CopyCountAsWritten(readed: nat): (n: nat)
    requires readed < SizeMax
    ensures n < SizeMax
    ensures readed >= 1 ==> n + 1 == readed
    ensures readed == 0 ==> n == SizeMax - 1
  {
    (readed + SizeMax - 1) % SizeMax
  }

  /** The buffer after line 108 copies a read of `readed` bytes. `copy_n`
      writes through the list's `end()`: that inserts nothing, and the first
      such write is undefined (None). Only a count of 0 writes nothing, and
      then the buffer is as it was: the byte read is lost. */
  function AppendAsWritten(r: seq<byte>, readed: nat): (r': Option<seq<byte>>)
    requires readed < SizeMax
    ensures r'.Some? <==> readed == 1
    ensures r'.Some? ==> r'.value == r
  {
    if CopyCountAsWritten(readed) == 0 then Some(r) else None
  }

  predicate ReadSizesFit(chunks: seq<seq<byte>>)
  {
    forall i :: 0 <= i < |chunks| ==> |chunks[i]| < SizeMax
  }

  /** The buffer after line 108 has handled the given reads in order; None
      once one of them made an undefined write. */
  function AppendAllAsWritten(r: seq<byte>, chunks: seq<seq<byte>>): (r': Option<seq<byte>>)
    requires ReadSizesFit(chunks)
    ensures r'.Some? ==> r'.value == r
    ensures r'.Some? <==> forall i :: 0 <= i < |chunks| ==> |chunks[i]| == 1
    decreases |chunks|
  {
    if chunks == [] then Some(r)
    else
      assert forall i :: 0 <= i < |chunks| - 1 ==> chunks[1..][i] == chunks[i + 1];
      match AppendAsWritten(r, |chunks[0]|)
      case None => None
      case Some(r1) => AppendAllAsWritten(r1, chunks[1..])
  }

  /** From an empty buffer, no run of reads ever puts a byte into it as
      written, so no frame is ever found and the call never returns OK;
      the corrected reassembler returns a one-byte frame read in one piece. */
  lemma WholeFrameNeverCompletes(chunks: seq<seq<byte>>)
    requires ReadSizesFit(chunks)
    ensures AppendAllAsWritten([], chunks).Some? ==> |AppendAllAsWritten([], chunks).value| < PrefixSize
    ensures AppendAsWritten([], |[1, 0, 7]|) == None
    ensures Receive(BLOCKING, [], [Received([1, 0, 7])]) == Reception(Some(OK), [7], [], 1)
  {
    assert [] + [1, 0, 7] == [1, 0, 7];
    FrameFound([1, 0, 7], 1);
  }

  /* ---- SJNetSock.cpp:128-137: sendTo(DataPacket&) ---- */

  /** The loop of SJNetSock.cpp:132-135: `i` counts up while the queue it is
      compared with shrinks, so only the first half (rounded up) is taken. */
  method DrainAsWritten(packet: DataPacket) returns (copied: seq<byte>)
    modifies packet`data
    ensures var k := (|old(packet.data)| + 1) / 2;
            copied == old(packet.data)[..k] && packet.data == old(packet.data)[k..]
  {
    ghost var q := packet.data;
    var i := 0;
    copied := [];
    while i < |packet.data|
      invariant i <= |q| && 2 * i <= |q| + 1
      invariant copied == q[..i] && packet.data == q[i..]
      decreases |packet.data| - i
    {
      copied := copied + [packet.data[0]];
      packet.data := packet.data[1..];
      i := i + 1;
    }
  }

  function Zeros(k: nat): (z: seq<byte>)
    ensures |z| == k && forall i :: 0 <= i < k ==> z[i] == 0
  {
    if k == 0 then [] else [0] + Zeros(k - 1)
  }

  /** The bytes handed to `send` by the source for a packet holding q: a
      zeroed vector of `(uint16) |q|` bytes, the length prefix at its start
      and the drained half after it. None when one of those writes falls
      outside the vector. */
  function SentAsWritten(q: seq<byte>): (wire: Option<seq<byte>>)
    ensures wire.Some? <==> PrefixSize + (|q| + 1) / 2 <= |q| % 65536
    ensures wire.Some? ==> |wire.value| == |q| % 65536
  {
    var n := |q| % 65536;
    var k := (|q| + 1) / 2;
    if PrefixSize + k <= n then Some(LengthPrefix(|q|) + q[..k] + Zeros(n - PrefixSize - k))
    else None
  }

  /** Packets of fewer than 4 bytes (the empty one included) overrun the
      vector. Larger ones send bytes that are not the packet's frame and
      are not a complete frame on their own: the receiver takes the start
      of the next send to complete it, and framing is lost. */
  lemma SendShort(q: seq<byte>)
    requires |q| <= MaxPayload
    ensures |q| < 4 <==> SentAsWritten(q).None?
    ensures SentAsWritten(q).Some? ==> ExtractFrame(SentAsWritten(q).value) == None
    ensures SentAsWritten(q).Some? ==> SentAsWritten(q).value != EncodeFrame(q)
  {
  }

  /** A packet holding 1, 2, 3, 4 goes out as 4, 0, 1, 2 with 3, 4 left in
      the packet; the corrected sendTo sends all six bytes and empties it. */
  lemma SendCounterexample()
    ensures SentAsWritten([1, 2, 3, 4]) == Some([4, 0, 1, 2])
    ensures EncodeFrame([1, 2, 3, 4]) == [4, 0, 1, 2, 3, 4]
    ensures [1, 2, 3, 4][(4 + 1) / 2..] == [3, 4]
  {
    assert LengthPrefix(4) == [4, 0];
    assert Zeros(0) == [];
    assert [1, 2, 3, 4][..2] == [1, 2];
    assert [4, 0] + [1, 2] + [] == [4, 0, 1, 2];
  }

  /* ---- SJNetSock.hpp:94: the guard of the integer reader ---- */

  /** The guard of SJNetSock.hpp:94: any non-empty queue is read from, so
      the guard is the right one for an int8 and for no wider type. */
  function ReadGuardAsWritten(q: seq<byte>): (b: bool)
    ensures b <==> SizeOf(Int8) <= |q|
  {
    |q| != 0
  }

  /** For every type wider than a byte there are queues the guard lets
      through that hold fewer bytes than the read pops; the corrected read
      leaves those alone. For int8 the two guards agree. */
  lemma ReadGuardTooWeak(q: seq<byte>, dest: Scalar)
    ensures SizeOf(TypeOf(dest)) == 1 ==> (ReadGuardAsWritten(q) <==> SizeOf(TypeOf(dest)) <= |q|)
    ensures 0 < |q| < SizeOf(TypeOf(dest)) ==> ReadGuardAsWritten(q) && ReadScalar(q, dest) == (dest, q)
  {
  }

  /* ---- SJNetSock.cpp:44-51: the string reader ---- */

  /** The locals of the loop of SJNetSock.cpp:46-50 and the queue. */
  datatype ReaderState = ReaderState(queue: seq<byte>, current: byte, text: seq<byte>)

  /** One pass of that loop: read an int8 into `currentChar` (left as it
      was when the queue is empty), and keep it unless it is 0. */
  function StringStepAsWritten(st: ReaderState): (r: ReaderState)
    ensures st.queue != [] ==> r.queue == st.queue[1..] && r.current == st.queue[0]
    ensures st.queue == [] ==> r.queue == [] && r.current == st.current
    ensures r.current != 0 ==> r.text == st.text + [r.current]
    ensures r.current == 0 ==> r.text == st.text
  {
    var (c, q) := if st.queue != [] then (st.queue[0], st.queue[1..]) else (st.current, st.queue);
    ReaderState(q, c, if c != 0 then st.text + [c] else st.text)
  }

  /** n passes of the loop, whatever its condition says: each pass pops at
      most one byte and appends at most one, after the text kept so far. */
  function StringRunAsWritten(st: ReaderState, n: nat): (r: ReaderState)
    ensures |r.queue| == if n <= |st.queue| then |st.queue| - n else 0
    ensures |st.text| <= |r.text| <= |st.text| + n
    ensures r.text[..|st.text|] == st.text
    decreases n
  {
    if n == 0 then st
    else
      var next := StringStepAsWritten(st);
      var r := StringRunAsWritten(next, n - 1);
      assert r.text[..|st.text|] == r.text[..|next.text|][..|st.text|];
      r
  }

  lemma RunOne(st: ReaderState)
    ensures StringRunAsWritten(st, 1) == StringStepAsWritten(st)
  {
  }

  lemma {:induction false} RunTakesPrefix(q: seq<byte>, n: nat)
    requires 0 !in q && 1 <= n <= |q|
    ensures StringRunAsWritten(ReaderState(q, 0, []), n) == ReaderState(q[n..], q[n - 1], q[..n])
  {
    var start := ReaderState(q, 0, []);
    if n > 1 {
      RunTakesPrefix(q, n - 1);
      var before := StringRunAsWritten(start, n - 1);
      assert before == ReaderState(q[n - 1..], q[n - 2], q[..n - 1]);
      RunSplit(start, n - 1, 1);
      RunOne(before);
      var after := StringStepAsWritten(before);
      assert q[n - 1..][0] == q[n - 1] && q[n - 1..][1..] == q[n..];
      assert after.current == q[n - 1] && q[n - 1] != 0;
      assert q[..n - 1] + [q[n - 1]] == q[..n];
    } else {
      RunOne(start);
    }
  }

  lemma {:induction false} RunSplit(st: ReaderState, m: nat, k: nat)
    ensures StringRunAsWritten(st, m + k) == StringRunAsWritten(StringRunAsWritten(st, m), k)
    decreases m
  {
    if m > 0 {
      var next := StringStepAsWritten(st);
      calc {
        StringRunAsWritten(st, m + k);
        { RunUnfold(st, m + k); }
        StringRunAsWritten(next, (m - 1) + k);
        { RunSplit(next, m - 1, k); }
        StringRunAsWritten(StringRunAsWritten(next, m - 1), k);
        { RunUnfold(st, m); }
        StringRunAsWritten(StringRunAsWritten(st, m), k);
      }
    }
  }

  lemma RunUnfold(st: ReaderState, n: nat)
    requires n > 0
    ensures StringRunAsWritten(st, n) == StringRunAsWritten(StringStepAsWritten(st), n - 1)
  {
  }

  /** On an exhausted queue with a non-zero character left over, every pass
      appends that character again and changes nothing else. */
  lemma {:induction false} ExhaustedReaderSpins(st: ReaderState, n: nat)
    requires st.queue == [] && st.current != 0
    ensures var r := StringRunAsWritten(st, n);
            && r.queue == [] && r.current == st.current && |r.text| == |st.text| + n
            && r.text[..|st.text|] == st.text
            && forall i :: |st.text| <= i < |r.text| ==> r.text[i] == st.current
    decreases n
  {
    if n > 0 {
      var next := StringStepAsWritten(st);
      assert next.text == st.text + [st.current];
      ExhaustedReaderSpins(next, n - 1);
      var r := StringRunAsWritten(st, n);
      assert r == StringRunAsWritten(next, n - 1);
      forall i | |st.text| <= i < |r.text|
        ensures r.text[i] == st.current
      {
        if i == |st.text| {
          assert r.text[..|next.text|][i] == next.text[i];
        }
      }
    }
  }

  /** A string without its terminator at the end of a packet: after every
      number of passes the loop's condition still holds, so the source's
      reader never returns. The corrected reader returns the bytes. */
  lemma UnterminatedStringNeverEnds(q: seq<byte>, n: nat)
    requires q != [] && 0 !in q && n >= 1
    ensures StringRunAsWritten(ReaderState(q, 0, []), n).current != 0
    ensures TakeString(q) == (q, [])
  {
    if n <= |q| {
      RunTakesPrefix(q, n);
    } else {
      SpinsAfterDrained(q, n - |q|);
    }
  }

  lemma SpinsAfterDrained(q: seq<byte>, extra: nat)
    requires q != [] && 0 !in q
    ensures StringRunAsWritten(ReaderState(q, 0, []), |q| + extra).current == q[|q| - 1]
  {
    var start := ReaderState(q, 0, []);
    RunTakesPrefix(q, |q|);
    var drained := StringRunAsWritten(start, |q|);
    assert drained == ReaderState(q[|q|..], q[|q| - 1], q[..|q|]);
    assert q[|q|..] == [];
    RunSplit(start, |q|, extra);
    ExhaustedReaderSpins(drained, extra);
  }
}
