/** DataPacket: a FIFO byte queue (`std::queue<char> data`) that values are
    appended to with `operator<<` and popped from, in the same order, with
    `operator>>`. The functions below state what each operator does to the
    queue as a sequence; class DataPacket performs the same steps in place. */
module Packet {
  import opened Sj
  import opened ScalarCodec

  /** The value and the queue left by `operator>>` into a destination that
      held `dest`. When fewer than sizeof(T) bytes are queued the read does
      nothing: the destination keeps its value and the queue is unchanged.
      (The source only tests for a non-empty queue; see DataPacket.Read.) */
  function ReadScalar(q: seq<byte>, dest: Scalar): (r: (Scalar, seq<byte>))
    ensures TypeOf(r.0) == TypeOf(dest)
    ensures SizeOf(TypeOf(dest)) <= |q| ==> q == MemoryBytes(r.0) + r.1
    ensures |q| < SizeOf(TypeOf(dest)) ==> r.0 == dest && r.1 == q
  {
    var n := SizeOf(TypeOf(dest));
    if n <= |q| then
      MemoryOfFromMemory(TypeOf(dest), q[..n]);
      (FromMemory(TypeOf(dest), q[..n]), q[n..])
    else
      (dest, q)
  }

  /** The string and the queue left by the string `operator>>`: the bytes
      before the first 0, with that 0 consumed; with no 0 queued, every
      byte (see DataPacket.ReadString for this case). */
  function TakeString(q: seq<byte>): (r: (seq<byte>, seq<byte>))
    ensures 0 !in r.0
    ensures 0 in q ==> q == r.0 + [0] + r.1
    ensures 0 !in q ==> r.0 == q && r.1 == []
    decreases |q|
  {
    if q == [] then ([], [])
    else if q[0] == 0 then ([], q[1..])
    else
      var (s, rest) := TakeString(q[1..]);
      assert q == [q[0]] + q[1..];
      ([q[0]] + s, rest)
  }

  /** The string reader's loop invariant across one read of byte c, where
      `prefix` is what has been kept so far and q the queue before the read. */
  lemma TakeStringAfter(prefix: seq<byte>, q: seq<byte>, c: byte, rest: seq<byte>)
    requires q != [] ==> q == [c] + rest
    requires q == [] ==> c == 0 && rest == []
    ensures c != 0 ==> (prefix + TakeString(q).0, TakeString(q).1) == (prefix + [c] + TakeString(rest).0, TakeString(rest).1)
    ensures c == 0 ==> (prefix + TakeString(q).0, TakeString(q).1) == (prefix, rest)
  {
    if q != [] {
      assert q[0] == c && q[1..] == rest;
      assert prefix + ([c] + TakeString(rest).0) == prefix + [c] + TakeString(rest).0;
    }
    assert prefix + [] == prefix;
  }

  /** A written integer is read back, whatever follows it in the queue. */
  lemma ScalarRoundTrip(v: Scalar, dest: Scalar, tail: seq<byte>)
    requires TypeOf(dest) == TypeOf(v)
    ensures ReadScalar(MemoryBytes(v) + tail, dest) == (v, tail)
  {
    var r := ReadScalar(MemoryBytes(v) + tail, dest);
    assert MemoryBytes(v) + tail == MemoryBytes(r.0) + r.1;
    assert MemoryBytes(r.0) == (MemoryBytes(v) + tail)[..SizeOf(TypeOf(v))];
    MemoryInjective(v, r.0);
  }

  /** Reading from an empty queue changes neither the queue nor the destination. */
  lemma ReadEmptyIsNoOp(dest: Scalar)
    ensures ReadScalar([], dest) == (dest, [])
  {
  }

  /** A written string without NUL bytes is read back, and exactly its
      bytes and the terminator are consumed. */
  lemma {:induction false} StringRoundTrip(s: seq<byte>, tail: seq<byte>)
    requires 0 !in s
    ensures TakeString(s + [0] + tail) == (s, tail)
  {
    var q := s + [0] + tail;
    if s == [] {
      assert q == [0] + tail;
    } else {
      assert q[1..] == s[1..] + [0] + tail;
      StringRoundTrip(s[1..], tail);
      assert s == [s[0]] + s[1..];
    }
  }

  /** One value written with `operator<<`: an integer or a string. */
  datatype Item = Number(v: Scalar) | Text(s: seq<byte>)

  /** What a reader asks `operator>>` for: an integer type or a string. */
  datatype Shape = NumberOf(t: IntType) | TextShape

  function ShapeOf(i: Item): Shape
  {
    match i
    case Number(v) => NumberOf(TypeOf(v))
    case Text(_) => TextShape
  }

  function Shapes(items: seq<Item>): (r: seq<Shape>)
    ensures |r| == |items|
  {
    if items == [] then [] else [ShapeOf(items[0])] + Shapes(items[1..])
  }

  /** The bytes one `operator<<` appends. */
  function Encode(i: Item): seq<byte>
  {
    match i
    case Number(v) => MemoryBytes(v)
    case Text(s) => s + [0]
  }

  /** The queue after writing `items` in order into an empty packet. */
  function Serialize(items: seq<Item>): seq<byte>
  {
    if items == [] then [] else Encode(items[0]) + Serialize(items[1..])
  }

  /** The value one `operator>>` of the given shape reads, integers into a
      zeroed destination, and the queue after it. */
  function ReadItem(q: seq<byte>, shape: Shape): (r: (Item, seq<byte>))
    ensures ShapeOf(r.0) == shape
  {
    match shape
    case NumberOf(t) => var (v, rest) := ReadScalar(q, Zero(t)); (Number(v), rest)
    case TextShape => var (s, rest) := TakeString(q); (Text(s), rest)
  }

  lemma ItemRoundTrip(i: Item, tail: seq<byte>)
    requires i.Text? ==> 0 !in i.s
    ensures ReadItem(Encode(i) + tail, ShapeOf(i)) == (i, tail)
  {
    match i
    case Number(v) => ScalarRoundTrip(v, Zero(TypeOf(v)), tail);
    case Text(s) => StringRoundTrip(s, tail);
  }

  /** Reads one value of each shape in order. */
  function Deserialize(q: seq<byte>, shapes: seq<Shape>): (r: (seq<Item>, seq<byte>))
    ensures |r.0| == |shapes|
    decreases |shapes|
  {
    if shapes == [] then ([], q)
    else
      var (first, rest) := ReadItem(q, shapes[0]);
      var (others, left) := Deserialize(rest, shapes[1..]);
      ([first] + others, left)
  }

  predicate NoNulInText(items: seq<Item>)
  {
    forall k :: 0 <= k < |items| ==> items[k].Text? ==> 0 !in items[k].s
  }

  lemma NoNulInTail(items: seq<Item>)
    requires items != [] && NoNulInText(items)
    ensures NoNulInText(items[1..])
  {
    forall k | 0 <= k < |items[1..]| && items[1..][k].Text?
      ensures 0 !in items[1..][k].s
    {
      assert items[1..][k] == items[k + 1];
    }
  }

  /** Reading back the same sequence of types in the same order reproduces
      the written values, whatever else was queued after them. */
  lemma {:induction false} SerializeRoundTrip(items: seq<Item>, tail: seq<byte>)
    requires NoNulInText(items)
    ensures Deserialize(Serialize(items) + tail, Shapes(items)) == (items, tail)
  {
    if items != [] {
      var rest := Serialize(items[1..]) + tail;
      var q := Serialize(items) + tail;
      var shapes := Shapes(items);
      assert q == Encode(items[0]) + rest;
      ItemRoundTrip(items[0], rest);
      assert ReadItem(q, shapes[0]) == (items[0], rest);
      NoNulInTail(items);
      SerializeRoundTrip(items[1..], tail);
      assert shapes[1..] == Shapes(items[1..]);
      assert Deserialize(q, shapes) == ([items[0]] + items[1..], tail);
      assert [items[0]] + items[1..] == items;
    } else {
      assert Serialize(items) + tail == tail;
    }
  }

  /** FIFO order: a written before b is read before b. */
  lemma FifoPair(a: Scalar, b: Scalar)
    ensures var (x, q) := ReadScalar(MemoryBytes(a) + MemoryBytes(b), Zero(TypeOf(a)));
            var (y, q') := ReadScalar(q, Zero(TypeOf(b)));
            x == a && y == b && q' == []
  {
    ScalarRoundTrip(a, Zero(TypeOf(a)), MemoryBytes(b));
    ScalarRoundTrip(b, Zero(TypeOf(b)), []);
    assert MemoryBytes(b) + [] == MemoryBytes(b);
  }

  /** The queue of one DataPacket. */
  class DataPacket {
    var data: seq<byte>

    constructor ()
      ensures data == []
    {
      data := [];
    }

    /** OK exactly when every queued byte has been read (SJNetSock.cpp:24-26). */
    method AllDataReaded() returns (s: Status)
      ensures s == OK <==> data == []
      ensures s == OK || s == ERROR
    {
      s := if |data| == 0 then OK else ERROR;
    }

    /** Template `operator<<`: push the value's bytes one by one. */
    method Write(v: Scalar)
      modifies this
      ensures data == old(data) + MemoryBytes(v)
    {
      var bytes := MemoryBytes(v);
      for i := 0 to |bytes|
        invariant data == old(data) + bytes[..i]
      {
        data := data + [bytes[i]];
      }
    }

    /** Template `operator>>`: pop sizeof(T) bytes into the destination's
        bytes, in address order. Guarded here by "at least sizeof(T) bytes
        queued"; the source's guard `data.size() != 0` lets a short queue
        be over-read (SJNetSock.hpp:94). */
    method Read(dest: Scalar) returns (v: Scalar)
      modifies this
      ensures (v, data) == ReadScalar(old(data), dest)
    {
      v := dest;
      var size := SizeOf(TypeOf(dest));
      if |data| >= size {
        var memory := MemoryBytes(dest);
        for i := 0 to size
          invariant |memory| == size
          invariant memory[..i] == old(data)[..i]
          invariant data == old(data)[i..]
        {
          memory := memory[i := data[0]];
          data := data[1..];
        }
        assert memory == old(data)[..size];
        v := FromMemory(TypeOf(dest), memory);
      }
    }

    /** String `operator<<`: each byte as an int8, then a 0 terminator. */
    method WriteString(s: seq<byte>)
      modifies this
      ensures data == old(data) + s + [0]
    {
      for i := 0 to |s|
        invariant data == old(data) + s[..i]
      {
        Write(I8(CharAsInt8(s[i])));
      }
      Write(I8(0));
      assert s[..|s|] == s;
    }

    /** String `operator>>`: clear the destination, then read int8s,
        keeping each non-zero one, until a 0 has been read. The source
        reuses the last character as the destination of the next read, so
        on a queue that runs out before a 0 it loops for ever
        (SJNetSock.cpp:46-50); here each read starts from 0, so an
        exhausted queue ends the string. */
    method ReadString() returns (s: seq<byte>)
      modifies this
      ensures (s, data) == TakeString(old(data))
    {
      s := [];
      ghost var q := data;
      var c := Read(I8(0));
      assert s + TakeString(q).0 == TakeString(q).0;
      while c.v8 != 0
        invariant c.I8?
        invariant q != [] ==> q == [Int8AsChar(c.v8)] + data
        invariant q == [] ==> c.v8 == 0 && data == []
        invariant TakeString(old(data)) == (s + TakeString(q).0, TakeString(q).1)
        decreases |data| + (if c.v8 != 0 then 1 else 0)
      {
        TakeStringAfter(s, q, Int8AsChar(c.v8), data);
        s := s + [Int8AsChar(c.v8)];
        q := data;
        c := Read(I8(0));
      }
      TakeStringAfter(s, q, Int8AsChar(c.v8), data);
    }
  }
}
