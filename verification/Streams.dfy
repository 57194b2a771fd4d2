/** Reading and writing a fixed buffer through a moving position (libs/endian). */
module Streams {
  import opened KeyOrder
  import opened Endian

  /** The byte order a stream is made for. */
  datatype Order = Little | Big

  function ToBytes(order: Order, v: nat, n: nat): (bs: seq<byte>)
    ensures |bs| == n
  {
    if order == Little then LittleBytes(v, n) else BigBytes(v, n)
  }

  function FromBytes(order: Order, bs: seq<byte>): nat {
    if order == Little then LittleValue(bs) else BigValueFrom(0, bs)
  }

  lemma OrderRoundTrip(order: Order, v: nat, n: nat)
    requires v < Pow256(n)
    ensures FromBytes(order, ToBytes(order, v, n)) == v
  {
    LittleRoundTrip(v, n);
    BigRoundTrip(v, n);
  }

  // ---------------------------------------------------------------- lists of values of mixed widths

  datatype Field = Field(width: nat, value: nat)

  predicate Encodable(fields: seq<Field>) {
    forall i :: 0 <= i < |fields| ==> 1 <= fields[i].width <= 8 && fields[i].value < Pow256(fields[i].width)
  }

  function Encode(order: Order, fields: seq<Field>): seq<byte> {
    if fields == [] then [] else ToBytes(order, fields[0].value, fields[0].width) + Encode(order, fields[1..])
  }

  /** A list is encoded value by value, in its order. */
  lemma {:induction false} EncodeJoin(order: Order, a: seq<Field>, f: Field, b: seq<Field>)
    ensures Encode(order, []) == []
    ensures Encode(order, a + [f] + b) == Encode(order, a) + ToBytes(order, f.value, f.width) + Encode(order, b)
    decreases |a|
  {
    var all := a + [f] + b;
    EncodeFirst(order, all);
    if a == [] {
      assert all[0] == f && all[1..] == b;
    } else {
      assert all[0] == a[0] && all[1..] == a[1..] + [f] + b;
      EncodeFirst(order, a);
      EncodeJoin(order, a[1..], f, b);
      Regrouped(ToBytes(order, a[0].value, a[0].width), Encode(order, a[1..]), ToBytes(order, f.value, f.width),
                Encode(order, b));
    }
  }

  lemma Regrouped(a: seq<byte>, b: seq<byte>, c: seq<byte>, d: seq<byte>)
    ensures a + (b + c + d) == (a + b) + c + d
  {
  }

  function Widths(fields: seq<Field>): (ws: seq<nat>)
    ensures |ws| == |fields|
  {
    if fields == [] then [] else [fields[0].width] + Widths(fields[1..])
  }

  function Values(fields: seq<Field>): (vs: seq<nat>)
    ensures |vs| == |fields|
  {
    if fields == [] then [] else [fields[0].value] + Values(fields[1..])
  }

  /** The values of the given widths, as far as the bytes reach. */
  function Decode(order: Order, widths: seq<nat>, bs: seq<byte>): seq<nat> {
    if widths == [] || widths[0] > |bs| then []
    else [FromBytes(order, bs[..widths[0]])] + Decode(order, widths[1..], bs[widths[0]..])
  }

  /** Any list of values that fit their widths is read back, whatever follows it in the buffer. */
  lemma {:induction false} MixedRoundTrip(order: Order, fields: seq<Field>, more: seq<byte>)
    requires Encodable(fields)
    ensures Decode(order, Widths(fields), Encode(order, fields) + more) == Values(fields)
    decreases |fields|
  {
    if fields != [] {
      var first, rest := fields[0], fields[1..];
      OrderRoundTrip(order, first.value, first.width);
      MixedRoundTrip(order, rest, more);
      DecodeFirst(order, first.width, Widths(rest), ToBytes(order, first.value, first.width), Encode(order, rest),
                  more);
    }
  }

  lemma DecodeFirst(order: Order, width: nat, widths: seq<nat>, bs: seq<byte>, rest: seq<byte>, more: seq<byte>)
    requires |bs| == width
    ensures Decode(order, [width] + widths, bs + rest + more)
            == [FromBytes(order, bs)] + Decode(order, widths, rest + more)
  {
    var all := bs + rest + more;
    assert all[..width] == bs && all[width..] == rest + more;
    assert ([width] + widths)[1..] == widths;
  }

  // ---------------------------------------------------------------- the streams

  /** Writes into `size` bytes of a buffer, from `start` on. */
  class StreamWriter {
    const order: Order
    const data: array<byte>
    const start: nat
    const size: nat
    var position: nat

    predicate Valid()
      reads this
    {
      start + size <= data.Length && position <= size
    }

    constructor (order: Order, data: array<byte>, start: nat, size: nat)
      requires start + size <= data.Length
      ensures this.order == order && this.data == data && this.start == start && this.size == size
      ensures Valid() && position == 0
    {
      this.order, this.data, this.start, this.size := order, data, start, size;
      position := 0;
    }

    function RemainingSize(): nat
      requires Valid()
      reads this
    {
      size - position
    }

    method Seek(newPosition: nat)
      requires Valid() && newPosition <= size
      modifies this`position
      ensures Valid() && position == newPosition
    {
      position := newPosition;
    }

    method Skip(count: nat)
      requires Valid() && count <= RemainingSize()
      modifies this`position
      ensures Valid() && position == old(position) + count
    {
      Seek(position + count);
    }

    /** Writes an n-byte integer at the position and moves on. */
    method WriteBytes(value: nat, n: nat)
      requires Valid() && 1 <= n <= RemainingSize() && value < Pow256(n)
      modifies this`position, data
      ensures Valid() && position == old(position) + n
      ensures data[..] == Splice(old(data[..]), start + old(position), ToBytes(order, value, n))
    {
      ghost var before, bytes := data[..], ToBytes(order, value, n);
      var rest;
      if order == Little {
        rest := LittlePut(value, n, data, start + position);
        assert data[..] == Splice(before, start + position, bytes);
      } else {
        rest := BigPut(value, n, data, start + position);
        assert data[..] == Splice(before, start + position, bytes);
      }
      Skip(n);
    }

    /** Writes raw bytes at the position and moves on. */
    method WriteRaw(bytes: seq<byte>)
      requires Valid() && |bytes| <= RemainingSize()
      modifies this`position, data
      ensures Valid() && position == old(position) + |bytes|
      ensures data[..] == Splice(old(data[..]), start + old(position), bytes)
    {
      for i := 0 to |bytes|
        invariant position == old(position) && data[..] == Splice(old(data[..]), start + position, bytes[..i])
      {
        data[start + position + i] := bytes[i];
        SpliceOneMore(old(data[..]), start + position, bytes, i);
      }
      assert bytes[..|bytes|] == bytes;
      Skip(|bytes|);
    }
  }

  lemma SpliceOneMore(s: seq<byte>, at: nat, bs: seq<byte>, i: nat)
    requires i < |bs| && at + |bs| <= |s|
    ensures Splice(s, at, bs[..i])[at + i := bs[i]] == Splice(s, at, bs[..i + 1])
  {
  }

  /** Reads from `size` bytes of a buffer, from `start` on. */
  class StreamReader {
    const order: Order
    const data: array<byte>
    const start: nat
    const size: nat
    var position: nat

    predicate Valid()
      reads this
    {
      start + size <= data.Length && position <= size
    }

    constructor (order: Order, data: array<byte>, start: nat, size: nat)
      requires start + size <= data.Length
      ensures this.order == order && this.data == data && this.start == start && this.size == size
      ensures Valid() && position == 0
    {
      this.order, this.data, this.start, this.size := order, data, start, size;
      position := 0;
    }

    function RemainingSize(): nat
      requires Valid()
      reads this
    {
      size - position
    }

    method Skip(count: nat)
      requires Valid() && count <= RemainingSize()
      modifies this`position
      ensures Valid() && position == old(position) + count
    {
      position := position + count;
    }

    /** The n-byte integer at an offset from the position, which stays. */
    method PeekBytes(n: nat, offset: nat) returns (value: nat)
      requires Valid() && offset <= RemainingSize() && 1 <= n <= RemainingSize() - offset
      ensures value == FromBytes(order, data[start + position + offset..start + position + offset + n])
    {
      var at := start + position + offset;
      if order == Little {
        value := LittleGet(0, n, n, data, at);
      } else {
        BigValueFits(0, data[at..at + n]);
        value := BigGet(0, n, n, data, at, 0);
      }
    }

    /** Reads an n-byte integer and moves on. */
    method ReadBytes(n: nat) returns (value: nat)
      requires Valid() && 1 <= n <= RemainingSize()
      modifies this`position
      ensures Valid() && position == old(position) + n
      ensures value == FromBytes(order, data[start + old(position)..start + position])
    {
      value := PeekBytes(n, 0);
      Skip(n);
    }

    /** Reads raw bytes and moves on. */
    method ReadRaw(count: nat) returns (bytes: seq<byte>)
      requires Valid() && count <= RemainingSize()
      modifies this`position
      ensures Valid() && position == old(position) + count
      ensures bytes == data[start + old(position)..start + position]
    {
      bytes := data[start + position..start + position + count];
      Skip(count);
    }
  }

  lemma {:induction false} BigValueFits(a: nat, bs: seq<byte>)
    ensures BigValueFrom(a, bs) < (a + 1) * Pow256(|bs|)
    decreases |bs|
  {
    if bs != [] {
      BigValueFits(a * 256 + bs[0], bs[1..]);
      var p := Pow256(|bs| - 1);
      assert (a * 256 + bs[0] + 1) * p <= (a + 1) * 256 * p by {
        MulLess(a * 256 + bs[0] + 1, (a + 1) * 256, p);
      }
      assert (a + 1) * 256 * p == (a + 1) * (256 * p);
    }
  }

  lemma MulLess(x: nat, y: nat, p: nat)
    requires x <= y
    ensures x * p <= y * p
  {
  }

  // ---------------------------------------------------------------- chains of operators

  lemma SpliceTwice(s: seq<byte>, at: nat, a: seq<byte>, b: seq<byte>, t: seq<byte>, u: seq<byte>)
    requires at + |a| + |b| <= |s| && t == Splice(s, at, a) && u == Splice(t, at + |a|, b)
    ensures u == Splice(s, at, a + b)
  {
  }

  /** One integer after the other. */
  method WriteAll(stream: StreamWriter, fields: seq<Field>)
    requires stream.Valid() && Encodable(fields) && |Encode(stream.order, fields)| <= stream.RemainingSize()
    modifies stream`position, stream.data
    ensures stream.Valid() && stream.position == old(stream.position) + |Encode(stream.order, fields)|
    ensures stream.data[..]
         == Splice(old(stream.data[..]), stream.start + old(stream.position), Encode(stream.order, fields))
    decreases |fields|
  {
    if fields != [] {
      ghost var bs, rest := ToBytes(stream.order, fields[0].value, fields[0].width), Encode(stream.order, fields[1..]);
      ghost var before, at := stream.data[..], stream.start + stream.position;
      stream.WriteBytes(fields[0].value, fields[0].width);
      ghost var between := stream.data[..];
      WriteAll(stream, fields[1..]);
      SpliceTwice(before, at, bs, rest, between, stream.data[..]);
    }
  }

  /** Reads what was written: the same widths give the same values, and the position stays inside. */
  method ReadAll(stream: StreamReader, ghost fields: seq<Field>, widths: seq<nat>) returns (values: seq<nat>)
    requires stream.Valid() && Encodable(fields) && widths == Widths(fields)
    requires |Encode(stream.order, fields)| <= stream.RemainingSize()
    requires var at := stream.start + stream.position;
             stream.data[..][at..at + |Encode(stream.order, fields)|] == Encode(stream.order, fields)
    modifies stream`position
    ensures stream.Valid() && stream.position == old(stream.position) + |Encode(stream.order, fields)|
    ensures values == Values(fields)
    decreases |fields|
  {
    if widths == [] {
      values := [];
    } else {
      var value := ReadFirst(stream, fields, widths[0]);
      var more := ReadAll(stream, fields[1..], widths[1..]);
      values := [value] + more;
    }
  }

  /** Reads the first value of a list, and leaves the stream before the others. */
  method ReadFirst(stream: StreamReader, ghost fields: seq<Field>, width: nat) returns (value: nat)
    requires stream.Valid() && fields != [] && Encodable(fields) && width == fields[0].width
    requires |Encode(stream.order, fields)| <= stream.RemainingSize()
    requires var at := stream.start + stream.position;
             stream.data[..][at..at + |Encode(stream.order, fields)|] == Encode(stream.order, fields)
    modifies stream`position
    ensures stream.Valid() && stream.position == old(stream.position) + width && value == fields[0].value
    ensures var at, rest := stream.start + stream.position, Encode(stream.order, fields[1..]);
            && |Encode(stream.order, fields)| == width + |rest| && |rest| <= stream.RemainingSize()
            && stream.data[..][at..at + |rest|] == rest
  {
    ghost var data, at := stream.data[..], stream.start + stream.position;
    FirstField(stream.order, fields, data, at);
    assert stream.data[at..at + width] == data[at..at + width];
    value := stream.ReadBytes(width);
  }

  /** The bytes of a list in a buffer: those of its first value, and behind them those of the others. */
  lemma FirstField(order: Order, fields: seq<Field>, data: seq<byte>, at: nat)
    requires fields != [] && fields[0].value < Pow256(fields[0].width) && at + |Encode(order, fields)| <= |data|
    requires data[at..at + |Encode(order, fields)|] == Encode(order, fields)
    ensures var next, rest := at + fields[0].width, Encode(order, fields[1..]);
            && |Encode(order, fields)| == fields[0].width + |rest|
            && FromBytes(order, data[at..next]) == fields[0].value && data[next..next + |rest|] == rest
  {
    EncodeFirst(order, fields);
    FirstOf(order, fields[0].value, fields[0].width, Encode(order, fields[1..]), data, at, Encode(order, fields));
  }

  lemma FirstOf(order: Order, v: nat, width: nat, rest: seq<byte>, data: seq<byte>, at: nat, all: seq<byte>)
    requires all == ToBytes(order, v, width) + rest && v < Pow256(width)
    requires at + |all| <= |data| && data[at..at + |all|] == all
    ensures var next := at + width;
            |all| == width + |rest| && FromBytes(order, data[at..next]) == v && data[next..next + |rest|] == rest
  {
    var first := ToBytes(order, v, width);
    Apart(data, at, first, rest);
    assert data[at..at + width] == first;
    OrderRoundTrip(order, v, width);
  }

  lemma EncodeFirst(order: Order, fields: seq<Field>)
    requires fields != []
    ensures Encode(order, fields) == ToBytes(order, fields[0].value, fields[0].width) + Encode(order, fields[1..])
  {
  }

  lemma Apart(s: seq<byte>, at: nat, a: seq<byte>, b: seq<byte>)
    requires at + |a + b| <= |s| && s[at..at + |a + b|] == a + b
    ensures s[at..at + |a|] == a && s[at + |a|..at + |a| + |b|] == b
  {
    assert s[at..at + |a|] == s[at..at + |a + b|][..|a|];
    assert s[at + |a|..at + |a| + |b|] == s[at..at + |a + b|][|a|..];
  }
}
