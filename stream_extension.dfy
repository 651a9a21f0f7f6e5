/** Length-prefixed string framing over a stream: a frame is the UTF-8 byte count as four
    little-endian bytes, then the UTF-8 bytes. The stream is the shared-memory stream of
    `MemoryMapped`; the receiver reads until it holds exactly the bytes it asked for. */
module StreamExtension {
  import opened Base
  import opened Utf8
  import opened BitConverter
  import opened MemoryMapped

  // ---------------------------------------------------------------------------------------
  // The frame format

  /** The frame that carries `s`. */
  function FrameOf(s: string): (f: seq<byte>)
    requires IsInt32(|Encode(s)|)
    ensures |f| == SizeOfInt + |Encode(s)|
  {
    GetBytes(|Encode(s)|) + Encode(s)
  }

  /** The count a frame at the head of `u` announces. */
  function FrameCount(u: seq<byte>): int
    requires |u| >= SizeOfInt
  {
    ToInt32(u[..SizeOfInt])
  }

  /** The bytes a receiver needs in the stream: the prefix, then as many bytes as a
      positive count announces. */
  predicate FrameAvailable(u: seq<byte>)
  {
    |u| >= SizeOfInt && (FrameCount(u) > 0 ==> SizeOfInt + FrameCount(u) <= |u|)
  }

  /** How many bytes receiving the frame at the head of `u` takes from the stream: the
      prefix, and the payload unless the count is negative. */
  function Consumed(u: seq<byte>): (k: int)
    requires FrameAvailable(u)
    ensures SizeOfInt <= k <= |u|
  {
    if FrameCount(u) < 0 then SizeOfInt else SizeOfInt + FrameCount(u)
  }

  /** What receiving the frame at the head of `u` yields: the decoded payload, or the
      exception `GetString` throws for a negative count. */
  function ParseFrame(u: seq<byte>): (r: Result<string>)
    requires FrameAvailable(u)
    ensures r.Failure? <==> FrameCount(u) < 0
    ensures r.Failure? ==> r.error == ArgumentOutOfRange("count")
  {
    var n := FrameCount(u);
    if n < 0 then Failure(ArgumentOutOfRange("count"))
    else Success(Decode(u[SizeOfInt..SizeOfInt + n]))
  }

  /** A frame followed by anything parses back to its string and takes exactly its own
      bytes, the empty string included. */
  lemma ParseFrameOf(s: string, rest: seq<byte>)
    requires IsInt32(|Encode(s)|)
    ensures FrameAvailable(FrameOf(s) + rest)
    ensures FrameCount(FrameOf(s) + rest) == |Encode(s)|
    ensures ParseFrame(FrameOf(s) + rest) == Success(s)
    ensures Consumed(FrameOf(s) + rest) == |FrameOf(s)|
    ensures (FrameOf(s) + rest)[Consumed(FrameOf(s) + rest)..] == rest
  {
    var u := FrameOf(s) + rest;
    var e := Encode(s);
    assert u[..SizeOfInt] == GetBytes(|e|);
    ToInt32GetBytes(|e|);
    assert u[SizeOfInt..SizeOfInt + |e|] == e;
    DecodeEncode(s);
  }

  // ---------------------------------------------------------------------------------------
  // Sending

  /** Builds the frame for `str`: the four count bytes copied by a descending loop that
      touches only indices 3, 2, 1, 0, then the UTF-8 bytes from index 4 on. */
  method ToBytesWithIntCountPrefix(str: string) returns (bytes: array<byte>)
    requires IsInt32(|Encode(str)|)
    ensures fresh(bytes)
    ensures bytes[..] == FrameOf(str)
  {
    var payload := Encode(str);
    var count := |payload|;
    var countAsBytes := GetBytes(count);
    bytes := new byte[SizeOfInt + count](_ => 0);
    ghost var zero := bytes[..];
    var i := SizeOfInt;
    while i > 0
      invariant 0 <= i <= SizeOfInt
      invariant bytes[..] == zero[..i] + countAsBytes[i..] + zero[SizeOfInt..]
      decreases i
    {
      i := i - 1;
      bytes[i] := countAsBytes[i];
    }
    assert bytes[..SizeOfInt] == countAsBytes;
    CopyEncoded(payload, bytes, SizeOfInt);
  }

  /** `Encoding.UTF8.GetBytes(str, 0, str.Length, bytes, at)`: puts the encoded bytes at
      `at` and leaves the rest of `bytes` alone. */
  method CopyEncoded(payload: seq<byte>, bytes: array<byte>, at: int)
    requires 0 <= at && at + |payload| == bytes.Length
    modifies bytes
    ensures bytes[..] == old(bytes[..at]) + payload
  {
    forall j | 0 <= j < |payload| {
      bytes[at + j] := payload[j];
    }
    assert bytes[at..] == payload;
  }

  /** Sends `str` as one frame with a single `Write` of the whole frame. */
  method SendString(stream: MemoryMappedFileStream, str: string) returns (r: Outcome)
    requires stream.Valid()
    requires IsInt32(|Encode(str)|)
    requires !stream.isDisposed ==>
      |stream.writeChannel.Unread()| + |FrameOf(str)| <= stream.writeChannel.capacity
    modifies stream.writeChannel, stream.writeChannel.data
    ensures stream.Valid()
    ensures r == (if stream.isDisposed then Fail(ObjectDisposed) else Pass)
    ensures r.Pass? ==> stream.writeChannel.Unread() == old(stream.writeChannel.Unread()) + FrameOf(str)
    ensures r.Fail? ==> unchanged(stream.writeChannel) && unchanged(stream.writeChannel.data)
  {
    var bytes := ToBytesWithIntCountPrefix(str);
    r := stream.Write(bytes, 0, bytes.Length);
    assert bytes[0..bytes.Length] == bytes[..];
  }

  // ---------------------------------------------------------------------------------------
  // Receiving

  /** Reads until exactly `count` bytes fill `bytes[offset..offset + count]`, in stream
      order. No writer runs beside it here, so the bytes must already be in the ring, and
      the first read returns them all. Only the first read can throw. */
  method ReceiveBytes(stream: MemoryMappedFileStream, bytes: array<byte>, offset: int, count: int)
    returns (r: Outcome)
    requires stream.Valid()
    requires bytes != stream.readChannel.data
    requires count > 0 && CheckRead(stream.isDisposed, bytes, offset, count).Pass? ==>
      count <= |stream.readChannel.Unread()|
    modifies stream.readChannel, bytes
    ensures stream.Valid()
    ensures r.Fail? <==> count > 0 && CheckRead(stream.isDisposed, bytes, offset, count).Fail?
    ensures r.Fail? ==> r.error == CheckRead(stream.isDisposed, bytes, offset, count).error
    ensures r.Fail? || count <= 0 ==>
      bytes[..] == old(bytes[..]) && stream.readChannel.Unread() == old(stream.readChannel.Unread())
    ensures r.Pass? && count > 0 ==>
      var u := old(stream.readChannel.Unread());
      && bytes[..] == old(bytes[..offset]) + u[..count] + old(bytes[offset + count..])
      && stream.readChannel.Unread() == u[count..]
  {
    ghost var u := stream.readChannel.Unread();
    ghost var b0 := bytes[..];
    ghost var ok := CheckRead(stream.isDisposed, bytes, offset, count).Pass?;
    var totalReceived := 0;
    while totalReceived < count
      invariant stream.Valid()
      invariant 0 <= totalReceived <= |u|
      invariant totalReceived > 0 ==> ok && totalReceived <= count
      invariant stream.readChannel.Unread() == u[totalReceived..]
      invariant forall i :: 0 <= i < bytes.Length ==>
        bytes[i] == if offset <= i < offset + totalReceived then u[i - offset] else b0[i]
      decreases count - totalReceived
    {
      var read := stream.Read(bytes, offset + totalReceived, count - totalReceived);
      if read.Failure? {
        assert bytes[..] == b0;
        return Fail(read.error);
      }
      totalReceived := totalReceived + read.value;
    }
    if count > 0 {
      Splice(bytes[..], b0, offset, u[..count]);
    } else {
      assert bytes[..] == b0;
    }
    r := Pass;
  }

  /** What the two reads of `ReceiveString` leave behind determine the frame: `head` is the
      prefix, and `b1` is `b0` with the announced number of payload bytes put at its front. */
  lemma ReceivedFrame(u: seq<byte>, head: seq<byte>, b0: seq<byte>, b1: seq<byte>)
    requires FrameAvailable(u) && head == u[..SizeOfInt]
    requires var n := ToInt32(head);
      n > 0 ==> n <= |b0| && b1 == b0[..0] + u[SizeOfInt..][..n] + b0[n..]
    ensures var n := ToInt32(head);
      && n == FrameCount(u)
      && (n >= 0 ==> n <= |b1| && ParseFrame(u) == Success(Decode(b1[..n])))
      && (n >= 0 ==> u[SizeOfInt..][n..] == u[Consumed(u)..])
  {
    var n := ToInt32(head);
    if n > 0 {
      assert b1[..n] == u[SizeOfInt..SizeOfInt + n];
    }
  }

  /** Receives one frame: four bytes of count, then the payload, decoded. A count of at
      most four reuses the prefix buffer; a negative count reads nothing more and then
      `GetString` throws. */
  method ReceiveString(stream: MemoryMappedFileStream) returns (r: Result<string>)
    requires stream.Valid()
    requires !stream.isDisposed ==> FrameAvailable(stream.readChannel.Unread())
    modifies stream.readChannel
    ensures stream.Valid()
    ensures stream.isDisposed ==>
      r == Failure(ObjectDisposed) && stream.readChannel.Unread() == old(stream.readChannel.Unread())
    ensures !stream.isDisposed ==>
      var u := old(stream.readChannel.Unread());
      && r == ParseFrame(u)
      && stream.readChannel.Unread() == u[Consumed(u)..]
  {
    ghost var u := stream.readChannel.Unread();
    var bytes := new byte[SizeOfInt];
    var received := ReceiveBytes(stream, bytes, 0, SizeOfInt);
    if received.Fail? {
      return Failure(received.error);
    }
    ghost var head := bytes[..];
    assert head == u[..SizeOfInt];
    var count := ToInt32(bytes[..]);
    if bytes.Length < count {
      bytes := new byte[count];
    }
    ghost var b0 := bytes[..];
    received := ReceiveBytes(stream, bytes, 0, count);
    // the stream is open and the buffer holds `count` bytes, so this read cannot throw
    assert received.Pass?;
    ReceivedFrame(u, head, b0, bytes[..]);
    if count < 0 {
      return Failure(ArgumentOutOfRange("count"));
    }
    r := Success(Decode(bytes[..count]));
  }

  // ---------------------------------------------------------------------------------------
  // The two ends together

  /** A sender's two frames, back to back, on an empty write ring. */
  method SendTwo(client: MemoryMappedFileStream, first: string, second: string)
    requires client.Valid() && !client.isDisposed && client.writeChannel.Unread() == []
    requires IsInt32(|Encode(first)|) && IsInt32(|Encode(second)|)
    requires |FrameOf(first)| + |FrameOf(second)| <= client.writeChannel.capacity
    modifies client.writeChannel, client.writeChannel.data
    ensures client.Valid() && client.writeChannel.Unread() == FrameOf(first) + FrameOf(second)
  {
    var sent1 := SendString(client, first);
    var sent2 := SendString(client, second);
  }

  /** A receiver whose read ring holds exactly two frames gets their strings back, in
      order, and leaves the ring empty. */
  method ReceiveTwo(server: MemoryMappedFileStream, first: string, second: string)
    returns (r1: Result<string>, r2: Result<string>)
    requires server.Valid() && !server.isDisposed
    requires IsInt32(|Encode(first)|) && IsInt32(|Encode(second)|)
    requires server.readChannel.Unread() == FrameOf(first) + FrameOf(second)
    modifies server.readChannel
    ensures r1 == Success(first) && r2 == Success(second)
    ensures server.Valid() && server.readChannel.Unread() == []
  {
    ParseFrameOf(first, FrameOf(second));
    r1 := ReceiveString(server);
    ParseFrameOf(second, []);
    assert FrameOf(second) + [] == FrameOf(second);
    r2 := ReceiveString(server);
  }

  /** Two strings across one region: a client sends `first` and then `second`, and a server
      opened on the same region receives them back, unchanged and in order. Both frames must
      fit the ring at once, since no reader runs beside the sender. */
  method SendThenReceive(mapName: string, capacity: int, first: string, second: string)
    returns (r1: Result<string>, r2: Result<string>)
    requires mapName != "" && capacity > 0
    requires IsInt32(|Encode(first)|) && IsInt32(|Encode(second)|)
    requires |FrameOf(first)| + |FrameOf(second)| <= capacity
    ensures r1 == Success(first) && r2 == Success(second)
  {
    var region := new SharedRegion(mapName, capacity, capacity);
    var server := new MemoryMappedFileStream(mapName, true, capacity, capacity, region);
    var client := new MemoryMappedFileStream(mapName, false, capacity, capacity, region);
    SendTwo(client, first, second);
    r1, r2 := ReceiveTwo(server, first, second);
  }
}
