/** The shared-memory byte stream: a named region holding two one-way ring buffers, one per
    direction, each with its `start`/`count` header just past its data bytes and its own
    named lock, "data available" event and "space available" event. */
module MemoryMapped {
  import opened Base

  const SizeOfLong: int := 8
  /** Room for the two 64-bit header fields after each channel's data. */
  const ReservedHeaderSize: int := 2 * SizeOfLong
  /** Chosen so that one channel view, data plus header, is exactly 64 KiB. */
  const DefaultCapacity: int := 0x10000 - ReservedHeaderSize

  /** With the default capacities, each of the two views is exactly 64 KiB. */
  lemma DefaultViews(isServer: bool)
    ensures var l := LayoutFor(isServer, DefaultCapacity, DefaultCapacity);
      l.readViewSize == 0x10000 && l.writeViewSize == 0x10000 && l.regionSize == 2 * 0x10000
  {
  }

  const AccessLockSuffix: string := "L"
  const EmptyEventSuffix: string := "E"
  const FullEventSuffix: string := "F"
  const Suffix0: string := "0"
  const Suffix1: string := "1"

  // ---------------------------------------------------------------------------------------
  // Layout of the region and names of the synchronisation objects

  /** Offsets, relative to the region or to a view, that one side of a connection uses. */
  datatype Layout = Layout(
    regionSize: int,
    readViewOffset: int, readViewSize: int,
    writeViewOffset: int, writeViewSize: int,
    startOffsetR: int, countOffsetR: int,
    startOffsetW: int, countOffsetW: int)

  /** The server maps its read view first and its write view right after it; the client
      maps its write view first. */
  function LayoutFor(isServer: bool, readCapacity: int, writeCapacity: int): (l: Layout)
    requires readCapacity > 0 && writeCapacity > 0
    // the two views are adjacent and together fill the region
    ensures l.regionSize == readCapacity + writeCapacity + 2 * ReservedHeaderSize
    ensures l.readViewSize == readCapacity + ReservedHeaderSize
    ensures l.writeViewSize == writeCapacity + ReservedHeaderSize
    ensures isServer ==> l.readViewOffset == 0 && l.writeViewOffset == l.readViewSize
    ensures !isServer ==> l.writeViewOffset == 0 && l.readViewOffset == l.writeViewSize
    ensures l.readViewSize + l.writeViewSize == l.regionSize
    ensures l.readViewOffset + l.readViewSize <= l.writeViewOffset
      || l.writeViewOffset + l.writeViewSize <= l.readViewOffset
    ensures 0 <= l.readViewOffset && l.readViewOffset + l.readViewSize <= l.regionSize
    ensures 0 <= l.writeViewOffset && l.writeViewOffset + l.writeViewSize <= l.regionSize
    // each header lies past its channel's data bytes and ends where its view ends
    ensures l.startOffsetR == readCapacity && l.countOffsetR == l.startOffsetR + SizeOfLong
    ensures l.countOffsetR + SizeOfLong == l.readViewSize
    ensures l.startOffsetW == writeCapacity && l.countOffsetW == l.startOffsetW + SizeOfLong
    ensures l.countOffsetW + SizeOfLong == l.writeViewSize
  {
    var readViewSize := readCapacity + ReservedHeaderSize;
    var writeViewSize := writeCapacity + ReservedHeaderSize;
    Layout(
      readCapacity + writeCapacity + 2 * ReservedHeaderSize,
      if isServer then 0 else writeViewSize, readViewSize,
      if isServer then readViewSize else 0, writeViewSize,
      readCapacity, readCapacity + SizeOfLong,
      writeCapacity, writeCapacity + SizeOfLong)
  }

  /** A client whose capacities are the server's swapped reads exactly the bytes the server
      writes and writes exactly the bytes the server reads, in a region of the same size. */
  lemma LayoutsAgree(serverRead: int, serverWrite: int)
    requires serverRead > 0 && serverWrite > 0
    ensures var s, c := LayoutFor(true, serverRead, serverWrite), LayoutFor(false, serverWrite, serverRead);
      && s.regionSize == c.regionSize
      && s.readViewOffset == c.writeViewOffset && s.readViewSize == c.writeViewSize
      && s.writeViewOffset == c.readViewOffset && s.writeViewSize == c.readViewSize
      && s.startOffsetR == c.startOffsetW && s.countOffsetR == c.countOffsetW
      && s.startOffsetW == c.startOffsetR && s.countOffsetW == c.countOffsetR
  {
  }

  /** The names of one channel's lock, "data available" event and "space available" event. */
  datatype ChannelNames = ChannelNames(accessLock: string, nonEmptyEvent: string, nonFullEvent: string)

  /** Each name extends `mapName + suffix` by one letter, so the three differ. */
  function ChannelNamesFor(mapName: string, suffix: string): (n: ChannelNames)
    ensures var p := mapName + suffix;
      && p < n.accessLock && p < n.nonEmptyEvent && p < n.nonFullEvent
      && |n.accessLock| == |n.nonEmptyEvent| == |n.nonFullEvent| == |p| + 1
    ensures |{n.accessLock, n.nonEmptyEvent, n.nonFullEvent}| == 3
  {
    var p := mapName + suffix;
    var n := ChannelNames(p + AccessLockSuffix, p + EmptyEventSuffix, p + FullEventSuffix);
    assert n.accessLock[|p|] == 'L' && n.nonEmptyEvent[|p|] == 'E' && n.nonFullEvent[|p|] == 'F';
    n
  }

  /** The suffix of the channel a side reads: the other side writes under it, and it is
      never the suffix of the channel the same side writes. */
  function ReadSuffix(isServer: bool): (s: string)
    ensures s == WriteSuffix(!isServer) && s != WriteSuffix(isServer)
  {
    if isServer then Suffix0 else Suffix1
  }

  function WriteSuffix(isServer: bool): string { if isServer then Suffix1 else Suffix0 }

  /** Server and client derive the same names for each channel, in opposite roles, and the
      six names one side opens are pairwise different. */
  lemma {:induction false} NamesAgree(mapName: string, isServer: bool)
    ensures ChannelNamesFor(mapName, ReadSuffix(true)) == ChannelNamesFor(mapName, WriteSuffix(false))
    ensures ChannelNamesFor(mapName, WriteSuffix(true)) == ChannelNamesFor(mapName, ReadSuffix(false))
    ensures var r, w := ChannelNamesFor(mapName, ReadSuffix(isServer)), ChannelNamesFor(mapName, WriteSuffix(isServer));
      && |{r.accessLock, r.nonEmptyEvent, r.nonFullEvent, w.accessLock, w.nonEmptyEvent, w.nonFullEvent}| == 6
  {
    var n := |mapName|;
    var r, w := ChannelNamesFor(mapName, ReadSuffix(isServer)), ChannelNamesFor(mapName, WriteSuffix(isServer));
    assert r.accessLock[n] != w.accessLock[n] && r.accessLock[n + 1] == 'L';
    assert r.nonEmptyEvent[n] != w.nonEmptyEvent[n] && r.nonEmptyEvent[n + 1] == 'E';
    assert r.nonFullEvent[n] != w.nonFullEvent[n] && r.nonFullEvent[n + 1] == 'F';
    assert w.accessLock[n + 1] == 'L' && w.nonEmptyEvent[n + 1] == 'E' && w.nonFullEvent[n + 1] == 'F';
  }

  /** The constructor's argument checks, in the order it makes them. */
  function CheckArguments(mapName: Option<string>, readCapacity: int, writeCapacity: int): (r: Outcome)
    ensures r.Pass? <==> mapName.Some? && mapName.value != "" && readCapacity > 0 && writeCapacity > 0
    ensures (mapName.None? || mapName.value == "") ==> r == Fail(ArgumentNull("mapName"))
    ensures mapName.Some? && mapName.value != "" && readCapacity <= 0 ==> r == Fail(ArgumentOutOfRange("readCapacity"))
  {
    if mapName.None? || mapName.value == "" then Fail(ArgumentNull("mapName"))
    else if readCapacity <= 0 then Fail(ArgumentOutOfRange("readCapacity"))
    else if writeCapacity <= 0 then Fail(ArgumentOutOfRange("writeCapacity"))
    else Pass
  }

  // ---------------------------------------------------------------------------------------
  // Ring arithmetic

  /** Reduces a position below `cap` by one subtraction, as both `Read` and `Write` do. */
  function Wrap(k: int, cap: int): (p: int)
    requires 0 <= k < 2 * cap
    ensures 0 <= p < cap
  {
    if k < cap then k else k - cap
  }

  lemma WrapIsMod(k: int, cap: int)
    requires 0 <= k < 2 * cap
    ensures Wrap(k, cap) == k % cap
  {
    if k < cap {
      assert k == cap * 0 + k;
    } else {
      assert k == cap * 1 + (k - cap);
    }
  }

  /** The `n` bytes of `s` from `start` on, continuing at index 0 past the end. */
  function Ring(s: seq<byte>, start: int, n: int): (r: seq<byte>)
    requires 0 <= start < |s| && 0 <= n <= |s|
    ensures |r| == n
  {
    seq(n, i requires 0 <= i < n => s[Wrap(start + i, |s|)])
  }

  /** The byte `i` places after `start` in the ring over `s`. */
  function At(s: seq<byte>, start: int, i: int): byte
    requires 0 <= start < |s| && 0 <= i < |s|
  {
    s[Wrap(start + i, |s|)]
  }

  /** Byte `i` of a ring is the byte `i` places after its start, wrapping at the end. */
  lemma RingIndex(s: seq<byte>, start: int, n: int)
    requires 0 <= start < |s| && 0 <= n <= |s|
    ensures forall i :: 0 <= i < n ==> Ring(s, start, n)[i] == At(s, start, i)
  {
  }

  /** Taking `k` bytes off the front of a ring moves its start by `k`. */
  lemma RingDrop(s: seq<byte>, start: int, n: int, k: int)
    requires 0 <= start < |s| && 0 <= k <= n <= |s|
    ensures Ring(s, start, n)[k..] == Ring(s, Wrap(start + k, |s|), n - k)
  {
    var a, b := Ring(s, start, n)[k..], Ring(s, Wrap(start + k, |s|), n - k);
    RingIndex(s, start, n);
    RingIndex(s, Wrap(start + k, |s|), n - k);
    forall i | 0 <= i < n - k ensures a[i] == b[i] {
      assert a[i] == At(s, start, k + i);
      assert b[i] == At(s, Wrap(start + k, |s|), i);
      assert Wrap(Wrap(start + k, |s|) + i, |s|) == Wrap(start + k + i, |s|);
    }
  }

  /** The first `k` bytes of a ring are the ring of `k` bytes at the same start. */
  lemma RingTake(s: seq<byte>, start: int, n: int, k: int)
    requires 0 <= start < |s| && 0 <= k <= n <= |s|
    ensures Ring(s, start, n)[..k] == Ring(s, start, k)
  {
    RingIndex(s, start, n);
    RingIndex(s, start, k);
  }

  /** A ring whose old bytes are kept and whose next `|src|` slots hold `src` has grown
      by `src`. */
  lemma RingAppend(s: seq<byte>, s': seq<byte>, start: int, n: int, src: seq<byte>)
    requires |s'| == |s| && 0 <= start < |s| && 0 <= n && n + |src| <= |s|
    requires forall i :: 0 <= i < n ==> At(s', start, i) == At(s, start, i)
    requires forall j :: 0 <= j < |src| ==> At(s', start, n + j) == src[j]
    ensures Ring(s', start, n + |src|) == Ring(s, start, n) + src
  {
    var a, b := Ring(s', start, n + |src|), Ring(s, start, n) + src;
    RingIndex(s', start, n + |src|);
    RingIndex(s, start, n);
    forall i | 0 <= i < n + |src| ensures a[i] == b[i] {
      if i >= n {
        assert At(s', start, n + (i - n)) == src[i - n];
      } else {
        assert At(s', start, i) == At(s, start, i);
      }
    }
  }

  /** A sequence that agrees with `b0` except on a window, where it holds `mid`. */
  lemma Splice(b: seq<byte>, b0: seq<byte>, offset: int, mid: seq<byte>)
    requires |b| == |b0| && 0 <= offset && offset + |mid| <= |b0|
    requires forall p :: 0 <= p < |b| ==> b[p] == if offset <= p < offset + |mid| then mid[p - offset] else b0[p]
    ensures b == b0[..offset] + mid + b0[offset + |mid|..]
  {
  }

  /** How far past `pos` position `p` of a ring of size `cap` lies. */
  function Distance(pos: int, p: int, cap: int): (d: int)
    requires 0 <= pos < cap && 0 <= p < cap
    ensures 0 <= d < cap && Wrap(pos + d, cap) == p
  {
    if p >= pos then p - pos else p + cap - pos
  }

  /** `s` with `src` written from position `pos` on, continuing at index 0 past the end. */
  function RingWrite(s: seq<byte>, pos: int, src: seq<byte>): (r: seq<byte>)
    requires 0 <= pos < |s| && |src| <= |s|
    ensures |r| == |s|
  {
    seq(|s|, p requires 0 <= p < |s| =>
      var d := Distance(pos, p, |s|); if d < |src| then src[d] else s[p])
  }

  /** Writing `src` into the free slots just after the `n` ring bytes appends it to them. */
  lemma RingWriteAppend(s: seq<byte>, start: int, n: int, src: seq<byte>)
    requires 0 <= start < |s| && 0 <= n && n + |src| <= |s|
    ensures Ring(RingWrite(s, Wrap(start + n, |s|), src), start, n + |src|) == Ring(s, start, n) + src
  {
    var sw := Wrap(start + n, |s|);
    var s2 := RingWrite(s, sw, src);
    forall i | 0 <= i < n ensures At(s2, start, i) == At(s, start, i) {
      var q := Wrap(start + i, |s|);
      assert Distance(sw, q, |s|) == Wrap(i + |s| - n, |s|);
    }
    forall j | 0 <= j < |src| ensures At(s2, start, n + j) == src[j] {
      var q := Wrap(start + n + j, |s|);
      assert Distance(sw, q, |s|) == j;
    }
    RingAppend(s, s2, start, n, src);
  }

  /** `MemoryMappedViewAccessor.ReadArray`: copies `n` bytes of a view into `buffer`. */
  method ReadArray(view: array<byte>, position: int, buffer: array<byte>, offset: int, n: int)
    requires view != buffer
    requires 0 <= position && position + n <= view.Length
    requires 0 <= offset && 0 <= n && offset + n <= buffer.Length
    modifies buffer
    ensures forall p :: 0 <= p < buffer.Length ==>
      buffer[p] == if offset <= p < offset + n then view[position + p - offset] else old(buffer[p])
  {
    forall i | 0 <= i < n {
      buffer[offset + i] := view[position + i];
    }
  }

  /** Reads `n` bytes of the ring `view` from `start` on into `buffer`, in at most two copies
      split at the physical end, and returns the position just past them. */
  method ReadWrapped(view: array<byte>, start: int, buffer: array<byte>, offset: int, n: int)
    returns (next: int)
    requires view != buffer
    requires 0 <= start < view.Length && 0 <= n <= view.Length
    requires 0 <= offset && offset + n <= buffer.Length
    modifies buffer
    ensures buffer[..] == old(buffer[..offset]) + Ring(view[..], start, n) + old(buffer[offset + n..])
    ensures next == Wrap(start + n, view.Length)
  {
    ghost var b0 := buffer[..];
    var countToRead := n;
    var countToRead2 := 0;
    if start + countToRead > view.Length {
      countToRead2 := start + countToRead - view.Length;
      countToRead := countToRead - countToRead2;
    }
    ReadArray(view, start, buffer, offset, countToRead);
    ghost var b1 := buffer[..];
    next := start + countToRead;
    if next == view.Length {
      next := 0;
    }
    if countToRead2 > 0 {
      var offset2 := offset + countToRead;
      ReadArray(view, next, buffer, offset2, countToRead2);
      next := next + countToRead2;
    }
    ghost var mid := Ring(view[..], start, n);
    forall p | 0 <= p < buffer.Length
      ensures buffer[..][p] == if offset <= p < offset + n then mid[p - offset] else b0[p]
    {
      if offset <= p < offset + countToRead {
        assert buffer[p] == b1[p] == view[start + p - offset];
        assert Wrap(start + (p - offset), view.Length) == start + p - offset;
      } else if offset + countToRead <= p < offset + n {
        assert buffer[p] == view[p - offset - countToRead];
        assert Wrap(start + (p - offset), view.Length) == p - offset - countToRead;
      } else {
        assert buffer[p] == b1[p] == b0[p];
      }
    }
    Splice(buffer[..], b0, offset, mid);
  }

  /** `MemoryMappedViewAccessor.WriteArray`: copies `n` bytes of `buffer` into a view. */
  method WriteArray(view: array<byte>, position: int, buffer: array<byte>, offset: int, n: int)
    requires view != buffer
    requires 0 <= position && position + n <= view.Length
    requires 0 <= offset && 0 <= n && offset + n <= buffer.Length
    modifies view
    ensures forall p :: 0 <= p < view.Length ==>
      view[p] == if position <= p < position + n then buffer[offset + p - position] else old(view[p])
  {
    forall i | 0 <= i < n {
      view[position + i] := buffer[offset + i];
    }
  }

  /** Writes `n` bytes of `buffer` into the ring `view` from `startWrite` on, in at most two
      copies split at the physical end. */
  method WriteWrapped(view: array<byte>, startWrite: int, buffer: array<byte>, offset: int, n: int)
    requires view != buffer
    requires 0 <= startWrite < view.Length && 0 <= n <= view.Length
    requires 0 <= offset && offset + n <= buffer.Length
    modifies view
    ensures view[..] == RingWrite(old(view[..]), startWrite, buffer[offset..offset + n])
  {
    ghost var s := view[..];
    ghost var src := buffer[offset..offset + n];
    var willWrite := n;
    var willWrite2 := 0;
    if startWrite + willWrite > view.Length {
      willWrite2 := startWrite + willWrite - view.Length;
      willWrite := willWrite - willWrite2;
    }
    WriteArray(view, startWrite, buffer, offset, willWrite);
    if willWrite2 > 0 {
      WriteArray(view, 0, buffer, offset + willWrite, willWrite2);
    }
    forall p | 0 <= p < view.Length ensures view[p] == RingWrite(s, startWrite, src)[p] {
    }
  }

  // ---------------------------------------------------------------------------------------
  // One direction of a connection

  /** One ring buffer in the shared region: its data bytes, its `start`/`count` header and
      the state of its two auto-reset events. */
  class Channel {
    const capacity: int
    const data: array<byte>
    var start: int
    var count: int
    /** The "data available" event (suffix E) is signalled. */
    var nonEmpty: bool
    /** The "space available" event (suffix F) is signalled. */
    var nonFull: bool

    /** The ring invariants, and between two critical sections each event is signalled
        exactly when its condition holds. */
    ghost predicate Valid()
      reads this
    {
      && 0 < capacity && data.Length == capacity
      && 0 <= start < capacity && 0 <= count <= capacity
      && nonEmpty == (count > 0) && nonFull == (count < capacity)
    }

    /** The bytes written and not yet read, oldest first. */
    ghost function Unread(): (u: seq<byte>)
      reads this, data
      requires Valid()
      ensures |u| == count
    {
      Ring(data[..], start, count)
    }

    /** A freshly created region is zero-filled; the "data available" event starts reset and
        the "space available" event signalled. */
    constructor (capacity: int)
      requires capacity > 0
      ensures Valid() && fresh(data) && this.capacity == capacity
      ensures start == 0 && Unread() == []
    {
      this.capacity := capacity;
      data := new byte[capacity](_ => 0);
      start, count := 0, 0;
      nonEmpty, nonFull := false, true;
    }

    /** The copying half of `Read`'s critical section: the first `n` unread bytes go to
        `buffer` at `offset`, in at most two copies split at the physical end of the ring.
        Returns the position just past them. */
    method CopyOut(buffer: array<byte>, offset: int, n: int) returns (next: int)
      requires Valid() && buffer != data
      requires 0 <= offset && 0 <= n <= count && offset + n <= buffer.Length
      modifies buffer
      ensures buffer[..] == old(buffer[..offset]) + Unread()[..n] + old(buffer[offset + n..])
      ensures next == Wrap(start + n, capacity)
    {
      next := ReadWrapped(data, start, buffer, offset, n);
      RingTake(data[..], start, count, n);
    }

    /** The header half of `Read`'s critical section: `n` bytes taken, the start moved to
        `next`, and each event signalled again when its condition holds. */
    method Consume(n: int, next: int)
      requires Valid() && 0 < n <= count && next == Wrap(start + n, capacity)
      modifies this
      ensures Valid()
      ensures Unread() == old(Unread())[n..]
      ensures start == (old(start) + n) % capacity && count == old(count) - n
    {
      RingDrop(data[..], start, count, n);
      WrapIsMod(start + n, capacity);
      var countAvailable := count - n;
      start := next;
      count := countAvailable;
      // the wait reset the auto-reset event; it is signalled again while bytes remain
      nonEmpty := countAvailable > 0;
      if countAvailable < capacity {
        nonFull := true;
      }
    }

    /** The copying half of one pass of `Write`: `n` bytes of `buffer` from `offset` go to
        the free slots after the unread bytes. The header is left alone. */
    method CopyIn(buffer: array<byte>, offset: int, n: int)
      requires Valid() && buffer != data
      requires 0 <= offset && 0 <= n && count + n <= capacity && offset + n <= buffer.Length
      modifies data
      ensures Ring(data[..], start, count + n) == old(Unread()) + buffer[offset..offset + n]
    {
      ghost var s := data[..];
      var startWrite := start + count;
      if startWrite >= capacity {
        startWrite := startWrite - capacity;
      }
      ghost var src := buffer[offset..offset + n];
      WriteWrapped(data, startWrite, buffer, offset, n);
      ghost var s' := data[..];
      assert Ring(s', start, count + n) == Ring(s, start, count) + src by {
        RingWriteAppend(s, start, count, src);
      }
    }

    /** One pass of `Write` on this ring: the bytes are copied in, then the count grows by
        `n` and both events are signalled as their conditions now say. */
    method Append(buffer: array<byte>, offset: int, n: int)
      requires Valid() && buffer != data
      requires 0 <= offset && 0 < n && count + n <= capacity && offset + n <= buffer.Length
      modifies this, data
      ensures Valid()
      ensures Unread() == old(Unread()) + buffer[offset..offset + n]
      ensures start == old(start) && count == old(count) + n
      ensures nonEmpty && nonFull == (count < capacity)
    {
      CopyIn(buffer, offset, n);
      var countAvailable := count + n;
      count := countAvailable;
      nonEmpty := true;
      nonFull := countAvailable < capacity;
    }
  }

  /** The named shared region: the channel in the view at offset 0 and the one after it. */
  class SharedRegion {
    const name: string
    const size: int
    const lower: Channel
    const upper: Channel

    ghost predicate Valid()
      reads this, lower, upper
    {
      && lower != upper && lower.data != upper.data
      && lower.Valid() && upper.Valid()
      && size == lower.capacity + upper.capacity + 2 * ReservedHeaderSize
    }

    /** `MemoryMappedFile.CreateOrOpen` when no region of that name exists yet. */
    constructor (name: string, lowerCapacity: int, upperCapacity: int)
      requires lowerCapacity > 0 && upperCapacity > 0
      ensures Valid() && this.name == name
      ensures fresh(lower) && fresh(upper) && fresh(lower.data) && fresh(upper.data)
      ensures lower.capacity == lowerCapacity && upper.capacity == upperCapacity
      ensures lower.Unread() == [] && upper.Unread() == []
    {
      this.name := name;
      size := lowerCapacity + upperCapacity + 2 * ReservedHeaderSize;
      lower := new Channel(lowerCapacity);
      upper := new Channel(upperCapacity);
    }

    /** The capacities one side asks for fit this region's two channels. */
    predicate Fits(isServer: bool, readCapacity: int, writeCapacity: int)
      reads this, lower, upper
    {
      && lower.capacity == (if isServer then readCapacity else writeCapacity)
      && upper.capacity == (if isServer then writeCapacity else readCapacity)
    }
  }

  /** `Read`'s argument checks, in the order it makes them (`CanRead` is always true). */
  function CheckRead(isDisposed: bool, buffer: array?<byte>, offset: int, count: int): (r: Outcome)
    ensures r.Pass? <==> !isDisposed && buffer != null && 0 <= offset && 0 <= count && offset + count <= buffer.Length
    ensures isDisposed ==> r == Fail(ObjectDisposed)
  {
    if isDisposed then Fail(ObjectDisposed)
    else if buffer == null then Fail(ArgumentNull("buffer"))
    else if offset < 0 then Fail(ArgumentOutOfRange("offset"))
    else if count < 0 then Fail(ArgumentOutOfRange("count"))
    else if offset > buffer.Length then Fail(Argument("destination offset is beyond array size"))
    else if offset > buffer.Length - count then Fail(Argument("Reading would overrun buffer"))
    else Pass
  }

  /** `Write`'s argument checks, in the order it makes them (`CanWrite` is always true). */
  function CheckWrite(isDisposed: bool, buffer: array?<byte>, offset: int, count: int): (r: Outcome)
    ensures r.Pass? <==> !isDisposed && buffer != null && 0 <= offset && 0 <= count && offset + count <= buffer.Length
    ensures isDisposed ==> r == Fail(ObjectDisposed)
  {
    if isDisposed then Fail(ObjectDisposed)
    else if buffer == null then Fail(ArgumentNull("buffer"))
    else if offset < 0 then Fail(ArgumentOutOfRange("offset"))
    else if count < 0 then Fail(ArgumentOutOfRange("count"))
    else if offset > buffer.Length - count then Fail(Argument("Reading would overrun buffer"))
    else Pass
  }

  // ---------------------------------------------------------------------------------------
  // The stream

  class MemoryMappedFileStream {
    const mapName: string
    const isServer: bool
    const layout: Layout
    const readNames: ChannelNames
    const writeNames: ChannelNames
    const readChannel: Channel
    const writeChannel: Channel
    var isDisposed: bool

    ghost predicate Valid()
      reads this, readChannel, writeChannel
    {
      && readChannel != writeChannel && readChannel.data != writeChannel.data
      && readChannel.Valid() && writeChannel.Valid()
    }

    /** The constructor on a region that exists: the view at offset 0 is the region's lower
        channel. Object names come from the map name, the role's suffix and the kind. */
    constructor (mapName: string, isServer: bool, readCapacity: int, writeCapacity: int, region: SharedRegion)
      requires CheckArguments(Some(mapName), readCapacity, writeCapacity).Pass?
      requires region.Valid() && region.Fits(isServer, readCapacity, writeCapacity)
      ensures Valid() && !isDisposed
      ensures this.mapName == mapName && this.isServer == isServer
      ensures layout == LayoutFor(isServer, readCapacity, writeCapacity)
      ensures readChannel == (if isServer then region.lower else region.upper)
      ensures writeChannel == (if isServer then region.upper else region.lower)
      ensures readChannel.capacity == readCapacity && writeChannel.capacity == writeCapacity
      ensures readNames == ChannelNamesFor(mapName, if isServer then Suffix0 else Suffix1)
      ensures writeNames == ChannelNamesFor(mapName, if isServer then Suffix1 else Suffix0)
    {
      this.mapName := mapName;
      this.isServer := isServer;
      var l := LayoutFor(isServer, readCapacity, writeCapacity);
      layout := l;
      readChannel := if l.readViewOffset == 0 then region.lower else region.upper;
      writeChannel := if l.writeViewOffset == 0 then region.lower else region.upper;
      readNames := ChannelNamesFor(mapName, ReadSuffix(isServer));
      writeNames := ChannelNamesFor(mapName, WriteSuffix(isServer));
      isDisposed := false;
    }

    /** `new MemoryMappedFileStream(...)` with its argument checks. `existing` is the region
        already created under `mapName`, or null when this side creates it. */
    static method Open(mapName: Option<string>, isServer: bool, readCapacity: int, writeCapacity: int,
                       existing: SharedRegion?)
      returns (r: Result<MemoryMappedFileStream>)
      requires existing != null && CheckArguments(mapName, readCapacity, writeCapacity).Pass? ==>
        existing.Valid() && existing.name == mapName.value && existing.Fits(isServer, readCapacity, writeCapacity)
      ensures r.Failure? <==> CheckArguments(mapName, readCapacity, writeCapacity).Fail?
      ensures r.Failure? ==> r.error == CheckArguments(mapName, readCapacity, writeCapacity).error
      ensures r.Success? ==> var s := r.value;
        && s.Valid() && !s.isDisposed && s.mapName == mapName.value && s.isServer == isServer
        && s.readChannel.capacity == readCapacity && s.writeChannel.capacity == writeCapacity
        && (existing == null ==> fresh(s.readChannel) && fresh(s.writeChannel) &&
                                 s.readChannel.Unread() == [] && s.writeChannel.Unread() == [])
        && (existing != null ==> (s.readChannel == (if isServer then existing.lower else existing.upper)
                                  && s.writeChannel == (if isServer then existing.upper else existing.lower)))
    {
      var check := CheckArguments(mapName, readCapacity, writeCapacity);
      if check.Fail? {
        return Failure(check.error);
      }
      var region := existing;
      if region == null {
        var l := LayoutFor(isServer, readCapacity, writeCapacity);
        var lowerCapacity := if l.readViewOffset == 0 then readCapacity else writeCapacity;
        var upperCapacity := if l.readViewOffset == 0 then writeCapacity else readCapacity;
        region := new SharedRegion(mapName.value, lowerCapacity, upperCapacity);
      }
      var s := new MemoryMappedFileStream(mapName.value, isServer, readCapacity, writeCapacity, region);
      r := Success(s);
    }

    method Flush() returns (r: Outcome)
      ensures r == (if isDisposed then Fail(ObjectDisposed) else Pass)
    {
      if isDisposed {
        return Fail(ObjectDisposed);
      }
      return Pass;
    }

    /** Reads at most `count` of the unread bytes. With arguments that pass the checks and a
        positive count the call first waits for the "data available" event, which the
        precondition says is signalled. */
    method Read(buffer: array?<byte>, offset: int, count: int) returns (r: Result<int>)
      requires Valid()
      requires buffer != readChannel.data
      requires CheckRead(isDisposed, buffer, offset, count).Pass? && count > 0 ==> readChannel.nonEmpty
      modifies readChannel, buffer
      ensures Valid()
      ensures r.Failure? <==> CheckRead(isDisposed, buffer, offset, count).Fail?
      ensures r.Failure? ==> r.error == CheckRead(isDisposed, buffer, offset, count).error
      ensures r.Failure? || count == 0 ==> unchanged(readChannel) && (buffer != null ==> unchanged(buffer))
      ensures r.Success? ==> var n, u := r.value, old(readChannel.Unread());
        && n == Min(count, |u|)
        && (forall i :: 0 <= i < buffer.Length ==>
              buffer[i] == if offset <= i < offset + n then u[i - offset] else old(buffer[i]))
        && readChannel.Unread() == u[n..]
        && readChannel.start == (old(readChannel.start) + n) % readChannel.capacity
        && readChannel.nonEmpty == (|u| > n) && readChannel.nonFull == (|u| - n < readChannel.capacity)
    {
      var check := CheckRead(isDisposed, buffer, offset, count);
      if check.Fail? {
        return Failure(check.error);
      }
      if count == 0 {
        return Success(0);
      }
      var n := ReadPass(buffer, offset, count);
      r := Success(n);
    }

    /** The critical section of `Read`: takes `min(count, available)` bytes from the front of
        the ring, in at most two copies split at the physical end. */
    method ReadPass(buffer: array<byte>, offset: int, count: int) returns (n: int)
      requires Valid()
      requires buffer != readChannel.data
      requires 0 <= offset && 0 < count && offset + count <= buffer.Length
      requires readChannel.nonEmpty
      modifies readChannel, buffer
      ensures Valid()
      ensures n == Min(count, |old(readChannel.Unread())|) && n > 0
      ensures buffer[..] == old(buffer[..offset]) + old(readChannel.Unread())[..n] + old(buffer[offset + n..])
      ensures readChannel.Unread() == old(readChannel.Unread())[n..]
      ensures readChannel.start == (old(readChannel.start) + n) % readChannel.capacity
      ensures readChannel.nonEmpty == (readChannel.count > 0) && readChannel.nonFull
    {
      var ch := readChannel;
      var countAvailable := ch.count;
      var countToRead := if count < countAvailable then count else countAvailable;
      var start := ch.CopyOut(buffer, offset, countToRead);
      ch.Consume(countToRead, start);
      n := countToRead;
    }

    /** One pass of `Write`'s loop: one critical section, entered once the "space available"
        event is signalled. Appends as many bytes as fit, splitting at the physical end, and
        leaves `start` alone. */
    method WritePass(buffer: array<byte>, offset: int, count: int) returns (written: int)
      requires Valid()
      requires buffer != writeChannel.data
      requires 0 <= offset && 0 < count && offset + count <= buffer.Length
      requires writeChannel.nonFull
      modifies writeChannel, writeChannel.data
      ensures Valid()
      ensures written == Min(count, writeChannel.capacity - |old(writeChannel.Unread())|) && written > 0
      ensures writeChannel.Unread() == old(writeChannel.Unread()) + buffer[offset..offset + written]
      ensures writeChannel.start == old(writeChannel.start)
      ensures writeChannel.nonEmpty && writeChannel.nonFull == (writeChannel.count < writeChannel.capacity)
    {
      var ch := writeChannel;
      var countAvailable := ch.count;
      var willWrite := ch.capacity - countAvailable;
      if willWrite > count {
        willWrite := count;
      }
      ch.Append(buffer, offset, willWrite);
      written := willWrite;
    }

    /** Writes all `count` bytes in passes of as many as fit. No reader runs beside it here,
        so the precondition is that the whole write fits, and the first pass writes it all. */
    method Write(buffer: array?<byte>, offset: int, count: int) returns (r: Outcome)
      requires Valid()
      requires buffer != writeChannel.data
      requires CheckWrite(isDisposed, buffer, offset, count).Pass? ==>
        |writeChannel.Unread()| + count <= writeChannel.capacity
      modifies writeChannel, writeChannel.data
      ensures Valid()
      ensures r == CheckWrite(isDisposed, buffer, offset, count)
      ensures r.Fail? ==> unchanged(writeChannel) && unchanged(writeChannel.data)
      ensures r.Pass? ==> writeChannel.Unread() == old(writeChannel.Unread()) + buffer[offset..offset + count]
      ensures writeChannel.start == old(writeChannel.start)
    {
      r := CheckWrite(isDisposed, buffer, offset, count);
      if r.Fail? {
        return;
      }
      ghost var b := buffer[..];
      assert writeChannel.Unread() + b[offset..offset] == writeChannel.Unread();
      var off, remaining := offset, count;
      while remaining > 0
        invariant Valid() && buffer[..] == b
        invariant offset <= off && 0 <= remaining && off + remaining == offset + count
        invariant writeChannel.Unread() == old(writeChannel.Unread()) + b[offset..off]
        invariant |writeChannel.Unread()| + remaining <= writeChannel.capacity
        invariant writeChannel.start == old(writeChannel.start)
        decreases remaining
      {
        ghost var u1 := writeChannel.Unread();
        var written := WritePass(buffer, off, remaining);
        assert buffer[..] == b;
        assert writeChannel.Unread() == u1 + b[off..off + written];
        assert b[offset..off + written] == b[offset..off] + b[off..off + written];
        assert u1 + b[off..off + written] == old(writeChannel.Unread()) + b[offset..off + written];
        off := off + written;
        remaining := remaining - written;
      }
      assert buffer[offset..offset + count] == b[offset..off];
    }

    /** Releases the named objects once; later calls do nothing. */
    method Dispose()
      modifies this
      ensures isDisposed
    {
      if isDisposed {
        return;
      }
      isDisposed := true;
    }
  }
}
