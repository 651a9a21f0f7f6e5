/** A Unix-domain socket endpoint: a path, its `sockaddr_un` encoding (the path's UTF-8 bytes
    from offset 2, NUL-terminated unless the path is abstract) and the decoding of such an
    address back into a path. The platform and the runtime's support probe are parameters. */
module UnixDomainSocket {
  import opened Base
  import opened Utf8

  // ---------------------------------------------------------------------------------------
  // Platform sizes

  /** `Environment.OSVersion.Platform`. */
  datatype PlatformId = Win32S | Win32Windows | Win32NT | WinCE | Unix | Xbox | MacOSX

  predicate IsUnixPlatform(platform: PlatformId)
  {
    platform == Unix || platform == MacOSX
  }

  /** `offsetof(sun_path)`, the same on every platform. */
  const NativePathOffset := 2

  /** `sizeof(sun_path)`: 104 on Unix and macOS, 108 elsewhere; at least the 92 bytes POSIX
      guarantees on every platform. */
  function NativePathLength(platform: PlatformId): (n: int)
    ensures n == 104 || n == 108
    ensures n >= 92
    ensures IsUnixPlatform(platform) <==> n == 104
  {
    if IsUnixPlatform(platform) then 104 else 108
  }

  /** `sizeof(sockaddr_un)`: the whole path field fits inside it, after the offset. */
  function NativeAddressSize(platform: PlatformId): (size: int)
    ensures size == NativePathOffset + NativePathLength(platform)
    ensures NativePathOffset >= 0 && NativePathOffset + NativePathLength(platform) <= size
    ensures size == (if IsUnixPlatform(platform) then 106 else 110)
  {
    NativePathOffset + NativePathLength(platform)
  }

  datatype AddressFamily = UnixFamily | OtherFamily(code: int)

  // ---------------------------------------------------------------------------------------
  // Paths and their encoding

  /** A Linux abstract address starts with a NUL character. */
  predicate IsAbstractPath(path: string)
  {
    |path| > 0 && path[0] == Nul
  }

  /** The same test on encoded bytes. */
  predicate IsAbstractBytes(encoded: seq<byte>)
  {
    |encoded| > 0 && encoded[0] == 0
  }

  /** The stored encoding of a path: its UTF-8 bytes, then a NUL unless it is abstract. */
  function EncodedPath(path: string): (e: seq<byte>)
    ensures Encode(path) <= e && |e| <= |Encode(path)| + 1
    ensures !IsAbstractPath(path) ==> |e| > 0 && e[|e| - 1] == 0
  {
    Encode(path) + (if IsAbstractPath(path) then [] else [0])
  }

  /** The string constructor's checks, in its order: a null path, then an empty path or one
      whose encoding does not fit `sun_path`. */
  function CheckPath(path: Option<string>, platform: PlatformId): (r: Outcome)
    ensures r.Pass? <==>
      path.Some? && |path.value| > 0 && |EncodedPath(path.value)| <= NativePathLength(platform)
  {
    if path.None? then Fail(ArgumentNull("path"))
    else if |path.value| == 0 || |EncodedPath(path.value)| > NativePathLength(platform) then
      Fail(ArgumentOutOfRange("path"))
    else Pass
  }

  /** The size of the address `Serialize` builds for a path encoded as `encoded`: just past
      the encoding on Unix, the whole `sockaddr_un` elsewhere. */
  function SerializeSize(encoded: seq<byte>, platform: PlatformId): (size: int)
    ensures |encoded| <= NativePathLength(platform) ==>
      NativePathOffset + |encoded| <= size <= NativeAddressSize(platform)
  {
    if IsUnixPlatform(platform) then NativePathOffset + |encoded| else NativeAddressSize(platform)
  }

  /** The bytes of a serialized address: the family bytes (left zero here), the encoding at
      the path offset, and zeros up to `size`. */
  function SerializedBytes(encoded: seq<byte>, size: int): (b: seq<byte>)
    requires NativePathOffset + |encoded| <= size
    ensures |b| == size
  {
    seq(size, i requires 0 <= i < size =>
      if NativePathOffset <= i < NativePathOffset + |encoded| then encoded[i - NativePathOffset] else 0)
  }

  /** `n` zero bytes. */
  function Zeros(n: nat): (z: seq<byte>)
    ensures |z| == n && forall i :: 0 <= i < n ==> z[i] == 0
  {
    seq(n, _ => 0)
  }

  /** `encoded` without its trailing zero bytes. */
  function StripTrailingZeros(encoded: seq<byte>): (r: seq<byte>)
    ensures r <= encoded
    ensures |r| > 0 ==> r[|r| - 1] != 0
    ensures forall i :: |r| <= i < |encoded| ==> encoded[i] == 0
  {
    if |encoded| > 0 && encoded[|encoded| - 1] == 0 then StripTrailingZeros(encoded[..|encoded| - 1])
    else encoded
  }

  /** The path an address with these bytes and this size decodes to: empty when nothing lies
      past the path offset, else the bytes there, trailing NULs stripped unless the path is
      abstract. */
  function AddressPath(bytes: seq<byte>, size: int): (path: string)
    requires 0 <= size <= |bytes|
    ensures size <= NativePathOffset ==> path == ""
    ensures |path| <= size - NativePathOffset || path == ""
  {
    if size <= NativePathOffset then ""
    else
      var encoded := bytes[NativePathOffset..size];
      Decode(if IsAbstractBytes(encoded) then encoded else StripTrailingZeros(encoded))
  }

  /** What `ToString` shows: an abstract path with `@` in place of its leading NUL. */
  function Display(path: string): (s: string)
    ensures |s| == |path|
    ensures IsAbstractPath(path) ==> s[0] == '@' && s[1..] == path[1..]
    ensures !IsAbstractPath(path) ==> s == path
    ensures !IsAbstractPath(s)
  {
    if IsAbstractPath(path) then "@" + path[1..] else path
  }

  // ---------------------------------------------------------------------------------------
  // Properties of the encoding

  /** A non-empty path and its encoding agree on being abstract: the first byte is zero
      exactly when the first character is NUL. (The empty path, which the constructor
      rejects, would encode as a lone terminator.) */
  lemma AbstractAgrees(path: string)
    requires path != []
    ensures IsAbstractBytes(EncodedPath(path)) <==> IsAbstractPath(path)
  {
    EncodeFirstByte(path);
  }

  /** Every accepted path's serialized address lies past the path offset and within
      `sockaddr_un`, so the decoding constructor accepts its size. */
  lemma SerializeSizeFits(path: string, platform: PlatformId)
    requires CheckPath(Some(path), platform).Pass?
    ensures NativePathOffset < SerializeSize(EncodedPath(path), platform) <= NativeAddressSize(platform)
  {
    assert |Encode(path)| >= 1;
  }

  /** Stripping trailing zeros from bytes followed by zeros is stripping the bytes alone. */
  lemma {:induction false} StripPadding(encoded: seq<byte>, k: nat)
    ensures StripTrailingZeros(encoded + Zeros(k)) == StripTrailingZeros(encoded)
  {
    if k > 0 {
      var padded := encoded + Zeros(k);
      assert padded[..|padded| - 1] == encoded + Zeros(k - 1);
      StripPadding(encoded, k - 1);
    } else {
      assert encoded + Zeros(0) == encoded;
    }
  }

  /** Past the path offset, a serialized address holds the encoding and then zeros. */
  lemma SerializedWindow(encoded: seq<byte>, size: int)
    requires NativePathOffset + |encoded| <= size
    ensures SerializedBytes(encoded, size)[NativePathOffset..size] ==
      encoded + Zeros(size - NativePathOffset - |encoded|)
  {
  }

  /** Bytes not ending in zero are recovered from themselves followed by a terminator and
      any padding. */
  lemma StripTerminated(e: seq<byte>, k: nat)
    requires |e| > 0 && e[|e| - 1] != 0
    ensures StripTrailingZeros(e + [0] + Zeros(k)) == e
  {
    assert e + [0] + Zeros(k) == e + Zeros(k + 1) by {
      assert [0] + Zeros(k) == Zeros(k + 1);
    }
    StripPadding(e, k + 1);
  }

  /** A pathname not ending in NUL is recovered from its encoding followed by any padding. */
  lemma StripPathname(path: string, k: nat)
    requires path != [] && !IsAbstractPath(path) && path[|path| - 1] != Nul
    ensures StripTrailingZeros(EncodedPath(path) + Zeros(k)) == Encode(path)
  {
    var e := Encode(path);
    assert |e| > 0;
    assert e[|e| - 1] != 0 by {
      EncodeLastByte(path);
    }
    assert EncodedPath(path) == e + [0];
    StripTerminated(e, k);
  }

  /** Decoding a serialized address gives the path back, on every platform, for a
      pathname whose last character is not NUL (the terminator and the padding are the
      zeros stripped); and on Unix for an abstract path, whose address ends with its
      encoding. */
  lemma SerializeThenDecode(path: string, platform: PlatformId)
    requires CheckPath(Some(path), platform).Pass?
    requires if IsAbstractPath(path) then IsUnixPlatform(platform) else path[|path| - 1] != Nul
    ensures var encoded := EncodedPath(path);
      var size := SerializeSize(encoded, platform);
      NativePathOffset + |encoded| <= size
      && AddressPath(SerializedBytes(encoded, size), size) == path
  {
    var encoded := EncodedPath(path);
    var size := SerializeSize(encoded, platform);
    SerializeSizeFits(path, platform);
    var pad := size - NativePathOffset - |encoded|;
    var bytes := SerializedBytes(encoded, size);
    var window := bytes[NativePathOffset..size];
    assert window == encoded + Zeros(pad) by {
      SerializedWindow(encoded, size);
    }
    assert IsAbstractBytes(window) <==> IsAbstractPath(path) by {
      AbstractAgrees(path);
      assert window[0] == encoded[0];
    }
    var kept := if IsAbstractBytes(window) then window else StripTrailingZeros(window);
    assert kept == Encode(path) by {
      if IsAbstractPath(path) {
        assert encoded + Zeros(pad) == Encode(path);
      } else {
        StripPathname(path, pad);
      }
    }
    assert AddressPath(bytes, size) == Decode(kept);
    DecodeEncode(path);
  }

  /** The decoding constructor's copy of the bytes past the path offset, one at a time. */
  method CopyPathBytes(address: SocketAddress) returns (encoded: array<byte>)
    requires address.Valid() && address.size > NativePathOffset
    ensures fresh(encoded)
    ensures encoded[..] == address.buffer[NativePathOffset..address.size]
  {
    encoded := new byte[address.size - NativePathOffset];
    for i := 0 to encoded.Length
      invariant encoded[..i] == address.buffer[NativePathOffset..NativePathOffset + i]
    {
      encoded[i] := address.buffer[NativePathOffset + i];
    }
  }

  /** The length of a pathname's bytes once the decoding constructor's loop has stepped back
      over the trailing NULs; the first byte is not zero, so the loop stops in time. */
  method PathnameLength(encoded: array<byte>) returns (length: int)
    requires encoded.Length > 0 && encoded[0] != 0
    ensures 1 <= length <= encoded.Length
    ensures encoded[..length] == StripTrailingZeros(encoded[..])
  {
    length := encoded.Length;
    assert encoded[..length] == encoded[..];
    while encoded[length - 1] == 0
      invariant 1 <= length <= encoded.Length
      invariant StripTrailingZeros(encoded[..]) == StripTrailingZeros(encoded[..length])
      decreases length
    {
      assert encoded[..length - 1] == encoded[..length][..length - 1];
      length := length - 1;
    }
  }

  // ---------------------------------------------------------------------------------------
  // Objects

  /** A `SocketAddress`: its family, its size and its bytes. */
  class SocketAddress {
    const family: AddressFamily
    const size: int
    const buffer: array<byte>

    predicate Valid()
    {
      buffer.Length == size
    }

    /** A fresh address of a given family and size, zero-filled. */
    constructor (family: AddressFamily, size: nat)
      ensures Valid() && this.family == family && this.size == size
      ensures fresh(buffer) && forall i :: 0 <= i < size ==> buffer[i] == 0
    {
      this.family := family;
      this.size := size;
      buffer := new byte[size](_ => 0);
    }
  }

  class UnixDomainSocketEndPoint {
    const path: string
    const encodedPath: array<byte>
    /** The size `_createSocketAddressForSerialize` gives its address; `None` where the
        endpoint was decoded from an address, which leaves that delegate null. */
    const serializeSize: Option<int>

    /** A serialized address has room for the whole encoding. */
    predicate Valid()
    {
      serializeSize.Some? ==> NativePathOffset + encodedPath.Length <= serializeSize.value
    }

    constructor FromChecked(path: string, encoded: seq<byte>, serializeSize: Option<int>)
      requires serializeSize.Some? ==> NativePathOffset + |encoded| <= serializeSize.value
      ensures Valid() && this.path == path && this.serializeSize == serializeSize
      ensures fresh(encodedPath) && encodedPath[..] == encoded
    {
      this.path := path;
      this.serializeSize := serializeSize;
      encodedPath := new byte[|encoded|](i requires 0 <= i < |encoded| => encoded[i]);
    }

    /** `new UnixDomainSocketEndPoint(string)`: rejects a null path, then an empty or
        oversized one, then a runtime without Unix-domain sockets; keeps the path and its
        encoding. */
    static method FromPath(path: Option<string>, platform: PlatformId, udsSupported: bool)
      returns (r: Result<UnixDomainSocketEndPoint>)
      ensures CheckPath(path, platform).Fail? ==> r == Failure(CheckPath(path, platform).error)
      ensures CheckPath(path, platform).Pass? && !udsSupported ==> r == Failure(PlatformNotSupported)
      ensures CheckPath(path, platform).Pass? && udsSupported ==>
        && r.Success? && fresh(r.value) && fresh(r.value.encodedPath) && r.value.Valid()
        && r.value.path == path.value
        && r.value.encodedPath[..] == EncodedPath(path.value)
        && r.value.serializeSize == Some(SerializeSize(EncodedPath(path.value), platform))
    {
      if path.None? {
        return Failure(ArgumentNull("path"));
      }
      var p := path.value;
      var isAbstract := IsAbstractPath(p);
      var bufferLength := |Encode(p)|;
      if !isAbstract {
        bufferLength := bufferLength + 1;
      }
      if |p| == 0 || bufferLength > NativePathLength(platform) {
        return Failure(ArgumentOutOfRange("path"));
      }
      var encoded := EncodedPath(p);
      var size := if IsUnixPlatform(platform) then NativePathOffset + |encoded| else NativeAddressSize(platform);
      var endpoint := new UnixDomainSocketEndPoint.FromChecked(p, encoded, Some(size));
      if !udsSupported {
        return Failure(PlatformNotSupported);
      }
      r := Success(endpoint);
    }

    /** `new UnixDomainSocketEndPoint(SocketAddress)`: rejects a null address, then a foreign
        family or an address larger than `sockaddr_un`; copies the bytes past the path offset
        and strips the trailing NULs of a pathname before decoding. */
    static method FromSocketAddress(address: SocketAddress?, platform: PlatformId)
      returns (r: Result<UnixDomainSocketEndPoint>)
      requires address != null ==> address.Valid()
      ensures address == null ==> r == Failure(ArgumentNull("socketAddress"))
      ensures address != null && (address.family != UnixFamily || address.size > NativeAddressSize(platform)) ==>
        r == Failure(ArgumentOutOfRange("socketAddress"))
      ensures address != null && address.family == UnixFamily && address.size <= NativeAddressSize(platform) ==>
        && r.Success? && fresh(r.value) && fresh(r.value.encodedPath) && r.value.Valid()
        && r.value.serializeSize == None
        && r.value.path == AddressPath(address.buffer[..], address.size)
        && r.value.encodedPath[..] ==
           (if address.size > NativePathOffset then address.buffer[NativePathOffset..address.size] else [])
    {
      if address == null {
        return Failure(ArgumentNull("socketAddress"));
      }
      if address.family != UnixFamily || address.size > NativeAddressSize(platform) {
        return Failure(ArgumentOutOfRange("socketAddress"));
      }
      if address.size > NativePathOffset {
        var encoded := CopyPathBytes(address);
        var length := encoded.Length;
        if !IsAbstractBytes(encoded[..]) {
          length := PathnameLength(encoded);
        } else {
          assert encoded[..length] == encoded[..];
        }
        var endpoint := new UnixDomainSocketEndPoint.FromChecked(Decode(encoded[..length]), encoded[..], None);
        r := Success(endpoint);
      } else {
        var endpoint := new UnixDomainSocketEndPoint.FromChecked("", [], None);
        r := Success(endpoint);
      }
    }

    /** Builds the address: a fresh one of the serialize size, with the encoding copied to the
        path offset. An endpoint decoded from an address has no size to build with. */
    method Serialize() returns (r: Result<SocketAddress>)
      requires Valid()
      ensures serializeSize.None? ==> r == Failure(NullReference)
      ensures serializeSize.Some? ==>
        && r.Success? && fresh(r.value) && fresh(r.value.buffer) && r.value.Valid()
        && r.value.family == UnixFamily && r.value.size == serializeSize.value
        && r.value.buffer[..] == SerializedBytes(encodedPath[..], serializeSize.value)
    {
      if serializeSize.None? {
        return Failure(NullReference);
      }
      var result := new SocketAddress(UnixFamily, serializeSize.value);
      for index := 0 to encodedPath.Length
        invariant forall i :: 0 <= i < result.size ==>
          result.buffer[i] ==
            if NativePathOffset <= i < NativePathOffset + index then encodedPath[i - NativePathOffset] else 0
      {
        result.buffer[NativePathOffset + index] := encodedPath[index];
      }
      r := Success(result);
    }

    /** `ToString`: the path, an abstract one shown with a leading `@`. */
    function ToString(): (s: string)
      ensures s == Display(path)
    {
      Display(path)
    }
  }
}
