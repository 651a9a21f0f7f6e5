/** `BitConverter.GetBytes(int)` and `BitConverter.ToInt32`: a 32-bit two's-complement
    integer as four bytes, least significant first (the byte order of the little-endian
    machines the program runs on). */
module BitConverter {
  import opened Base

  const Int32Min: int := -0x8000_0000
  const Int32Max: int := 0x7FFF_FFFF
  const SizeOfInt: int := 4

  predicate IsInt32(n: int) { Int32Min <= n <= Int32Max }

  function GetBytes(n: int): (r: seq<byte>)
    requires IsInt32(n)
    ensures |r| == SizeOfInt
  {
    var u := if n < 0 then n + 0x1_0000_0000 else n;
    [u % 256, u / 256 % 256, u / 256 / 256 % 256, u / 256 / 256 / 256]
  }

  function ToInt32(b: seq<byte>): (n: int)
    requires |b| == SizeOfInt
    ensures IsInt32(n)
    ensures n < 0 <==> b[3] >= 0x80
  {
    var u := b[0] as int + 256 * (b[1] as int + 256 * (b[2] as int + 256 * b[3] as int));
    if u > Int32Max then u - 0x1_0000_0000 else u
  }

  /** Reading back the four bytes of an int32 gives the same int32. */
  lemma ToInt32GetBytes(n: int)
    requires IsInt32(n)
    ensures ToInt32(GetBytes(n)) == n
  {
    var u := if n < 0 then n + 0x1_0000_0000 else n;
    var q1 := u / 256;
    var q2 := q1 / 256;
    var q3 := q2 / 256;
    assert u == q1 * 256 + u % 256;
    assert q1 == q2 * 256 + q1 % 256;
    assert q2 == q3 * 256 + q2 % 256;
    assert q3 < 256;
  }
}
