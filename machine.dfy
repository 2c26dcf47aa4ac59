/**
 * Machine-level facts the allocator relies on: the width of `size_t` and
 * `int` on an LP64 target, bytes, the layout of a `size_t` stored in memory
 * (little-endian, as on x86-64), and the two memory writes the allocator
 * performs itself: storing the size header and `memcpy`.
 */
module Machine {

  /** sizeof(size_t): the length of the header in front of every block. */
  const HEADER: nat := 8
  const SIZE_MAX: nat := 0xFFFF_FFFF_FFFF_FFFF
  /** One past the highest address: a mapping must end at or below it. */
  const ADDRESS_LIMIT: nat := SIZE_MAX + 1
  const INT_MAX: int := 0x7FFF_FFFF
  const INT_MIN: int := -0x8000_0000

  type Byte = b: int | 0 <= b < 256
  type SizeT = n: int | 0 <= n <= SIZE_MAX
  type Int32 = n: int | INT_MIN <= n <= INT_MAX

  /** A positive multiple of n is at least n. */
  lemma {:induction false} MulAtLeast(d: int, n: int)
    requires 1 <= d && 0 < n
    ensures n <= d * n
  {
    if d > 1 {
      MulAtLeast(d - 1, n);
      assert d * n == (d - 1) * n + n;
    }
  }

  /** A quotient and remainder that reconstruct `a` are Dafny's `/` and `%`. */
  lemma DivModUnique(a: int, n: int, q: int, r: int)
    requires 0 < n && 0 <= r < n && a == q * n + r
    ensures a / n == q && a % n == r
  {
    var q', r' := a / n, a % n;
    assert a == q' * n + r';
    assert (q - q') * n == q * n - q' * n;
    if q > q' {
      MulAtLeast(q - q', n);
    } else if q < q' {
      MulAtLeast(q' - q, n);
    }
  }

  /** Multiplying by a positive number keeps the order of the factors. */
  lemma MulMonotone(a: int, b: int, n: int)
    requires a < b && 0 < n
    ensures a * n < b * n
  {
    MulAtLeast(b - a, n);
    assert (b - a) * n == b * n - a * n;
  }

  function Pow256(k: nat): (r: nat)
    ensures r >= 1
  {
    if k == 0 then 1 else 256 * Pow256(k - 1)
  }

  lemma WordWidth()
    ensures Pow256(HEADER) == ADDRESS_LIMIT
  {
    assert Pow256(1) == 0x100;
    assert Pow256(2) == 0x1_0000;
    assert Pow256(3) == 0x100_0000;
    assert Pow256(4) == 0x1_0000_0000;
    assert Pow256(5) == 0x100_0000_0000;
    assert Pow256(6) == 0x1_0000_0000_0000;
    assert Pow256(7) == 0x100_0000_0000_0000;
  }

  /** The k low-order bytes of v, least significant first. */
  function EncodeLE(v: nat, k: nat): (bytes: seq<Byte>)
    ensures |bytes| == k
  {
    if k == 0 then [] else [v % 256] + EncodeLE(v / 256, k - 1)
  }

  /** The number whose little-endian bytes are `bytes`. */
  function DecodeLE(bytes: seq<Byte>): (v: nat)
    ensures v < Pow256(|bytes|)
  {
    if bytes == [] then 0 else bytes[0] + 256 * DecodeLE(bytes[1..])
  }

  /** Storing a number that fits in k bytes and reading it back gives the number. */
  lemma {:induction false} DecodeEncode(v: nat, k: nat)
    requires v < Pow256(k)
    ensures DecodeLE(EncodeLE(v, k)) == v
  {
    if k > 0 {
      DecodeEncode(v / 256, k - 1);
      assert EncodeLE(v, k)[1..] == EncodeLE(v / 256, k - 1);
    }
  }

  /** Reading k bytes and storing the number back gives the same bytes. */
  lemma {:induction false} EncodeDecode(bytes: seq<Byte>)
    ensures EncodeLE(DecodeLE(bytes), |bytes|) == bytes
  {
    if bytes != [] {
      var v := DecodeLE(bytes);
      assert v % 256 == bytes[0] && v / 256 == DecodeLE(bytes[1..]);
      EncodeDecode(bytes[1..]);
    }
  }

  /** The bytes `*(size_t*)p = v` writes. */
  function EncodeWord(v: SizeT): (bytes: seq<Byte>)
    ensures |bytes| == HEADER
  {
    EncodeLE(v, HEADER)
  }

  /** The value `*(size_t*)p` reads from eight bytes, least significant first. */
  function DecodeWord(bytes: seq<Byte>): (v: SizeT)
    requires |bytes| == HEADER
  {
    bytes[0] as int + 0x100 * bytes[1] as int + 0x1_0000 * bytes[2] as int + 0x100_0000 * bytes[3] as int
    + 0x1_0000_0000 * bytes[4] as int + 0x100_0000_0000 * bytes[5] as int
    + 0x1_0000_0000_0000 * bytes[6] as int + 0x100_0000_0000_0000 * bytes[7] as int
  }

  /** DecodeWord is the eight-byte little-endian decoding. */
  lemma DecodeWordIsLE(bytes: seq<Byte>)
    requires |bytes| == HEADER
    ensures DecodeWord(bytes) == DecodeLE(bytes)
  {
    assert DecodeLE(bytes[7..]) == bytes[7];
    assert DecodeLE(bytes[6..]) == bytes[6] as int + 0x100 * bytes[7] as int;
    assert DecodeLE(bytes[5..]) == bytes[5] + 0x100 * DecodeLE(bytes[6..]);
    assert DecodeLE(bytes[4..]) == bytes[4] + 0x100 * DecodeLE(bytes[5..]);
    assert DecodeLE(bytes[3..]) == bytes[3] + 0x100 * DecodeLE(bytes[4..]);
    assert DecodeLE(bytes[2..]) == bytes[2] + 0x100 * DecodeLE(bytes[3..]);
    assert DecodeLE(bytes[1..]) == bytes[1] + 0x100 * DecodeLE(bytes[2..]);
    assert DecodeLE(bytes) == bytes[0] + 0x100 * DecodeLE(bytes[1..]);
  }

  /** A size stored in a header reads back unchanged. */
  lemma WordRoundTrip(v: SizeT)
    ensures DecodeWord(EncodeWord(v)) == v
  {
    WordWidth();
    DecodeEncode(v, HEADER);
    DecodeWordIsLE(EncodeWord(v));
  }

  /** Every eight-byte header is the encoding of exactly the size it reads as. */
  lemma WordBytesRoundTrip(bytes: seq<Byte>)
    requires |bytes| == HEADER
    ensures EncodeWord(DecodeWord(bytes)) == bytes
  {
    EncodeDecode(bytes);
    DecodeWordIsLE(bytes);
  }

  /** n bytes of zero: the contents of a fresh anonymous mapping. */
  function Zeros(n: nat): (z: seq<Byte>)
    ensures |z| == n && forall i :: 0 <= i < n ==> z[i] == 0
  {
    seq(n, _ => 0)
  }

  /** `*(size_t*)mem = v`: writes the header and nothing after it. */
  method StoreWord(mem: array<Byte>, v: SizeT)
    requires HEADER <= mem.Length
    modifies mem
    ensures mem[..HEADER] == EncodeWord(v)
    ensures mem[HEADER..] == old(mem[HEADER..])
    ensures DecodeWord(mem[..HEADER]) == v
  {
    var bytes := EncodeWord(v);
    forall j | 0 <= j < HEADER {
      mem[j] := bytes[j];
    }
    assert mem[..HEADER] == bytes;
    WordRoundTrip(v);
  }

  /** `memcpy(dst + dstOff, src + srcOff, n)` between two distinct mappings. */
  method Memcpy(dst: array<Byte>, dstOff: nat, src: array<Byte>, srcOff: nat, n: nat)
    requires dst != src
    requires dstOff + n <= dst.Length && srcOff + n <= src.Length
    modifies dst
    ensures dst[..] == old(dst[..dstOff]) + src[srcOff..srcOff + n] + old(dst[dstOff + n..])
  {
    forall j | 0 <= j < n {
      dst[dstOff + j] := src[srcOff + j];
    }
    assert dst[..] == old(dst[..dstOff]) + src[srcOff..srcOff + n] + old(dst[dstOff + n..]) by {
      forall k | 0 <= k < dst.Length
        ensures dst[k] == (old(dst[..dstOff]) + src[srcOff..srcOff + n] + old(dst[dstOff + n..]))[k]
      {
        if k < dstOff {
        } else if k < dstOff + n {
          assert dst[dstOff + (k - dstOff)] == src[srcOff + (k - dstOff)];
        }
      }
    }
  }
}
