/**
 Fixed-width machine words, the wrap-around arithmetic on them, and their
 little-endian byte images (the only supported targets are little-endian).
 */
module Words {

  datatype Option<+T> = None | Some(value: T)

  const W32 := 0x1_0000_0000
  const W64 := 0x1_0000_0000_0000_0000
  const W63 := 0x8000_0000_0000_0000

  type u8 = x: int | 0 <= x < 256
  type u32 = x: int | 0 <= x < 0x1_0000_0000
  type u64 = x: int | 0 <= x < 0x1_0000_0000_0000_0000
  type i64 = x: int | -0x8000_0000_0000_0000 <= x < 0x8000_0000_0000_0000

  /** The value left in an unsigned word after counting up to `n`: `n` modulo `w`. */
  function Wrap(n: nat, w: nat): (r: nat)
    requires w > 0
    ensures r < w
  {
    if n < w then n else Wrap(n - w, w)
  }

  function Add32(a: u32, b: u32): u32 {
    if a + b < 0x1_0000_0000 then a + b else a + b - 0x1_0000_0000
  }

  function Add64(a: u64, b: u64): u64 {
    if a + b < 0x1_0000_0000_0000_0000 then a + b else a + b - 0x1_0000_0000_0000_0000
  }

  function Sub64(a: u64, b: u64): u64 {
    if a >= b then a - b else a - b + 0x1_0000_0000_0000_0000
  }

  lemma {:induction false} WrapIsModulo(n: nat, w: nat)
    requires w > 0
    ensures Wrap(n, w) == n % w
  {
    if n >= w {
      WrapIsModulo(n - w, w);
      ResidueStep(n - w, w);
    }
  }

  lemma ResidueStep(x: int, modulus: nat)
    requires modulus > 0
    ensures (x + modulus) % modulus == x % modulus
  {
    var q, r := x / modulus, x % modulus;
    assert x + modulus == (q + 1) * modulus + r;
    ResidueUnique(x + modulus, modulus, q + 1, r);
  }

  lemma ResidueUnique(x: int, modulus: nat, q: int, r: int)
    requires modulus > 0 && 0 <= r < modulus && x == q * modulus + r
    ensures x / modulus == q && x % modulus == r
  {
    var q', r' := x / modulus, x % modulus;
    assert x == q' * modulus + r';
    if q > q' {
      MultiplesApart(q', q, modulus);
    } else if q < q' {
      MultiplesApart(q, q', modulus);
    }
  }

  lemma MultiplesApart(small: int, large: int, modulus: nat)
    requires small < large
    ensures small * modulus + modulus <= large * modulus
  {
    var gap := large - small - 1;
    assert large * modulus == small * modulus + modulus + gap * modulus;
    assert gap * modulus >= 0;
  }

  /** A wrapped running total stays the wrapped image of the true total. */
  lemma {:induction false} WrapAdd(total: nat, amount: nat, w: nat)
    requires w > 0
    ensures Wrap(Wrap(total, w) + amount, w) == Wrap(total + amount, w)
    decreases total
  {
    if total >= w {
      WrapAdd(total - w, amount, w);
    }
  }

  lemma WrapSum(a: nat, r: nat, r': nat, w: nat)
    requires w > 0 && Wrap(r, w) == Wrap(r', w)
    ensures Wrap(Wrap(a, w) + r', w) == Wrap(a + r, w)
  {
    WrapAdd(a, r', w);
    WrapAdd(r', a, w);
    WrapAdd(r, a, w);
    assert a + r == r + a && a + r' == r' + a;
  }

  lemma WrappedCounters(total: nat, amount: u64)
    ensures Add64(Wrap(total, W64), amount) == Wrap(total + amount, W64)
    ensures Add32(Wrap(total, W32), 1) == Wrap(total + 1, W32)
  {
    WrapAdd(total, amount, W64);
    WrapAdd(total, 1, W32);
    WrapOnce(Wrap(total, W64) + amount, W64);
    WrapOnce(Wrap(total, W32) + 1, W32);
  }

  lemma WrapOnce(n: nat, w: nat)
    requires 0 < w && n < 2 * w
    ensures Wrap(n, w) == if n < w then n else n - w
  {
  }

  /** The `width` low-order bytes of `n`, least significant first. */
  function LittleEndian(n: nat, width: nat): (bytes: seq<u8>)
    ensures |bytes| == width
  {
    if width == 0 then [] else [n % 256] + LittleEndian(n / 256, width - 1)
  }

  function FromLittleEndian(bytes: seq<u8>): nat {
    if bytes == [] then 0 else bytes[0] + 256 * FromLittleEndian(bytes[1..])
  }

  function Pow256(width: nat): nat {
    if width == 0 then 1 else 256 * Pow256(width - 1)
  }

  lemma {:induction false} LittleEndianRoundTrip(n: nat, width: nat)
    requires n < Pow256(width)
    ensures FromLittleEndian(LittleEndian(n, width)) == n
  {
    if width > 0 {
      var bytes := LittleEndian(n, width);
      assert bytes[1..] == LittleEndian(n / 256, width - 1);
      LittleEndianRoundTrip(n / 256, width - 1);
    }
  }

  lemma {:induction false} FromLittleEndianBound(bytes: seq<u8>)
    ensures FromLittleEndian(bytes) < Pow256(|bytes|)
  {
    if bytes != [] {
      FromLittleEndianBound(bytes[1..]);
    }
  }

  lemma Pow256Widths()
    ensures Pow256(4) == W32 && Pow256(8) == W64
  {
    assert Pow256(4) == 256 * (256 * (256 * (256 * Pow256(0))));
    assert Pow256(8) == 256 * (256 * (256 * (256 * Pow256(4))));
  }

  function ReadU32(bytes: seq<u8>): u32
    requires |bytes| == 4
  {
    FromLittleEndianBound(bytes);
    Pow256Widths();
    FromLittleEndian(bytes)
  }

  function ReadU64(bytes: seq<u8>): u64
    requires |bytes| == 8
  {
    FromLittleEndianBound(bytes);
    Pow256Widths();
    FromLittleEndian(bytes)
  }

  /** Two's complement image of a signed 64-bit word. */
  function AsU64(x: i64): u64 {
    if x < 0 then x + W64 else x
  }

  function AsI64(x: u64): i64 {
    if x < W63 then x else x - W64
  }

  lemma WordRoundTrips(a: u32, b: u64, c: i64)
    ensures ReadU32(LittleEndian(a, 4)) == a
    ensures ReadU64(LittleEndian(b, 8)) == b
    ensures AsI64(ReadU64(LittleEndian(AsU64(c), 8))) == c
  {
    Pow256Widths();
    LittleEndianRoundTrip(a, 4);
    LittleEndianRoundTrip(b, 8);
    LittleEndianRoundTrip(AsU64(c), 8);
  }

  /** Subtraction is the inverse of the wrapping addition. */
  lemma Sub64Undoes(a: u64, b: u64)
    ensures Add64(Sub64(a, b), b) == a && Sub64(Add64(a, b), b) == a
  {
  }

  /** The byte order: the least significant byte comes first. */
  lemma ReadU32Meaning(b: seq<u8>)
    requires |b| == 4
    ensures ReadU32(b) == b[0] as int + 0x100 * (b[1] as int) + 0x1_0000 * (b[2] as int) + 0x100_0000 * (b[3] as int)
  {
    assert FromLittleEndian(b) == b[0] + 256 * FromLittleEndian(b[1..]);
    assert FromLittleEndian(b[1..]) == b[1] + 256 * FromLittleEndian(b[2..]) by {
      assert b[1..][1..] == b[2..];
    }
    assert FromLittleEndian(b[2..]) == b[2] + 256 * FromLittleEndian(b[3..]) by {
      assert b[2..][1..] == b[3..];
    }
    assert FromLittleEndian(b[3..]) == b[3] + 256 * FromLittleEndian(b[3..][1..]);
    assert b[3..][1..] == [];
  }

  lemma {:induction false} FromLittleEndianSplit(b: seq<u8>, k: nat)
    requires k <= |b|
    ensures FromLittleEndian(b) == FromLittleEndian(b[..k]) + Pow256(k) * FromLittleEndian(b[k..])
  {
    if k == 0 {
      assert b[0..] == b;
    } else {
      FromLittleEndianSplit(b[1..], k - 1);
      assert b[1..][..k - 1] == b[..k][1..] && b[1..][k - 1..] == b[k..];
      ScaledSum(FromLittleEndian(b[..k][1..]), Pow256(k - 1), FromLittleEndian(b[k..]));
    }
  }

  lemma ScaledSum(low: nat, scale: nat, high: nat)
    ensures 256 * (low + scale * high) == 256 * low + (256 * scale) * high
  {
  }

  lemma ReadU64Meaning(b: seq<u8>)
    requires |b| == 8
    ensures ReadU64(b) == ReadU32(b[..4]) + 0x1_0000_0000 * ReadU32(b[4..])
  {
    FromLittleEndianSplit(b, 4);
    Pow256Widths();
  }

  /** Two's complement: a signed word and its image differ by a multiple of 2^64. */
  lemma SignedImage(x: u64)
    ensures AsI64(x) == x || AsI64(x) == x - 0x1_0000_0000_0000_0000
    ensures AsU64(AsI64(x)) == x
  {
  }
}
