/** Byte strings and the fixed-width big-endian and little-endian integers stored in them. */
module ByteStrings {
  type Byte = b: int | 0 <= b < 256
  type Bytes = seq<Byte>

  datatype Option<+T> = None | Some(value: T)

  const TWO_31: int := 0x8000_0000
  const TWO_32: int := 0x1_0000_0000
  const TWO_63: int := 0x8000_0000_0000_0000
  const TWO_64: int := 0x1_0000_0000_0000_0000

  function Pow256(w: nat): (p: nat)
    ensures p > 0
  {
    if w == 0 then 1 else 256 * Pow256(w - 1)
  }

  lemma Widths()
    ensures Pow256(1) == 0x100 && Pow256(2) == 0x1_0000 && Pow256(4) == TWO_32 && Pow256(8) == TWO_64
    ensures TWO_32 == 2 * TWO_31 && TWO_64 == 2 * TWO_63
  {
    assert Pow256(3) == 0x100_0000;
    assert Pow256(5) == 0x100_0000_0000 && Pow256(6) == 0x1_0000_0000_0000;
    assert Pow256(7) == 0x100_0000_0000_0000;
  }

  /** The low `w` bytes of `n`, most significant first; higher bytes are cut off as a C cast would. */
  function BigEndian(n: nat, w: nat): (s: Bytes)
    ensures |s| == w
  {
    if w == 0 then [] else BigEndian(n / 256, w - 1) + [n % 256]
  }

  function FromBigEndian(s: Bytes): (n: nat)
    ensures n < Pow256(|s|)
  {
    if s == [] then 0 else FromBigEndian(s[..|s| - 1]) * 256 + s[|s| - 1]
  }

  lemma {:induction false} BigEndianRoundTrip(n: nat, w: nat)
    requires n < Pow256(w)
    ensures FromBigEndian(BigEndian(n, w)) == n
  {
    if w > 0 {
      BigEndianRoundTrip(n / 256, w - 1);
      assert BigEndian(n, w)[..w - 1] == BigEndian(n / 256, w - 1);
    }
  }

  /** The low `w` bytes of `n`, least significant first. */
  function LittleEndian(n: nat, w: nat): (s: Bytes)
    ensures |s| == w
  {
    if w == 0 then [] else [n % 256] + LittleEndian(n / 256, w - 1)
  }

  /** The four bytes of a `uint32_t` as they lie in memory on a little-endian machine. */
  function Image32(n: nat): (s: Bytes)
    ensures |s| == 4
  {
    LittleEndian(n, 4)
  }

  /** The bytes of such an image, from the lowest to the highest. */
  lemma ImageBytes(n: nat)
    requires n < 0x1_0000_0000
    ensures Image32(n) == [n % 0x100, n / 0x100 % 0x100, n / 0x1_0000 % 0x100, n / 0x100_0000]
  {
    var a, b, c := n / 0x100, n / 0x1_0000, n / 0x100_0000;
    assert a / 0x100 == b && b / 0x100 == c && c % 0x100 == c;
    assert LittleEndian(c, 1) == [c % 0x100];
    assert LittleEndian(b, 2) == [b % 0x100] + LittleEndian(c, 1);
    assert LittleEndian(a, 3) == [a % 0x100] + LittleEndian(b, 2);
  }

  lemma {:induction false} LittleEndianInjective(m: nat, n: nat, w: nat)
    requires m < Pow256(w) && n < Pow256(w) && LittleEndian(m, w) == LittleEndian(n, w)
    ensures m == n
  {
    if w > 0 {
      assert LittleEndian(m, w)[0] == LittleEndian(n, w)[0];
      assert LittleEndian(m, w)[1..] == LittleEndian(n, w)[1..];
      LittleEndianInjective(m / 256, n / 256, w - 1);
    }
  }

  lemma Image32Injective(m: nat, n: nat)
    requires m < TWO_32 && n < TWO_32
    ensures Image32(m) == Image32(n) <==> m == n
  {
    Widths();
    if Image32(m) == Image32(n) {
      LittleEndianInjective(m, n, 4);
    }
  }

  /** A 32-bit unsigned value read back as a signed one. */
  function ToInt32(n: nat): (i: int)
    requires n < TWO_32
    ensures -0x8000_0000 <= i < 0x8000_0000 && (n - i) % 0x1_0000_0000 == 0
    ensures n < TWO_31 <==> i >= 0
    ensures n < TWO_31 ==> i == n
    ensures i == -1 <==> n == TWO_32 - 1
  {
    if n < TWO_31 then n else n - TWO_32
  }
}
