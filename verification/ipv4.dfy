/**
 IPv4 addresses as 32-bit unsigned integers, with the wrap-around arithmetic
 the DHCP server applies to them: Go's `uint32`, `binary.BigEndian.Uint32`,
 and the dhcp4 package's `IPAdd` / `IPRange` helpers, plus `net.IPNet.Contains`.
 */
module IPv4 {

  const Modulus: int := 0x1_0000_0000

  type Byte = b: int | 0 <= b < 0x100
  type Uint32 = x: int | 0 <= x < 0x1_0000_0000

  /** `binary.BigEndian.Uint32`: the first four bytes, most significant first. */
  function BigEndian(b: seq<Byte>): Uint32
    requires |b| >= 4
  {
    (b[0] as int) * 0x100_0000 + (b[1] as int) * 0x1_0000 + (b[2] as int) * 0x100 + b[3]
  }

  /** The four bytes of an address, as `net.IP.To4` holds them. */
  function Octets(a: Uint32): (b: seq<Byte>)
    ensures |b| == 4
    ensures BigEndian(b) == a
  {
    OctetsSum(a);
    [a / 0x100_0000, (a / 0x1_0000) % 0x100, (a / 0x100) % 0x100, a % 0x100]
  }

  /** The four bytes, weighted by their place, add up to the address. */
  lemma OctetsSum(a: Uint32)
    ensures a == (a / 0x100_0000) * 0x100_0000 + ((a / 0x1_0000) % 0x100) * 0x1_0000
                 + ((a / 0x100) % 0x100) * 0x100 + a % 0x100
  {
    var a1 := a / 0x100;
    var a2 := a1 / 0x100;
    var a3 := a2 / 0x100;
    assert a == a1 * 0x100 + a % 0x100;
    assert a1 == a2 * 0x100 + a1 % 0x100;
    assert a2 == a3 * 0x100 + a2 % 0x100;
    DivUnique(a, 0x1_0000, a2);
    DivUnique(a, 0x100_0000, a3);
  }

  /** Reading four bytes and writing them back gives the same bytes. */
  lemma OctetsOfBigEndian(b: seq<Byte>)
    requires |b| == 4
    ensures Octets(BigEndian(b)) == b
  {
    var a := BigEndian(b);
    var hi2: int := (b[0] as int) * 0x100 + b[1];
    var hi3: int := hi2 * 0x100 + b[2];
    DivUnique(a, 0x100_0000, b[0]);
    DivUnique(a, 0x1_0000, hi2);
    DivUnique(hi2, 0x100, b[0]);
    DivUnique(a, 0x100, hi3);
    DivUnique(hi3, 0x100, hi2);
  }

  /** The all-zero address (`net.IPv4zero`). */
  const Zero: Uint32 := 0

  /** `dhcp.IPAdd`: an address plus an offset, wrapping modulo 2^32. */
  function Add(start: Uint32, n: int): (r: Uint32)
    ensures 0 <= start + n < Modulus ==> r == start + n
    ensures start + n >= Modulus && start + n < 2 * Modulus ==> r == start + n - Modulus
  {
    (start + n) % Modulus
  }

  /** `uint32(a) - uint32(b)`: unsigned subtraction, wrapping modulo 2^32. */
  function Sub(a: Uint32, b: Uint32): (r: Uint32)
    ensures b <= a ==> r == a - b
    ensures a < b ==> r == a - b + Modulus
  {
    (a - b) % Modulus
  }

  /** Adding the unsigned difference back recovers the minuend. */
  lemma AddSubInverse(a: Uint32, b: Uint32)
    ensures Add(b, Sub(a, b)) == a
  {
  }

  /** Subtracting the start undoes adding an offset below 2^32. */
  lemma SubAddInverse(start: Uint32, n: Uint32)
    ensures Sub(Add(start, n), start) == n
  {
  }

  /** `dhcp.IPRange(start, stop) - 1`: the signed distance, computed in Go's
      64-bit `int`, which never overflows for two 32-bit operands. */
  function Distance(start: Uint32, stop: Uint32): (d: int)
    ensures -Modulus < d < Modulus
    ensures Add(start, d) == stop
  {
    stop - start
  }

  type Prefix = p: int | 0 <= p <= 32

  /** A network in CIDR form: base address and prefix length. */
  datatype Subnet = Subnet(base: Uint32, prefix: Prefix)

  function Pow2(k: nat): (r: nat)
    ensures r >= 1
  {
    if k == 0 then 1 else 2 * Pow2(k - 1)
  }

  /** Number of addresses the prefix leaves to the host part. */
  function BlockSize(n: Subnet): nat
  {
    Pow2(32 - n.prefix)
  }

  /** `net.IPNet.Contains`: the address agrees with the base on the first
      `prefix` bits, that is, both fall in the same block, which is the
      aligned run of `BlockSize` addresses holding the base. */
  predicate Contains(n: Subnet, a: Uint32): (b: bool)
    ensures b <==> NetworkAddress(n) <= a < NetworkAddress(n) + BlockSize(n)
  {
    SameBlock(n.base, a, BlockSize(n));
    a / BlockSize(n) == n.base / BlockSize(n)
  }

  /** First address of the block the base lies in. */
  function NetworkAddress(n: Subnet): int
  {
    n.base - n.base % BlockSize(n)
  }

  lemma MulMonotone(x: int, y: int, size: int)
    requires x <= y && size > 0
    ensures x * size <= y * size
  {
    assert y * size - x * size == (y - x) * size;
  }

  /** The only multiple of `size` strictly between `-size` and `size` is 0. */
  lemma SmallMultiple(k: int, size: int)
    requires size > 0 && -size < k * size < size
    ensures k == 0
  {
    if k >= 1 {
      MulMonotone(1, k, size);
    } else if k <= -1 {
      MulMonotone(k, -1, size);
    }
  }

  /** The quotient is `q` exactly for the block `q * size .. q * size + size - 1`. */
  lemma DivUnique(a: int, size: int, q: int)
    requires size > 0 && q * size <= a < q * size + size
    ensures a / size == q
  {
    var d := a / size;
    var r := a % size;
    assert a == d * size + r;
    assert (d - q) * size == a - r - q * size;
    SmallMultiple(d - q, size);
  }

  /** Two numbers share a block of `size` exactly when the second lies in
      the aligned run of `size` numbers holding the first. */
  lemma SameBlock(base: nat, a: nat, size: int)
    requires size > 0
    ensures a / size == base / size <==> base - base % size <= a < base - base % size + size
  {
    var q := base / size;
    assert base - base % size == q * size;
    if a / size == q {
      assert a == q * size + a % size;
    }
    if q * size <= a < q * size + size {
      DivUnique(a, size, q);
    }
  }
}
