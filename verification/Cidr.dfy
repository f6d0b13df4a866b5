/** Address blocks: containment, overlap, and the Terraform form of the overlap test. */
module Cidr {
  import opened Prelude

  function Pow2(n: nat): (p: nat)
    ensures p > 0
  {
    if n == 0 then 1 else 2 * Pow2(n - 1)
  }

  const IPV4 := 32
  const IPV6 := 128

  /** An address as an unsigned integer of its width in bits. */
  datatype Addr = Addr(width: nat, value: nat) {
    predicate Valid() { (width == IPV4 || width == IPV6) && value < Pow2(width) }
  }

  /** x with its last bits cleared, where size is two to the number of those bits. */
  function Masked(x: nat, size: nat): nat
    requires size > 0
  {
    x - x % size
  }

  /** A network: its first address and the number of leading one bits in its mask. */
  datatype Net = Net(ip: Addr, ones: nat) {
    function Size(): (s: nat)
      requires ones <= ip.width
      ensures s > 0
    {
      Pow2(ip.width - ones)
    }

    predicate Valid() { ip.Valid() && ones <= ip.width && ip.value == Masked(ip.value, Size()) }

    /** net.IPNet.Contains: the address masked as the network is masked. */
    predicate Contains(a: Addr)
      requires ones <= ip.width
    {
      a.width == ip.width && Masked(a.value, Size()) == ip.value
    }

    function End(): int
      requires ones <= ip.width
    {
      ip.value + Size() - 1
    }
  }

  /** Bit i of an address, counted from the most significant one. */
  function Bit(a: Addr, i: nat): nat
    requires i < a.width
  {
    a.value / Pow2(a.width - 1 - i) % 2
  }

  /** Two addresses of the same family whose first bits are the same. */
  predicate SamePrefix(a: Addr, ones: nat, b: Addr) {
    a.width == b.width && forall i :: 0 <= i < ones && i < a.width ==> Bit(a, i) == Bit(b, i)
  }

  /** net.ParseCIDR of an address and a prefix length: the network is the masked address. */
  function ParseCidr(a: Addr, ones: nat): (n: Net)
    requires a.Valid() && ones <= a.width
    ensures n.Valid() && n.Contains(a) && n.ones == ones && n.ip.width == a.width
  {
    var size := Pow2(a.width - ones);
    MaskAligned(a.value, size);
    Net(Addr(a.width, Masked(a.value, size)), ones)
  }

  // ---------------------------------------------------------------------------
  // Aligned blocks
  // ---------------------------------------------------------------------------

  lemma Multiples(size: nat, d: nat, q: nat)
    ensures d < q ==> size * d + size <= size * q
  {
    if d < q {
      assert size * q == size * d + size * (q - d);
      assert size * (q - d) == size + size * (q - d - 1);
    }
  }

  lemma DivisionIsUnique(x: nat, size: nat, q: nat, r: nat)
    requires size > 0 && r < size && x == size * q + r
    ensures x % size == r
  {
    var d, m := x / size, x % size;
    assert x == size * d + m;
    Multiples(size, d, q);
    Multiples(size, q, d);
  }

  lemma MaskAligned(x: nat, size: nat)
    requires size > 0
    ensures Masked(x, size) <= x < Masked(x, size) + size && Masked(x, size) % size == 0
  {
    DivisionIsUnique(Masked(x, size), size, x / size, 0);
  }

  /** Masking gives the block exactly for the addresses from its first to its last. */
  lemma MaskedIsRange(base: nat, size: nat, x: nat)
    requires size > 0 && base % size == 0
    ensures Masked(x, size) == base <==> base <= x < base + size
  {
    if base <= x < base + size {
      DivisionIsUnique(x, size, base / size, x - base);
    } else {
      MaskAligned(x, size);
    }
  }

  lemma {:induction false} SizesNest(a: nat, b: nat)
    requires a <= b
    ensures Pow2(b) % Pow2(a) == 0 && Pow2(b) >= Pow2(a)
  {
    if a == b {
      DivisionIsUnique(Pow2(a), Pow2(a), 1, 0);
    } else {
      SizesNest(a, b - 1);
      var q := Pow2(b - 1) / Pow2(a);
      assert Pow2(b) == 2 * (Pow2(a) * q) == Pow2(a) * (2 * q);
      DivisionIsUnique(Pow2(b), Pow2(a), 2 * q, 0);
    }
  }

  lemma MultipleOfMultiple(x: nat, big: nat, small: nat)
    requires small > 0 && big > 0 && x % big == 0 && big % small == 0
    ensures x % small == 0
  {
    var (q, k) := (x / big, big / small);
    assert x == big * q && big == small * k;
    assert x == small * (k * q);
    DivisionIsUnique(x, small, k * q, 0);
  }

  /** An aligned bound at or below x is at or below x masked. */
  lemma AlignedBound(bound: nat, size: nat, x: nat)
    requires size > 0 && bound % size == 0 && bound <= x
    ensures bound <= Masked(x, size)
  {
    var (q, d) := (bound / size, x / size);
    assert bound == size * q && x == size * d + x % size;
    Multiples(size, d, q);
  }

  lemma TwiceDistributes(size: nat, q: nat)
    ensures size * (2 * q) == 2 * size * q && size * (2 * q + 1) == 2 * size * q + size
  {
  }

  lemma DivisionParts(x: nat, size: nat)
    requires size > 0
    ensures x == size * (x / size) + x % size && x % size < size
  {
  }

  lemma HalveQuotient(x: nat, size: nat)
    requires size > 0
    ensures x / (2 * size) == x / size / 2
  {
    var (d, r) := (x / size, x % size);
    var q := d / 2;
    DivisionParts(x, size);
    TwiceDistributes(size, q);
    if d % 2 == 0 {
      assert d == 2 * q;
      QuotientIs(x, 2 * size, q, r);
    } else {
      assert d == 2 * q + 1;
      QuotientIs(x, 2 * size, q, size + r);
    }
  }

  lemma QuotientIs(x: nat, size: nat, q: nat, rest: nat)
    requires size > 0 && rest < size && x == size * q + rest
    ensures x / size == q
  {
    DivisionIsUnique(x, size, q, rest);
    assert size * (x / size) == size * q;
    Multiples(size, x / size, q);
    Multiples(size, q, x / size);
  }

  /** The first bits of two addresses are the same exactly if the numbers they make up are. */
  lemma {:induction false} PrefixIsQuotient(a: Addr, ones: nat, b: Addr)
    requires a.Valid() && b.Valid() && a.width == b.width && ones <= a.width
    ensures SamePrefix(a, ones, b) <==> a.value / Pow2(a.width - ones) == b.value / Pow2(a.width - ones)
  {
    if ones == 0 {
      QuotientIs(a.value, Pow2(a.width), 0, a.value);
      QuotientIs(b.value, Pow2(a.width), 0, b.value);
    } else {
      PrefixIsQuotient(a, ones - 1, b);
      var size := Pow2(a.width - ones);
      assert Pow2(a.width - ones + 1) == 2 * size;
      HalveQuotient(a.value, size);
      HalveQuotient(b.value, size);
      assert Bit(a, ones - 1) == a.value / size % 2 && Bit(b, ones - 1) == b.value / size % 2;
      assert SamePrefix(a, ones, b) <==> SamePrefix(a, ones - 1, b) && Bit(a, ones - 1) == Bit(b, ones - 1);
    }
  }

  lemma FirstBit(a: Addr)
    requires a.Valid()
    ensures Bit(a, 0) == if a.value < Pow2(a.width - 1) then 0 else 1
  {
    var half := Pow2(a.width - 1);
    assert Pow2(a.width) == 2 * half;
    if a.value < half {
      QuotientIs(a.value, half, 0, a.value);
    } else {
      QuotientIs(a.value, half, 1, a.value - half);
    }
  }

  lemma MaskIsQuotient(x: nat, y: nat, size: nat)
    requires size > 0
    ensures Masked(x, size) == Masked(y, size) <==> x / size == y / size
  {
    assert Masked(x, size) == size * (x / size) && Masked(y, size) == size * (y / size);
    Multiples(size, x / size, y / size);
    Multiples(size, y / size, x / size);
  }

  /** The network of an address and a prefix length holds exactly the addresses that begin with the same bits. */
  lemma {:induction false} ContainsSamePrefix(a: Addr, ones: nat, b: Addr)
    requires a.Valid() && b.Valid() && ones <= a.width
    ensures ParseCidr(a, ones).Contains(b) <==> SamePrefix(a, ones, b)
  {
    if a.width == b.width {
      hide SamePrefix;
      PrefixIsQuotient(a, ones, b);
      MaskIsQuotient(a.value, b.value, Pow2(a.width - ones));
    }
  }

  lemma {:induction false} NetRange(n: Net, a: Addr)
    requires n.Valid()
    ensures n.Contains(a) <==> a.width == n.ip.width && n.ip.value <= a.value <= n.End()
  {
    MaskAligned(n.ip.value, n.Size());
    MaskedIsRange(n.ip.value, n.Size(), a.value);
  }

  // ---------------------------------------------------------------------------
  // Overlap
  // ---------------------------------------------------------------------------

  /** The two-sided containment test of rejectOverlappingCIDRs. */
  predicate Overlap(t: Net, p: Net)
    requires t.Valid() && p.Valid()
  {
    t.Contains(p.ip) || p.Contains(t.ip)
  }

  /** The address is in both networks. */
  predicate Shared(t: Net, p: Net, a: Addr)
    requires t.Valid() && p.Valid()
  {
    a.Valid() && t.Contains(a) && p.Contains(a)
  }

  /** If a wider network and a narrower one share an address, the wider contains the narrower's first address. */
  lemma WiderContainsBase(wide: Net, narrow: Net, a: Addr)
    requires wide.Valid() && narrow.Valid() && wide.ones <= narrow.ones && Shared(wide, narrow, a)
    ensures wide.Contains(narrow.ip)
  {
    SizesNest(wide.ip.width - narrow.ones, wide.ip.width - wide.ones);
    MaskAligned(wide.ip.value, wide.Size());
    MultipleOfMultiple(wide.ip.value, wide.Size(), narrow.Size());
    NetRange(wide, a);
    NetRange(narrow, a);
    AlignedBound(wide.ip.value, narrow.Size(), a.value);
    NetRange(wide, narrow.ip);
  }

  lemma ContainsOwnBase(n: Net)
    requires n.Valid()
    ensures n.Contains(n.ip)
  {
  }

  /**
    * The containment test finds an overlap exactly when some address is in both networks, for any widths and prefixes.
    */
  lemma {:induction false} OverlapIffShared(t: Net, p: Net)
    requires t.Valid() && p.Valid()
    ensures Overlap(t, p) <==> exists a :: Shared(t, p, a)
  {
    ContainsOwnBase(t);
    ContainsOwnBase(p);
    if t.Contains(p.ip) {
      assert Shared(t, p, p.ip);
    } else if p.Contains(t.ip) {
      assert Shared(t, p, t.ip);
    }
    if a :| Shared(t, p, a) {
      if t.ones <= p.ones {
        WiderContainsBase(t, p, a);
      } else {
        WiderContainsBase(p, t, a);
      }
    }
  }

  // ---------------------------------------------------------------------------
  // The Terraform locals
  // ---------------------------------------------------------------------------

  /** The four numbers of a dotted IPv4 address. */
  datatype Octets = Octets(a: nat, b: nat, c: nat, d: nat)

  function Dotted(value: nat): Octets {
    Octets(value / 16777216, value / 65536 % 256, value / 256 % 256, value % 256)
  }

  /** local.cidr_ip_to_int of a network's host 0. */
  function IpToInt(o: Octets): nat {
    o.a * 16777216 + o.b * 65536 + o.c * 256 + o.d
  }

  /** The integers of dotted addresses are in the order of the addresses, most significant octet first. */
  lemma {:induction false} IpToIntOrder(o: Octets, p: Octets)
    requires o.a < 256 && o.b < 256 && o.c < 256 && o.d < 256 && p.a < 256 && p.b < 256 && p.c < 256 && p.d < 256
    ensures IpToInt(o) < IpToInt(p) <==>
            || o.a < p.a || (o.a == p.a && o.b < p.b) || (o.a == p.a && o.b == p.b && o.c < p.c)
            || (o.a == p.a && o.b == p.b && o.c == p.c && o.d < p.d)
    ensures IpToInt(o) < 0x1_0000_0000
  {
  }

  lemma {:induction false} DottedRoundTrip(value: nat)
    ensures IpToInt(Dotted(value)) == value
  {
    assert value / 65536 == value / 256 / 256 && value / 16777216 == value / 65536 / 256;
  }

  /** local.cidr_range_end. */
  function RangeEnd(n: Net): int
    requires n.ones <= IPV4
  {
    IpToInt(Dotted(n.ip.value)) + Pow2(IPV4 - n.ones) - 1
  }

  /** local.cidr_overlap_pairs[].overlap. */
  predicate TerraformOverlap(t: Net, p: Net)
    requires t.ones <= IPV4 && p.ones <= IPV4
  {
    IpToInt(Dotted(t.ip.value)) <= RangeEnd(p) && IpToInt(Dotted(p.ip.value)) <= RangeEnd(t)
  }

  /** The interval formula and the containment test give the same verdict for every pair of IPv4 networks. */
  lemma {:induction false} TerraformAgrees(t: Net, p: Net)
    requires t.Valid() && p.Valid() && t.ip.width == IPV4 && p.ip.width == IPV4
    ensures TerraformOverlap(t, p) <==> Overlap(t, p)
  {
    hide Pow2, Masked, Dotted, IpToInt;
    DottedRoundTrip(t.ip.value);
    DottedRoundTrip(p.ip.value);
    NetRange(t, p.ip);
    NetRange(p, t.ip);
  }
}
