/** CIDR blocks (section 3.1 of RFC 4632): what their text denotes, membership as an interval of
    addresses, and blocks of one family nested or disjoint. */
module CidrTheorems {
  import opened Wrappers
  import opened Bits
  import opened IpFilter
  import opened IpLiterals

  /** The number of addresses in a block. */
  function Size(c: Cidr): nat
    requires c.prefix <= BitsOf(c.version)
  {
    Pow2(BitsOf(c.version) - c.prefix)
  }

  /** What every parsed block satisfies: its base is a multiple of its size, inside the family. */
  ghost predicate Aligned(c: Cidr) {
    && c.prefix <= BitsOf(c.version)
    && c.base / Size(c) * Size(c) == c.base
    && c.base < Pow2(BitsOf(c.version))
  }

  lemma MaskClears(v: nat, prefix: nat, bits: nat)
    requires prefix <= bits && v < Pow2(bits)
    ensures And(v, MaskFor(prefix, bits)) == v / Pow2(bits - prefix) * Pow2(bits - prefix)
  {
    if prefix == 0 {
      SmallDivides(v, Pow2(bits));
      assert And(v, 0) == 0;
    } else {
      assert Shl(1, prefix) == Pow2(prefix);
      AndMask(v, prefix, bits - prefix);
    }
  }

  lemma ClearedIsAligned(v: nat, d: nat)
    requires d > 0
    ensures var b := v / d * d; b <= v < b + d && b / d * d == b
  {
    var q := v / d;
    QuotientIs(q * d, d, q, 0);
  }

  /** The prefix length a block's text asks for: all of the address without a "/", and what the
      digits after it say otherwise. */
  function PrefixIn(s: string, bits: nat): Option<nat> {
    var slash := IndexOfChar(s, '/');
    if slash == |s| then Some(bits)
    else
      var text := s[slash + 1..];
      if text != "" && AllDigits(text) && Numeral(text, 10) <= bits then Some(Numeral(text, 10)) else None
  }

  /** The address a block's text names, before any "/". */
  function AddressIn(s: string): Option<Ip> {
    ParseIp(s[..IndexOfChar(s, '/')])
  }

  /** What a block's text denotes: it parses exactly when the address and the prefix length do, to
      that family and length, and to the start of the block the address is in. */
  lemma ParsedCidrIs(s: string)
    ensures ParseCidr(s).Some? <==> AddressIn(s).Some? && PrefixIn(s, BitsOf(AddressIn(s).value.version)).Some?
    ensures ParseCidr(s).Some? ==>
              var (c, ip) := (ParseCidr(s).value, AddressIn(s).value);
              && c.version == ip.version && Some(c.prefix) == PrefixIn(s, BitsOf(ip.version))
              && c.prefix <= BitsOf(c.version) && c.base == ip.value / Size(c) * Size(c)
              && Aligned(c)
  {
    hide ParseIp, And, MaskFor, Numeral;
    if ParseCidr(s).Some? {
      var (c, ip) := (ParseCidr(s).value, AddressIn(s).value);
      ParsedIpFits(s[..IndexOfChar(s, '/')]);
      MaskClears(ip.value, c.prefix, BitsOf(ip.version));
      ClearedIsAligned(ip.value, Size(c));
    }
  }

  /** Membership is an interval: base <= ip < base + 2^(bits - prefix). */
  lemma InCidrIsInterval(ip: Ip, c: Cidr)
    requires Aligned(c) && ip.value < Pow2(BitsOf(ip.version))
    ensures InCidr(ip, c) <==> ip.version == c.version && c.base <= ip.value < c.base + Size(c)
  {
    hide And, MaskFor, Pow2;
    if ip.version == c.version {
      MaskClears(ip.value, c.prefix, BitsOf(c.version));
      BlockIsInterval(ip.value, c.base, Size(c));
      if c.prefix == 0 {
        SmallDivides(c.base, Size(c));
      }
    }
  }

  lemma BlockIsInterval(v: nat, base: nat, d: nat)
    requires d > 0 && base / d * d == base
    ensures v / d * d == base <==> base <= v < base + d
  {
    ClearedIsAligned(v, d);
    if base <= v < base + d {
      QuotientIs(v, d, base / d, v - base);
    }
  }

  /** Any two blocks of one family are nested or disjoint. */
  lemma NestedOrDisjoint(a: Cidr, b: Cidr)
    requires Aligned(a) && Aligned(b) && a.version == b.version && a.prefix >= b.prefix
    ensures (forall ip: Ip :: ip.value < Pow2(BitsOf(ip.version)) && InCidr(ip, a) ==> InCidr(ip, b))
         || (forall ip: Ip :: ip.value < Pow2(BitsOf(ip.version)) && InCidr(ip, a) ==> !InCidr(ip, b))
  {
    var (m, n) := (Size(a), Size(b));
    var k := Pow2(a.prefix - b.prefix);
    Pow2Adds(BitsOf(a.version) - a.prefix, a.prefix - b.prefix);
    assert n == m * k;
    AlignedBlocks(a.base / m, b.base / n, m, k);
    forall ip: Ip | ip.value < Pow2(BitsOf(ip.version)) && InCidr(ip, a)
      ensures InCidr(ip, b) <==> b.base <= a.base < b.base + n
    {
      InCidrIsInterval(ip, a);
      InCidrIsInterval(ip, b);
    }
  }

  /** A multiple of m and a multiple of m * k: the small block is inside the large one or apart. */
  lemma AlignedBlocks(i: nat, j: nat, m: nat, k: nat)
    requires m > 0 && k > 0
    ensures var (lo, n, base) := (i * m, m * k, j * (m * k));
            (base <= lo && lo + m <= base + n) || lo + m <= base || base + n <= lo
  {
    var first := j * k;
    Regroups(j, m, k);
    Distributes(first, k, m);
    Distributes(i, 1, m);
    if i >= first + k {
      MulMonotone(first + k, i, m);
    } else if i + 1 <= first {
      MulMonotone(i + 1, first, m);
    } else {
      MulMonotone(first, i, m);
      MulMonotone(i + 1, first + k, m);
    }
  }

  lemma Regroups(j: nat, m: nat, k: nat)
    ensures j * (m * k) == j * k * m
  {
  }

  lemma Distributes(a: nat, b: nat, m: nat)
    ensures (a + b) * m == a * m + b * m
  {
  }

  /** From text to membership: an address is in the block a text denotes exactly when it is of the
      family of the address in that text and in the same stretch of 2^(bits - prefix) addresses. */
  lemma InParsedCidr(ip: Ip, s: string)
    requires ParseCidr(s).Some? && ip.value < Pow2(BitsOf(ip.version))
    ensures ParseCidr(s).value.prefix <= BitsOf(ParseCidr(s).value.version)
    ensures var (c, named) := (ParseCidr(s).value, AddressIn(s).value);
            InCidr(ip, c) <==> ip.version == named.version && ip.value / Size(c) == named.value / Size(c)
  {
    hide ParseCidr, AddressIn, PrefixIn, InCidr;
    ParsedCidrIs(s);
    var (c, named) := (ParseCidr(s).value, AddressIn(s).value);
    InCidrIsInterval(ip, c);
    SameStretch(ip.value, named.value, Size(c));
  }

  lemma SameStretch(a: nat, b: nat, d: nat)
    requires d > 0
    ensures b / d * d <= a < b / d * d + d <==> a / d == b / d
  {
    ClearedIsAligned(b, d);
    BlockIsInterval(a, b / d * d, d);
    MulCancels(a / d, b / d, d);
  }

  lemma MulCancels(a: nat, b: nat, d: nat)
    requires d > 0
    ensures a * d == b * d <==> a == b
  {
    if a < b {
      MulMonotone(a + 1, b, d);
    } else if b < a {
      MulMonotone(b + 1, a, d);
    }
  }
}
