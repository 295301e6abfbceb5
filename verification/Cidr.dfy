/** Network policy prefixes: their normal form, how broad they may be, and what the policy cache makes of them. */
module Cidr {
  import opened Common

  function Pow2(n: nat): (p: nat)
    ensures p >= 1
  {
    if n == 0 then 1 else Pow2(n - 1) + Pow2(n - 1)
  }

  datatype Family = IPv4 | IPv6

  function Width(family: Family): nat {
    if family == IPv4 then 32 else 128
  }

  /** A parsed prefix: an address as a number, with the length of the part that counts. */
  datatype Prefix = Prefix(family: Family, addr: nat, bits: nat)

  predicate Valid(p: Prefix) {
    p.addr < Pow2(Width(p.family)) && p.bits <= Width(p.family)
  }

  /** How many addresses the prefix leaves open. */
  function Size(p: Prefix): nat
    requires Valid(p)
  {
    Pow2(Width(p.family) - p.bits)
  }

  /** Prefix.Contains, for an address of the prefix's own family. */
  predicate Covers(p: Prefix, a: nat)
    requires Valid(p)
  {
    a / Size(p) == p.addr / Size(p)
  }

  /** The first address of the block of s that a lies in. */
  function Block(a: nat, s: nat): nat
    requires s > 0
  {
    a - a % s
  }

  /** Prefix.Masked: the host bits zeroed. */
  function Masked(p: Prefix): Prefix
    requires Valid(p)
  {
    p.(addr := Block(p.addr, Size(p)))
  }

  /** An IPv4-mapped address, section 2.5.5.2 of RFC 4291. */
  predicate Is4In6(p: Prefix) {
    p.family == IPv6 && p.addr / Pow2(32) == 0xffff
  }

  datatype Band = Normal | Broad | TooBroad

  /** classifyCIDR: a mapped prefix is measured by its IPv4 part, whose length may come out negative. */
  function Classify(p: Prefix): Band {
    var bits: int := if Is4In6(p) then p.bits - 96 else p.bits;
    var v4 := p.family == IPv4 || Is4In6(p);
    if bits <= (if v4 then 8 else 32) then TooBroad
    else if bits <= (if v4 then 16 else 47) then Broad
    else Normal
  }

  datatype Error = CIDRTooBroad

  /** normalizeCIDR on a prefix that has parsed. */
  function Normalize(p: Prefix): Result<Prefix, Error>
    requires Valid(p)
  {
    if Classify(p) == TooBroad then Err(CIDRTooBroad) else Ok(Masked(p))
  }

  predicate Accepted(p: Prefix) {
    Valid(p) && Classify(p) != TooBroad
  }

  // ---- arithmetic ----

  // Facts about products that the solver is better told than left to find.

  lemma MulAdd(s: nat, x: nat, y: nat)
    ensures s * (x + y) == s * x + s * y
  {}

  lemma MulSum(x: nat, y: nat, n: nat)
    ensures (x + y) * n == x * n + y * n
  {}

  lemma MulAssoc(x: nat, y: nat, z: nat)
    ensures x * y * z == x * (y * z)
  {}

  lemma MulLess(s: nat, x: nat, y: nat)
    requires s > 0
    ensures s * x < s * y <==> x < y
  {
    if x < y {
      MulAdd(s, x, y - x);
    } else {
      MulAdd(s, y, x - y);
    }
  }

  lemma {:induction false} Pow2Sum(m: nat, n: nat)
    ensures Pow2(m + n) == Pow2(m) * Pow2(n)
  {
    if n == 0 {
      assert Pow2(m) * 1 == Pow2(m) * 0 + Pow2(m);
    } else {
      Pow2Sum(m, n - 1);
      assert m + n - 1 == m + (n - 1);
      MulAdd(Pow2(m), Pow2(n - 1), Pow2(n - 1));
    }
  }

  lemma {:induction false} Pow2Grows(m: nat, n: nat)
    requires m < n
    ensures Pow2(m) < Pow2(n)
    decreases n
  {
    if m < n - 1 {
      Pow2Grows(m, n - 1);
    }
  }

  lemma Quotient(a: nat, s: nat)
    requires s > 0
    ensures s * (a / s) == Block(a, s) <= a < s * (a / s) + s
  {
    assert a == s * (a / s) + a % s;
  }

  /** Division, by the interval its quotient holds on. */
  lemma QuotientInterval(a: nat, s: nat, q: nat)
    requires s > 0
    ensures a / s == q <==> s * q <= a < s * q + s
  {
    Quotient(a, s);
    ByInterval(a, s, a / s, q);
  }

  lemma ByInterval(a: nat, s: nat, k: nat, q: nat)
    requires s > 0 && s * k <= a < s * k + s
    ensures k == q <==> s * q <= a < s * q + s
  {
    MulLess(s, k + 1, q + 1);
    MulLess(s, k, q);
    MulLess(s, k + 1, q);
    MulLess(s, q + 1, k);
    MulAdd(s, k, 1);
    MulAdd(s, q, 1);
  }

  lemma DivDiv(a: nat, s: nat, t: nat)
    requires s > 0 && t > 0
    ensures s * t > 0 && a / (s * t) == (a / s) / t
  {
    Quotient(a, s);
    Quotient(a / s, t);
    MulLess(s, 0, t);
    InnerBlock(a, s, t, a / s, a / s / t);
    QuotientInterval(a, s * t, a / s / t);
  }

  /** A block of s within a block of t such blocks. */
  lemma InnerBlock(a: nat, s: nat, t: nat, b: nat, q: nat)
    requires s > 0 && s * b <= a < s * b + s && t * q <= b < t * q + t
    ensures s * t * q <= a < s * t * q + s * t
  {
    MulAssoc(s, t, q);
    Within(a, s, b, t * q, t);
  }

  lemma Within(a: nat, s: nat, b: nat, low: nat, t: nat)
    requires s > 0 && s * b <= a < s * b + s && low <= b < low + t
    ensures s * low <= a < s * low + s * t
  {
    MulLess(s, b, low);
    MulLess(s, low + t, b + 1);
    MulAdd(s, b, 1);
    MulAdd(s, low, t);
  }

  /** Multiples of a larger power of two lie in blocks of even number. */
  lemma EvenBlock(h: nat, m: nat, k: nat)
    requires m > 0
    ensures Pow2(h + m) * k / Pow2(h) % 2 == 0
  {
    Pow2Sum(h, m);
    MulAssoc(Pow2(h), Pow2(m), k);
    QuotientInterval(Pow2(h + m) * k, Pow2(h), Pow2(m) * k);
    MulSum(Pow2(m - 1), Pow2(m - 1), k);
  }

  lemma DivMod(s: nat, k: nat, c: nat)
    requires c < s
    ensures (k * s + c) / s == k && (k * s + c) % s == c
  {
    QuotientInterval(k * s + c, s, k);
    var x := k * s + c;
    assert x == s * (x / s) + x % s;
  }

  lemma SixteenBits(h: nat, n: nat, c: nat)
    requires c < Pow2(h) && h + 16 < n
    ensures 0xffff * Pow2(h) + c < Pow2(n)
  {
    FourBits(h);
    FourBits(h + 4);
    FourBits(h + 8);
    FourBits(h + 12);
    Pow2Grows(h + 16, n);
  }

  lemma FourBits(h: nat)
    ensures Pow2(h + 4) == 16 * Pow2(h)
  {
    assert Pow2(h + 2) == 4 * Pow2(h);
  }

  // ---- the normal form ----

  lemma BlockFits(s: nat, n: nat, a: nat)
    requires s > 0 && a < s * n
    ensures Block(a, s) + s <= s * n
  {
    Quotient(a, s);
    StepFits(s, n, a, a / s);
  }

  lemma StepFits(s: nat, n: nat, a: nat, k: nat)
    requires s > 0 && s * k <= a < s * n
    ensures s * k + s <= s * n
  {
    MulLess(s, k, n);
    MulLess(s, n, k + 1);
    MulAdd(s, k, 1);
  }

  /** What a prefix covers is the block of Size addresses that starts at its masked address. */
  lemma CoversIsBlock(p: Prefix, a: nat)
    requires Valid(p)
    ensures Masked(p).addr + Size(p) <= Pow2(Width(p.family))
    ensures Covers(p, a) <==> Masked(p).addr <= a < Masked(p).addr + Size(p)
  {
    SameQuotient(a, p.addr, Size(p));
    MaskedFits(p);
  }

  lemma SameQuotient(a: nat, b: nat, s: nat)
    requires s > 0
    ensures a / s == b / s <==> Block(b, s) <= a < Block(b, s) + s
  {
    Quotient(b, s);
    QuotientInterval(a, s, b / s);
  }

  lemma MaskedFits(p: Prefix)
    requires Valid(p)
    ensures Masked(p).addr + Size(p) <= Pow2(Width(p.family))
  {
    Pow2Sum(Width(p.family) - p.bits, p.bits);
    BlockFits(Size(p), Pow2(p.bits), p.addr);
  }

  lemma BlockIsFixed(s: nat, a: nat)
    requires s > 0
    ensures Block(a, s) / s == a / s && Block(Block(a, s), s) == Block(a, s) <= a
  {
    Quotient(a, s);
    QuotientInterval(Block(a, s), s, a / s);
  }

  /** Masking keeps the prefix valid and what it covers, and is done once for all. */
  lemma MaskingKeepsSet(p: Prefix)
    requires Valid(p)
    ensures Valid(Masked(p)) && Masked(Masked(p)) == Masked(p)
    ensures forall a :: Covers(Masked(p), a) <==> Covers(p, a)
  {
    var m := Masked(p);
    BlockIsFixed(Size(p), p.addr);
    assert Size(m) == Size(p) && m.addr / Size(m) == p.addr / Size(p);
  }

  ghost predicate SameSet(p: Prefix, q: Prefix)
    requires Valid(p) && Valid(q)
  {
    forall a :: Covers(p, a) <==> Covers(q, a)
  }

  /** Two prefixes of one family have one normal form exactly when they cover the same addresses. */
  lemma NormalFormIsCanonical(p: Prefix, q: Prefix)
    requires Valid(p) && Valid(q) && p.family == q.family
    ensures Masked(p) == Masked(q) <==> SameSet(p, q)
  {
    if Masked(p) == Masked(q) {
      MaskingKeepsSet(p);
      MaskingKeepsSet(q);
    }
    if SameSet(p, q) {
      SameBlock(p, q);
      Pow2Order(Width(p.family) - p.bits, Width(p.family) - q.bits);
      Pow2Order(Width(p.family) - q.bits, Width(p.family) - p.bits);
    }
  }

  /** Two blocks with the same addresses start and end together. */
  lemma SameBlock(p: Prefix, q: Prefix)
    requires Valid(p) && Valid(q) && SameSet(p, q)
    ensures Masked(p).addr == Masked(q).addr && Size(p) == Size(q)
  {
    var m, n := Masked(p).addr, Masked(q).addr;
    InBoth(p, q, m);
    InBoth(p, q, n);
    InBoth(p, q, m + Size(p) - 1);
    InBoth(p, q, n + Size(q) - 1);
  }

  lemma InBoth(p: Prefix, q: Prefix, a: nat)
    requires Valid(p) && Valid(q) && SameSet(p, q)
    ensures Masked(p).addr <= a < Masked(p).addr + Size(p) <==> Masked(q).addr <= a < Masked(q).addr + Size(q)
  {
    CoversIsBlock(p, a);
    CoversIsBlock(q, a);
  }

  /** Two accepted prefixes of one family are stored alike exactly when they cover the same addresses. */
  lemma StoredAlikeIff(p: Prefix, q: Prefix)
    requires Accepted(p) && Accepted(q) && p.family == q.family
    ensures Normalize(p).Ok? && Normalize(q).Ok?
    ensures Normalize(p) == Normalize(q) <==> SameSet(p, q)
  {
    NormalFormIsCanonical(p, q);
  }

  /** What is stored is accepted again, in the same band, and unchanged. */
  lemma StoredIsStable(p: Prefix)
    requires Accepted(p)
    ensures var n := Normalize(p).value;
            Accepted(n) && Classify(n) == Classify(p) && Normalize(n) == Ok(n) && (Is4In6(n) <==> Is4In6(p))
  {
    MaskingKeepsSet(p);
    if p.family == IPv6 && p.bits >= 96 {
      MappedTogether(p, Masked(p).addr);
    } else if p.family == IPv6 {
      NoShortMapped(p);
    }
  }

  /** An accepted prefix shorter than 96 bits is not written mapped, and neither is its masked form. */
  lemma NoShortMapped(p: Prefix)
    requires Accepted(p) && p.family == IPv6 && p.bits < 96
    ensures !Is4In6(p) && !Is4In6(Masked(p))
  {
    // The masked address is a multiple of 2^33 at least, so its block of 2^32 has an even number.
    EvenMask(p.addr, p.bits, 32, 96 - p.bits);
  }

  lemma EvenMask(addr: nat, bits: nat, h: nat, m: nat)
    requires m > 0 && bits + h + m == 128
    ensures Block(addr, Pow2(128 - bits)) / Pow2(h) % 2 == 0
  {
    Quotient(addr, Pow2(h + m));
    EvenBlock(h, m, addr / Pow2(h + m));
  }

  /** A prefix of 96 bits or more covers either only mapped addresses or none. */
  lemma MappedTogether(p: Prefix, a: nat)
    requires Valid(p) && p.family == IPv6 && p.bits >= 96 && Covers(p, a)
    ensures a / Pow2(32) == p.addr / Pow2(32)
  {
    Pow2Sum(128 - p.bits, p.bits - 96);
    DivDiv(a, Size(p), Pow2(p.bits - 96));
    DivDiv(p.addr, Size(p), Pow2(p.bits - 96));
  }

  /**
   How much an accepted prefix can cover: 2^23 IPv4 addresses, also when written mapped, and then nothing
   but mapped addresses; otherwise 2^95 IPv6 addresses.
   */
  lemma AcceptedIsBounded(p: Prefix)
    requires Accepted(p)
    ensures if p.family == IPv4 || Is4In6(p) then Size(p) <= Pow2(23) else Size(p) <= Pow2(95)
    ensures Is4In6(p) ==> p.bits >= 105 && forall a: nat :: Covers(p, a) ==> a / Pow2(32) == 0xffff
  {
    SizeOrder(p);
    if Is4In6(p) {
      OnlyMapped(p);
    }
  }

  lemma Pow2Order(m: nat, n: nat)
    ensures Pow2(m) <= Pow2(n) <==> m <= n
  {
    if m < n {
      Pow2Grows(m, n);
    } else if n < m {
      Pow2Grows(n, m);
    }
  }

  lemma SizeOrder(p: Prefix)
    requires Valid(p)
    ensures Size(p) <= Pow2(23) <==> Width(p.family) - p.bits <= 23
    ensures Size(p) <= Pow2(95) <==> Width(p.family) - p.bits <= 95
  {
    Pow2Order(Width(p.family) - p.bits, 23);
    Pow2Order(Width(p.family) - p.bits, 95);
  }

  lemma OnlyMapped(p: Prefix)
    requires Accepted(p) && Is4In6(p)
    ensures forall a: nat :: Covers(p, a) ==> a / Pow2(32) == 0xffff
  {
    forall a: nat | Covers(p, a)
      ensures a / Pow2(32) == 0xffff
    {
      MappedTogether(p, a);
    }
  }

  /** The bound is exact: one bit less and the prefix is refused. */
  lemma RefusedIffBroader(p: Prefix)
    requires Valid(p)
    ensures Normalize(p).Err? <==>
              if p.family == IPv4 || Is4In6(p) then Size(p) > Pow2(23) else Size(p) > Pow2(95)
  {
    SizeOrder(p);
  }

  /** Broad is an accepted prefix from 2^16 IPv4 addresses on, also when written mapped, or from 2^81 IPv6 ones. */
  lemma BroadIff(p: Prefix)
    requires Accepted(p)
    ensures Classify(p) == Broad <==> if p.family == IPv4 || Is4In6(p) then Size(p) >= Pow2(16) else Size(p) >= Pow2(81)
  {
    LeastSizes(p);
  }

  lemma LeastSizes(p: Prefix)
    requires Valid(p)
    ensures Size(p) >= Pow2(16) <==> Width(p.family) - p.bits >= 16
    ensures Size(p) >= Pow2(81) <==> Width(p.family) - p.bits >= 81
  {
    Pow2Order(16, Width(p.family) - p.bits);
    Pow2Order(81, Width(p.family) - p.bits);
  }

  // ---- the policy cache ----

  /** A mapped prefix as the IPv4 prefix it stands for. */
  function Unmapped(p: Prefix): (q: Prefix)
    requires Accepted(p)
    ensures Valid(q)
  {
    if Is4In6(p) then Prefix(IPv4, p.addr % Pow2(32), p.bits - 96) else p
  }

  /** buildNetworkPolicyCache, for one stored prefix. */
  function Cached(p: Prefix): Prefix
    requires Accepted(p)
  {
    Masked(Unmapped(p))
  }

  /** The cache looks up the client's own address, which is never a mapped one. */
  ghost predicate Matches(p: Prefix, family: Family, a: nat)
    requires Accepted(p)
  {
    Cached(p).family == family && Valid(Cached(p)) && Covers(Cached(p), a)
  }

  /** Two policies match the same clients exactly when the cache holds one prefix for both. */
  lemma SameClientsIff(p: Prefix, q: Prefix)
    requires Accepted(p) && Accepted(q)
    ensures Cached(p) == Cached(q) <==> forall family, a :: Matches(p, family, a) <==> Matches(q, family, a)
  {
    MaskingKeepsSet(Unmapped(p));
    MaskingKeepsSet(Unmapped(q));
    CoversIsBlock(Unmapped(p), Cached(p).addr);
    if forall family, a :: Matches(p, family, a) <==> Matches(q, family, a) {
      assert Matches(p, Cached(p).family, Cached(p).addr);
      assert forall a :: Covers(Cached(p), a) <==> Matches(p, Cached(p).family, a);
      assert forall a :: Covers(Cached(q), a) <==> Matches(q, Cached(q).family, a);
      NormalFormIsCanonical(Cached(p), Cached(q));
    }
  }

  /** The cached prefix matches a client exactly when the stored one covers the client's mapped address. */
  lemma UnmappingKeepsClients(p: Prefix, c: nat)
    requires Accepted(p) && Is4In6(p) && c < Pow2(32)
    ensures Matches(p, IPv4, c) <==> Covers(p, 0xffff * Pow2(32) + c)
  {
    MatchesByQuotient(p, c);
    StoredByQuotient(p, c);
  }

  /** And a prefix that is not mapped matches exactly the clients of its own family that it covers. */
  lemma UnmappedMatches(p: Prefix, family: Family, c: nat)
    requires Accepted(p) && !Is4In6(p)
    ensures Matches(p, family, c) <==> family == p.family && Covers(p, c)
  {
    MaskingKeepsSet(p);
  }

  lemma StoredByQuotient(p: Prefix, c: nat)
    requires Valid(p) && p.family == IPv6 && p.bits >= 96 && p.addr / Pow2(32) == 0xffff
    ensures Covers(p, 0xffff * Pow2(32) + c) <==> c / Size(p) == p.addr % Pow2(32) / Size(p)
  {
    OpenBitsDivide(p);
    CoversByQuotient(p, Pow2(32), Pow2(p.bits - 96), c);
  }

  lemma CoversByQuotient(p: Prefix, w: nat, t: nat, c: nat)
    requires Valid(p) && w == Size(p) * t && w > 0 && p.addr / w == 0xffff
    ensures Covers(p, 0xffff * w + c) <==> c / Size(p) == p.addr % w / Size(p)
  {
    ShiftedQuotient(w, Size(p), t, 0xffff, p.addr, c);
  }

  lemma OpenBitsDivide(p: Prefix)
    requires Valid(p) && p.family == IPv6 && p.bits >= 96
    ensures Pow2(32) == Size(p) * Pow2(p.bits - 96)
  {
    Pow2Sum(128 - p.bits, p.bits - 96);
  }

  lemma MatchesByQuotient(p: Prefix, c: nat)
    requires Accepted(p) && Is4In6(p)
    ensures Matches(p, IPv4, c) <==> c / Size(p) == p.addr % Pow2(32) / Size(p)
  {
    MaskingKeepsSet(Unmapped(p));
    assert Size(Unmapped(p)) == Size(p);
  }

  lemma ShiftedQuotient(w: nat, s: nat, t: nat, k: nat, addr: nat, c: nat)
    requires s > 0 && w == s * t && w > 0 && addr / w == k
    ensures (k * w + c) / s == addr / s <==> c / s == addr % w / s
  {
    assert addr == k * w + addr % w;
    BlockQuotient(k, t, s, c);
    BlockQuotient(k, t, s, addr % w);
  }

  lemma BlockQuotient(k: nat, t: nat, s: nat, c: nat)
    requires s > 0
    ensures (k * (s * t) + c) / s == t * k + c / s
  {
    MulAssoc(s, t, k);
    Quotient(c, s);
    MulAdd(s, t * k, c / s);
    QuotientInterval(k * (s * t) + c, s, t * k + c / s);
  }

  /** Two mapped prefixes that the cache cannot tell apart cover the same addresses as stored. */
  lemma MappedSameSet(p: Prefix, q: Prefix)
    requires Accepted(p) && Accepted(q) && Is4In6(p) && Is4In6(q) && Cached(p) == Cached(q)
    ensures SameSet(p, q)
  {
    forall a: nat
      ensures Covers(p, a) <==> Covers(q, a)
    {
      MappedCoversAlike(p, q, a);
    }
  }

  lemma MappedCoversAlike(p: Prefix, q: Prefix, a: nat)
    requires Accepted(p) && Accepted(q) && Is4In6(p) && Is4In6(q) && Cached(p) == Cached(q)
    ensures Covers(p, a) <==> Covers(q, a)
  {
    if a / Pow2(32) == 0xffff {
      var c := MappedClient(a);
      UnmappingKeepsClients(p, c);
      UnmappingKeepsClients(q, c);
    } else {
      OnlyMapped(p);
      OnlyMapped(q);
    }
  }

  lemma MappedClient(a: nat) returns (c: nat)
    requires a / Pow2(32) == 0xffff
    ensures c < Pow2(32) && a == 0xffff * Pow2(32) + c
  {
    c := a % Pow2(32);
  }

  /**
   Of two accepted prefixes that match the same clients, the stored forms differ exactly when one is
   written as IPv4 and the other as IPv6.
   */
  lemma StoredApartIff(p: Prefix, q: Prefix)
    requires Accepted(p) && Accepted(q)
    requires forall family, a :: Matches(p, family, a) <==> Matches(q, family, a)
    ensures Normalize(p) == Normalize(q) <==> p.family == q.family
  {
    SameClientsIff(p, q);
    if p.family == q.family {
      if Is4In6(p) {
        MappedSameSet(p, q);
        NormalFormIsCanonical(p, q);
      }
    }
  }

  function Mapped(p: Prefix): Prefix
    requires p.family == IPv4
  {
    Prefix(IPv6, 0xffff * Pow2(32) + p.addr, p.bits + 96)
  }

  lemma MappedIsMapped(p: Prefix)
    requires Valid(p) && p.family == IPv4
    ensures Valid(Mapped(p)) && Is4In6(Mapped(p)) && Mapped(p).addr % Pow2(32) == p.addr
  {
    MappedParts(p);
    SixteenBits(32, 128, p.addr);
  }

  lemma MappedParts(p: Prefix)
    requires Valid(p) && p.family == IPv4
    ensures Is4In6(Mapped(p)) && Mapped(p).addr % Pow2(32) == p.addr
  {
    DivMod(Pow2(32), 0xffff, p.addr);
  }

  /**
   Written mapped, an IPv4 prefix is accepted or refused alike and matches the same clients, but is stored
   in a different normal form: the table's unique CIDR does not see that the two policies are one.
   */
  lemma MappedTwinIsStoredApart(p: Prefix)
    requires Accepted(p) && p.family == IPv4
    ensures var twin := Mapped(p);
            && Accepted(twin) && Classify(twin) == Classify(p) && Cached(twin) == Cached(p)
            && Normalize(twin) != Normalize(p)
            && forall family, a :: Matches(twin, family, a) <==> Matches(p, family, a)
  {
    MappedIsMapped(p);
  }
}
