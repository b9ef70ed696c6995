/** Address ranges in policy conditions: mask arithmetic on fixed-width words. */
module Cidr {
  import opened Common

  /** An address is the number its bits spell. */
  datatype IpAddr = V4(bits: nat) | V6(bits: nat)

  predicate Word(width: nat, x: nat) {
    x < Pow2(width)
  }

  predicate ValidAddr(ip: IpAddr) {
    match ip
    case V4(bits) => Word(32, bits)
    case V6(bits) => Word(128, bits)
  }

  // ----- Word operations ------------------------------------------------------------

  function BitAnd(a: nat, b: nat): nat {
    if a == 0 || b == 0 then 0
    else 2 * BitAnd(a / 2, b / 2) + (if a % 2 == 1 && b % 2 == 1 then 1 else 0)
  }

  /** Left shift of a word: the bits pushed out at the top are lost. */
  function ShiftLeft(width: nat, x: nat, k: nat): nat {
    x * Pow2(k) % Pow2(width)
  }

  function Mask(width: nat, prefix: nat): nat
    requires prefix <= width
  {
    if prefix == 0 then 0 else ShiftLeft(width, Pow2(width) - 1, width - prefix)
  }

  predicate InNetwork(width: nat, ip: nat, network: nat, prefix: nat) {
    && prefix <= width
    && BitAnd(ip, Mask(width, prefix)) == BitAnd(network, Mask(width, prefix))
  }

  /** The `network/prefix` case, after the two halves of the text have been parsed. */
  predicate MatchesCidr(ip: IpAddr, network: Option<IpAddr>, prefix: Option<nat>) {
    match (ip, network, prefix)
    case (V4(a), Some(V4(n)), Some(p)) => InNetwork(32, a, n, p)
    case (V6(a), Some(V6(n)), Some(p)) => InNetwork(128, a, n, p)
    case _ => false
  }

  // ----- Masking is division --------------------------------------------------------

  lemma {:induction false} Pow2Add(a: nat, b: nat)
    ensures Pow2(a) * Pow2(b) == Pow2(a + b)
  {
    if b > 0 {
      Pow2Add(a, b - 1);
      Twice(Pow2(a), Pow2(b - 1));
    }
  }

  lemma HalvesOfQuotient(a: nat, m: nat)
    requires m > 0
    ensures a / (2 * m) == a / 2 / m
  {
    var h := a / 2;
    var q, r := h / m, h % m;
    assert h == q * m + r;
    assert a == q * (2 * m) + (2 * r + a % 2);
    DivideUnique(a, 2 * m, q, 2 * r + a % 2);
  }

  /** The shifted all-ones word has ones exactly in its top `prefix` bits. */
  lemma MaskValue(width: nat, prefix: nat)
    requires 0 < prefix <= width
    ensures Pow2(width - prefix) <= Pow2(width)
    ensures Mask(width, prefix) == Pow2(width) - Pow2(width - prefix)
  {
    var k, W := width - prefix, Pow2(width);
    Pow2Monotone(k, width);
    assert (W - 1) * Pow2(k) == (Pow2(k) - 1) * W + (W - Pow2(k));
    DivideUnique((W - 1) * Pow2(k), W, Pow2(k) - 1, W - Pow2(k));
  }

  /** Masking off the low `k` bits keeps the quotient by `2^k`. */
  lemma {:induction false} AndWithMask(a: nat, width: nat, k: nat)
    requires Word(width, a) && k <= width && Pow2(k) <= Pow2(width)
    ensures BitAnd(a, Pow2(width) - Pow2(k)) == a / Pow2(k) * Pow2(k)
  {
    if width == 0 {
    } else if k == 0 {
      AndWithOnes(a, width);
    } else {
      Pow2Monotone(k - 1, width - 1);
      var m := Pow2(k - 1);
      AndWithMask(a / 2, width - 1, k - 1);
      HalvesOfQuotient(a, m);
      var mask := Pow2(width) - Pow2(k);
      assert mask == 2 * (Pow2(width - 1) - m);
      assert mask / 2 == Pow2(width - 1) - m && mask % 2 == 0;
      assert BitAnd(a, mask) == 2 * BitAnd(a / 2, mask / 2) by {
        if a == 0 || mask == 0 { assert BitAnd(a / 2, mask / 2) == 0; }
      }
      Twice(a / 2 / m, m);
    }
  }

  lemma Twice(q: nat, m: nat)
    ensures q * (2 * m) == 2 * (q * m)
  {}

  lemma {:induction false} AndWithOnes(a: nat, width: nat)
    requires Word(width, a)
    ensures BitAnd(a, Pow2(width) - 1) == a
  {
    if width > 0 && a > 0 {
      AndWithOnes(a / 2, width - 1);
      assert (Pow2(width) - 1) / 2 == Pow2(width - 1) - 1;
    }
  }

  /** An address is in the network exactly when both have the same quotient by the block size. */
  lemma NetworkIsQuotient(width: nat, ip: nat, network: nat, prefix: nat)
    requires Word(width, ip) && Word(width, network) && prefix <= width
    ensures InNetwork(width, ip, network, prefix)
       <==> ip / Pow2(width - prefix) == network / Pow2(width - prefix)
  {
    var m := Pow2(width - prefix);
    if prefix == 0 {
      DivideUnique(ip, m, 0, ip);
      DivideUnique(network, m, 0, network);
    } else {
      MaskValue(width, prefix);
      AndWithMask(ip, width, width - prefix);
      AndWithMask(network, width, width - prefix);
      if ip / m * m == network / m * m {
        DivideUnique(ip / m * m, m, ip / m, 0);
        DivideUnique(network / m * m, m, network / m, 0);
      }
    }
  }

  // ----- Blocks ---------------------------------------------------------------------

  /** The largest multiple of `m` that is not above `x`. */
  function RoundDown(x: nat, m: nat): nat
    requires m > 0
  {
    x / m * m
  }

  /** The first address of the block that `network/prefix` names. */
  function BlockStart(width: nat, network: nat, prefix: nat): nat
    requires prefix <= width
  {
    RoundDown(network, Pow2(width - prefix))
  }

  /** The matched addresses are one aligned block of `2^(width-prefix)` consecutive words. */
  lemma NetworkIsBlock(width: nat, ip: nat, network: nat, prefix: nat)
    requires Word(width, ip) && Word(width, network) && prefix <= width
    ensures var start, size := BlockStart(width, network, prefix), Pow2(width - prefix);
            && (InNetwork(width, ip, network, prefix) <==> start <= ip < start + size)
            && start % size == 0 && start + size <= Pow2(width)
  {
    hide InNetwork, Pow2, RoundDown;
    NetworkIsQuotient(width, ip, network, prefix);
    Pow2Add(prefix, width - prefix);
    Block(ip, network, Pow2(width - prefix), Pow2(prefix));
  }

  lemma Block(x: nat, network: nat, m: nat, n: nat)
    requires m > 0 && network < n * m
    ensures var start := RoundDown(network, m);
            && (x / m == network / m <==> start <= x < start + m)
            && start % m == 0 && start + m <= n * m
  {
    var q := network / m;
    Multiples(q, m, x);
    Multiples(q, m, network);
    LastMultiple(q, m, n);
  }

  lemma LastMultiple(q: nat, m: nat, n: nat)
    requires q * m < n * m
    ensures q * m + m <= n * m
  {
    if q >= n {
      MulMonotone(n, q, m);
    } else {
      MulMonotone(q + 1, n, m);
      assert (q + 1) * m == q * m + m;
    }
  }

  lemma MulMonotone(x: nat, y: nat, m: nat)
    requires x <= y
    ensures x * m <= y * m
  {
    assert y * m == x * m + (y - x) * m;
  }

  lemma Multiples(q: nat, m: nat, x: nat)
    requires m > 0
    ensures q * m % m == 0
    ensures x / m == q <==> q * m <= x < q * m + m
    ensures (q + 1) * m == q * m + m
  {
    DivideUnique(q * m, m, q, 0);
    if q * m <= x < q * m + m {
      DivideUnique(x, m, q, x - q * m);
    }
  }

  /** Of two networks the longer prefix lies inside the shorter one or outside it altogether. */
  lemma NestedOrDisjoint(width: nat, wide: nat, p: nat, narrow: nat, q: nat, x: nat, y: nat)
    requires Word(width, wide) && Word(width, narrow) && Word(width, x) && Word(width, y)
    requires p <= q <= width
    requires InNetwork(width, x, narrow, q) && InNetwork(width, y, narrow, q)
    ensures InNetwork(width, x, wide, p) <==> InNetwork(width, y, wide, p)
  {
    NetworkIsQuotient(width, x, narrow, q);
    NetworkIsQuotient(width, y, narrow, q);
    NetworkIsQuotient(width, x, wide, p);
    NetworkIsQuotient(width, y, wide, p);
    QuotientsAgree(x, y, width - q, width - p);
  }

  lemma {:induction false} QuotientsAgree(x: nat, y: nat, j: nat, k: nat)
    requires j <= k && x / Pow2(j) == y / Pow2(j)
    ensures x / Pow2(k) == y / Pow2(k)
  {
    if j < k {
      QuotientsAgree(x, y, j, k - 1);
      QuotientHalves(x, Pow2(k - 1));
      QuotientHalves(y, Pow2(k - 1));
    }
  }

  lemma QuotientHalves(a: nat, m: nat)
    requires m > 0
    ensures a / (2 * m) == a / m / 2
  {
    var h := a / m;
    assert h == h / 2 * 2 + h % 2;
    assert a == h / 2 * (2 * m) + (h % 2 * m + a % m);
    DivideUnique(a, 2 * m, h / 2, h % 2 * m + a % m);
  }

  /** For real addresses: what does not parse matches nothing, the families never mix, prefixes beyond
      the width match nothing, and otherwise the top `prefix` bits decide. */
  lemma CidrMeaning(ip: IpAddr, network: Option<IpAddr>, prefix: Option<nat>)
    requires ValidAddr(ip) && (network.Some? ==> ValidAddr(network.value))
    ensures MatchesCidr(ip, network, prefix) <==>
            && network.Some? && prefix.Some? && ip.V4? == network.value.V4?
            && var width, p := if ip.V4? then 32 else 128, prefix.value;
               p <= width && ip.bits / Pow2(width - p) == network.value.bits / Pow2(width - p)
  {
    var width := if ip.V4? then 32 else 128;
    if network.Some? && prefix.Some? && ip.V4? == network.value.V4? && prefix.value <= width {
      NetworkIsQuotient(width, ip.bits, network.value.bits, prefix.value);
    }
  }
}
