/** IPv4 scope checks (aifw-api/src/backup.rs:1067-1121, 1258-1274). */
module Subnet {
  import opened Basics
  import Decimal

  const TWO32: nat := 0x1_0000_0000

  type Address = a: nat | a < TWO32

  function Pow2(n: nat): (p: nat)
    ensures p > 0
  {
    if n == 0 then 1 else 2 * Pow2(n - 1)
  }

  /** Bitwise and. */
  function And(a: nat, b: nat): nat {
    if a == 0 || b == 0 then 0 else 2 * And(a / 2, b / 2) + (a % 2) * (b % 2)
  }

  /** `u32::MAX.checked_shl(n).unwrap_or(0)`: bits shifted out of the word are lost. */
  function ShiftedOnes(n: nat): nat {
    if n >= 32 then 0 else (TWO32 - 1) * Pow2(n) % TWO32
  }

  /** `ipv4_in_subnet`. */
  predicate InSubnet(ip: Address, net: Address, prefix: nat)
    requires prefix <= 32
  {
    prefix == 0 || And(ip, ShiftedOnes(32 - prefix)) == And(net, ShiftedOnes(32 - prefix))
  }

  /** The CIDR block of section 3.1 of RFC 4632: the addresses with the same leading bits, that is the same
    * quotient by the block size.
    */
  predicate InBlock(ip: Address, net: Address, prefix: nat)
    requires prefix <= 32
  {
    ip / Pow2(32 - prefix) == net / Pow2(32 - prefix)
  }

  // ---------------------------------------------------------------- the mask test

  lemma {:induction false} AndOnes(a: nat, n: nat)
    requires a < Pow2(n)
    ensures And(a, Pow2(n) - 1) == a
  {
    if a != 0 {
      AndOnes(a / 2, n - 1);
      assert (Pow2(n) - 1) / 2 == Pow2(n - 1) - 1 && (Pow2(n) - 1) % 2 == 1;
    }
  }

  lemma {:induction false} PowMonotone(k: nat, n: nat)
    requires k <= n
    ensures Pow2(k) <= Pow2(n)
  {
    if k < n {
      PowMonotone(k, n - 1);
    }
  }

  lemma HalveMod(a: nat, d: nat)
    requires d > 0
    ensures a % (2 * d) == 2 * ((a / 2) % d) + a % 2
  {
    var q, r := (a / 2) / d, (a / 2) % d;
    assert a / 2 == q * d + r;
    assert a == q * (2 * d) + (2 * r + a % 2);
    ModIs(a, 2 * d, q, 2 * r + a % 2);
  }

  lemma {:induction false} MulStep(p: nat, q: nat, d: nat)
    requires p < q
    ensures p * d + d <= q * d
  {
    if p + 1 < q {
      MulStep(p, q - 1, d);
      assert q * d == (q - 1) * d + d;
    } else {
      assert q * d == p * d + d;
    }
  }

  lemma QuotientUnique(d: nat, q: nat, r: nat, q': nat, r': nat)
    requires r < d && r' < d && q * d + r == q' * d + r'
    ensures q == q' && r == r'
  {
    if q < q' {
      MulStep(q, q', d);
    } else if q' < q {
      MulStep(q', q, d);
    }
  }

  lemma ModIs(a: nat, d: nat, q: nat, r: nat)
    requires d > 0 && a == q * d + r && r < d
    ensures a % d == r && a / d == q
  {
    QuotientUnique(d, a / d, a % d, q, r);
  }

  /** Masking off the `k` low bits subtracts the remainder. */
  lemma {:induction false} AndMask(a: nat, n: nat, k: nat)
    requires k <= n && a < Pow2(n)
    ensures Pow2(k) <= Pow2(n) && And(a, Pow2(n) - Pow2(k)) == a - a % Pow2(k)
  {
    hide And;
    PowMonotone(k, n);
    if k == 0 {
      AndOnes(a, n);
    } else {
      AndMask(a / 2, n - 1, k - 1);
      MaskStep(a, Pow2(n - 1) - Pow2(k - 1), Pow2(k - 1));
    }
  }

  lemma MaskStep(a: nat, mask: nat, d: nat)
    requires d > 0 && And(a / 2, mask) == a / 2 - (a / 2) % d
    ensures And(a, 2 * mask) == a - a % (2 * d)
  {
    hide And;
    HalveMod(a, d);
    AndHalves(a, 2 * mask);
    assert (2 * mask) / 2 == mask && (2 * mask) % 2 == 0;
  }

  lemma AndHalves(a: nat, b: nat)
    ensures And(a, b) == 2 * And(a / 2, b / 2) + (a % 2) * (b % 2)
  {}

  lemma Pow32()
    ensures Pow2(32) == TWO32
  {
    assert Pow2(8) == 256;
    assert Pow2(16) == 65536;
    assert Pow2(24) == 16777216;
  }

  lemma MaskIs(k: nat)
    requires k < 32
    ensures Pow2(k) <= TWO32 && ShiftedOnes(k) == TWO32 - Pow2(k)
  {
    Pow32();
    PowMonotone(k, 32);
    var p := Pow2(k);
    assert (TWO32 - 1) * p == (p - 1) * TWO32 + (TWO32 - p);
    ModIs((TWO32 - 1) * p, TWO32, p - 1, TWO32 - p);
  }

  /** The mask test agrees with division by the block size, for every prefix from 0 to 32. */
  lemma MaskTestIsDivision(ip: Address, net: Address, prefix: nat)
    requires prefix <= 32
    ensures InSubnet(ip, net, prefix) <==> InBlock(ip, net, prefix)
  {
    Pow32();
    if prefix == 0 {
      ModIs(ip, TWO32, 0, ip);
      ModIs(net, TWO32, 0, net);
    } else {
      var k := 32 - prefix;
      MaskIs(k);
      AndMask(ip, 32, k);
      AndMask(net, 32, k);
      SameBase(ip, net, Pow2(k));
    }
  }

  lemma SameBase(a: nat, b: nat, d: nat)
    requires d > 0
    ensures a - a % d == b - b % d <==> a / d == b / d
  {
    assert a == a / d * d + a % d && b == b / d * d + b % d;
    if a - a % d == b - b % d {
      assert a / d * d == b / d * d;
      ModIs(a / d * d, d, a / d, 0);
      ModIs(b / d * d, d, b / d, 0);
    }
  }

  lemma DivMonotone(a: nat, b: nat, d: nat)
    requires d > 0 && a <= b
    ensures a / d <= b / d
  {
    var p, q := a / d, b / d;
    assert p * d <= a && b < q * d + d;
    if q < p {
      MulStep(q, p, d);
    }
  }

  // ---------------------------------------------------------------- the pool checks

  /** `parse_v4_cidr`, with the library's address parser. */
  function ParseCidr(ipv4: string -> Option<Address>, cidr: string): (r: Option<(Address, nat)>)
    ensures r.Some? ==> r.value.1 <= 32
  {
    var e := LineEnd(cidr, '/');
    if e == |cidr| then None
    else
      match (ipv4(cidr[..e]), Decimal.Parse(cidr[e + 1..], 0xFF))
      case (Some(ip), Some(prefix)) => if prefix > 32 then None else Some((ip, prefix))
      case _ => None
  }

  datatype Scope = Scope(enabled: bool, network: string, prefixDelegation: bool, poolStart: string, poolEnd: string)

  datatype PoolError = StartAfterEnd | StartOutside | EndOutside | InvalidRange

  /** The pool part of `validate_dhcp` for one scope. */
  method CheckPool(ipv4: string -> Option<Address>, s: Scope) returns (errors: seq<PoolError>)
    ensures !Checked(ipv4, s) ==> errors == []
    ensures Checked(ipv4, s) ==> (errors == [] <==> PoolInBlock(ipv4, s))
    ensures Checked(ipv4, s) ==> (InvalidRange in errors <==> ipv4(s.poolStart).None? || ipv4(s.poolEnd).None?)
    ensures Checked(ipv4, s) && ipv4(s.poolStart).Some? && ipv4(s.poolEnd).Some? ==>
      var (net, prefix) := ParseCidr(ipv4, s.network).value;
      && (StartAfterEnd in errors <==> ipv4(s.poolStart).value > ipv4(s.poolEnd).value)
      && (StartOutside in errors <==> ipv4(s.poolStart).value / Pow2(32 - prefix) != net / Pow2(32 - prefix))
      && (EndOutside in errors <==> ipv4(s.poolEnd).value / Pow2(32 - prefix) != net / Pow2(32 - prefix))
  {
    errors := [];
    if !s.enabled {
      return;
    }
    var cidr := ParseCidr(ipv4, s.network);
    if cidr.None? || s.prefixDelegation {
      return;
    }
    var (net, prefix) := cidr.value;
    var start, end := ipv4(s.poolStart), ipv4(s.poolEnd);
    if start.Some? && end.Some? {
      if start.value > end.value {
        errors := errors + [StartAfterEnd];
      }
      if !InSubnet(start.value, net, prefix) {
        errors := errors + [StartOutside];
      }
      if !InSubnet(end.value, net, prefix) {
        errors := errors + [EndOutside];
      }
      MaskTestIsDivision(start.value, net, prefix);
      MaskTestIsDivision(end.value, net, prefix);
      EndpointsSuffice(start.value, end.value, net, prefix);
    } else {
      errors := errors + [InvalidRange];
    }
  }

  /** The scopes that are checked: enabled, with a well-formed IPv4 CIDR, and not a delegated prefix. */
  predicate Checked(ipv4: string -> Option<Address>, s: Scope) {
    s.enabled && ParseCidr(ipv4, s.network).Some? && !s.prefixDelegation
  }

  /** The pool is a well-formed range, and each of its addresses is in the block. */
  ghost predicate PoolInBlock(ipv4: string -> Option<Address>, s: Scope)
    requires Checked(ipv4, s)
  {
    var start, end := ipv4(s.poolStart), ipv4(s.poolEnd);
    var (net, prefix) := ParseCidr(ipv4, s.network).value;
    start.Some? && end.Some? && start.value <= end.value && RangeInBlock(start.value, end.value, net, prefix)
  }

  ghost predicate RangeInBlock(start: Address, end: Address, net: Address, prefix: nat)
    requires prefix <= 32
  {
    forall a: Address :: start <= a <= end ==> InBlock(a, net, prefix)
  }

  /** Both endpoints pass the mask test exactly when every address between them is in the block. */
  lemma EndpointsSuffice(start: Address, end: Address, net: Address, prefix: nat)
    requires prefix <= 32
    ensures start <= end ==>
      (InSubnet(start, net, prefix) && InSubnet(end, net, prefix) <==> RangeInBlock(start, end, net, prefix))
  {
    MaskTestIsDivision(start, net, prefix);
    MaskTestIsDivision(end, net, prefix);
    var d := Pow2(32 - prefix);
    forall a: Address | start <= a <= end ensures start / d <= a / d <= end / d {
      DivMonotone(start, a, d);
      DivMonotone(a, end, d);
    }
  }

  /** A CIDR is read back from an address text and a printed prefix length. */
  lemma CidrReadsBack(ipv4: string -> Option<Address>, ip: string, prefix: nat)
    requires '/' !in ip && ipv4(ip).Some?
    ensures ParseCidr(ipv4, ip + "/" + Decimal.Print(prefix)) ==
      if prefix <= 32 then Some((ipv4(ip).value, prefix)) else None
  {
    var cidr := ip + "/" + Decimal.Print(prefix);
    LineEndAt(ip, Decimal.Print(prefix), '/');
    assert cidr[..|ip|] == ip && cidr[|ip| + 1..] == Decimal.Print(prefix);
    Decimal.ParseOfPrint(prefix, 0xFF);
  }
}
