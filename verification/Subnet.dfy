/** Subnet enumeration on u32 addresses: `mask_from_prefix`, `subnet_hosts` and `plan_hosts`. */
module Subnet {
  import opened Bytes
  import Sequences
  import opened Mask
  import Arithmetic

  const WORD := 0x1_0000_0000
  const HOST_CAP := 254

  /** Bitwise and, and or, of the low `k` bits. */
  function AndBits(k: nat, a: nat, b: nat): nat {
    if k == 0 then 0 else 2 * AndBits(k - 1, a / 2, b / 2) + (if a % 2 == 1 && b % 2 == 1 then 1 else 0)
  }

  function OrBits(k: nat, a: nat, b: nat): nat {
    if k == 0 then 0 else 2 * OrBits(k - 1, a / 2, b / 2) + (if a % 2 == 1 || b % 2 == 1 then 1 else 0)
  }

  /** All ones shifted left by `32 - prefix`. */
  function MaskFromPrefix(prefix: nat): (m: nat)
    requires prefix <= 32
    ensures m < WORD
  {
    if prefix == 0 then 0 else ((WORD - 1) * Exp2(32 - prefix)) % WORD
  }

  /** `count` addresses from `first` on. */
  function Hosts(first: nat, count: nat): (r: seq<nat>)
    ensures |r| == count
    decreases count
  {
    if count == 0 then [] else [first % WORD] + Hosts(first + 1, count - 1)
  }

  function SubnetHosts(addr: U32, mask: nat, max: nat): seq<nat>
    requires mask < WORD
  {
    var first := (AndBits(32, addr, mask) + 1) % WORD;
    var last := (OrBits(32, addr, WORD - 1 - mask) + WORD - 1) % WORD;
    if last < first then [] else Hosts(first, if last - first + 1 < max then last - first + 1 else max)
  }

  /** The list without the interface's own address. */
  function Without(s: seq<nat>, x: nat): seq<nat> {
    if s == [] then [] else (if s[0] != x then [s[0]] else []) + Without(s[1..], x)
  }

  function PlanHosts(ip: U32, mask: nat): seq<nat>
    requires mask < WORD
  {
    Without(SubnetHosts(ip, mask, HOST_CAP), ip)
  }

  // ---------- masks as arithmetic ----------

  lemma {:induction false} Exp2Grows(j: nat, k: nat)
    requires j <= k
    ensures 1 <= Exp2(j) <= Exp2(k)
    decreases k
  {
    if j < k { Exp2Grows(j, k - 1); } else if k > 0 { Exp2Grows(k - 1, k - 1); }
  }

  lemma Exp2Word()
    ensures Exp2(32) == WORD
  {
    assert Exp2(4) == 16;
    Squared(4, 16);
    Squared(8, 0x100);
    Squared(16, 0x1_0000);
  }

  lemma Squared(k: nat, n: nat)
    requires Exp2(k) == n
    ensures Exp2(k + k) == n * n
  {
    hide Exp2;
    Exp2Adds(k, k);
  }

  lemma {:induction false} Exp2Adds(a: nat, b: nat)
    ensures Exp2(a + b) == Arithmetic.Mul(Exp2(a), Exp2(b))
  {
    hide Exp2, Arithmetic.Mul;
    Exp2Step(a);
    Exp2Step(a + b);
    if a == 0 {
      Arithmetic.MulEnds(Exp2(b));
    } else {
      Exp2Adds(a - 1, b);
      Arithmetic.MulAdds(Exp2(a - 1), Exp2(a - 1), Exp2(b));
    }
  }

  lemma Exp2Step(k: nat)
    ensures Exp2(k) == if k == 0 then 1 else 2 * Exp2(k - 1)
  {
  }

  /** The low `j + 1` bits are the low bit and the low `j` bits of the half. */
  lemma LowBits(a: nat, h: nat)
    requires h > 0
    ensures a % (2 * h) == 2 * (a / 2 % h) + a % 2
  {
    hide Arithmetic.Mul;
    var half := a / 2;
    var q, r := half / h, half % h;
    Arithmetic.Divided(half, h);
    Doubles(q, h);
    Arithmetic.Quotient(a, 2 * h, q, 2 * r + a % 2);
  }

  lemma Doubles(q: nat, h: nat)
    ensures Arithmetic.Mul(q, 2 * h) == 2 * Arithmetic.Mul(q, h)
  {
  }

  /** The low `j` bits. */
  function Low(a: nat, j: nat): (r: nat)
    ensures r < Exp2(j) && r <= a
  {
    Arithmetic.Divided(a, Exp2(j));
    a % Exp2(j)
  }

  lemma LowStep(a: nat, j: nat)
    ensures Low(a, 0) == 0
    ensures j > 0 ==> Exp2(j) == 2 * Exp2(j - 1) && Low(a, j) == 2 * Low(a / 2, j - 1) + a % 2
  {
    if j > 0 { LowBits(a, Exp2(j - 1)); }
  }

  /** And with a mask of ones above `j` zeros clears the low `j` bits. */
  lemma {:induction false} AndMask(k: nat, j: nat, a: nat)
    requires j <= k && a < Exp2(k)
    ensures Exp2(j) <= Exp2(k) && AndBits(k, a, Exp2(k) - Exp2(j)) == a - Low(a, j)
  {
    hide Exp2, Low, AndBits;
    Exp2Grows(j, k);
    LowStep(a, j);
    LowStep(a, k);
    NoBits(a, Exp2(k) - Exp2(j));
    if j > 0 {
      AndMask(k - 1, j - 1, a / 2);
      AndEven(k, a, Exp2(k - 1) - Exp2(j - 1));
    } else if k > 0 {
      AndMask(k - 1, 0, a / 2);
      LowStep(a / 2, 0);
      AndOnes(k, a, Exp2(k - 1));
    }
  }

  lemma NoBits(a: nat, b: nat)
    ensures AndBits(0, a, b) == 0 == OrBits(0, a, b) && Exp2(0) == 1
  {
  }

  lemma AndOnes(k: nat, a: nat, h: nat)
    requires k > 0 && h > 0
    ensures AndBits(k, a, 2 * h - 1) == 2 * AndBits(k - 1, a / 2, h - 1) + a % 2
  {
    assert (2 * h - 1) / 2 == h - 1 && (2 * h - 1) % 2 == 1;
  }

  lemma AndEven(k: nat, a: nat, h: nat)
    requires k > 0
    ensures AndBits(k, a, 2 * h) == 2 * AndBits(k - 1, a / 2, h)
  {
    assert (2 * h) / 2 == h && (2 * h) % 2 == 0;
  }

  /** Or with `j` ones sets the low `j` bits. */
  lemma {:induction false} OrMask(k: nat, j: nat, a: nat)
    requires j <= k && a < Exp2(k)
    ensures OrBits(k, a, Exp2(j) - 1) == a - Low(a, j) + Exp2(j) - 1
  {
    hide Exp2, Low, OrBits;
    LowStep(a, j);
    LowStep(a, k);
    NoBits(a, Exp2(j) - 1);
    if j > 0 {
      OrMask(k - 1, j - 1, a / 2);
      OrStep(k, a, Exp2(j - 1));
    } else if k > 0 {
      OrMask(k - 1, 0, a / 2);
      LowStep(a / 2, 0);
      OrZero(k, a);
    }
  }

  lemma OrZero(k: nat, a: nat)
    requires k > 0
    ensures OrBits(k, a, 0) == 2 * OrBits(k - 1, a / 2, 0) + a % 2
  {
  }

  lemma OrStep(k: nat, a: nat, h: nat)
    requires k > 0 && h > 0
    ensures OrBits(k, a, 2 * h - 1) == 2 * OrBits(k - 1, a / 2, h - 1) + 1
  {
    assert (2 * h - 1) / 2 == h - 1 && (2 * h - 1) % 2 == 1;
  }

  lemma MaskIs(prefix: nat)
    requires prefix <= 32
    ensures Exp2(32 - prefix) <= WORD && MaskFromPrefix(prefix) == WORD - Exp2(32 - prefix)
  {
    Exp2Word();
    var size := Exp2(32 - prefix);
    Exp2Grows(32 - prefix, 32);
    if prefix > 0 {
      Exp2Grows(0, 32 - prefix);
      assert (WORD - 1) * size == (size - 1) * WORD + (WORD - size);
      Arithmetic.Quotient((WORD - 1) * size, WORD, size - 1, WORD - size);
    }
  }

  // ---------- the hosts of a subnet ----------

  /** The number of addresses of a subnet, and its first. */
  function Size(prefix: nat): nat
    requires prefix <= 32
  {
    Exp2(32 - prefix)
  }

  function Network(addr: U32, prefix: nat): (n: nat)
    requires prefix <= 32
    ensures n <= addr
  {
    addr - Low(addr, 32 - prefix)
  }

  lemma NetworkFits(addr: U32, prefix: nat)
    requires prefix <= 32
    ensures Network(addr, prefix) + Size(prefix) <= WORD
    ensures Network(addr, prefix) <= addr < Network(addr, prefix) + Size(prefix)
  {
    hide Exp2, Arithmetic.Mul;
    Exp2Word();
    Exp2Adds(prefix, 32 - prefix);
    BlockFits(addr, Size(prefix), Exp2(prefix));
  }

  lemma BlockFits(addr: nat, size: nat, p: nat)
    requires size > 0 && addr < Arithmetic.Mul(p, size)
    ensures addr - addr % size + size <= Arithmetic.Mul(p, size)
  {
    hide Arithmetic.Mul;
    var q := addr / size;
    Arithmetic.Divided(addr, size);
    Arithmetic.MulAdds(q, 1, size);
    Arithmetic.MulEnds(size);
    if q + 1 <= p { Arithmetic.MulGrows(q + 1, p, size, size); } else { Arithmetic.MulGrows(p, q, size, size); }
  }

  /** And and or with the mask give the network and the broadcast address. */
  lemma NetworkAndBroadcast(addr: U32, prefix: nat)
    requires prefix <= 32
    ensures AndBits(32, addr, MaskFromPrefix(prefix)) == Network(addr, prefix)
    ensures OrBits(32, addr, WORD - 1 - MaskFromPrefix(prefix)) == Network(addr, prefix) + Size(prefix) - 1
  {
    hide AndBits, OrBits, MaskFromPrefix, Exp2, Low;
    Exp2Word();
    MaskIs(prefix);
    AndMask(32, 32 - prefix, addr);
    OrMask(32, 32 - prefix, addr);
  }

  /** The list ascends by one. */
  lemma {:induction false} HostsAt(first: nat, count: nat, i: nat)
    requires first + count <= WORD && i < count
    ensures Hosts(first, count)[i] == first + i
    decreases count
  {
    if i > 0 { HostsAt(first + 1, count - 1, i - 1); }
  }

  function Least(a: nat, b: nat): nat { if a < b then a else b }

  /** Between a network and a broadcast address that are apart, neither sum wraps. */
  lemma NoWrap(addr: U32, mask: nat, max: nat, net: nat, size: nat)
    requires mask < WORD && size >= 2 && net + size <= WORD
    requires AndBits(32, addr, mask) == net && OrBits(32, addr, WORD - 1 - mask) == net + size - 1
    ensures SubnetHosts(addr, mask, max) == Hosts(net + 1, Least(size - 2, max))
  {
    hide AndBits, OrBits, Hosts;
    Wraps(net + 1);
    Wraps(net + size - 2);
    if size == 2 { NoHosts(net + 1); }
  }

  lemma Wraps(x: nat)
    requires x < WORD
    ensures x % WORD == x == (x + WORD) % WORD
  {
  }

  lemma NoHosts(first: nat)
    ensures Hosts(first, 0) == []
  {
  }

  /** With a prefix of up to 31 the list is the ascending run of the addresses strictly between network and broadcast,
      cut at `max`. */
  lemma HostsOfSubnet(addr: U32, prefix: nat, max: nat)
    requires prefix <= 31
    ensures var net, size := Network(addr, prefix), Size(prefix);
            var hosts := SubnetHosts(addr, MaskFromPrefix(prefix), max);
            && size >= 2 && net + size <= WORD
            && hosts == Hosts(net + 1, Least(size - 2, max)) && |hosts| == Least(size - 2, max)
            && (forall i :: 0 <= i < |hosts| ==> net < hosts[i] == net + 1 + i < net + size - 1)
  {
    hide AndBits, OrBits, MaskFromPrefix, Network, SubnetHosts, Hosts;
    var net, size := Network(addr, prefix), Size(prefix);
    assert size == 2 * Exp2(31 - prefix);
    NetworkAndBroadcast(addr, prefix);
    NetworkFits(addr, prefix);
    var count := Least(size - 2, max);
    NoWrap(addr, MaskFromPrefix(prefix), max, net, size);
    var hosts := Hosts(net + 1, count);
    forall i | 0 <= i < count ensures hosts[i] == net + 1 + i {
      HostsAt(net + 1, count, i);
    }
  }

  /** What the wrapping sums make of an address alone. */
  lemma SingleHosts(addr: U32, mask: nat, max: nat)
    requires mask < WORD && AndBits(32, addr, mask) == addr == OrBits(32, addr, WORD - 1 - mask)
    ensures SubnetHosts(addr, mask, max) ==
            if addr == 0 then Hosts(1, Least(U32_MAX, max))
            else if addr == U32_MAX then Hosts(0, Least(U32_MAX, max))
            else []
  {
    hide AndBits, OrBits, Hosts;
    if addr < U32_MAX { Wraps(addr + 1); }
    if addr > 0 { Wraps(addr - 1); }
  }

  /** With a prefix of 32, the fallback mask, the sums wrap: the list is empty except for the first and the last
      address, which get all the others up to `max`. */
  lemma HostsOfSingle(addr: U32, max: nat)
    ensures SubnetHosts(addr, MaskFromPrefix(32), max) ==
            if addr == 0 then Hosts(1, Least(U32_MAX, max))
            else if addr == U32_MAX then Hosts(0, Least(U32_MAX, max))
            else []
  {
    hide AndBits, OrBits, MaskFromPrefix, SubnetHosts, Hosts;
    NetworkAndBroadcast(addr, 32);
    LowStep(addr, 0);
    NoBits(0, 0);
    SingleHosts(addr, MaskFromPrefix(32), max);
  }

  /** The planned hosts are the first 254 of the subnet, in order, without the interface's own address. */
  lemma PlannedHosts(ip: U32, prefix: nat)
    requires prefix <= 32
    ensures prefix < 32 ==>
              var net, n := Network(ip, prefix), Least(Size(prefix) - 2, 254);
              Size(prefix) >= 2 && net + 1 + n <= WORD &&
              PlanHosts(ip, MaskFromPrefix(prefix)) ==
              if net < ip <= net + n then Hosts(net + 1, ip - net - 1) + Hosts(ip + 1, net + n - ip)
              else Hosts(net + 1, n)
    ensures prefix == 32 ==>
              PlanHosts(ip, MaskFromPrefix(prefix)) ==
              if ip == 0 then Hosts(1, 254) else if ip == U32_MAX then Hosts(0, 254) else []
  {
    hide SubnetHosts, MaskFromPrefix, Network, Exp2, Hosts, Without;
    if prefix < 32 {
      HostsOfSubnet(ip, prefix, HOST_CAP);
      WithoutOne(Network(ip, prefix) + 1, Least(Size(prefix) - 2, HOST_CAP), ip);
    } else {
      HostsOfSingle(ip, HOST_CAP);
      WithoutOne(1, HOST_CAP, ip);
      WithoutOne(0, HOST_CAP, ip);
      NothingWithout(ip);
    }
  }

  lemma NothingWithout(x: nat)
    ensures Without([], x) == []
  {
  }

  lemma {:induction false} WithoutOne(first: nat, count: nat, x: nat)
    requires first + count <= WORD
    ensures Without(Hosts(first, count), x) ==
            if first <= x < first + count then Hosts(first, x - first) + Hosts(x + 1, first + count - x - 1)
            else Hosts(first, count)
    decreases count
  {
    hide Hosts, Without;
    HostsStep(first, count);
    NothingWithout(x);
    if count > 0 {
      var more := Hosts(first + 1, count - 1);
      WithoutOne(first + 1, count - 1, x);
      WithoutStep(first, more, x);
      if first < x < first + count {
        HostsStep(first, x - first);
        Sequences.Assoc([first], Hosts(first + 1, x - first - 1), Hosts(x + 1, first + count - x - 1));
      } else if x == first {
        HostsStep(first, 0);
        Sequences.Empty(more);
      }
    }
  }

  lemma WithoutStep(first: nat, rest: seq<nat>, x: nat)
    ensures Without([first] + rest, x) == (if first != x then [first] else []) + Without(rest, x)
  {
    Sequences.Cons(first, rest);
  }

  lemma HostsStep(first: nat, count: nat)
    requires first + count <= WORD
    ensures count == 0 ==> Hosts(first, count) == []
    ensures count > 0 ==> Hosts(first, count) == [first] + Hosts(first + 1, count - 1)
  {
    if count > 0 { Wraps(first); }
  }
}
