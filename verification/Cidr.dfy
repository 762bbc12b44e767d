// Expanding a CIDR block into the IPv4 addresses to scan.
module Cidr {
  import opened Wrappers
  import Bits

  const TWO_32: int := 0x1_0000_0000
  const U32_MAX: int := 0xFFFF_FFFF

  datatype CidrError = BadAddress | BadPrefix(prefix: nat)

  // The number of addresses of a block, one too few for the whole space: it has to fit in 32 bits.
  function BlockTotal(hostBits: nat): (total: nat)
    requires hostBits <= 32
    ensures 1 <= total <= U32_MAX
  {
    PowerBounds(hostBits);
    if hostBits == 32 then U32_MAX else Bits.Pow2(hostBits)
  }

  function Capped(maxHosts: nat, total: nat): nat {
    var wanted := if maxHosts < 1 then 1 else maxHosts;
    if wanted < total then wanted else total
  }

  function NetworkAddress(base: nat, hostBits: nat): nat
    requires hostBits <= 32
  {
    if hostBits == 32 then Bits.And(base, 0) else Bits.And(base, Bits.HighMask(hostBits, 32))
  }

  function WrappingAdd(a: int, b: int): int {
    (a + b) % TWO_32
  }

  lemma NoWrap(a: nat, b: nat)
    requires a + b < TWO_32
    ensures WrappingAdd(a, b) == a + b
  {
  }

  // `base` is None when the network part is no IPv4 address.
  method ExpandCidr(base: Option<nat>, prefix: nat, maxHosts: nat) returns (r: Result<seq<int>, CidrError>)
    requires base.Some? ==> base.value < TWO_32
    ensures prefix > 32 ==> r == Err(BadPrefix(prefix))
    ensures prefix <= 32 && base.None? ==> r == Err(BadAddress)
    ensures prefix <= 32 && base.Some? ==>
      r.Ok? && Hosts(base.value, 32 - prefix, Capped(maxHosts, BlockTotal(32 - prefix)), r.value)
  {
    if prefix > 32 {
      return Err(BadPrefix(prefix));
    }
    if base.None? {
      return Err(BadAddress);
    }
    hide BlockTotal, NetworkAddress, BlockStart, Bits.Pow2, Bits.Shr, Bits.And;
    var hostBits := 32 - prefix;
    var cap := Capped(maxHosts, BlockTotal(hostBits));
    var network := NetworkAddress(base.value, hostBits);
    var addrs: seq<int> := [];
    hide WrappingAdd;
    NetworkIsBlockStart(base.value, hostBits);
    for offset := 0 to cap
      invariant |addrs| == offset
      invariant forall k :: 0 <= k < offset ==> addrs[k] == BlockStart(base.value, hostBits) + k
    {
      OffsetStaysInBlock(base.value, hostBits, offset);
      NoWrap(network, offset);
      addrs := addrs + [WrappingAdd(network, offset)];
    }
    r := Ok(addrs);
  }

  // ---- What the result is ----

  // The first address of the block of 2^hostBits addresses that holds `base`.
  function BlockStart(base: nat, hostBits: nat): nat {
    Bits.Pow2(hostBits) * Bits.Shr(base, hostBits)
  }

  // `count` addresses of the block, in order from its first.
  ghost predicate Hosts(base: nat, hostBits: nat, count: nat, addrs: seq<int>) {
    && |addrs| == count
    && forall k :: 0 <= k < count ==> addrs[k] == BlockStart(base, hostBits) + k
  }

  lemma Power32()
    ensures Bits.Pow2(32) == TWO_32
  {
    assert Bits.Pow2(4) == 16;
    assert Bits.Pow2(8) == 256;
    hide Bits.Pow2;
    Bits.Pow2Adds(8, 8);
    Bits.Pow2Adds(16, 16);
  }

  lemma PowerBounds(k: nat)
    requires k <= 32
    ensures Bits.Pow2(k) <= TWO_32
    ensures k < 32 ==> Bits.Pow2(k) <= U32_MAX
  {
    Power32();
    Bits.Pow2Ascends(k, 32);
    if k < 32 {
      Bits.Pow2Ascends(k, 31);
      assert Bits.Pow2(32) == 2 * Bits.Pow2(31);
    }
  }

  lemma ShrWhole(base: nat)
    requires base < TWO_32
    ensures Bits.Shr(base, 32) == 0
  {
    Power32();
    Bits.ShrDivides(base, 32);
    Bits.QuotientUnique(base, TWO_32, 0, base);
  }

  lemma NetworkIsBlockStart(base: nat, hostBits: nat)
    requires base < TWO_32 && hostBits <= 32
    ensures NetworkAddress(base, hostBits) == BlockStart(base, hostBits)
  {
    Power32();
    hide Bits.Pow2, Bits.Shr;
    if hostBits == 32 {
      assert Bits.And(base, 0) == 0;
      ShrWhole(base);
    } else {
      Bits.AndHigh(base, hostBits, 32);
      Bits.ShrDivides(base, hostBits);
    }
  }

  lemma ShrRemainder(base: nat, k: nat)
    ensures 0 <= base - Bits.Pow2(k) * Bits.Shr(base, k) < Bits.Pow2(k)
  {
    Bits.ShrDivides(base, k);
    assert base == Bits.Pow2(k) * (base / Bits.Pow2(k)) + base % Bits.Pow2(k);
  }

  lemma ShrUnique(a: nat, k: nat, q: nat, r: nat)
    requires a == Bits.Pow2(k) * q + r && r < Bits.Pow2(k)
    ensures Bits.Shr(a, k) == q
  {
    Bits.ShrDivides(a, k);
    Bits.QuotientUnique(a, Bits.Pow2(k), q, r);
  }

  lemma BlockFits(size: nat, top: nat, q: nat, base: nat)
    requires size * q <= base < size * top
    ensures size * q + size <= size * top
  {
    if q >= top {
      Ascending(size, top, q);
    } else {
      Bits.FarApart(size, q, top);
    }
  }

  lemma Ascending(d: nat, x: nat, y: nat)
    requires x <= y
    ensures d * x <= d * y
  {
    if x < y {
      Bits.FarApart(d, x, y);
    }
  }

  // The block ends within 32 bits, so adding an offset never wraps around.
  lemma OffsetStaysInBlock(base: nat, hostBits: nat, offset: nat)
    requires base < TWO_32 && hostBits <= 32 && offset < BlockTotal(hostBits)
    ensures BlockStart(base, hostBits) + offset < TWO_32
  {
    var size, top, q := Bits.Pow2(hostBits), Bits.Pow2(32 - hostBits), Bits.Shr(base, hostBits);
    Power32();
    PowerBounds(hostBits);
    assert BlockStart(base, hostBits) == size * q && offset < size;
    hide *;
    Bits.Pow2Adds(hostBits, 32 - hostBits);
    ShrRemainder(base, hostBits);
    BlockFits(size, top, q, base);
  }

  // The scanned addresses are the first min(max(cap, 1), block size) of the block holding `base`,
  // the whole address space counting one less; all of them share base's prefix.
  lemma HostsSharePrefix(base: nat, hostBits: nat, maxHosts: nat, addrs: seq<int>)
    requires base < TWO_32 && hostBits <= 32
    requires Hosts(base, hostBits, Capped(maxHosts, BlockTotal(hostBits)), addrs)
    ensures forall k :: 0 <= k < |addrs| ==>
      0 <= addrs[k] < TWO_32 && Bits.Shr(addrs[k], hostBits) == Bits.Shr(base, hostBits)
    ensures forall j, k :: 0 <= j < k < |addrs| ==> addrs[j] < addrs[k]
    ensures |addrs| >= 1
  {
    hide Bits.Shr, Bits.Pow2;
    forall k | 0 <= k < |addrs|
      ensures 0 <= addrs[k] < TWO_32 && Bits.Shr(addrs[k], hostBits) == Bits.Shr(base, hostBits)
    {
      OffsetStaysInBlock(base, hostBits, k);
      PowerBounds(hostBits);
      Power32();
      ShrUnique(addrs[k], hostBits, Bits.Shr(base, hostBits), k);
    }
  }

  // With a cap no smaller than the block, every address of the block is scanned, except that of the
  // whole space the very last one is not.
  lemma UncappedCoversBlock(base: nat, hostBits: nat, maxHosts: nat, addrs: seq<int>, a: nat)
    requires base < TWO_32 && hostBits <= 32 && maxHosts >= BlockTotal(hostBits)
    requires Hosts(base, hostBits, Capped(maxHosts, BlockTotal(hostBits)), addrs)
    requires a < TWO_32
    ensures a in addrs <==>
      Bits.Shr(a, hostBits) == Bits.Shr(base, hostBits) && !(hostBits == 32 && a == U32_MAX)
  {
    Power32();
    PowerBounds(hostBits);
    ShrRemainder(a, hostBits);
    ShrWhole(base);
    hide Bits.Shr, Bits.Pow2;
    if a in addrs {
      var k :| 0 <= k < |addrs| && addrs[k] == a;
      ShrUnique(a, hostBits, Bits.Shr(base, hostBits), k);
    }
    if Bits.Shr(a, hostBits) == Bits.Shr(base, hostBits) {
      var k := a - BlockStart(base, hostBits);
      assert 0 <= k < |addrs| ==> addrs[k] == a;
    }
  }
}
