/** Numbers as rows of bits: the operators Python and C++ apply to them. */
module Bits {
  function And(a: nat, b: nat): nat {
    if a == 0 || b == 0 then 0 else 2 * And(a / 2, b / 2) + (if a % 2 == 1 && b % 2 == 1 then 1 else 0)
  }

  function Or(a: nat, b: nat): nat {
    if a == 0 then b else if b == 0 then a
    else 2 * Or(a / 2, b / 2) + (if a % 2 == 1 || b % 2 == 1 then 1 else 0)
  }

  predicate Bit(a: nat, i: nat) {
    if i == 0 then a % 2 == 1 else Bit(a / 2, i - 1)
  }

  lemma {:induction false} BitsOfZero(i: nat)
    ensures !Bit(0, i)
  {
    if i > 0 {
      BitsOfZero(i - 1);
    }
  }

  /** The operators work bit by bit. */
  lemma {:induction false} AndOrBits(a: nat, b: nat, i: nat)
    ensures Bit(And(a, b), i) <==> Bit(a, i) && Bit(b, i)
    ensures Bit(Or(a, b), i) <==> Bit(a, i) || Bit(b, i)
  {
    BitsOfZero(i);
    if i > 0 && a != 0 && b != 0 {
      AndOrBits(a / 2, b / 2, i - 1);
    }
  }

  function Pow2(n: nat): (p: nat)
    ensures p > 0
  {
    if n == 0 then 1 else 2 * Pow2(n - 1)
  }

  lemma {:induction false} Pow2Monotone(m: nat, n: nat)
    requires m <= n
    ensures Pow2(m) <= Pow2(n)
    decreases n
  {
    if m < n {
      Pow2Monotone(m, n - 1);
    }
  }

  /** The number whose bits from `low` up to `high` are set. */
  function Ones(high: nat, low: nat): (m: nat)
    requires low <= high
  {
    Pow2Monotone(low, high);
    Pow2(high) - Pow2(low)
  }

  /** One more bit below a row of ones. */
  lemma {:induction false} OrNextBit(high: nat, low: nat)
    requires 0 < low <= high
    ensures Or(Ones(high, low), Pow2(low - 1)) == Ones(high, low - 1)
    decreases low
  {
    if low == high {
      assert Ones(high, low) == 0;
    } else if low == 1 {
      OddPlusEven(Ones(high, 1), high);
    } else {
      Halves(high, low);
      OrNextBit(high - 1, low - 1);
      Pow2Monotone(low + 1, high);
      assert Pow2(low - 1) / 2 == Pow2(low - 2) && Pow2(low - 1) % 2 == 0;
    }
  }

  lemma Halves(high: nat, low: nat)
    requires 0 < low <= high
    ensures Ones(high, low) == 2 * Ones(high - 1, low - 1)
    ensures Ones(high, low) / 2 == Ones(high - 1, low - 1) && Ones(high, low) % 2 == 0
  {
  }

  lemma OddPlusEven(m: nat, high: nat)
    requires high > 1 && m == Ones(high, 1)
    ensures Or(m, 1) == Ones(high, 0)
  {
  }

  /** A row of ones from `low` up keeps all of a number below it but the part below bit `low`. */
  lemma {:induction false} AndOnes(a: nat, high: nat, low: nat)
    requires low <= high && a < Pow2(high)
    ensures And(a, Ones(high, low)) == a - a % Pow2(low)
    decreases high
  {
    if low == 0 {
      AndAll(a, high);
    } else {
      Halves(high, low);
      AndOnes(a / 2, high - 1, low - 1);
      HalfOfRest(a, low);
      if a != 0 && Ones(high, low) != 0 {
        assert And(a, Ones(high, low)) == 2 * And(a / 2, Ones(high - 1, low - 1));
      } else if a != 0 {
        assert high == low by {
          if low < high {
            Pow2Monotone(low + 1, high);
          }
        }
      }
    }
  }

  lemma HalfOfRest(a: nat, low: nat)
    requires low > 0
    ensures 2 * (a / 2 - a / 2 % Pow2(low - 1)) == a - a % Pow2(low)
  {
    var p := Pow2(low - 1);
    var q, r := a / 2 / p, a / 2 % p;
    assert a / 2 == q * p + r;
    assert a == (2 * p) * q + (2 * r + a % 2);
    assert 2 * r + a % 2 < 2 * p;
    DivModUnique(a, 2 * p, q, 2 * r + a % 2);
  }

  lemma DivModUnique(a: nat, d: nat, q: nat, r: nat)
    requires d > 0 && a == d * q + r && r < d
    ensures a % d == r
  {
    var k := a / d - q;
    assert a == d * (a / d) + a % d;
    assert d * k == r - a % d;
    assert k >= 1 ==> d * k >= d;
    assert k <= -1 ==> d * k + d <= 0;
  }

  lemma {:induction false} AndAll(a: nat, high: nat)
    requires a < Pow2(high)
    ensures And(a, Ones(high, 0)) == a
    decreases high
  {
    if a != 0 {
      Pow2Monotone(1, high);
      var m := Ones(high, 0);
      assert m / 2 == Ones(high - 1, 0) && m % 2 == 1;
      AndAll(a / 2, high - 1);
    }
  }
}

/** Address blocks and the endpoints they rule out. */
module Network {
  import opened Bits
  import opened Sequences

  type Address = x: int | 0 <= x < 0x1_0000_0000

  datatype Endpoint = V4(address: Address, port: nat) | V6(text: string, port: nat)

  type PrefixLength = n: nat | n <= 32

  /** A block written `address/length`. */
  datatype Block = Block(address: Address, length: PrefixLength)

  /** How many addresses a block has. */
  function Size(length: PrefixLength): nat {
    Pow2(32 - length)
  }

  /** The addresses of a block are those from its base on, for the size of the block. */
  predicate Covers(block: Block, address: Address)
  {
    var size := Size(block.length);
    var base := block.address - block.address % size;
    base <= address < base + size
  }

  predicate Blocked(blocks: seq<Block>, address: Address)
  {
    exists i :: 0 <= i < |blocks| && Covers(blocks[i], address)
  }

  function Netmask(length: PrefixLength): nat
  {
    Ones(32, 32 - length)
  }

  lemma Sizes()
    ensures Size(32) == 1 && Size(24) == 0x100 && Size(16) == 0x1_0000 && Size(8) == 0x100_0000
    ensures Size(0) == Pow2(32) == 0x1_0000_0000
  {
    assert Pow2(4) == 0x10;
    assert Pow2(8) == 0x100;
    assert Pow2(12) == 0x1000;
    assert Pow2(16) == 0x1_0000;
    assert Pow2(20) == 0x10_0000;
    assert Pow2(24) == 0x100_0000;
    assert Pow2(28) == 0x1000_0000;
  }

  lemma Pow32()
    ensures Pow2(32) == 0x1_0000_0000
  {
    Sizes();
  }

  /** Cut down to multiples of a size, two numbers are the same when one lies in the other's block. */
  lemma SameMultiple(a: nat, b: nat, size: nat)
    requires size > 0
    ensures a - a % size == b - b % size <==> b - b % size <= a < b - b % size + size
  {
    var base := b - b % size;
    assert base == size * (b / size);
    if base <= a < base + size {
      DivModUnique(a, size, b / size, a - base);
    }
  }

  /** An address is covered if it is in the same multiple of the block's size. */
  lemma CoversMultiple(block: Block, address: Address, q: nat, p: nat)
    requires var size := Size(block.length);
             0 <= block.address - size * q < size && 0 <= address - size * p < size
    ensures Covers(block, address) <==> q == p
  {
    var size := Size(block.length);
    hide Size;
    DivModUnique(block.address, size, q, block.address - size * q);
    SameMultipleExactly(size, q, p, address - size * p);
  }

  lemma SameMultipleExactly(size: nat, q: nat, p: nat, rest: nat)
    requires rest < size
    ensures size * q <= size * p + rest < size * q + size <==> q == p
  {
    var k := p - q;
    assert size * p - size * q == size * k;
    assert k >= 1 ==> size * k >= size;
    assert k <= -1 ==> size * k + size <= 0;
  }

  /** Masked alike, two addresses lie in the same block of the mask's size. */
  lemma SameMasked(a: Address, b: Address, length: PrefixLength)
    ensures And(a, Netmask(length)) == And(b, Netmask(length)) <==> Covers(Block(b, length), a)
  {
    Pow32();
    AndOnes(a, 32, 32 - length);
    AndOnes(b, 32, 32 - length);
    SameMultiple(a, b, Pow2(32 - length));
  }

  /** The mask of one bit more. */
  lemma NextMask(bits: nat)
    requires bits < 32
    ensures Or(Netmask(bits), Pow2(31 - bits)) == Netmask(bits + 1)
    ensures bits < 31 ==> Pow2(31 - bits) / 2 == Pow2(30 - bits)
  {
    OrNextBit(32, 32 - bits);
  }

  lemma MaskEnds(length: PrefixLength)
    ensures Pow2(31) == 0x8000_0000 && Netmask(0) == 0 && Netmask(length) == 0x1_0000_0000 - Pow2(32 - length)
  {
    Pow32();
  }

  /** Python: a block's base and mask, the mask built from the highest bit down. */
  method ParseSubnet(block: Block) returns (base: nat, mask: nat)
    ensures mask == Netmask(block.length) == 0x1_0000_0000 - Pow2(32 - block.length)
    ensures (base, mask) == Parsed(block)
  {
    hide Netmask, Pow2, Or, And;
    var length, cursor := block.length, 0x8000_0000;
    mask := 0;
    MaskEnds(block.length);
    while length != 0
      invariant 0 <= length <= block.length
      invariant mask == Netmask(block.length - length)
      invariant length > 0 ==> cursor == Pow2(31 - (block.length - length))
      decreases length
    {
      NextMask(block.length - length);
      mask := Or(mask, cursor);
      length := length - 1;
      cursor := cursor / 2;
    }
    base := And(block.address, mask);
  }

  /** The parsed blocks, base and mask each. */
  function Parsed(block: Block): (nat, nat) {
    (And(block.address, Netmask(block.length)), Netmask(block.length))
  }

  /** Python: whether an address is in one of the parsed blocks. */
  method IsAddressInBlacklist(parsed: seq<(nat, nat)>, address: Address, ghost blocks: seq<Block>)
    returns (found: bool)
    requires |parsed| == |blocks| && forall i :: 0 <= i < |blocks| ==> parsed[i] == Parsed(blocks[i])
    ensures found == Blocked(blocks, address)
  {
    for i := 0 to |parsed|
      invariant forall k :: 0 <= k < i ==> !Covers(blocks[k], address)
    {
      SameMasked(address, blocks[i].address, blocks[i].length);
      if parsed[i].0 == And(address, parsed[i].1) {
        return true;
      }
    }
    return false;
  }

  /** C++: the netmask is all ones shifted left in 32 bits. */
  function ShiftedMask(length: PrefixLength): nat
  {
    0xFFFF_FFFF * Pow2(32 - length) % 0x1_0000_0000
  }

  /** The mask Python builds bit by bit is the one C++ gets by shifting. */
  lemma MasksAgree(length: PrefixLength)
    ensures ShiftedMask(length) == Netmask(length)
  {
    Pow32();
    var p := Pow2(32 - length);
    Pow2Monotone(32 - length, 32);
    assert 0xFFFF_FFFF * p == 0x1_0000_0000 * (p - 1) + (0x1_0000_0000 - p);
    DivModUnique(0xFFFF_FFFF * p, 0x1_0000_0000, p - 1, 0x1_0000_0000 - p);
  }

  /** C++: whether the network, made canonical, is the masked address. */
  predicate IsAddressInNetwork(network: Block, address: Address)
  {
    And(network.address, ShiftedMask(network.length)) == And(address, ShiftedMask(network.length))
  }

  lemma InNetworkExactly(network: Block, address: Address)
    ensures IsAddressInNetwork(network, address) <==> Covers(network, address)
  {
    MasksAgree(network.length);
    SameMasked(address, network.address, network.length);
  }

  method IsBlockedAddress(blocks: seq<Block>, address: Address) returns (blocked: bool)
    ensures blocked == Blocked(blocks, address)
  {
    for i := 0 to |blocks|
      invariant forall k :: 0 <= k < i ==> !Covers(blocks[k], address)
    {
      InNetworkExactly(blocks[i], address);
      if IsAddressInNetwork(blocks[i], address) {
        return true;
      }
    }
    return false;
  }

  /** The endpoints that may be used. */
  predicate Acceptable(blocks: seq<Block>, endpoint: Endpoint)
  {
    endpoint.V4? && !Blocked(blocks, endpoint.address)
  }

  function Kept(blocks: seq<Block>, endpoints: seq<Endpoint>): (kept: seq<Endpoint>)
    ensures |kept| <= |endpoints|
    ensures forall e :: e in kept <==> e in endpoints && Acceptable(blocks, e)
    ensures kept == [] <==> forall e :: e in endpoints ==> !Acceptable(blocks, e)
  {
    if endpoints == [] then []
    else
      var last := endpoints[|endpoints| - 1];
      Kept(blocks, endpoints[..|endpoints| - 1]) + if Acceptable(blocks, last) then [last] else []
  }

  lemma KeptNone(blocks: seq<Block>)
    ensures Kept(blocks, []) == []
  {
  }

  lemma KeptStep(blocks: seq<Block>, endpoints: seq<Endpoint>, i: nat)
    requires i < |endpoints|
    ensures Kept(blocks, endpoints[..i + 1])
         == Kept(blocks, endpoints[..i]) + if Acceptable(blocks, endpoints[i]) then [endpoints[i]] else []
  {
    assert endpoints[..i + 1][..i] == endpoints[..i];
  }

  /** Just the endpoints of version 4 that are in no block are kept, in order. */
  lemma {:induction false} KeptExactly(blocks: seq<Block>, endpoints: seq<Endpoint>, keep: Endpoint -> bool)
    requires forall e :: keep(e) <==> e.V4? && forall i :: 0 <= i < |blocks| ==> !Covers(blocks[i], e.address)
    ensures Keeps(endpoints, keep, Kept(blocks, endpoints))
  {
    hide Keeps, Kept, Covers;
    if endpoints == [] {
      KeptNone(blocks);
      KeepsNone(keep);
    } else {
      var n := |endpoints| - 1;
      var front, last := endpoints[..n], endpoints[n];
      KeptExactly(blocks, front, keep);
      assert keep(last) <==> Acceptable(blocks, last);
      KeepsNext(keep, front, Kept(blocks, front), last);
      KeptStep(blocks, endpoints, n);
      assert endpoints == front + [last] && endpoints[..n + 1] == endpoints;
      assert Kept(blocks, front) + [] == Kept(blocks, front);
    }
  }

  /** `remove_if` on the endpoints themselves: the ones to keep move to the front, in order. */
  method RemoveV6AndBlockedEndpoints(blocks: seq<Block>, endpoints: array<Endpoint>) returns (size: nat)
    modifies endpoints
    ensures size <= endpoints.Length
    ensures endpoints[..size] == Kept(blocks, old(endpoints[..]))
  {
    hide Kept, Blocked;
    ghost var all := endpoints[..];
    KeptNone(blocks);
    size := 0;
    for i := 0 to endpoints.Length
      invariant 0 <= size <= i
      invariant endpoints[..size] == Kept(blocks, all[..i])
      invariant forall k :: i <= k < endpoints.Length ==> endpoints[k] == all[k]
    {
      KeptStep(blocks, all, i);
      var remove := true;
      if endpoints[i].V4? {
        remove := IsBlockedAddress(blocks, endpoints[i].address);
      }
      if !remove {
        ghost var kept := endpoints[..size];
        endpoints[size] := endpoints[i];
        assert endpoints[..size + 1] == kept + [all[i]];
        size := size + 1;
      }
    }
    assert all[..|all|] == all;
  }
}
