/** The allocation bitmap (bitmap.c): one bit per unit, packed into bytes. */
module Bitmap {

  /** `1 << k` in a byte. */
  function Mask(k: nat): bv8
    requires k < 8
  {
    if k == 0 then 1 else if k == 1 then 2 else if k == 2 then 4 else if k == 3 then 8
    else if k == 4 then 16 else if k == 5 then 32 else if k == 6 then 64 else 128
  }

  lemma MaskBits(b: bv8, k: nat, j: nat)
    requires k < 8 && j < 8
    ensures (b | Mask(k)) & Mask(j) == if j == k then Mask(j) else b & Mask(j)
    ensures (b & !Mask(k)) & Mask(j) == if j == k then 0 else b & Mask(j)
    ensures Mask(j) != 0 && 0xFF & Mask(j) == Mask(j)
  {
  }

  function ByteCount(bitCount: nat): nat { (bitCount + 8 - 1) / 8 }

  /** Just enough bytes. */
  lemma ByteCountLeast(bitCount: nat)
    ensures bitCount <= 8 * ByteCount(bitCount) < bitCount + 8
  {
  }

  /** Positions `i`, `i+1`, .. `i+len-1` exist and all hold `bit`. */
  ghost predicate RunAt(b: seq<bool>, bit: bool, i: nat, len: nat) {
    i + len <= |b| && forall k :: i <= k < i + len ==> b[k] == bit
  }

  /** How many positions the search of `bitmap_alloc_nbits` really inspects. */
  function Inspected(count: nat): nat { if count <= 2 then 1 else count - 1 }

  /** `b` with `count` bits from `index` set to `bit`, clipped at the end. */
  function WithBits(b: seq<bool>, index: nat, count: nat, bit: bool): (r: seq<bool>)
    ensures |r| == |b|
  {
    seq(|b|, i requires 0 <= i < |b| => if index <= i < index + count then bit else b[i])
  }

  predicate HasBit(b: bv8, k: nat)
    requires k < 8
  {
    b & Mask(k) != 0
  }

  /** Bit `k` of a byte is the one that a shift by `k` brings to the low end. */
  lemma BitIsShifted(b: bv8, k: nat)
    requires k < 8
    ensures HasBit(b, k) <==> (b >> k) & 1 == 1
  {
  }

  predicate BitAt(bytes: seq<bv8>, i: nat)
    requires i / 8 < |bytes|
  {
    HasBit(bytes[i / 8], i % 8)
  }

  /** `b` with bit `k` or-ed in or masked out. */
  function ByteWith(b: bv8, k: nat, bit: bool): bv8
    requires k < 8
  {
    if bit then b | Mask(k) else b & !Mask(k)
  }

  lemma SetOneAt(bytes: seq<bv8>, index: nat, bit: bool, i: nat)
    requires index / 8 < |bytes| && i / 8 < |bytes|
    ensures BitAt(bytes[index / 8 := ByteWith(bytes[index / 8], index % 8, bit)], i)
         == if i == index then bit else BitAt(bytes, i)
  {
    hide HasBit, ByteWith;
    ByteWithBit(bytes[index / 8], index % 8, bit, i % 8);
    SameByte(index, i);
    if i / 8 == index / 8 {
      assert bytes[index / 8 := ByteWith(bytes[index / 8], index % 8, bit)][i / 8]
          == ByteWith(bytes[index / 8], index % 8, bit);
    }
  }

  lemma ByteWithBit(b: bv8, k: nat, bit: bool, j: nat)
    requires k < 8 && j < 8
    ensures HasBit(ByteWith(b, k, bit), j) <==> if j == k then bit else HasBit(b, j)
  {
    hide Mask;
    MaskBits(b, k, j);
  }

  lemma SameByte(a: nat, b: nat)
    ensures a == b <==> a / 8 == b / 8 && a % 8 == b % 8
  {
  }

  ghost function BitsOf(bytes: seq<bv8>, n: nat): (b: seq<bool>)
    requires ByteCount(n) <= |bytes|
    ensures |b| == n
  {
    seq(n, i requires 0 <= i < n => BitAt(bytes, i))
  }

  class BitMap {
    const bitCount: nat
    const bits: array<bv8>

    ghost predicate Valid()
    {
      bits.Length == ByteCount(bitCount)
    }

    /** The bits as the sequence they stand for. */
    ghost function Bits(): (b: seq<bool>)
      requires Valid()
      reads bits
      ensures |b| == bitCount
    {
      BitsOf(bits[..], bitCount)
    }

    constructor (count: nat, initBit: bool)
      ensures Valid() && bitCount == count && fresh(bits)
      ensures Bits() == seq(count, _ => initBit)
    {
      bitCount := count;
      bits := new bv8[ByteCount(count)](_ => if initBit then 0xFF else 0);
      new;
      forall i | 0 <= i < count ensures BitAt(bits[..], i) == initBit { MaskBits(0, 0, i % 8); }
    }

    method GetBit(index: nat) returns (r: bool)
      requires Valid() && index < bitCount
      ensures r == Bits()[index]
    {
      r := bits[index / 8] & Mask(index % 8) != 0;
      assert r == BitAt(bits[..], index);
    }

    method SetOne(index: nat, bit: bool)
      requires Valid() && index < bitCount
      modifies bits
      ensures Bits() == old(Bits())[index := bit]
    {
      hide Mask, BitAt;
      var k := index % 8;
      bits[index / 8] := ByteWith(bits[index / 8], k, bit);
      assert bits[..] == old(bits[..])[index / 8 := ByteWith(old(bits[..])[index / 8], k, bit)];
      forall i | 0 <= i < bitCount ensures Bits()[i] == old(Bits())[index := bit][i] {
        SetOneAt(old(bits[..]), index, bit, i);
      }
    }

    method SetBit(start: nat, count: nat, bit: bool)
      requires Valid()
      modifies bits
      ensures Bits() == WithBits(old(Bits()), start, count, bit)
      ensures forall k :: 0 <= k < bitCount ==> Bits()[k] == if start <= k < start + count then bit else old(Bits())[k]
    {
      var i, index := 0, start;
      while i < count && index < bitCount
        invariant i <= count && index == start + i
        invariant Bits() == WithBits(old(Bits()), start, i, bit)
      {
        SetOne(index, bit);
        i, index := i + 1, index + 1;
      }
    }

    /** `bitmap_alloc_nbits`: the first place where a run of `Inspected(count)` bits
        equal to `bit` starts. The taken bits are always set, whatever `bit` is,
        since the source passes `~bit` as a truth value. */
    method AllocNbits(bit: bool, count: nat) returns (r: int)
      requires Valid()
      modifies bits
      ensures -1 <= r < bitCount
      ensures r == -1 ==> Bits() == old(Bits()) && forall j: nat :: !RunAt(old(Bits()), bit, j, Inspected(count))
      ensures r >= 0 ==>
                && RunAt(old(Bits()), bit, r, Inspected(count))
                && (forall j: nat :: j < r ==> !RunAt(old(Bits()), bit, j, Inspected(count)))
                && Bits() == WithBits(old(Bits()), r, count, true)
    {
      hide BitsOf, WithBits;
      var search, ok := 0, -1;
      ghost var b := Bits();
      ghost var len := Inspected(count);
      while search < bitCount
        invariant 0 <= search <= bitCount && Bits() == b
        invariant forall j: nat :: j < search ==> !RunAt(b, bit, j, len)
      {
        var here := GetBit(search);
        if here != bit {
          search := search + 1;
          continue;
        }
        ok := search;
        var i := 1;
        ghost var first := search;
        while i < count && search < bitCount
          invariant 1 <= i && search == first + i - 1 <= bitCount
          invariant i <= count || i == 1
          invariant ok == first && Bits() == b
          invariant forall k :: first <= k < search ==> b[k] == bit
          decreases bitCount - search
        {
          var next := GetBit(search);
          search := search + 1;
          if next != bit {
            ok := -1;
            assert forall j: nat :: first <= j < search ==> !RunAt(b, bit, j, len);
            break;
          }
          i := i + 1;
        }
        if i >= count {
          assert RunAt(b, bit, first, len);
          SetBit(ok, count, true);
          return ok;
        }
      }
      forall j: nat ensures !RunAt(b, bit, j, len) {}
      return -1;
    }
  }

  /** The run the search stops at: the first one of the bits it inspects. */
  ghost predicate FirstRun(b: seq<bool>, bit: bool, r: nat, count: nat) {
    RunAt(b, bit, r, Inspected(count)) && forall j: nat :: j < r ==> !RunAt(b, bit, j, Inspected(count))
  }

  /** On every map the run handed out was wholly `bit` exactly for counts up to one. */
  lemma AllocSoundIff(bit: bool, count: nat)
    ensures (forall b: seq<bool>, r: nat :: FirstRun(b, bit, r, count) ==> RunAt(b, bit, r, count)) <==> count <= 1
  {
    if count >= 2 {
      var n := Inspected(count);
      var b := seq(n + 1, i => if i < n then bit else !bit);
      assert FirstRun(b, bit, 0, count);
      assert b[n] != bit && n < count;
      assert !RunAt(b, bit, 0, count);
    }
  }

  /** For larger counts it hangs on the last bit, which the search does not look at. */
  lemma AllocLastBit(b: seq<bool>, bit: bool, r: nat, count: nat)
    requires count >= 2 && RunAt(b, bit, r, Inspected(count))
    ensures RunAt(b, bit, r, count) <==> r + count - 1 < |b| && b[r + count - 1] == bit
  {
    if r + count - 1 < |b| && b[r + count - 1] == bit {
      forall k | r <= k < r + count ensures b[k] == bit {}
    }
  }

  /** Two bits are asked for; the second is in use and is handed out all the same. */
  lemma AllocTakesUsedBit()
    ensures var b := [false, true]; RunAt(b, false, 0, Inspected(2)) && !RunAt(b, false, 0, 2)
  {
    var b := [false, true];
    assert b[0] == false && b[1];
  }
}
