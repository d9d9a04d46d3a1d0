/** `ToPrefixLength`: the number of leading one bits of a netmask, if no one bit follows a zero bit. */
module PrefixLength {
  import opened Common

  // ----- one byte

  /** The value of bit `k` of a byte, bit 0 being the most significant. */
  function Weight(k: nat): (w: nat)
    requires k < 8
    ensures w >= 1
  {
    if k == 0 then 128 else if k == 1 then 64 else if k == 2 then 32 else if k == 3 then 16
    else if k == 4 then 8 else if k == 5 then 4 else if k == 6 then 2 else 1
  }

  predicate ByteBit(b: uint8, k: nat)
    requires k < 8
  {
    b / Weight(k) % 2 == 1
  }

  /** The byte with `j` leading ones. */
  function Leading(j: nat): (b: uint8)
    requires j <= 8
  {
    if j == 0 then 0 else if j == 1 then 128 else if j == 2 then 192 else if j == 3 then 224
    else if j == 4 then 240 else if j == 5 then 248 else if j == 6 then 252 else if j == 7 then 254 else 255
  }

  ghost predicate HasLeading(b: uint8, j: nat) {
    forall k :: 0 <= k < 8 ==> (ByteBit(b, k) <==> k < j)
  }

  lemma Halve1(b: uint8)
    ensures b / 1 == 2 * (b / 2) + b / 1 % 2
  {
  }

  lemma Halve2(b: uint8)
    ensures b / 2 == 2 * (b / 4) + b / 2 % 2
  {
  }

  lemma Halve4(b: uint8)
    ensures b / 4 == 2 * (b / 8) + b / 4 % 2
  {
  }

  lemma Halve8(b: uint8)
    ensures b / 8 == 2 * (b / 16) + b / 8 % 2
  {
  }

  lemma Halve16(b: uint8)
    ensures b / 16 == 2 * (b / 32) + b / 16 % 2
  {
  }

  lemma Halve32(b: uint8)
    ensures b / 32 == 2 * (b / 64) + b / 32 % 2
  {
  }

  lemma Halve64(b: uint8)
    ensures b / 64 == 2 * (b / 128) + b / 64 % 2
  {
  }

  /** The bits up to bit `k`, read as a number, are those up to bit `k - 1` followed by one more. */
  lemma NextBit(b: uint8, k: nat)
    requires 1 <= k < 8
    ensures b / Weight(k) == 2 * (b / Weight(k - 1)) + if ByteBit(b, k) then 1 else 0
  {
    if k == 1 {
      Halve64(b);
    } else if k == 2 {
      Halve32(b);
    } else if k == 3 {
      Halve16(b);
    } else if k == 4 {
      Halve8(b);
    } else if k == 5 {
      Halve4(b);
    } else if k == 6 {
      Halve2(b);
    } else {
      Halve1(b);
    }
  }

  /** The first `k + 1` bits of a byte with `j` leading ones, read as a number. */
  lemma {:induction false} LeadingPart(b: uint8, j: nat, k: nat)
    requires k < 8 && j <= 8 && HasLeading(b, j)
    ensures b / Weight(k) == Leading(j) / Weight(k)
    decreases k
  {
    assert ByteBit(b, k) <==> k < j;
    LeadingHas(j);
    assert ByteBit(Leading(j), k) <==> k < j;
    if k > 0 {
      LeadingPart(b, j, k - 1);
      NextBit(b, k);
      NextBit(Leading(j), k);
    }
  }

  /** No other byte has `j` leading ones and then zeros. */
  lemma LeadingIsUnique(b: uint8, j: nat)
    requires j <= 8 && HasLeading(b, j)
    ensures b == Leading(j)
  {
    LeadingPart(b, j, 7);
  }

  lemma LeadingBit(j: nat, k: nat)
    requires j <= 8 && k < 8
    ensures ByteBit(Leading(j), k) <==> k < j
  {
    var b := Leading(j);
    if k == 0 {
      assert b / 128 % 2 == 1 <==> 0 < j;
    } else if k == 1 {
      assert b / 64 % 2 == 1 <==> 1 < j;
    } else if k == 2 {
      assert b / 32 % 2 == 1 <==> 2 < j;
    } else if k == 3 {
      assert b / 16 % 2 == 1 <==> 3 < j;
    } else if k == 4 {
      assert b / 8 % 2 == 1 <==> 4 < j;
    } else if k == 5 {
      assert b / 4 % 2 == 1 <==> 5 < j;
    } else if k == 6 {
      assert b / 2 % 2 == 1 <==> 6 < j;
    } else {
      assert b % 2 == 1 <==> 7 < j;
    }
  }

  lemma LeadingHas(j: nat)
    requires j <= 8
    ensures HasLeading(Leading(j), j)
  {
    forall k | 0 <= k < 8 ensures ByteBit(Leading(j), k) <==> k < j {
      LeadingBit(j, k);
    }
  }

  /** Addition in a byte. */
  function Wrap(n: nat): uint8 {
    n % 256
  }

  lemma WrapAdd(a: nat, b: nat)
    ensures Wrap(Wrap(a) + b) == Wrap(a + b)
  {
  }

  lemma ShiftDown(b: uint8)
    requires b >= 0x80
    ensures Wrap(b * 2) == b * 2 - 256 < b
  {
  }

  /** How often the inner loop shifts, and the byte it leaves. */
  function Shifts(b: uint8): nat
    decreases b
  {
    if b >= 0x80 then 1 + Shifts(Wrap(b * 2)) else 0
  }

  function Rest(b: uint8): uint8
    decreases b
  {
    if b >= 0x80 then Rest(Wrap(b * 2)) else b
  }

  lemma {:induction false} RestZero(b: uint8)
    requires Rest(b) == 0
    ensures Shifts(b) <= 8 && b == Leading(Shifts(b))
    decreases b
  {
    if b >= 0x80 {
      RestZero(Wrap(b * 2));
    }
  }

  lemma {:induction false} RestOfLeading(j: nat)
    requires j <= 8
    ensures Rest(Leading(j)) == 0 && Shifts(Leading(j)) == j
  {
    if j > 0 {
      assert Leading(j) * 2 % 256 == Leading(j - 1);
      RestOfLeading(j - 1);
    }
  }

  // ----- a mask

  /** Bit `k` of the mask, in network order. */
  predicate Bit(mask: seq<uint8>, k: nat)
    requires k < 8 * |mask|
  {
    ByteBit(mask[k / 8], k % 8)
  }

  /** The mask is `p` one bits followed by zero bits. */
  ghost predicate IsPrefix(mask: seq<uint8>, p: nat) {
    p <= 8 * |mask| && forall k :: 0 <= k < 8 * |mask| ==> (Bit(mask, k) <==> k < p)
  }

  /** The mask of `n` bytes with `p` leading ones. */
  function MakeMask(n: nat, p: nat): (mask: seq<uint8>)
    requires p <= 8 * n
    ensures |mask| == n
  {
    seq(n, i requires 0 <= i < n => Leading(Ones(p, i)))
  }

  /** How many of the first `p` bits are in byte `i`. */
  function Ones(p: nat, i: nat): (j: nat)
    ensures j <= 8
  {
    if p >= 8 * i + 8 then 8 else if p <= 8 * i then 0 else p - 8 * i
  }

  lemma MakeMaskIsPrefix(n: nat, p: nat)
    requires p <= 8 * n
    ensures IsPrefix(MakeMask(n, p), p)
  {
    var mask := MakeMask(n, p);
    forall k | 0 <= k < 8 * n ensures Bit(mask, k) <==> k < p {
      LeadingHas(Ones(p, k / 8));
      assert ByteBit(Leading(Ones(p, k / 8)), k % 8) <==> k % 8 < Ones(p, k / 8);
    }
  }

  lemma PrefixBytes(mask: seq<uint8>, p: nat)
    requires IsPrefix(mask, p)
    ensures mask == MakeMask(|mask|, p)
  {
    forall i | 0 <= i < |mask| ensures mask[i] == Leading(Ones(p, i)) {
      forall k | 0 <= k < 8 ensures ByteBit(mask[i], k) <==> k < Ones(p, i) {
        assert (8 * i + k) / 8 == i && (8 * i + k) % 8 == k;
        assert Bit(mask, 8 * i + k) <==> 8 * i + k < p;
      }
      LeadingIsUnique(mask[i], Ones(p, i));
    }
  }

  /** A mask is contiguous exactly when it is one that mask construction makes. */
  lemma PrefixIsMade(mask: seq<uint8>, p: nat)
    ensures IsPrefix(mask, p) <==> p <= 8 * |mask| && mask == MakeMask(|mask|, p)
  {
    if IsPrefix(mask, p) {
      PrefixBytes(mask, p);
    } else if p <= 8 * |mask| {
      MakeMaskIsPrefix(|mask|, p);
    }
  }

  lemma SameBit(mask: seq<uint8>, p: nat, q: nat, k: nat)
    requires IsPrefix(mask, p) && IsPrefix(mask, q) && k < 8 * |mask|
    ensures k < p <==> k < q
  {
    assert Bit(mask, k) <==> k < p;
  }

  lemma PrefixIsUnique(mask: seq<uint8>, p: nat, q: nat)
    requires IsPrefix(mask, p) && IsPrefix(mask, q)
    ensures p == q
  {
    if p < 8 * |mask| {
      SameBit(mask, p, q, p);
    }
    if q < 8 * |mask| {
      SameBit(mask, p, q, q);
    }
  }

  /** Full bytes, one byte with `j` leading ones, zero bytes. */
  lemma PrefixFound(mask: seq<uint8>, i: nat, j: nat)
    requires i <= |mask| && j <= 8 && (i == |mask| ==> j == 0)
    requires forall k :: 0 <= k < i ==> mask[k] == 0xff
    requires i < |mask| ==> mask[i] == Leading(j)
    requires forall k :: i < k < |mask| ==> mask[k] == 0
    ensures forall p :: IsPrefix(mask, p) <==> p == 8 * i + j
  {
    var q := 8 * i + j;
    assert mask == MakeMask(|mask|, q);
    MakeMaskIsPrefix(|mask|, q);
    forall p | IsPrefix(mask, p) ensures p == q {
      PrefixIsUnique(mask, p, q);
    }
  }

  lemma ByteOfPrefix(mask: seq<uint8>, p: nat, i: nat)
    requires IsPrefix(mask, p) && i < |mask|
    ensures mask[i] == Leading(Ones(p, i))
  {
    PrefixBytes(mask, p);
  }

  lemma NotPrefixByte(mask: seq<uint8>, i: nat)
    requires i < |mask| && Rest(mask[i]) != 0
    ensures forall p :: !IsPrefix(mask, p)
  {
    forall p ensures !IsPrefix(mask, p) {
      if IsPrefix(mask, p) {
        RestOfLeading(Ones(p, i));
        ByteOfPrefix(mask, p, i);
      }
    }
  }

  lemma LaterByte(mask: seq<uint8>, p: nat, i: nat, k: nat)
    requires IsPrefix(mask, p) && i < k < |mask|
    ensures mask[i] == 0xff || mask[k] == 0
  {
    ByteOfPrefix(mask, p, i);
    ByteOfPrefix(mask, p, k);
  }

  lemma NotPrefixGap(mask: seq<uint8>, i: nat, k: nat)
    requires i < k < |mask| && mask[i] != 0xff && mask[k] != 0
    ensures forall p :: !IsPrefix(mask, p)
  {
    forall p ensures !IsPrefix(mask, p) {
      if IsPrefix(mask, p) {
        LaterByte(mask, p, i, k);
      }
    }
  }

  // ----- the algorithm

  /** The middle of the routine: counts and shifts out leading ones. */
  method ShiftOut(b: uint8, count: uint8) returns (result: uint8, last: uint8)
    ensures last == Rest(b) && result == Wrap(count + Shifts(b))
  {
    result, last := count, b;
    while last >= 0x80
      invariant Wrap(result + Shifts(last)) == Wrap(count + Shifts(b)) && Rest(last) == Rest(b)
      decreases last
    {
      ShiftDown(last);
      WrapAdd(result + 1, Shifts(Wrap(last * 2)));
      result := Wrap(result + 1);
      last := Wrap(last * 2);
    }
  }

  /** `ToPrefixLength`; None where a check fails and the program stops. It passes its checks exactly on
      contiguous masks, and then returns the prefix length modulo 256, which is the prefix length for masks
      of at most 31 bytes. */
  method ToPrefixLength(netmask: array<uint8>) returns (r: Option<uint8>)
    ensures r.Some? <==> exists p :: IsPrefix(netmask[..], p)
    ensures forall p :: IsPrefix(netmask[..], p) ==> r == Some(Wrap(p))
    ensures netmask.Length <= 31 ==> forall p :: IsPrefix(netmask[..], p) ==> r.Some? && r.value == p
  {
    ghost var mask := netmask[..];
    var result: uint8 := 0;
    var i := 0;
    while i < netmask.Length && netmask[i] == 0xff
      invariant 0 <= i <= netmask.Length && result == Wrap(8 * i)
      invariant forall k :: 0 <= k < i ==> mask[k] == 0xff
    {
      WrapAdd(8 * i, 8);
      result := Wrap(result + 8);
      i := i + 1;
    }
    ghost var first, j := i, 0;
    if i < netmask.Length && netmask[i] != 0x00 {
      var last;
      j := Shifts(netmask[i]);
      WrapAdd(8 * i, j);
      result, last := ShiftOut(netmask[i], result);
      if last != 0x00 {
        NotPrefixByte(mask, i);
        return None;
      }
      RestZero(netmask[i]);
      i := i + 1;
    }
    while i < netmask.Length
      invariant first <= i <= netmask.Length
      invariant forall k :: first < k < i ==> mask[k] == 0
      invariant i == first ==> j == 0 && (i < netmask.Length ==> mask[i] == 0)
    {
      if netmask[i] != 0x00 {
        NotPrefixGap(mask, first, i);
        return None;
      }
      i := i + 1;
    }
    PrefixFound(mask, first, j);
    assert IsPrefix(mask, 8 * first + j) && result == Wrap(8 * first + j);
    assert netmask[..] == mask;
    r := Some(result);
    forall p | IsPrefix(mask, p) ensures r == Some(Wrap(p)) && (netmask.Length <= 31 ==> r.value == p) {
    }
  }
}
