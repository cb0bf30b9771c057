/** The kernel's bit arrays. */
module Bitmaps {
  import opened Words
  import opened BitOps

  /** Bit b of an array of bytes. */
  predicate ByteBit(v: seq<byte>, b: nat)
    requires b / 8 < |v|
  {
    BitOf(v[b / 8], b % 8)
  }

  function BitsOf(v: seq<byte>, n: nat): (s: seq<bool>)
    requires n <= 8 * |v|
    ensures |s| == n && forall b :: 0 <= b < n ==> s[b] == ByteBit(v, b)
  {
    seq(n, b requires 0 <= b < n => ByteBit(v, b))
  }

  lemma SetByteFits(x: byte, k: nat)
    requires k < 8
    ensures SetBit(x, k) < 256 && ClearBit(x, k) < 256
  {
    ByteRange();
    SetBitFits(x, k, 8);
  }

  /** Setting or clearing bit k of byte ix changes bit 8 * ix + k and no other. */
  lemma SetByteBit(v: seq<byte>, ix: nat, k: nat, b: nat)
    requires ix < |v| && k < 8 && b / 8 < |v|
    ensures SetBit(v[ix], k) < 256 && ClearBit(v[ix], k) < 256
    ensures ByteBit(v[ix := SetBit(v[ix], k)], b) <==> ByteBit(v, b) || b == 8 * ix + k
    ensures ByteBit(v[ix := ClearBit(v[ix], k)], b) <==> ByteBit(v, b) && b != 8 * ix + k
  {
    SetByteFits(v[ix], k);
    SetBitAt(v[ix], k, b % 8);
    ClearBitAt(v[ix], k, b % 8);
    assert b == 8 * (b / 8) + b % 8;
  }

  class Bitmap {
    const nbits: nat
    const v: array<byte>

    /** The bits of the last byte past the end are marked in use. */
    ghost predicate Valid()
      reads v
    {
      && v.Length == (nbits + 7) / 8
      && forall b: nat :: nbits <= b < 8 * v.Length ==> ByteBit(v[..], b)
    }

    ghost function View(): (s: seq<bool>)
      requires v.Length == (nbits + 7) / 8
      reads v
      ensures |s| == nbits
    {
      BitsOf(v[..], nbits)
    }

    constructor (nbits: nat)
      ensures this.nbits == nbits && Valid() && fresh(v)
      ensures View() == seq(nbits, b => false)
    {
      var words := (nbits + 7) / 8;
      var a := new byte[words](_ => 0);
      this.nbits := nbits;
      this.v := a;
      new;
      assert forall b: nat :: b < 8 * words ==> !ByteBit(a[..], b) by { ZeroBits(a[..]); }
      if nbits / 8 < words {
        var ix := words - 1;
        var overbits := nbits - ix * 8;
        var j := overbits;
        while j < 8
          invariant overbits <= j <= 8
          invariant forall b: nat :: b < 8 * words ==> (ByteBit(a[..], b) <==> nbits <= b < 8 * ix + j)
        {
          ghost var was := a[..];
          SetByteFits(a[ix], j);
          a[ix] := SetBit(a[ix], j);
          assert a[..] == was[ix := SetBit(was[ix], j)];
          forall b: nat | b < 8 * words
            ensures ByteBit(a[..], b) <==> nbits <= b < 8 * ix + j + 1
          {
            SetByteBit(was, ix, j, b);
          }
          j := j + 1;
        }
      }
    }

    /** Takes the first clear bit, or reports that there is none. */
    method Alloc() returns (ok: bool, index: nat)
      requires Valid()
      modifies v
      ensures Valid()
      ensures ok ==> index < nbits && !old(View())[index] && View() == old(View())[index := true]
      ensures ok ==> forall b :: 0 <= b < index ==> old(View())[b]
      ensures !ok ==> v[..] == old(v[..]) && View() == old(View()) && forall b :: 0 <= b < nbits ==> View()[b]
    {
      var maxix := (nbits + 7) / 8;
      var ix := 0;
      while ix < maxix
        invariant 0 <= ix <= maxix
        invariant forall b: nat :: b < 8 * ix ==> ByteBit(v[..], b)
        invariant v[..] == old(v[..])
      {
        if v[ix] != 0xff {
          var offset := FindClear(v[ix]);
          index := 8 * ix + offset;
          assert !ByteBit(v[..], index);
          ghost var was := v[..];
          SetByteFits(v[ix], offset);
          v[ix] := SetBit(v[ix], offset);
          assert v[..] == was[ix := SetBit(was[ix], offset)];
          forall b: nat | b < 8 * maxix
            ensures ByteBit(v[..], b) <==> ByteBit(was, b) || b == index
          {
            SetByteBit(was, ix, offset, b);
          }
          forall b: nat | b < index
            ensures ByteBit(was, b)
          {
            if b >= 8 * ix { assert b / 8 == ix && b % 8 < offset; }
          }
          ok := true;
          return;
        }
        AllOnes(v[..], ix);
        ix := ix + 1;
      }
      return false, 0;
    }

    method Mark(index: nat)
      requires Valid() && index < nbits && !View()[index]
      modifies v
      ensures Valid() && View() == old(View())[index := true]
    {
      ghost var was := v[..];
      SetByteFits(v[index / 8], index % 8);
      v[index / 8] := SetBit(v[index / 8], index % 8);
      assert v[..] == was[index / 8 := SetBit(was[index / 8], index % 8)];
      forall b: nat | b < 8 * v.Length
        ensures ByteBit(v[..], b) <==> ByteBit(was, b) || b == index
      {
        SetByteBit(was, index / 8, index % 8, b);
      }
    }

    method Unmark(index: nat)
      requires Valid() && index < nbits && View()[index]
      modifies v
      ensures Valid() && View() == old(View())[index := false]
    {
      ghost var was := v[..];
      SetByteFits(v[index / 8], index % 8);
      v[index / 8] := ClearBit(v[index / 8], index % 8);
      assert v[..] == was[index / 8 := ClearBit(was[index / 8], index % 8)];
      forall b: nat | b < 8 * v.Length
        ensures ByteBit(v[..], b) <==> ByteBit(was, b) && b != index
      {
        SetByteBit(was, index / 8, index % 8, b);
      }
    }

    method IsSet(index: nat) returns (r: bool)
      requires Valid() && index < nbits
      ensures r == View()[index]
    {
      r := BitOf(v[index / 8], index % 8);
    }
  }

  lemma ZeroBits(v: seq<byte>)
    requires forall k :: 0 <= k < |v| ==> v[k] == 0
    ensures forall b: nat :: b < 8 * |v| ==> !ByteBit(v, b)
  {
    forall b: nat | b < 8 * |v|
      ensures !ByteBit(v, b)
    {
      ZeroBit(b % 8);
    }
  }

  lemma AllOnes(v: seq<byte>, ix: nat)
    requires ix < |v| && v[ix] == 0xff
    ensures forall b: nat :: 8 * ix <= b < 8 * ix + 8 ==> ByteBit(v, b)
  {
    ByteRange();
    forall b: nat | 8 * ix <= b < 8 * ix + 8
      ensures ByteBit(v, b)
    {
      OnesBit(8, b % 8);
    }
  }

  /** The inner search of the allocator: a byte that is not all ones has a lowest clear bit. */
  method FindClear(x: byte) returns (k: nat)
    requires x != 0xff
    ensures k < 8 && !BitOf(x, k) && forall j :: 0 <= j < k ==> BitOf(x, j)
  {
    k := 0;
    while k < 8 && BitOf(x, k)
      invariant 0 <= k <= 8 && forall j :: 0 <= j < k ==> BitOf(x, j)
    {
      k := k + 1;
    }
    ByteRange();
    if k == 8 { AllBits(x, 8); }
  }
}
