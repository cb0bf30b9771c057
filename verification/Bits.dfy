/** Bits of a number, and bytes packed from bits. */
module BitOps {
  import opened Arith
  import opened Words

  function Pow2(n: nat): (p: nat)
    ensures p > 0
  {
    if n == 0 then 1 else 2 * Pow2(n - 1)
  }

  /** Bit k of a number, bit 0 the least significant: x & (1 << k) is not zero. */
  predicate BitOf(x: nat, k: nat) {
    if k == 0 then x % 2 == 1 else BitOf(x / 2, k - 1)
  }

  lemma DivTwice(x: nat, p: nat)
    requires p > 0
    ensures x / 2 / p == x / (2 * p)
  {
    var h := x / 2;
    DivUnique(x, h / p, 2 * (h % p) + x % 2, 2 * p);
  }

  /** The bit is what is left of the number when it has been shifted and all other bits dropped. */
  lemma {:induction false} BitIs(x: nat, k: nat)
    ensures BitOf(x, k) <==> x / Pow2(k) % 2 == 1
  {
    if k > 0 {
      BitIs(x / 2, k - 1);
      DivTwice(x, Pow2(k - 1));
    }
  }

  /** x | (1 << k), for a clear bit. */
  function SetBit(x: nat, k: nat): nat {
    if BitOf(x, k) then x else x + Pow2(k)
  }

  /** x & ~(1 << k). */
  function ClearBit(x: nat, k: nat): nat {
    if BitOf(x, k) && x >= Pow2(k) then x - Pow2(k) else x
  }

  lemma {:induction false} BitBelow(x: nat, k: nat)
    requires BitOf(x, k)
    ensures x >= Pow2(k)
  {
    if k > 0 { BitBelow(x / 2, k - 1); }
  }

  lemma {:induction false} ZeroBit(k: nat)
    ensures !BitOf(0, k)
  {
    if k > 0 { ZeroBit(k - 1); }
  }

  lemma {:induction false} OnesBit(n: nat, k: nat)
    requires k < n
    ensures BitOf(Pow2(n) - 1, k)
  {
    assert Pow2(n) == 2 * Pow2(n - 1);
    if k > 0 {
      OnesBit(n - 1, k - 1);
      assert (Pow2(n) - 1) / 2 == Pow2(n - 1) - 1;
    }
  }

  lemma {:induction false} AddedBit(x: nat, k: nat, j: nat)
    requires !BitOf(x, k)
    ensures BitOf(x + Pow2(k), j) <==> BitOf(x, j) || j == k
    decreases k
  {
    if k == 0 {
      assert (x + 1) / 2 == x / 2;
    } else {
      assert Pow2(k) == 2 * Pow2(k - 1);
      assert (x + Pow2(k)) / 2 == x / 2 + Pow2(k - 1);
      assert (x + Pow2(k)) % 2 == x % 2;
      if j > 0 { AddedBit(x / 2, k - 1, j - 1); }
    }
  }

  lemma SetBitAt(x: nat, k: nat, j: nat)
    ensures BitOf(SetBit(x, k), j) <==> BitOf(x, j) || j == k
  {
    if !BitOf(x, k) { AddedBit(x, k, j); }
  }

  lemma {:induction false} ClearBitAt(x: nat, k: nat, j: nat)
    ensures BitOf(ClearBit(x, k), j) <==> BitOf(x, j) && j != k
    decreases k
  {
    if BitOf(x, k) {
      BitBelow(x, k);
      var y := x - Pow2(k);
      if k == 0 {
        assert y / 2 == x / 2;
      } else {
        assert Pow2(k) == 2 * Pow2(k - 1);
        assert y / 2 == x / 2 - Pow2(k - 1);
        assert y % 2 == x % 2;
        if j > 0 {
          BitBelow(x / 2, k - 1);
          ClearBitAt(x / 2, k - 1, j - 1);
        }
      }
    }
  }

  /** A number of n bits with bit k < n set keeps to n bits. */
  lemma {:induction false} SetBitFits(x: nat, k: nat, n: nat)
    requires x < Pow2(n) && k < n
    ensures SetBit(x, k) < Pow2(n)
    decreases k
  {
    if !BitOf(x, k) {
      if k == 0 {
        assert Pow2(n) == 2 * Pow2(n - 1);
      } else {
        assert Pow2(n) == 2 * Pow2(n - 1) && Pow2(k) == 2 * Pow2(k - 1);
        SetBitFits(x / 2, k - 1, n - 1);
        assert x == 2 * (x / 2) + x % 2;
      }
    }
  }

  /** All n low bits set: the number is at least 2^n - 1. */
  lemma {:induction false} AllBits(x: nat, n: nat)
    requires forall k :: 0 <= k < n ==> BitOf(x, k)
    ensures x >= Pow2(n) - 1
  {
    if n > 0 {
      assert BitOf(x, 0);
      forall k | 0 <= k < n - 1
        ensures BitOf(x / 2, k)
      {
        assert BitOf(x, k + 1);
      }
      AllBits(x / 2, n - 1);
    }
  }

  /** Bits as a number, the first the least significant. */
  function Pack(s: seq<bool>): (x: nat)
    ensures x < Pow2(|s|)
  {
    if s == [] then 0 else (if s[0] then 1 else 0) + 2 * Pack(s[1..])
  }

  lemma {:induction false} PackBit(s: seq<bool>, k: nat)
    requires k < |s|
    ensures BitOf(Pack(s), k) <==> s[k]
  {
    if k > 0 {
      PackBit(s[1..], k - 1);
    }
  }

  lemma ByteRange()
    ensures Pow2(8) == 256
  {
    assert Pow2(4) == 16;
  }

  /** A byte is determined by its eight bits. */
  lemma {:induction false} SameBits(x: nat, y: nat, n: nat)
    requires x < Pow2(n) && y < Pow2(n)
    requires forall k :: 0 <= k < n ==> (BitOf(x, k) <==> BitOf(y, k))
    ensures x == y
  {
    if n > 0 {
      assert BitOf(x, 0) <==> BitOf(y, 0);
      forall k | 0 <= k < n - 1
        ensures BitOf(x / 2, k) <==> BitOf(y / 2, k)
      {
        assert BitOf(x, k + 1) <==> BitOf(y, k + 1);
      }
      SameBits(x / 2, y / 2, n - 1);
    }
  }

  function PackByte(s: seq<bool>): byte
    requires |s| == 8
  {
    ByteRange();
    Pack(s)
  }
}
