/** Descriptions of a memory area being read into or written from. */
module Uios {
  import opened Words

  class Uio {
    const writing: bool
    const mem: array<byte>
    var base: nat
    var iovLen: nat
    var offset: nat
    var resid: nat

    ghost predicate Valid()
      reads this
    {
      resid <= iovLen && base + iovLen <= mem.Length
    }

    constructor (mem: array<byte>, len: nat, pos: nat, writing: bool)
      requires len <= mem.Length
      ensures Valid() && this.mem == mem && this.writing == writing
      ensures base == 0 && offset == pos && resid == len && iovLen == len
    {
      this.mem, this.writing := mem, writing;
      base, iovLen, offset, resid := 0, len, pos, len;
    }

    /** How much of a request is moved: what is left to move, if that is less. */
    function Moved(count: nat): (m: nat)
      reads this
      ensures m <= count && m <= resid && (m == count || m == resid)
    {
      if count <= resid then count else resid
    }

    /**
     * Copy bytes between the buffer at skip and the memory area, in the direction of the transfer, and advance past
     * them. More than is left may be asked for if the area ends where the transfer does.
     */
    method Move(buf: array<byte>, skip: nat, count: nat)
      requires Valid() && buf != mem
      requires skip + count <= buf.Length && (count <= resid || iovLen == resid)
      modifies this, mem, buf
      ensures Valid()
      ensures var m := old(Moved(count));
        && offset == old(offset) + m && resid == old(resid) - m && base == old(base) + m && iovLen == old(iovLen) - m
        && (writing ==> mem[..] == old(mem[..]))
        && (writing ==> buf[..] == Patch(old(buf[..]), skip, old(mem[..])[old(base)..old(base) + m]))
        && (!writing ==> buf[..] == old(buf[..]))
        && (!writing ==> mem[..] == Patch(old(mem[..]), old(base), old(buf[..])[skip..skip + m]))
    {
      hide Patch;
      ghost var m := Moved(count);
      PatchNone(buf[..], skip);
      PatchNone(mem[..], base);
      ghost var newBuf := if writing then Patch(buf[..], skip, mem[..][base..base + m]) else buf[..];
      ghost var newMem := if writing then mem[..] else Patch(mem[..], base, buf[..][skip..skip + m]);
      var n, at := count, skip;
      while n > 0 && resid > 0
        invariant Valid() && (n == count || n == count - m)
        invariant n != count - m ==> unchanged(this) && at == skip && mem[..] == old(mem[..]) && buf[..] == old(buf[..])
        invariant n == count - m ==> base == old(base) + m && iovLen == old(iovLen) - m
        invariant n == count - m ==> resid == old(resid) - m && offset == old(offset) + m
        invariant n == count - m && m > 0 ==> mem[..] == newMem && buf[..] == newBuf
        invariant m == 0 ==> mem[..] == old(mem[..]) && buf[..] == old(buf[..])
        decreases n
      {
        var size := if iovLen > n then n else iovLen;
        assert size == m && n == count;
        assert mem[base..base + size] == mem[..][base..base + size] && buf[at..at + size] == buf[..][at..at + size];
        if writing {
          Copy(mem, base, buf, at, size);
        } else {
          Copy(buf, at, mem, base, size);
        }
        base := base + size;
        iovLen := iovLen - size;
        resid := resid - size;
        offset := offset + size;
        at := at + size;
        n := n - size;
      }
      if m == 0 {
        assert old(mem[..])[old(base)..old(base) + m] == [] && old(buf[..])[skip..skip + m] == [];
      }
    }

    /** Fill the memory area with zeros, sixteen bytes at a time. */
    method MoveZeros(count: nat)
      requires Valid() && !writing && (count <= resid || iovLen == resid)
      modifies this, mem
      ensures Valid()
      ensures var m := old(Moved(count));
        && offset == old(offset) + m && resid == old(resid) - m && base == old(base) + m && iovLen == old(iovLen) - m
        && mem[..] == Patch(old(mem[..]), old(base), Zeros(m))
    {
      hide Patch;
      PatchNone(mem[..], base);
      assert Zeros(0) == [];
      var zeros := new byte[16](_ => 0);
      var n := count;
      ghost var done := 0;
      while n > 0
        invariant Valid() && 0 <= n <= count && (n <= resid || iovLen == resid)
        invariant done == (if count - n <= old(resid) then count - n else old(resid))
        invariant base == old(base) + done && iovLen == old(iovLen) - done
        invariant offset == old(offset) + done && resid == old(resid) - done
        invariant mem[..] == Patch(old(mem[..]), old(base), Zeros(done))
        invariant fresh(zeros) && forall k :: 0 <= k < zeros.Length ==> zeros[k] == 0
      {
        var amt := if zeros.Length > n then n else zeros.Length;
        ghost var m := Moved(amt);
        assert zeros[..][0..m] == Zeros(m);
        PatchTwice(old(mem[..]), old(base), Zeros(done), Zeros(m));
        assert Zeros(done) + Zeros(m) == Zeros(done + m);
        Move(zeros, 0, amt);
        n := n - amt;
        done := done + m;
      }
    }
  }

  lemma PatchNone(s: seq<byte>, at: nat)
    ensures Patch(s, at, []) == s
  {
  }

  /** memmove between two arrays. */
  method Copy(src: array<byte>, from: nat, dst: array<byte>, to: nat, size: nat)
    requires src != dst && from + size <= src.Length && to + size <= dst.Length
    modifies dst
    ensures dst[..] == Patch(old(dst[..]), to, src[from..from + size])
  {
    forall k | 0 <= k < size {
      dst[to + k] := src[from + k];
    }
  }
}
