/** The heap and the memory it hands out, over a run: what is stored in a block stays until it is freed or stored to. */
module KheapTrace {
  import opened Kheaps
  import opened KheapLive

  /** The heap, and memory by words. */
  datatype Sys = Sys(h: Heap, mem: seq<nat>)

  /** A call of the heap, or a store to word w by the owner of block x. */
  datatype Event = Called(c: Call) | Stored(x: Block, w: nat, v: nat)

  /** No word of a block has changed. */
  ghost predicate SameIn(mem: seq<nat>, mem': seq<nat>, y: Block) {
    |mem'| == |mem| && forall w :: 0 <= w < |mem| && Covers(y, KSEG0 + 4 * w) ==> mem'[w] == mem[w]
  }

  /** Every block in use, but one that is being freed, has kept its words. */
  ghost predicate Spared(s: Sys, s': Sys, c: Call) {
    |s'.mem| == |s.mem| && forall y :: Live(s.h, y) && c != Free(y) ==> SameIn(s.mem, s'.mem, y)
  }

  ghost predicate Happens(s: Sys, e: Event, s': Sys) {
    match e
    case Called(c) => May(s.h, c) && s'.h == Do(s.h, c) && Spared(s, s', c)
    case Stored(x, w, v) =>
      Live(s.h, x) && w < |s.mem| && Covers(x, KSEG0 + 4 * w) && s' == s.(mem := s.mem[w := v])
  }

  ghost predicate Trace(ss: seq<Sys>, es: seq<Event>) {
    |ss| == |es| + 1 && forall i :: 0 <= i < |es| ==> Happens(ss[i], es[i], ss[i + 1])
  }

  /** The event frees the block or stores to it. */
  predicate Touches(e: Event, y: Block) {
    match e
    case Called(c) => c == Free(y)
    case Stored(x, w, v) => x == y
  }

  lemma EventOk(s: Sys, e: Event, s': Sys, boot: nat, y: Block)
    requires HeapOk(s.h, boot) && Happens(s, e, s') && Live(s.h, y) && !Touches(e, y)
    ensures HeapOk(s'.h, boot) && Live(s'.h, y) && SameIn(s.mem, s'.mem, y)
  {
    hide HeapOk, Live, Kmalloc, Kfree, Bytes, Addr;
    match e
    case Called(c) =>
      match c {
        case Malloc(sz) => KmallocOk(s.h, boot, sz);
        case Free(x) => KfreeOk(s.h, boot, x);
      }
    case Stored(x, w, v) =>
      LiveDisjoint(s.h, boot, x, y);
      assert !Covers(y, KSEG0 + 4 * w);
  }

  /**
   * Whatever is allocated, freed and stored meanwhile, a block in use stays in use, with every word of it as it was,
   * until it is freed or its owner stores to it.
   */
  lemma {:induction false} KeptUntilTouched(ss: seq<Sys>, es: seq<Event>, boot: nat, y: Block)
    requires Trace(ss, es) && HeapOk(ss[0].h, boot) && Live(ss[0].h, y)
    requires forall i :: 0 <= i < |es| ==> !Touches(es[i], y)
    ensures Live(ss[|es|].h, y) && SameIn(ss[0].mem, ss[|es|].mem, y) && HeapOk(ss[|es|].h, boot)
    decreases |es|
  {
    hide HeapOk, Live, Happens, Touches, Covers;
    if es != [] {
      assert Happens(ss[0], es[0], ss[0 + 1]);
      EventOk(ss[0], es[0], ss[1], boot, y);
      var ss1, es1 := ss[1..], es[1..];
      forall i | 0 <= i < |es1|
        ensures Happens(ss1[i], es1[i], ss1[i + 1]) && !Touches(es1[i], y)
      {
        assert Happens(ss[i + 1], es[i + 1], ss[i + 1 + 1]) && !Touches(es[i + 1], y);
      }
      KeptUntilTouched(ss1, es1, boot, y);
    }
  }
}
