/** Execution by chained basic blocks (`hart_t::find_bb` and `hart_t::run_basic_block` in
    caveat/hart.cc). */
module HartBlocks {
  import opened Machines
  import opened TransCache

  /** Every block in the cache is what decoding from its own address gives. */
  ghost predicate BlocksDecoded<S>(m: Machine<S>, slots: seq<Slot>, blocks: map<nat, seq<Insn>>) {
    forall i :: i in blocks ==> BlockDecoded(m, slots, i, blocks[i])
  }

  ghost predicate BlockDecoded<S>(m: Machine<S>, slots: seq<Slot>, i: nat, insns: seq<Insn>) {
    i < |slots| && slots[i].Header? && insns == Block(m, slots[i].addr) && !Aborts(m, slots[i].addr)
  }

  /** The codes of `insns` in slots 2 and up of a buffer. */
  ghost predicate Buffered(buffer: seq<Slot>, insns: seq<Insn>) {
    2 + |insns| <= |buffer| && forall k :: 2 <= k < 2 + |insns| ==> buffer[k] == Code(insns[k - 2])
  }

  /** A whole block in a buffer: header, codes and one pointer, or two after a conditional branch. */
  lemma {:induction false} BlockInBuffer(buffer: seq<Slot>, insns: seq<Insn>)
    requires insns != [] && Buffered(buffer, insns) && Extent(insns) <= |buffer|
    requires buffer[0].Header? && buffer[0].conditional == insns[|insns| - 1].conditional
    requires buffer[0].count == |insns| && buffer[1] == HeaderRest && buffer[2 + |insns|] == Pointer(0)
    requires insns[|insns| - 1].conditional ==> buffer[3 + |insns|] == Pointer(0)
    ensures BlockAt(buffer, 0, insns, {})
  {
  }

  lemma {:induction false} DecodedAdded<S>(m: Machine<S>, slots: seq<Slot>, slots': seq<Slot>,
      before: map<nat, seq<Insn>>, bb: nat, insns: seq<Insn>)
    requires BlocksDecoded(m, slots, before) && BlockDecoded(m, slots', bb, insns) && |slots'| == |slots|
    requires forall i :: i in before ==> i < bb && slots'[i] == slots[i]
    ensures BlocksDecoded(m, slots', before[bb := insns])
  {
    hide Block, Aborts;
    var more := before[bb := insns];
    forall i | i in more
      ensures BlockDecoded(m, slots', i, more[i])
    {
      if i != bb {
        assert BlockDecoded(m, slots, i, before[i]);
      }
    }
  }

  lemma {:induction false} DecodedKept<S>(m: Machine<S>, slots: seq<Slot>, slots': seq<Slot>,
      blocks: map<nat, seq<Insn>>, t: nat)
    requires BlocksDecoded(m, slots, blocks) && |slots'| == |slots| && t !in blocks
    requires forall k :: 0 <= k < |slots| && k != t ==> slots'[k] == slots[k]
    ensures BlocksDecoded(m, slots', blocks)
  {
    hide Block, Aborts;
    forall i | i in blocks
      ensures BlockDecoded(m, slots', i, blocks[i])
    {
      assert BlockDecoded(m, slots, i, blocks[i]);
    }
  }

  lemma {:induction false} StillEnds(before: map<nat, seq<Insn>>, bb: nat, insns: seq<Insn>, i: nat, t: nat)
    requires Ends(before, i, t) && forall j :: j in before ==> j < bb
    ensures Ends(before[bb := insns], i, t)
  {
  }

  class Hart<S(!new)> {
    const m: Machine<S>
    const tcache: Tcache
    var s: S
    /** The slot of the pointer that the next block confirms or redirects; 0 for the thread's own. */
    var target: nat
    var mismatchTarget: nat

    constructor (m: Machine<S>, tcache: Tcache, s: S)
      requires tcache.Valid() && BlocksDecoded(m, tcache.array0[..], tcache.blocks)
      ensures Chained() && this.m == m && this.tcache == tcache && this.s == s
      ensures target == 0 && mismatchTarget == 0
    {
      this.m, this.tcache, this.s, target, mismatchTarget := m, tcache, s, 0, 0;
    }

    /** The cache holds decoded blocks, and the thread's own pointer leads to one of them while it is used. */
    ghost predicate Usable()
      reads this, tcache, tcache.array0, tcache.table
    {
      tcache.Valid() && BlocksDecoded(m, tcache.array0[..], tcache.blocks) &&
      (target != 0 || mismatchTarget == 0 || mismatchTarget in tcache.blocks)
    }

    /** Besides, the pointer to be confirmed is one of a block's. */
    ghost predicate Chained()
      reads this, tcache, tcache.array0, tcache.table
    {
      Usable() && (target == 0 || exists i :: tcache.EndsIn(i, target))
    }

    /** Decodes a block at `pc` into a buffer of 140 slots. */
    method DecodeBlock(pc: nat) returns (buffer: array<Slot>, n: nat, ghost insns: seq<Insn>)
      requires !Aborts(m, pc)
      ensures fresh(buffer) && buffer.Length == 140 && insns == Block(m, pc)
      ensures WellBehaved(m) ==> Straight(Substituted(m), pc, insns) && Delimited(m, pc, insns)
      ensures insns != [] && |insns| <= 127 && BlockAt(buffer[..], 0, insns, {})
      ensures n == 2 + |insns| + (if insns[|insns| - 1].conditional then 2 else 1) == Extent(insns)
      ensures buffer[0].Header? && buffer[0].addr == pc && buffer[0].length == Bytes(insns) % 0x100
    {
      hide Straight, Bytes, BlockAt, Delimited, Substituted, WellBehaved, Block, Aborts, Decode;
      buffer := new Slot[140](_ => Unused);
      var dpc: nat := pc;
      var j := 1;
      insns := [];
      DecodedNothing(pc);
      while true
        invariant 1 <= j < 128 && |insns| == j - 1 && dpc - pc < 256
        invariant Buffered(buffer[..], insns) && DecodedSoFar(m, pc, insns, dpc)
        invariant DecodeFrom(m, pc, dpc, insns) == Decode(m, pc)
        decreases 128 - j
      {
        DecodedNext(m, pc, insns, dpc);
        var next := m.decode(dpc);
        j := j + 1;
        buffer[j] := Code(next);
        if next.stopBefore && 2 < j {
          j := j - 1;
          break;
        }
        dpc := dpc + Length(next);
        insns := insns + [next];
        if next.stopAfter {
          break;
        }
        if !(dpc - pc < 256 && j < 128) {
          break;
        }
      }
      if WellBehaved(m) {
        BlockIs(m, pc);
      }
      n, insns := EndBlock(buffer, pc, dpc, j, insns);
    }

    /** Completes a block whose last instruction is in slot `j`: substitutes a store conditional there, and adds
        the header and the pointers.  The header's length is of 8 bits. */
    method EndBlock(buffer: array<Slot>, pc: nat, dpc: nat, j: nat, ghost decoded: seq<Insn>)
      returns (n: nat, ghost insns: seq<Insn>)
      requires buffer.Length == 140 && decoded != [] && |decoded| <= 127 && j == 1 + |decoded|
      requires Buffered(buffer[..], decoded) && dpc == pc + Bytes(decoded)
      requires decoded == Decode(m, pc) && !Aborts(m, pc)
      modifies buffer
      ensures insns == Block(m, pc) && n == Extent(insns) <= 131 && BlockAt(buffer[..], 0, insns, {})
      ensures buffer[0].Header? && buffer[0].addr == pc && buffer[0].length == Bytes(insns) % 0x100
    {
      hide BlockAt, Bytes, Block, Aborts, SubstituteCas, Decode;
      insns := decoded;
      LastOfBlock(pc);
      if IsStoreConditional(buffer[j].insn) {
        var cas := SubstituteCas(m, Before(dpc, 4), buffer[j].insn);
        // Without the pattern this would be fatal.
        buffer[j] := Code(cas.value);
        insns := decoded[..|decoded| - 1] + [cas.value];
        SameBytes(decoded, cas.value);
      }
      var last, k := buffer[j].insn, j + 1;
      buffer[0], buffer[1] := Header(pc, last.conditional, j - 1, (dpc - pc) % 0x100, 0), HeaderRest;
      buffer[k] := Pointer(0);
      if last.conditional {
        k := k + 1;
        buffer[k] := Pointer(0);
      }
      n := k + 1;
      BlockInBuffer(buffer[..], insns);
    }

    lemma {:induction false} LastOfBlock(pc: nat)
      requires !Aborts(m, pc)
      ensures var insns := Decode(m, pc);
        insns != [] &&
        var last := insns[|insns| - 1];
        var cas := SubstituteCas(m, Before(pc + Bytes(insns), 4), last);
        if IsStoreConditional(last) then cas.Some? && Block(m, pc) == insns[..|insns| - 1] + [cas.value]
        else Block(m, pc) == insns
    {
      hide Decode, SubstituteCas, Bytes;
      DecodeIs(m, pc);
    }

    lemma {:induction false} DecodedNothing(pc: nat)
      ensures DecodedSoFar(m, pc, [], pc) && DecodeFrom(m, pc, pc, []) == Decode(m, pc)
    {
    }

    /** The block at `pc` is cached, or there is room for it. */
    ghost predicate NoFlush(pc: nat)
      reads this, tcache, tcache.array0
    {
      tcache.HasBlockAt(pc) || tcache.size + Extent(Block(m, pc)) <= tcache.array0.Length
    }

    /** Finding the block at `pc` is not fatal. */
    ghost predicate NoAbort(pc: nat)
      reads this, tcache, tcache.array0
    {
      tcache.HasBlockAt(pc) || !Aborts(m, pc)
    }

    /** Flushing for the block at `pc` does it no harm: the cache has room for it, and the pointer that is then
        redirected to it, which still lies where it lay before the flush, is not one of its header and its
        instructions (`TransCache.StalePointer`). */
    ghost predicate NoHarm(pc: nat)
      reads this, tcache, tcache.array0
    {
      NoFlush(pc) ||
      (2 + Extent(Block(m, pc)) <= tcache.array0.Length && (target == 0 || 4 + |Block(m, pc)| <= target))
    }

    ghost predicate Runnable(pc: nat)
      reads this, tcache, tcache.array0
    {
      pc != 0 && NoAbort(pc) && NoHarm(pc)
    }

    /** The block at `pc`, decoded and cached if it is not there yet, after a flush if there is no room for
        it. */
    method FindBB(pc: nat) returns (bb: nat)
      requires tcache.Valid() && BlocksDecoded(m, tcache.array0[..], tcache.blocks)
      requires NoAbort(pc) && (NoFlush(pc) || 2 + Extent(Block(m, pc)) <= tcache.array0.Length)
      modifies tcache, tcache.array0, tcache.table
      ensures tcache.Valid() && BlocksDecoded(m, tcache.array0[..], tcache.blocks)
      ensures bb in tcache.blocks && bb < tcache.array0.Length && tcache.array0[bb].Header?
      ensures tcache.array0[bb].addr == pc
      ensures tcache.flushed == old(tcache.flushed) + if old(NoFlush(pc)) then 0 else 1
      ensures old(NoFlush(pc)) ==> forall i :: i in old(tcache.blocks) ==>
        i in tcache.blocks && tcache.blocks[i] == old(tcache.blocks[i])
      ensures old(tcache.HasBlockAt(pc)) ==> tcache.size == old(tcache.size) && tcache.blocks == old(tcache.blocks)
      ensures !old(NoFlush(pc)) ==> tcache.blocks == map[2 := Block(m, pc)] && tcache.size == 2 + Extent(Block(m, pc))
      ensures old(Chained() && NoFlush(pc)) ==> Chained()
    {
      hide *;
      Flushes(pc);
      ghost var own := Chained();
      if own {
        ChainedParts();
      }
      bb := tcache.Find(pc);
      if bb != 0 {
        return;
      }
      var buffer, n;
      ghost var insns;
      buffer, n, insns := DecodeBlock(pc);
      ghost var slots, before := tcache.array0[..], tcache.blocks;
      tcache.ValidParts();
      bb := tcache.Add(buffer, n, insns);
      if tcache.array0.Length < old(tcache.size) + n {
        OnlyDecoded(bb, insns);
      } else {
        AddedDecoded(slots, before, bb, insns);
        if own {
          StillOwn(before, bb, insns);
        }
      }
    }

    lemma {:induction false} Flushes(pc: nat)
      ensures NoFlush(pc) <==> tcache.HasBlockAt(pc) || tcache.size + Extent(Block(m, pc)) <= tcache.array0.Length
      ensures NoAbort(pc) <==> tcache.HasBlockAt(pc) || !Aborts(m, pc)
      ensures NoHarm(pc) <==> (NoFlush(pc) ||
        (2 + Extent(Block(m, pc)) <= tcache.array0.Length && (target == 0 || 4 + |Block(m, pc)| <= target)))
      ensures Runnable(pc) <==> pc != 0 && NoAbort(pc) && NoHarm(pc)
    {
    }

    lemma {:induction false} ChainedParts()
      requires Chained()
      ensures tcache.Valid() && BlocksDecoded(m, tcache.array0[..], tcache.blocks)
      ensures target != 0 || mismatchTarget == 0 || mismatchTarget in tcache.blocks
      ensures target == 0 || exists i :: Ends(tcache.blocks, i, target)
    {
      assert forall i :: tcache.EndsIn(i, target) == Ends(tcache.blocks, i, target);
    }

    lemma {:induction false} AddedDecoded(slots: seq<Slot>, before: map<nat, seq<Insn>>, bb: nat, insns: seq<Insn>)
      requires BlocksDecoded(m, slots, before) && |slots| == tcache.array0.Length
      requires tcache.blocks == before[bb := insns] && bb < |slots| && tcache.array0[bb].Header?
      requires insns == Block(m, tcache.array0[bb].addr) && !Aborts(m, tcache.array0[bb].addr)
      requires forall i :: i in before ==> i < bb && tcache.array0[i] == slots[i]
      ensures BlocksDecoded(m, tcache.array0[..], tcache.blocks)
    {
      ghost var now := tcache.array0[..];
      assert BlockDecoded(m, now, bb, insns);
      hide *;
      assert forall i :: i in before ==> i < bb && now[i] == slots[i];
      DecodedAdded(m, slots, now, before, bb, insns);
    }

    lemma {:induction false} OnlyDecoded(bb: nat, insns: seq<Insn>)
      requires tcache.blocks == map[bb := insns] && bb < tcache.array0.Length && tcache.array0[bb].Header?
      requires insns == Block(m, tcache.array0[bb].addr) && !Aborts(m, tcache.array0[bb].addr)
      ensures BlocksDecoded(m, tcache.array0[..], tcache.blocks)
    {
      hide Block, Aborts;
    }

    /** The pointers of a hart when a block was added behind the others. */
    lemma {:induction false} StillOwn(before: map<nat, seq<Insn>>, bb: nat, insns: seq<Insn>)
      requires tcache.Valid() && BlocksDecoded(m, tcache.array0[..], tcache.blocks)
      requires tcache.blocks == before[bb := insns] && forall i :: i in before ==> i < bb
      requires target != 0 || mismatchTarget == 0 || mismatchTarget in before
      requires target == 0 || exists i :: Ends(before, i, target)
      ensures Chained()
    {
      hide *;
      if target != 0 {
        var i :| Ends(before, i, target);
        StillEnds(before, bb, insns, i, target);
      }
      OwnPointer();
    }

    /** A pointer was redirected to a block. */
    lemma {:induction false} StillUsable(slots: seq<Slot>, t: nat, bb: nat)
      requires tcache.Valid() && BlocksDecoded(m, slots, tcache.blocks) && t < |slots|
      requires tcache.array0[..] == slots[t := Pointer(bb)]
      requires t !in tcache.blocks && target != 0
      ensures Usable()
    {
      hide BlocksDecoded;
      DecodedKept(m, slots, tcache.array0[..], tcache.blocks, t);
    }

    lemma {:induction false} OwnPointer()
      requires tcache.Valid() && BlocksDecoded(m, tcache.array0[..], tcache.blocks)
      requires target != 0 || mismatchTarget == 0 || mismatchTarget in tcache.blocks
      requires target == 0 || exists i :: Ends(tcache.blocks, i, target)
      ensures Chained()
    {
      hide BlocksDecoded, Ends;
      if target != 0 {
        var i :| Ends(tcache.blocks, i, target);
        assert tcache.EndsIn(i, target);
      }
    }

    lemma {:induction false} PointerParts(i: nat)
      requires tcache.Valid() && Ends(tcache.blocks, i, target)
      ensures tcache.EndsIn(i, target) && target < tcache.array0.Length && tcache.array0[target].Pointer?
      ensures tcache.array0[target].to == 0 || tcache.array0[target].to in tcache.blocks
      ensures target !in tcache.blocks
    {
      tcache.EndIsPointer(i, target);
      tcache.ValidParts();
    }

    lemma {:induction false} BlockFacts(bb: nat)
      requires WellBehaved(m) && Usable() && bb in tcache.blocks
      ensures bb < tcache.array0.Length && tcache.array0[bb].Header?
      ensures Straight(Substituted(m), tcache.array0[bb].addr, tcache.blocks[bb])
    {
      assert BlockDecoded(m, tcache.array0[..], bb, tcache.blocks[bb]);
      BlockIs(m, tcache.array0[bb].addr);
    }

    /** `s` is what single steps of the substituted machine reach after the first `k` instructions of a block. */
    ghost predicate Running(start: S, s: S, insns: seq<Insn>, k: nat) {
      var m' := Substituted(m);
      WellBehaved(m') && k < |insns| && s == Steps(m', start, k) && Straight(m', m.pc(s), insns[k..])
    }

    lemma {:induction false} StartRun(start: S, insns: seq<Insn>)
      requires WellBehaved(m) && Straight(Substituted(m), m.pc(start), insns)
      ensures Running(start, start, insns, 0)
    {
      SubstitutedBehaves(m);
      assert insns[0..] == insns;
    }

    lemma {:induction false} RunOne(start: S, s: S, insns: seq<Insn>, k: nat)
      requires Running(start, s, insns, k)
      ensures m.exec(insns[k], s) == Steps(Substituted(m), start, k + 1)
      ensures s == Steps(Substituted(m), start, k) && insns[k] == Substituted(m).decode(m.pc(s))
      ensures k + 1 < |insns| ==> !m.taken(insns[k], s) && Running(start, m.exec(insns[k], s), insns, k + 1)
    {
      hide Straight, Substituted;
      var m' := Substituted(m);
      StraightStep(m', s, insns[k..]);
      StepsAdd(m', start, k, 1);
      assert Steps(m', s, 1) == Steps(m', Step(m', s), 0);
      assert insns[k..][0] == insns[k];
      assert insns[k..][1..] == insns[k + 1..];
    }

    /** Executes the instructions of the block at `bb`; `i` is the slot of the last. */
    method ExecuteBlock(bb: nat) returns (branched: bool, i: nat)
      requires WellBehaved(m) && tcache.Valid() && bb in tcache.blocks
      requires Straight(Substituted(m), m.pc(s), tcache.blocks[bb])
      modifies this`s
      ensures i == bb + 1 + |tcache.blocks[bb]| && LastStep(Substituted(m), old(s), s, |tcache.blocks[bb]|, branched)
    {
      hide *;
      ghost var insns, start := tcache.blocks[bb], s;
      tcache.BlockParts(bb, 0);
      StartRun(start, insns);
      i := bb + 2;
      while i < bb + 2 + tcache.array0[bb].count - 1
        invariant bb + 2 <= i < bb + 2 + |insns|
        invariant Running(start, s, insns, i - bb - 2)
      {
        tcache.BlockParts(bb, i - bb - 2);
        RunOne(start, s, insns, i - bb - 2);
        // A branch here would be the fatal "unexpected branch".
        assert !m.taken(tcache.array0[i].insn, s);
        s := m.exec(tcache.array0[i].insn, s);
        i := i + 1;
      }
      tcache.BlockParts(bb, i - bb - 2);
      var last := tcache.array0[i].insn;
      assert last == insns[|insns| - 1];
      RunLast(start, s, insns);
      branched := m.taken(last, s);
      s := m.exec(last, s);
    }

    lemma {:induction false} RunLast(start: S, s: S, insns: seq<Insn>)
      requires insns != [] && Running(start, s, insns, |insns| - 1)
      ensures LastStep(Substituted(m), start, m.exec(insns[|insns| - 1], s), |insns|, m.taken(insns[|insns| - 1], s))
    {
      hide Straight, Steps, Substituted;
      RunOne(start, s, insns, |insns| - 1);
    }

    /** Runs the block at the program counter, which the last block's pointer may already lead to, and
        leaves the pointer that the next block will confirm. */
    method RunBasicBlock() returns (branched: bool, ghost count: nat, ghost bb0: nat)
      requires WellBehaved(m) && Chained() && Runnable(m.pc(s))
      modifies this, tcache, tcache.array0, tcache.table
      ensures Chained() && tcache.flushed == old(tcache.flushed) + if old(NoFlush(m.pc(s))) then 0 else 1
      ensures old(tcache.HasBlockAt(m.pc(s))) ==> tcache.size == old(tcache.size) && tcache.blocks == old(tcache.blocks)
      ensures LastStep(Substituted(m), old(s), s, count, branched)
      ensures bb0 in tcache.blocks && count == |tcache.blocks[bb0]|
      ensures bb0 < tcache.array0.Length && tcache.array0[bb0].Header? && tcache.array0[bb0].addr == m.pc(old(s))
      ensures target == bb0 + 2 + count + if !branched && tcache.array0[bb0].conditional then 1 else 0
    {
      hide *;
      var bb := NextBlock();
      bb0 := bb;
      BlockFacts(bb);
      UsableParts();
      ghost var slots := tcache.array0[..];
      tcache.BlockParts(bb, 0);
      count := |tcache.blocks[bb]|;
      var i;
      branched, i := ExecuteBlock(bb);
      target := if branched then i + 1 else if tcache.array0[bb].conditional then i + 2 else i + 1;
      assert tcache.array0[..] == slots;
      Retargeted(slots, bb);
    }

    lemma {:induction false} UsableParts()
      requires Usable()
      ensures tcache.Valid() && BlocksDecoded(m, tcache.array0[..], tcache.blocks)
    {
    }

    lemma {:induction false} Retargeted(slots: seq<Slot>, bb: nat)
      requires tcache.Valid() && BlocksDecoded(m, slots, tcache.blocks) && tcache.array0[..] == slots
      requires tcache.EndsIn(bb, target) && target != 0
      ensures Chained()
    {
    }

    /** Whether the block at the program counter can be run: no fatal store conditional and no harmful flush. */
    method Ready() returns (ready: bool)
      requires tcache.Valid()
      ensures ready <==> Runnable(m.pc(s))
    {
      hide *;
      var pc := m.pc(s);
      Flushes(pc);
      var bb := tcache.Find(pc);
      var n := |Block(m, pc)|;
      var fits := tcache.size + Extent(Block(m, pc)) <= tcache.array0.Length ||
        (2 + Extent(Block(m, pc)) <= tcache.array0.Length && (target == 0 || 4 + n <= target));
      ready := pc != 0 && (bb != 0 || (fits && !Aborts(m, pc)));
    }

    /** Any number of blocks takes the processor where as many single steps of the substituted machine take it
        as the blocks have instructions.  The run stops early only at program counter 0, before a fatal store
        conditional and before a flush that would do harm. */
    method RunBlocks(n: nat) returns (done: nat, ghost count: nat)
      requires WellBehaved(m) && Chained()
      modifies this, tcache, tcache.array0, tcache.table
      ensures Chained() && old(tcache.flushed) <= tcache.flushed <= old(tcache.flushed) + done
      ensures done <= count && s == Steps(Substituted(m), old(s), count)
      ensures done == n || (done < n && !Runnable(m.pc(s)))
      ensures done < n ==>
        (var pc := m.pc(s);
          var block := Block(m, pc);
          var need := 2 + |block| + if block[|block| - 1].conditional then 2 else 1;
          pc == 0 || (!tcache.HasBlockAt(pc) && (Aborts(m, pc) || (tcache.array0.Length < tcache.size + need &&
            (tcache.array0.Length < 2 + need || (target != 0 && target < 4 + |block|))))))
    {
      hide *;
      ghost var start := s;
      done, count := 0, 0;
      NoSteps(start);
      ChainedParts();
      var ready := Ready();
      while done < n && ready
        invariant Chained() && old(tcache.flushed) <= tcache.flushed <= old(tcache.flushed) + done
        invariant done <= count && s == Steps(Substituted(m), start, count) && done <= n
        invariant ready <==> Runnable(m.pc(s))
      {
        ghost var more, bb, was := 0, 0, s;
        var branched;
        branched, more, bb := RunBasicBlock();
        RunOn(start, count, was, more, branched);
        done, count := done + 1, count + more;
        ChainedParts();
        ready := Ready();
      }
      WhyStopped();
    }

    /** When the block at the program counter cannot be run. */
    lemma {:induction false} WhyStopped()
      ensures var pc := m.pc(s);
        var block := Block(m, pc);
        var need := 2 + |block| + if block[|block| - 1].conditional then 2 else 1;
        !Runnable(pc) <==>
          pc == 0 || (!tcache.HasBlockAt(pc) && (Aborts(m, pc) || (tcache.array0.Length < tcache.size + need &&
            (tcache.array0.Length < 2 + need || (target != 0 && target < 4 + |block|)))))
    {
      hide Block, Aborts;
    }

    lemma {:induction false} RunOn(start: S, count: nat, was: S, more: nat, branched: bool)
      requires was == Steps(Substituted(m), start, count) && LastStep(Substituted(m), was, s, more, branched)
      ensures s == Steps(Substituted(m), start, count + more) && 0 < more
    {
      hide Steps, Substituted;
      StepsAdd(Substituted(m), start, count, more);
    }

    lemma {:induction false} NoSteps(start: S)
      ensures Steps(Substituted(m), start, 0) == start
    {
    }

    /** The block for the program counter, with the pointer that led to it redirected to it. */
    method NextBlock() returns (bb: nat)
      requires Chained() && Runnable(m.pc(s))
      modifies this`mismatchTarget, tcache, tcache.array0, tcache.table
      ensures Usable() && (old(NoFlush(m.pc(s))) ==> Chained())
      ensures tcache.flushed == old(tcache.flushed) + if old(NoFlush(m.pc(s))) then 0 else 1
      ensures old(tcache.HasBlockAt(m.pc(s))) ==> tcache.size == old(tcache.size) && tcache.blocks == old(tcache.blocks)
      ensures bb in tcache.blocks && bb < tcache.array0.Length && tcache.array0[bb].Header?
      ensures tcache.array0[bb].addr == m.pc(s)
      ensures if target == 0 then mismatchTarget == bb
        else target < tcache.array0.Length && tcache.array0[target] == Pointer(bb)
    {
      hide *;
      ChainedParts();
      Flushes(m.pc(s));
      tcache.ValidParts();
      var to := mismatchTarget;
      if target != 0 {
        ghost var i :| Ends(tcache.blocks, i, target);
        PointerParts(i);
        to := tcache.array0[target].to;
      }
      if to != 0 && tcache.array0[to].addr == m.pc(s) {
        bb := to;
        tcache.Found(bb, m.pc(s));
      } else {
        bb := FindBB(m.pc(s));
      }
      Redirect(bb, m.pc(s), old(NoFlush(m.pc(s))));
    }

    /** Redirects the last block's pointer to the block at `bb`, found for address `pc` with or without a flush. */
    method Redirect(bb: nat, ghost pc: nat, ghost noFlush: bool)
      requires tcache.Valid() && BlocksDecoded(m, tcache.array0[..], tcache.blocks) && bb in tcache.blocks
      requires noFlush ==> Chained()
      requires !noFlush ==> tcache.blocks == map[2 := Block(m, pc)] && tcache.size == 2 + Extent(Block(m, pc))
      requires !noFlush ==> target == 0 || 4 + |Block(m, pc)| <= target < tcache.array0.Length
      modifies this`mismatchTarget, tcache.array0
      ensures Usable() && (noFlush ==> Chained())
      ensures forall i :: i in tcache.blocks ==> i < tcache.array0.Length && tcache.array0[i] == old(tcache.array0[i])
      ensures if target == 0 then mismatchTarget == bb
        else target < tcache.array0.Length && tcache.array0[target] == Pointer(bb)
    {
      hide *;
      tcache.ValidParts();
      if target == 0 {
        mismatchTarget := bb;
        OwnPointer();
        ChainedIsUsable();
      } else {
        ghost var i: nat := 2;
        if noFlush {
          ChainedParts();
          i :| Ends(tcache.blocks, i, target);
          PointerParts(i);
        } else {
          BehindFlush(pc);
        }
        ghost var slots := tcache.array0[..];
        tcache.SetPointer(i, target, bb);
        StillUsable(slots, target, bb);
        if noFlush {
          OwnPointerAt(i);
        }
      }
    }

    lemma {:induction false} ChainedIsUsable()
      requires Chained()
      ensures Usable()
    {
    }

    lemma {:induction false} OwnPointerAt(i: nat)
      requires Usable() && Ends(tcache.blocks, i, target)
      ensures Chained()
    {
      assert tcache.EndsIn(i, target);
    }

    /** Where a pointer lies that a flush has left behind without harm. */
    lemma {:induction false} BehindFlush(pc: nat)
      requires tcache.Valid() && tcache.blocks == map[2 := Block(m, pc)]
      requires tcache.size == 2 + Extent(Block(m, pc)) && 4 + |Block(m, pc)| <= target < tcache.array0.Length
      ensures (tcache.EndsIn(2, target) || tcache.size <= target < tcache.array0.Length) && target !in tcache.blocks
    {
      hide Block;
    }
  }
}
