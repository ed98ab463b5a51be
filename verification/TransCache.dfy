/** The translation cache (`Tcache_t` in caveat/caveat.h and caveat/hart.cc): basic blocks laid out one
    after another in an array of slots, found by address through a hash table of chains. */
module TransCache {
  /** The opcodes that `substitute_cas` tells apart. */
  datatype Opcode = LrW | LrD | ScW | ScD | CasW | CasD | Bne | CBnez | OtherOpcode(code: nat)

  /** A decoded instruction, with the attributes of its opcode that delimit basic blocks. */
  datatype Insn = Insn(opcode: Opcode, rd: nat, rs1: nat, rs2: nat, rs3: nat, imm: int, compressed: bool,
    stopBefore: bool, stopAfter: bool, conditional: bool)

  /** A 64-bit slot: the two slots of a header, a translated instruction, or a pointer to a header.  A
      link of 0 stands for the end of a chain, a pointer to 0 for the mismatch header. */
  datatype Slot = Unused | Header(addr: nat, conditional: bool, count: nat, length: nat, link: nat) | HeaderRest |
    Code(insn: Insn) | Pointer(to: nat)

  /** The slots from a block's header to the end of its last pointer. */
  function Extent(insns: seq<Insn>): nat
    requires insns != []
  {
    2 + |insns| + if insns[|insns| - 1].conditional then 2 else 1
  }

  /** A block of the instructions `insns` at slot `i`; its pointers lead to `heads` or nowhere. */
  ghost predicate BlockAt(slots: seq<Slot>, i: nat, insns: seq<Insn>, heads: set<nat>) {
    insns != [] && i + Extent(insns) <= |slots| && slots[i].Header? &&
    slots[i].conditional == insns[|insns| - 1].conditional && slots[i].count == |insns| &&
    slots[i + 1] == HeaderRest &&
    (forall k :: i + 2 <= k < i + 2 + |insns| ==> slots[k] == Code(insns[k - i - 2])) &&
    (forall k :: i + 2 + |insns| <= k < i + Extent(insns) ==> PointsWithin(slots[k], heads))
  }

  ghost predicate PointsWithin(slot: Slot, heads: set<nat>) {
    slot.Pointer? && (slot.to == 0 || slot.to in heads)
  }

  /** Slot `l` is the last header before slot `i` whose address falls into bucket `h`, or 0. */
  ghost predicate LastBefore(slots: seq<Slot>, blocks: map<nat, seq<Insn>>, buckets: nat, h: nat, i: nat, l: nat)
    requires 0 < buckets && forall j :: j in blocks ==> j < |slots| && slots[j].Header?
  {
    l < i && (l == 0 || (l in blocks && slots[l].addr % buckets == h)) &&
    forall j :: j in blocks && l < j < i ==> slots[j].addr % buckets != h
  }

  /** The layout: blocks that do not overlap, each with an address of its own, in the slots from 2. */
  ghost predicate Layout(slots: seq<Slot>, size: nat, blocks: map<nat, seq<Insn>>) {
    2 <= size <= |slots| && (forall i :: i in blocks ==> BlockAt(slots, i, blocks[i], blocks.Keys)) &&
    (forall i :: i in blocks ==> 2 <= i && i + Extent(blocks[i]) <= size) &&
    (forall i, j :: i in blocks && j in blocks && i < j ==> i + Extent(blocks[i]) <= j) &&
    (forall i, j :: i in blocks && j in blocks && slots[i].addr == slots[j].addr ==> i == j)
  }

  /** The index: each bucket and each header lead to the next earlier header of the bucket. */
  ghost predicate Indexed(slots: seq<Slot>, table: seq<nat>, size: nat, blocks: map<nat, seq<Insn>>)
    requires Layout(slots, size, blocks)
  {
    0 < |table| &&
    (forall h :: 0 <= h < |table| ==> LastBefore(slots, blocks, |table|, h, size, table[h])) &&
    (forall i :: i in blocks ==>
      LastBefore(slots, blocks, |table|, slots[i].addr % |table|, i, slots[i].link))
  }

  /** No block is at address `pc`. */
  ghost predicate Absent(slots: seq<Slot>, blocks: map<nat, seq<Insn>>, pc: nat) {
    forall i :: i in blocks ==> i < |slots| && slots[i].Header? && slots[i].addr != pc
  }

  /** The search for `pc` has come down to slot `bb`: the blocks from `limit` on are not it. */
  ghost predicate Searching(slots: seq<Slot>, blocks: map<nat, seq<Insn>>, buckets: nat, pc: nat, limit: nat,
      bb: nat)
    requires 0 < buckets && forall j :: j in blocks ==> j < |slots| && slots[j].Header?
  {
    LastBefore(slots, blocks, buckets, pc % buckets, limit, bb) &&
    forall j :: j in blocks && limit <= j ==> slots[j].addr != pc
  }

  lemma {:induction false} StartSearch(slots: seq<Slot>, table: seq<nat>, size: nat, blocks: map<nat, seq<Insn>>,
      pc: nat)
    requires Layout(slots, size, blocks) && Indexed(slots, table, size, blocks)
    ensures 0 < |table| && Searching(slots, blocks, |table|, pc, size, table[pc % |table|])
  {
  }

  lemma {:induction false} ContinueSearch(slots: seq<Slot>, table: seq<nat>, size: nat,
      blocks: map<nat, seq<Insn>>, pc: nat, limit: nat, bb: nat)
    requires Layout(slots, size, blocks) && Indexed(slots, table, size, blocks)
    requires Searching(slots, blocks, |table|, pc, limit, bb) && bb != 0
    ensures bb in blocks && bb < |slots| && slots[bb].Header?
    ensures slots[bb].addr != pc ==>
      slots[bb].link < bb && Searching(slots, blocks, |table|, pc, bb, slots[bb].link)
  {
    assert LastBefore(slots, blocks, |table|, slots[bb].addr % |table|, bb, slots[bb].link);
    forall j | j in blocks && bb <= j && slots[bb].addr != pc
      ensures slots[j].addr != pc
    {
    }
  }

  lemma {:induction false} EndSearch(slots: seq<Slot>, blocks: map<nat, seq<Insn>>, buckets: nat, pc: nat,
      limit: nat)
    requires 0 < buckets && forall j :: j in blocks ==> 0 < j < |slots| && slots[j].Header?
    requires Searching(slots, blocks, buckets, pc, limit, 0)
    ensures forall i :: i in blocks ==> slots[i].addr != pc
  {
    forall i | i in blocks
      ensures slots[i].addr != pc
    {
      if i < limit {
        assert slots[i].addr % buckets != pc % buckets;
      }
    }
  }

  /** A block appended behind the others. */
  lemma {:induction false} AppendLayout(slots: seq<Slot>, slots': seq<Slot>, size: nat,
      blocks: map<nat, seq<Insn>>, insns: seq<Insn>)
    requires Layout(slots, size, blocks) && |slots'| == |slots| && insns != []
    requires forall k :: 0 <= k < size ==> slots'[k] == slots[k]
    requires BlockAt(slots', size, insns, {}) && size < |slots| && slots'[size].Header?
    requires Headed(slots, blocks, size) && forall i :: i in blocks ==> slots[i].addr != slots'[size].addr
    ensures Layout(slots', size + Extent(insns), blocks[size := insns])
  {
    var blocks' := blocks[size := insns];
    forall i | i in blocks'
      ensures BlockAt(slots', i, blocks'[i], blocks'.Keys)
    {
      if i != size {
        assert BlockAt(slots, i, blocks[i], blocks.Keys);
        SameBlock(slots, slots', i, blocks[i], blocks.Keys, blocks'.Keys);
      } else {
        SameBlock(slots', slots', i, insns, {}, blocks'.Keys);
      }
    }
    forall i, j | i in blocks' && j in blocks' && slots'[i].addr == slots'[j].addr
      ensures i == j
    {
      if i != size {
        assert slots'[i] == slots[i];
      }
      if j != size {
        assert slots'[j] == slots[j];
      }
    }
  }

  lemma {:induction false} SameBlock(slots: seq<Slot>, slots': seq<Slot>, i: nat, insns: seq<Insn>,
      heads: set<nat>, heads': set<nat>)
    requires BlockAt(slots, i, insns, heads) && |slots'| == |slots| && heads <= heads'
    requires forall k :: i <= k < i + Extent(insns) ==> slots'[k] == slots[k]
    ensures BlockAt(slots', i, insns, heads')
  {
  }

  ghost predicate Headed(slots: seq<Slot>, blocks: map<nat, seq<Insn>>, limit: nat) {
    forall j :: j in blocks ==> 0 < j < limit <= |slots| && slots[j].Header?
  }

  lemma {:induction false} LayoutHeaded(slots: seq<Slot>, size: nat, blocks: map<nat, seq<Insn>>)
    requires Layout(slots, size, blocks)
    ensures Headed(slots, blocks, size)
  {
    forall j | j in blocks
      ensures 0 < j < size <= |slots| && slots[j].Header?
    {
      assert BlockAt(slots, j, blocks[j], blocks.Keys);
    }
  }

  /** What precedes an earlier slot does not change when a block is appended. */
  lemma {:induction false} LastKept(slots: seq<Slot>, slots': seq<Slot>, blocks: map<nat, seq<Insn>>,
      insns: seq<Insn>, buckets: nat, h: nat, size: nat, i: nat, l: nat)
    requires 0 < buckets && Headed(slots, blocks, size) && |slots'| == |slots| && i <= size < |slots|
    requires forall k :: 0 <= k < size ==> slots'[k] == slots[k]
    requires slots'[size].Header? && LastBefore(slots, blocks, buckets, h, i, l)
    ensures LastBefore(slots', blocks[size := insns], buckets, h, i, l)
  {
  }

  /** The appended block comes last in its bucket and leaves the other buckets as they were. */
  lemma {:induction false} LastAppended(slots: seq<Slot>, slots': seq<Slot>, blocks: map<nat, seq<Insn>>,
      insns: seq<Insn>, buckets: nat, h: nat, size: nat, end: nat, l: nat)
    requires 0 < buckets && Headed(slots, blocks, size) && |slots'| == |slots| && size < end && size < |slots|
    requires forall k :: 0 <= k < size ==> slots'[k] == slots[k]
    requires slots'[size].Header? && LastBefore(slots, blocks, buckets, h, size, l)
    ensures LastBefore(slots', blocks[size := insns], buckets, h, end,
      if slots'[size].addr % buckets == h then size else l)
  {
  }

  /** Its header put at the front of its bucket's chain. */
  lemma {:induction false} AppendIndex(slots: seq<Slot>, slots': seq<Slot>, table: seq<nat>, table': seq<nat>,
      size: nat, blocks: map<nat, seq<Insn>>, insns: seq<Insn>)
    requires Layout(slots, size, blocks) && Indexed(slots, table, size, blocks) && insns != []
    requires Layout(slots', size + Extent(insns), blocks[size := insns]) && size < |slots|
    requires |slots'| == |slots| && forall k :: 0 <= k < size ==> slots'[k] == slots[k]
    requires slots'[size].Header?
    requires var h := slots'[size].addr % |table|;
      slots'[size].link == table[h] && table' == table[h := size]
    ensures Indexed(slots', table', size + Extent(insns), blocks[size := insns])
  {
    var blocks', end, buckets := blocks[size := insns], size + Extent(insns), |table|;
    LayoutHeaded(slots, size, blocks);
    LayoutHeaded(slots', end, blocks');
    hide Layout, LastBefore, Extent, BlockAt;
    forall h | 0 <= h < buckets
      ensures LastBefore(slots', blocks', buckets, h, end, table'[h])
    {
      LastAppended(slots, slots', blocks, insns, buckets, h, size, end, table[h]);
    }
    forall i | i in blocks'
      ensures LastBefore(slots', blocks', buckets, slots'[i].addr % buckets, i, slots'[i].link)
    {
      if i != size {
        LastKept(slots, slots', blocks, insns, buckets, slots[i].addr % buckets, size, i, slots[i].link);
      } else {
        LastKept(slots, slots', blocks, insns, buckets, slots'[i].addr % buckets, size, size, slots'[i].link);
      }
    }
  }

  class Tcache {
    const array0: array<Slot>
    const table: array<nat>
    var size: nat
    var flushed: nat
    /** The instructions of each block, by the slot of its header. */
    ghost var blocks: map<nat, seq<Insn>>

    ghost predicate Valid()
      reads this, array0, table
    {
      Layout(array0[..], size, blocks) && Indexed(array0[..], table[..], size, blocks)
    }

    constructor (capacity: nat, buckets: nat)
      requires 2 <= capacity && 0 < buckets
      ensures Valid() && blocks == map[] && size == 2 && flushed == 0
      ensures array0.Length == capacity && table.Length == buckets && fresh(array0) && fresh(table)
    {
      array0 := new Slot[capacity](_ => Unused);
      table := new nat[buckets](_ => 0);
      size, flushed, blocks := 2, 0, map[];
    }

    /** The block at address `pc`, if there is one. */
    method Find(pc: nat) returns (bb: nat)
      requires Valid()
      ensures bb != 0 ==> bb in blocks && bb < array0.Length && array0[bb].Header? && array0[bb].addr == pc
      ensures bb == 0 ==> NoBlockAt(pc)
      ensures bb != 0 <==> HasBlockAt(pc)
    {
      hide *;
      ValidParts();
      StartSearch(array0[..], table[..], size, blocks, pc);
      bb := table[pc % table.Length];
      ghost var limit := size;
      while bb != 0
        invariant Searching(array0[..], blocks, table.Length, pc, limit, bb)
        decreases bb
      {
        ContinueSearch(array0[..], table[..], size, blocks, pc, limit, bb);
        if array0[bb].addr == pc {
          Found(bb, pc);
          return;
        }
        limit := bb;
        bb := array0[bb].link;
      }
      EndSearch(array0[..], blocks, table.Length, pc, limit);
      NoneFound(pc);
      NotBoth(pc);
    }

    ghost predicate HasBlockAt(pc: nat)
      reads this, array0
    {
      exists i :: i in blocks && i < array0.Length && array0[i].Header? && array0[i].addr == pc
    }

    lemma {:induction false} Found(bb: nat, pc: nat)
      requires bb in blocks && bb < array0.Length && array0[bb].Header? && array0[bb].addr == pc
      ensures HasBlockAt(pc)
    {
    }

    lemma {:induction false} NotBoth(pc: nat)
      requires NoBlockAt(pc)
      ensures !HasBlockAt(pc)
    {
      assert forall i :: i in blocks ==> i < array0.Length && array0[..][i] == array0[i];
    }

    ghost predicate NoBlockAt(pc: nat)
      reads this, array0
    {
      Absent(array0[..], blocks, pc)
    }

    lemma {:induction false} ValidParts()
      requires Valid()
      ensures Layout(array0[..], size, blocks) && Indexed(array0[..], table[..], size, blocks)
      ensures 0 < table.Length && 2 <= size <= array0.Length
      ensures forall j :: j in blocks ==> 0 < j < size && array0[j].Header?
    {
    }

    lemma {:induction false} NoneFound(pc: nat)
      requires forall j :: j in blocks ==> 0 < j < array0.Length && array0[j].Header?
      requires forall i :: i in blocks ==> array0[..][i].addr != pc
      ensures NoBlockAt(pc)
    {
    }

    /** Flushes the cache. */
    method Clear()
      requires Valid()
      modifies this, table
      ensures Valid() && blocks == map[] && size == 2 && flushed == old(flushed) + 1
    {
      forall h | 0 <= h < table.Length {
        table[h] := 0;
      }
      size := 2;
      flushed := flushed + 1;
      blocks := map[];
    }

    /** Copies a block of `n` slots into the cache and enters it in the index.  The cache is flushed
        first when the block does not fit any more. */
    method Add(wbb: array<Slot>, n: nat, ghost insns: seq<Insn>) returns (bb: nat)
      requires Valid() && wbb != array0 && n + 2 <= array0.Length && insns != []
      requires n == Extent(insns) && n <= wbb.Length && BlockAt(wbb[..], 0, insns, {})
      requires NoBlockAt(wbb[0].addr)
      modifies this, array0, table
      ensures Valid() && bb in blocks && bb < array0.Length && array0[bb].Header?
      ensures array0[bb].addr == old(wbb[0].addr) && blocks[bb] == insns
      ensures flushed == old(flushed) + if array0.Length < old(size) + n then 1 else 0
      ensures blocks == if flushed == old(flushed) then old(blocks)[bb := insns] else map[bb := insns]
      ensures bb == (if flushed == old(flushed) then old(size) else 2) && size == bb + n
      ensures flushed == old(flushed) ==> forall k :: 0 <= k < old(size) ==> array0[k] == old(array0[k])
    {
      hide *;
      ValidParts();
      Fits(insns, wbb[..]);
      ghost var h0 := wbb[0].addr;
      if array0.Length < size + n {
        Clear();
        ValidParts();
        Emptied(h0);
      }
      NoBlockIs(h0);
      ghost var slots, links, before, flushes := array0[..], table[..], blocks, flushed;
      bb := size;
      for k := 0 to n
        invariant size == bb && table[..] == links && blocks == before && flushed == flushes
        invariant forall j :: 0 <= j < array0.Length ==>
          array0[j] == if bb <= j < bb + k then wbb[j - bb] else slots[j]
      {
        array0[bb + k] := wbb[k];
      }
      size := size + n;
      var h := array0[bb].addr % table.Length;
      array0[bb] := array0[bb].(link := table[h]);
      table[h] := bb;
      blocks := blocks[bb := insns];
      Appended(slots, links, before, bb, insns, wbb[..]);
    }

    /** The copy loop as it is written: it takes `n` elements of the size of a header, which is two slots, and
        so reads and writes twice the block.  Where that stays within the buffer and the cache, as is
        required here, the surplus lands behind the block, and the cache is what `Add` makes it. */
    method AddAsWritten(wbb: array<Slot>, n: nat, ghost insns: seq<Insn>) returns (bb: nat)
      requires Valid() && wbb != array0 && insns != []
      requires n == Extent(insns) && n <= wbb.Length && BlockAt(wbb[..], 0, insns, {})
      requires NoBlockAt(wbb[0].addr) && CopyInBounds(n, wbb.Length)
      modifies this, array0, table
      ensures Valid() && bb in blocks && bb < array0.Length && array0[bb].Header?
      ensures array0[bb].addr == old(wbb[0].addr) && blocks[bb] == insns
      ensures flushed == old(flushed) + if array0.Length < old(size) + n then 1 else 0
      ensures blocks == if flushed == old(flushed) then old(blocks)[bb := insns] else map[bb := insns]
      ensures bb == if flushed == old(flushed) then old(size) else 2
      ensures size == bb + n && bb + 2 * n <= array0.Length
      ensures forall k :: bb < k < bb + 2 * n ==> array0[k] == old(wbb[k - bb])
      ensures forall k :: 0 <= k < bb || bb + 2 * n <= k < array0.Length ==> array0[k] == old(array0[k])
    {
      hide *;
      ValidParts();
      BoundsAre(n, wbb.Length);
      Fits(insns, wbb[..]);
      ghost var h0 := wbb[0].addr;
      if array0.Length < size + n {
        Clear();
        ValidParts();
        Emptied(h0);
      }
      NoBlockIs(h0);
      ghost var slots, links, before, flushes := array0[..], table[..], blocks, flushed;
      bb := size;
      for k := 0 to n
        invariant size == bb && table[..] == links && blocks == before && flushed == flushes
        invariant forall j :: 0 <= j < array0.Length ==>
          array0[j] == if bb <= j < bb + 2 * k then wbb[j - bb] else slots[j]
      {
        array0[bb + 2 * k], array0[bb + 2 * k + 1] := wbb[2 * k], wbb[2 * k + 1];
      }
      size := size + n;
      var h := array0[bb].addr % table.Length;
      array0[bb] := array0[bb].(link := table[h]);
      table[h] := bb;
      blocks := blocks[bb := insns];
      Appended(slots, links, before, bb, insns, wbb[..]);
    }

    /** Whether copying 2n slots, after a flush if n slots do not fit, stays within a buffer of `have` slots
        (140 in `find_bb`) and within the cache. */
    predicate CopyInBounds(n: nat, have: nat)
      reads this
    {
      2 * n <= have && (if array0.Length < size + n then 2 else size) + 2 * n <= array0.Length
    }

    lemma {:induction false} BoundsAre(n: nat, have: nat)
      ensures var bb := if array0.Length < size + n then 2 else size;
        CopyInBounds(n, have) <==> 2 * n <= have && bb + 2 * n <= array0.Length
    {
    }

    lemma {:induction false} NoBlockIs(pc: nat)
      requires NoBlockAt(pc)
      ensures Absent(array0[..], blocks, pc)
    {
    }

    lemma {:induction false} Fits(insns: seq<Insn>, wbb: seq<Slot>)
      requires insns != [] && Extent(insns) <= |wbb| && BlockAt(wbb, 0, insns, {})
      ensures 3 < Extent(insns) && wbb[0].Header?
    {
    }

    lemma {:induction false} Emptied(pc: nat)
      requires blocks == map[]
      ensures NoBlockAt(pc)
    {
    }

    /** The cache after a block was copied behind the others and entered in the index. */
    lemma {:induction false} Appended(slots: seq<Slot>, table0: seq<nat>, before: map<nat, seq<Insn>>, bb: nat,
        insns: seq<Insn>, wbb: seq<Slot>)
      requires Layout(slots, bb, before) && Indexed(slots, table0, bb, before) && |slots| == array0.Length
      requires insns != [] && Extent(insns) <= |wbb| && BlockAt(wbb, 0, insns, {}) && bb + Extent(insns) <= |slots|
      requires 0 < |table0| && wbb[0].Header? && Absent(slots, before, wbb[0].addr)
      requires size == bb + Extent(insns) && blocks == before[bb := insns]
      requires table[..] == table0[wbb[0].addr % |table0| := bb]
      requires array0[bb] == wbb[0].(link := table0[wbb[0].addr % |table0|])
      requires forall j :: 0 <= j < bb ==> array0[j] == slots[j]
      requires forall j :: bb < j < size ==> array0[j] == wbb[j - bb]
      ensures Valid()
    {
      hide BlockAt, Layout, Indexed, Extent;
      Fits(insns, wbb);
      LayoutHeaded(slots, bb, before);
      assert array0[..][bb] == wbb[0].(link := table0[wbb[0].addr % |table0|]);
      MovedBlock(wbb, array0[..], bb, insns);
      AppendLayout(slots, array0[..], bb, before, insns);
      AppendIndex(slots, array0[..], table0, table[..], bb, before, insns);
    }

    /** Whether slot `t` is one of the pointers that end the block at `i`. */
    ghost predicate EndsIn(i: nat, t: nat)
      reads this
    {
      Ends(blocks, i, t)
    }

    /** Redirects a pointer, or one left over from before a flush behind the blocks; headers, instructions and
        the index stay as they are. */
    method SetPointer(ghost i: nat, t: nat, bb: nat)
      requires Valid() && (EndsIn(i, t) || size <= t < array0.Length) && bb in blocks
      modifies array0
      ensures Valid() && t < array0.Length && array0[..] == old(array0[..])[t := Pointer(bb)]
    {
      hide *;
      ValidParts();
      if EndsIn(i, t) {
        EndIsPointer(i, t);
      }
      ghost var slots := array0[..];
      array0[t] := Pointer(bb);
      LooseIs(i, t);
      Redirected(slots, array0[..], table[..], size, blocks, i, t, bb);
      ValidAgain();
    }

    lemma {:induction false} LooseIs(i: nat, t: nat)
      requires EndsIn(i, t) || size <= t
      ensures Loose(blocks, size, i, t)
    {
    }

    lemma {:induction false} EndIsPointer(i: nat, t: nat)
      requires Valid() && EndsIn(i, t)
      ensures 2 <= t < size <= array0.Length && array0[t].Pointer? && Ends(blocks, i, t)
      ensures array0[t].to == 0 || array0[t].to in blocks
    {
      assert BlockAt(array0[..], i, blocks[i], blocks.Keys);
      assert PointsWithin(array0[..][t], blocks.Keys);
    }

    /** What the slots of a block hold. */
    lemma {:induction false} BlockParts(bb: nat, k: nat)
      requires Valid() && bb in blocks
      ensures bb + 2 + |blocks[bb]| < array0.Length && 0 < |blocks[bb]| && array0[bb].Header?
      ensures array0[bb].count == |blocks[bb]|
      ensures array0[bb].conditional == blocks[bb][|blocks[bb]| - 1].conditional
      ensures k < |blocks[bb]| ==> array0[bb + 2 + k] == Code(blocks[bb][k])
      ensures EndsIn(bb, bb + 2 + |blocks[bb]|)
      ensures array0[bb].conditional ==> EndsIn(bb, bb + 3 + |blocks[bb]|)
    {
      assert BlockAt(array0[..], bb, blocks[bb], blocks.Keys);
      assert k < |blocks[bb]| ==> array0[..][bb + 2 + k] == Code(blocks[bb][bb + 2 + k - bb - 2]);
    }

    lemma {:induction false} ValidAgain()
      requires Layout(array0[..], size, blocks) && Indexed(array0[..], table[..], size, blocks)
      ensures Valid()
    {
    }
  }

  ghost predicate Ends(blocks: map<nat, seq<Insn>>, i: nat, t: nat) {
    i in blocks && blocks[i] != [] && i + 2 + |blocks[i]| <= t < i + Extent(blocks[i])
  }

  /** The pointers that redirecting may write: those of the blocks, and what lies behind the blocks. */
  ghost predicate Loose(blocks: map<nat, seq<Insn>>, size: nat, i: nat, t: nat) {
    Ends(blocks, i, t) || size <= t
  }

  /** Such a slot holds no header and no instruction. */
  lemma {:induction false} PointerApart(slots: seq<Slot>, size: nat, blocks: map<nat, seq<Insn>>, i: nat, t: nat,
      j: nat)
    requires Layout(slots, size, blocks) && Loose(blocks, size, i, t) && j in blocks
    ensures t != j && t != j + 1 && !(j + 2 <= t < j + 2 + |blocks[j]|)
  {
    assert BlockAt(slots, j, blocks[j], blocks.Keys);
    if Ends(blocks, i, t) {
      assert BlockAt(slots, i, blocks[i], blocks.Keys);
    }
  }

  lemma {:induction false} RedirectedBlock(slots: seq<Slot>, t: nat, bb: nat, j: nat, insns: seq<Insn>,
      heads: set<nat>)
    requires BlockAt(slots, j, insns, heads) && t < |slots| && bb in heads
    requires t != j && t != j + 1 && !(j + 2 <= t < j + 2 + |insns|)
    ensures BlockAt(slots[t := Pointer(bb)], j, insns, heads) && slots[t := Pointer(bb)][j] == slots[j]
  {
  }

  lemma {:induction false} LastSame(slots: seq<Slot>, slots': seq<Slot>, blocks: map<nat, seq<Insn>>,
      buckets: nat, h: nat, i: nat, l: nat)
    requires 0 < buckets && |slots'| == |slots|
    requires forall j :: j in blocks ==> j < |slots| && slots[j].Header? && slots'[j] == slots[j]
    requires LastBefore(slots, blocks, buckets, h, i, l)
    ensures LastBefore(slots', blocks, buckets, h, i, l)
  {
  }

  lemma {:induction false} RedirectedLayout(slots: seq<Slot>, size: nat, blocks: map<nat, seq<Insn>>, i: nat,
      t: nat, bb: nat)
    requires Layout(slots, size, blocks) && Loose(blocks, size, i, t) && t < |slots| && bb in blocks
    ensures Layout(slots[t := Pointer(bb)], size, blocks)
    ensures forall j :: j in blocks ==> j < |slots| && slots[j].Header? && slots[t := Pointer(bb)][j] == slots[j]
  {
    var slots' := slots[t := Pointer(bb)];
    forall j | j in blocks
      ensures BlockAt(slots', j, blocks[j], blocks.Keys)
      ensures j < |slots| && slots[j].Header? && slots'[j] == slots[j]
    {
      assert BlockAt(slots, j, blocks[j], blocks.Keys);
      PointerApart(slots, size, blocks, i, t, j);
      RedirectedBlock(slots, t, bb, j, blocks[j], blocks.Keys);
    }
    hide BlockAt, Extent;
  }

  lemma {:induction false} Redirected(slots: seq<Slot>, slots': seq<Slot>, table: seq<nat>, size: nat,
      blocks: map<nat, seq<Insn>>, i: nat, t: nat, bb: nat)
    requires Layout(slots, size, blocks) && Indexed(slots, table, size, blocks)
    requires Loose(blocks, size, i, t) && t < |slots| && bb in blocks && slots' == slots[t := Pointer(bb)]
    ensures Layout(slots', size, blocks) && Indexed(slots', table, size, blocks)
  {
    hide Layout, LastBefore, Loose;
    RedirectedLayout(slots, size, blocks, i, t, bb);
    forall h | 0 <= h < |table|
      ensures LastBefore(slots', blocks, |table|, h, size, table[h])
    {
      LastSame(slots, slots', blocks, |table|, h, size, table[h]);
    }
    forall j | j in blocks
      ensures LastBefore(slots', blocks, |table|, slots'[j].addr % |table|, j, slots'[j].link)
    {
      LastSame(slots, slots', blocks, |table|, slots[j].addr % |table|, j, slots[j].link);
    }
  }

  /** A block copied to slot `bb`, with another link in its header. */
  lemma {:induction false} MovedBlock(wbb: seq<Slot>, slots: seq<Slot>, bb: nat, insns: seq<Insn>)
    requires insns != [] && Extent(insns) <= |wbb| && BlockAt(wbb, 0, insns, {}) && bb + Extent(insns) <= |slots|
    requires slots[bb].Header? && slots[bb].conditional == wbb[0].conditional && slots[bb].count == wbb[0].count
    requires forall j :: bb < j < bb + Extent(insns) ==> slots[j] == wbb[j - bb]
    ensures BlockAt(slots, bb, insns, {})
  {
  }

  /** The pointer to the only block, written to a slot `t` that was a pointer before a flush, leaves the block as
      it is exactly if the slot is not one of its header and its instructions. */
  lemma {:induction false} StalePointer(slots: seq<Slot>, insns: seq<Insn>, t: nat)
    requires BlockAt(slots, 2, insns, {2}) && 2 <= t < |slots|
    ensures BlockAt(slots[t := Pointer(2)], 2, insns, {2}) <==> 4 + |insns| <= t
  {
    var slots' := slots[t := Pointer(2)];
    if t < 4 + |insns| {
      assert slots'[t] == Pointer(2);
    } else {
      RedirectedBlock(slots, t, 2, 2, insns, {2});
    }
  }
}
