/** Instruction by instruction execution, the straight-line code of a basic block (`hart_t::find_bb` in
    caveat/hart.cc), and the compare-and-swap that takes the place of a store conditional
    (`substitute_cas` there). */
module Machines {
  import opened TransCache

  datatype Option<T> = None | Some(value: T)

  /** What decoding and executing an instruction does: the generated decoder and semantics, given as
      functions of code memory and of the processor state. */
  datatype Machine<!S> = Machine(decode: nat -> Insn, exec: (Insn, S) -> S, taken: (Insn, S) -> bool, pc: S -> nat)

  function Length(insn: Insn): nat {
    if insn.compressed then 2 else 4
  }

  predicate IsStoreConditional(insn: Insn) {
    insn.opcode == ScW || insn.opcode == ScD
  }

  /** An instruction that does not end a block falls through to the next one; and a store conditional ends its
      block and is 4 bytes long (opcodes/RV-CG.def:153, 165). */
  ghost predicate WellBehaved<S(!new)>(m: Machine<S>) {
    (forall s: S :: FallsThrough(m, m.decode(m.pc(s)), s)) &&
    forall pc: nat :: IsStoreConditional(m.decode(pc)) ==> m.decode(pc).stopAfter && !m.decode(pc).compressed
  }

  ghost predicate FallsThrough<S>(m: Machine<S>, i: Insn, s: S) {
    !i.stopAfter ==> !m.taken(i, s) && m.pc(m.exec(i, s)) == m.pc(s) + Length(i)
  }

  /** One instruction, fetched, decoded and executed. */
  function Step<S>(m: Machine<S>, s: S): S {
    m.exec(m.decode(m.pc(s)), s)
  }

  function Steps<S>(m: Machine<S>, s: S, k: nat): S {
    if k == 0 then s else Steps(m, Step(m, s), k - 1)
  }

  /** `count` single steps lead from `start` to `s`, and the last of them branches or not as said. */
  ghost predicate LastStep<S>(m: Machine<S>, start: S, s: S, count: nat, branched: bool) {
    0 < count && s == Steps(m, start, count) &&
    var last := Steps(m, start, count - 1);
    branched == m.taken(m.decode(m.pc(last)), last)
  }

  lemma {:induction false} StepsAdd<S>(m: Machine<S>, s: S, j: nat, k: nat)
    ensures Steps(m, Steps(m, s, j), k) == Steps(m, s, j + k)
  {
    if j > 0 {
      StepsAdd(m, Step(m, s), j - 1, k);
    }
  }

  /** The instructions decoded one after another from `addr`, of which only the last may end a block. */
  ghost predicate Straight<S>(m: Machine<S>, addr: nat, insns: seq<Insn>)
    decreases |insns|
  {
    insns != [] && insns[0] == m.decode(addr) &&
    (1 < |insns| ==> !insns[0].stopAfter && Straight(m, addr + Length(insns[0]), insns[1..]))
  }

  function Bytes(insns: seq<Insn>): nat {
    if insns == [] then 0 else Length(insns[0]) + Bytes(insns[1..])
  }

  lemma {:induction false} BytesAppend(insns: seq<Insn>, next: Insn)
    ensures Bytes(insns + [next]) == Bytes(insns) + Length(next)
  {
    if insns == [] {
      assert insns + [next] == [next];
    } else {
      BytesAppend(insns[1..], next);
      assert (insns + [next])[1..] == insns[1..] + [next];
    }
  }

  function CompressedIn(insns: seq<Insn>): nat {
    if insns == [] then 0 else (if insns[0].compressed then 1 else 0) + CompressedIn(insns[1..])
  }

  /** Each instruction of straight code is decoded behind those before it, of 4 bytes or, compressed, of 2. */
  lemma {:induction false} StraightAt<S>(m: Machine<S>, addr: nat, insns: seq<Insn>, k: nat)
    requires Straight(m, addr, insns) && k < |insns|
    ensures 2 * CompressedIn(insns[..k]) <= 4 * k
    ensures insns[k] == m.decode(addr + 4 * k - 2 * CompressedIn(insns[..k]))
    ensures k + 1 < |insns| ==> !insns[k].stopAfter
    decreases k
  {
    if k > 0 {
      StraightAt(m, addr + Length(insns[0]), insns[1..], k - 1);
      assert insns[..k][1..] == insns[1..][..k - 1];
    }
  }

  lemma {:induction false} StraightAppend<S>(m: Machine<S>, addr: nat, insns: seq<Insn>)
    requires Straight(m, addr, insns) && !insns[|insns| - 1].stopAfter
    ensures Straight(m, addr, insns + [m.decode(addr + Bytes(insns))])
    decreases |insns|
  {
    var next := m.decode(addr + Bytes(insns));
    if |insns| == 1 {
      assert (insns + [next])[1..] == [next];
      assert Bytes(insns) == Length(insns[0]) + Bytes(insns[1..]);
    } else {
      StraightAppend(m, addr + Length(insns[0]), insns[1..]);
      assert (insns + [next])[1..] == insns[1..] + [next];
    }
  }

  /** One instruction of a straight block executed: the rest is straight from where that leads. */
  lemma {:induction false} StraightStep<S(!new)>(m: Machine<S>, s: S, insns: seq<Insn>)
    requires WellBehaved(m) && Straight(m, m.pc(s), insns)
    ensures insns[0] == m.decode(m.pc(s)) && m.exec(insns[0], s) == Step(m, s)
    ensures 1 < |insns| ==> !m.taken(insns[0], s) && Straight(m, m.pc(Step(m, s)), insns[1..])
  {
  }

  /** What has been decoded from `pc`, none of it ending the block. */
  ghost predicate DecodedSoFar<S>(m: Machine<S>, pc: nat, insns: seq<Insn>, dpc: nat) {
    dpc == pc + Bytes(insns) && (insns == [] || (Straight(m, pc, insns) && !insns[|insns| - 1].stopAfter))
  }

  /** Where decoding stops: at an instruction that ends a block, before one that must begin a block, after 256
      bytes or at 127 instructions; and none but the first must begin a block. */
  ghost predicate Delimited<S>(m: Machine<S>, pc: nat, insns: seq<Insn>) {
    insns != [] && (forall k :: 0 < k < |insns| ==> !insns[k].stopBefore) && Bytes(insns[..|insns| - 1]) < 256 &&
    (insns[|insns| - 1].stopAfter || m.decode(pc + Bytes(insns)).stopBefore || 256 <= Bytes(insns) || |insns| == 127)
  }

  lemma {:induction false} DecodedNext<S>(m: Machine<S>, pc: nat, insns: seq<Insn>, dpc: nat)
    requires DecodedSoFar(m, pc, insns, dpc)
    ensures var next := m.decode(dpc);
      Straight(m, pc, insns + [next]) && dpc + Length(next) == pc + Bytes(insns + [next])
  {
    var next := m.decode(dpc);
    BytesAppend(insns, next);
    if insns == [] {
      assert insns + [next] == [next];
    } else {
      StraightAppend(m, pc, insns);
    }
  }

  /** What the decoding loop adds to `insns`, all decoded from `pc` up to `dpc`. */
  function DecodeFrom<S>(m: Machine<S>, pc: nat, dpc: nat, insns: seq<Insn>): seq<Insn>
    requires |insns| < 127
    decreases 127 - |insns|
  {
    var next := m.decode(dpc);
    if next.stopBefore && insns != [] then insns
    else if next.stopAfter || 256 <= dpc + Length(next) - pc || |insns| == 126 then insns + [next]
    else DecodeFrom(m, pc, dpc + Length(next), insns + [next])
  }

  /** The instructions of the block at `pc`. */
  function Decode<S>(m: Machine<S>, pc: nat): seq<Insn> {
    DecodeFrom(m, pc, pc, [])
  }

  lemma {:induction false} DecodeFromIs<S>(m: Machine<S>, pc: nat, dpc: nat, insns: seq<Insn>)
    requires DecodedSoFar(m, pc, insns, dpc) && |insns| < 127 && Bytes(insns) < 256
    requires forall k :: 0 < k < |insns| ==> !insns[k].stopBefore
    ensures var block := DecodeFrom(m, pc, dpc, insns);
      Straight(m, pc, block) && Delimited(m, pc, block) && |block| <= 127
    decreases 127 - |insns|
  {
    hide Straight, Bytes;
    var next := m.decode(dpc);
    DecodedNext(m, pc, insns, dpc);
    assert (insns + [next])[..|insns|] == insns;
    if insns != [] {
      BytesAppend(insns[..|insns| - 1], insns[|insns| - 1]);
      assert insns[..|insns| - 1] + [insns[|insns| - 1]] == insns;
    }
    if !(next.stopBefore && insns != []) && !next.stopAfter && dpc + Length(next) - pc < 256 && |insns| < 126 {
      DecodeFromIs(m, pc, dpc + Length(next), insns + [next]);
    }
  }

  /** A block is the straight-line code at its address, ended where it should be. */
  lemma {:induction false} DecodeIs<S>(m: Machine<S>, pc: nat)
    ensures var block := Decode(m, pc);
      block != [] && Straight(m, pc, block) && Delimited(m, pc, block) && |block| <= 127
  {
    DecodeFromIs(m, pc, pc, []);
  }

  /** The address `k` bytes before `pc`, as a 64-bit word. */
  function Before(pc: nat, k: nat): (r: nat)
    requires k <= 8
    ensures (r + k) % 0x1_0000_0000_0000_0000 == pc % 0x1_0000_0000_0000_0000 && (k <= pc ==> r + k == pc)
  {
    if k <= pc then pc - k else pc + 0x1_0000_0000_0000_0000 - k
  }

  /** Two instructions of the same length that delimit blocks and branch alike. */
  predicate SameEffectOnBlock(i: Insn, j: Insn) {
    i.compressed == j.compressed && i.conditional == j.conditional &&
    i.stopBefore == j.stopBefore && i.stopAfter == j.stopAfter
  }

  /** Whether the branch before the store conditional at `pc` is taken to be the 2-byte one. */
  predicate ShortBranch<S>(m: Machine<S>, pc: nat) {
    m.decode(Before(pc, 2)).opcode == CBnez
  }

  /** Where the branch and the load reserved before the store conditional at `pc` are looked for. */
  function BranchAt<S>(m: Machine<S>, pc: nat): nat {
    Before(pc, if ShortBranch(m, pc) then 2 else 4)
  }

  function ReserveAt<S>(m: Machine<S>, pc: nat): nat {
    Before(pc, if ShortBranch(m, pc) then 6 else 8)
  }

  /** `substitute_cas`: the compare-and-swap for the store conditional `i3` at `pc`, if a load reserved and a
      branch on what it loaded come right before it; anything else there is fatal. */
  function SubstituteCas<S>(m: Machine<S>, pc: nat, i3: Insn): (r: Option<Insn>)
    ensures r.Some? ==> SameEffectOnBlock(r.value, i3) && !IsStoreConditional(r.value)
  {
    var short, i2, i1 := ShortBranch(m, pc), m.decode(BranchAt(m, pc)), m.decode(ReserveAt(m, pc));
    if !short && i2.opcode != Bne then None
    else if (i3.opcode == ScW && i1.opcode != LrW) || (i3.opcode == ScD && i1.opcode != LrD) then None
    else if i1.rs1 != i3.rs1 || i2.rs1 != i1.rd then None
    else Some(i3.(opcode := if i3.opcode == ScW then CasW else CasD, rs3 := if short then 0 else i2.rs2))
  }

  /** The instruction that blocks hold for the one at `pc`. */
  function Fetch<S>(m: Machine<S>, pc: nat): Insn {
    var insn := m.decode(pc);
    if IsStoreConditional(insn) then
      match SubstituteCas(m, pc, insn)
      case Some(cas) => cas
      case None => insn
    else insn
  }

  /** The machine whose store conditionals have been substituted. */
  function Substituted<S>(m: Machine<S>): (r: Machine<S>)
    ensures r.exec == m.exec && r.taken == m.taken && r.pc == m.pc
    ensures forall pc: nat :: r.decode(pc) == Fetch(m, pc)
  {
    m.(decode := (pc: nat) => Fetch(m, pc))
  }

  lemma {:induction false} FetchedFields<S>(m: Machine<S>, pc: nat)
    ensures var i, j := m.decode(pc), Fetch(m, pc);
      SameEffectOnBlock(j, i) && (IsStoreConditional(j) ==> IsStoreConditional(i))
  {
    hide SubstituteCas;
  }

  lemma {:induction false} SubstitutedBehaves<S(!new)>(m: Machine<S>)
    requires WellBehaved(m)
    ensures WellBehaved(Substituted(m))
  {
    hide SubstituteCas;
    var m' := Substituted(m);
    forall s: S
      ensures FallsThrough(m', m'.decode(m.pc(s)), s)
    {
      var pc: nat := m.pc(s);
      assert FallsThrough(m, m.decode(pc), s);
      FetchedFields(m, pc);
    }
    forall pc: nat
      ensures IsStoreConditional(m'.decode(pc)) ==> m'.decode(pc).stopAfter && !m'.decode(pc).compressed
    {
      FetchedFields(m, pc);
    }
  }

  /** Where every instruction met does what the one fetched for it does, the substitution makes no difference. */
  lemma {:induction false} SameRun<S>(m: Machine<S>, s: S, count: nat)
    requires forall k: nat :: k < count ==> SameStep(m, Steps(m, s, k))
    ensures Steps(Substituted(m), s, count) == Steps(m, s, count)
  {
    hide Fetch, Substituted;
    if count > 0 {
      SameRun(m, s, count - 1);
      assert SameStep(m, Steps(m, s, count - 1));
      OneMore(m, s, count - 1);
      OneMore(Substituted(m), s, count - 1);
    }
  }

  ghost predicate SameStep<S>(m: Machine<S>, s: S) {
    m.exec(Fetch(m, m.pc(s)), s) == m.exec(m.decode(m.pc(s)), s)
  }

  lemma {:induction false} OneMore<S>(m: Machine<S>, s: S, k: nat)
    ensures Steps(m, s, k + 1) == Step(m, Steps(m, s, k))
  {
    StepsAdd(m, s, k, 1);
    assert Steps(m, Steps(m, s, k), 1) == Steps(m, Step(m, Steps(m, s, k)), 0);
  }

  /** The block at `pc` with the store conditional that may end it substituted. */
  function Block<S>(m: Machine<S>, pc: nat): (block: seq<Insn>)
    ensures block != [] && |block| == |Decode(m, pc)| <= 127
  {
    DecodeIs(m, pc);
    var insns := Decode(m, pc);
    var last := insns[|insns| - 1];
    if IsStoreConditional(last) then
      match SubstituteCas(m, Before(pc + Bytes(insns), 4), last)
      case Some(cas) => insns[..|insns| - 1] + [cas]
      case None => insns
    else insns
  }

  /** The block at `pc` ends in a store conditional without its pattern. */
  predicate Aborts<S>(m: Machine<S>, pc: nat) {
    DecodeIs(m, pc);
    var insns := Decode(m, pc);
    var last := insns[|insns| - 1];
    IsStoreConditional(last) && SubstituteCas(m, Before(pc + Bytes(insns), 4), last).None?
  }

  /** Straight code stays straight when its last instruction is fetched with substitution. */
  lemma {:induction false} StraightFetched<S(!new)>(m: Machine<S>, addr: nat, insns: seq<Insn>)
    requires WellBehaved(m) && Straight(m, addr, insns)
    ensures var front := insns[..|insns| - 1];
      Straight(Substituted(m), addr, front + [Fetch(m, addr + Bytes(front))]) &&
      insns[|insns| - 1] == m.decode(addr + Bytes(front)) && Bytes(insns) == Bytes(front) + Length(insns[|insns| - 1])
    decreases |insns|
  {
    var n := |insns| - 1;
    var front := insns[..n];
    assert insns == front + [insns[n]];
    BytesAppend(front, insns[n]);
    if n == 0 {
      assert front == [];
    } else {
      var rest := insns[1..];
      StraightFetched(m, addr + Length(insns[0]), rest);
      assert rest[..n - 1] == front[1..];
      assert rest[n - 1] == insns[n];
      var fetched := front + [Fetch(m, addr + Bytes(front))];
      assert fetched[1..] == front[1..] + [Fetch(m, addr + Bytes(front))];
    }
  }

  lemma {:induction false} BlockFetched<S(!new)>(m: Machine<S>, pc: nat)
    requires WellBehaved(m)
    ensures var insns := Decode(m, pc);
      insns != [] && Block(m, pc) == insns[..|insns| - 1] + [Fetch(m, pc + Bytes(insns[..|insns| - 1]))]
  {
    hide *;
    var insns := Decode(m, pc);
    DecodeIs(m, pc);
    StraightFetched(m, pc, insns);
    var last, at := insns[|insns| - 1], pc + Bytes(insns[..|insns| - 1]);
    LastLength(m, at);
    BlockCases(m, pc, at);
    assert insns == insns[..|insns| - 1] + [last];
  }

  lemma {:induction false} LastLength<S(!new)>(m: Machine<S>, at: nat)
    requires WellBehaved(m)
    ensures IsStoreConditional(m.decode(at)) ==> Before(at + Length(m.decode(at)), 4) == at
  {
    hide FallsThrough, IsStoreConditional;
  }

  lemma {:induction false} BlockCases<S>(m: Machine<S>, pc: nat, at: nat)
    requires Decode(m, pc) != [] && Decode(m, pc)[|Decode(m, pc)| - 1] == m.decode(at)
    requires IsStoreConditional(m.decode(at)) ==> Before(pc + Bytes(Decode(m, pc)), 4) == at
    ensures var insns := Decode(m, pc);
      Block(m, pc) == insns[..|insns| - 1] + [Fetch(m, at)]
  {
    hide Decode, SubstituteCas, Bytes, IsStoreConditional, Before;
    var insns := Decode(m, pc);
    assert insns == insns[..|insns| - 1] + [m.decode(at)];
  }

  /** Another last instruction that has the same effect on the block leaves the block ended where it is. */
  lemma {:induction false} DelimitedAlike<S>(m: Machine<S>, pc: nat, insns: seq<Insn>, last: Insn)
    requires Delimited(m, pc, insns) && SameEffectOnBlock(last, insns[|insns| - 1])
    ensures var block := insns[..|insns| - 1] + [last];
      Delimited(m, pc, block) && Bytes(block) == Bytes(insns)
  {
    SameBytes(insns, last);
    hide Bytes;
    var block := insns[..|insns| - 1] + [last];
    forall k | 0 < k < |block|
      ensures !block[k].stopBefore
    {
      assert !insns[k].stopBefore;
    }
  }

  /** Another last instruction of the same length does not change the length of a block. */
  lemma {:induction false} SameBytes(insns: seq<Insn>, last: Insn)
    requires insns != [] && last.compressed == insns[|insns| - 1].compressed
    ensures Bytes(insns[..|insns| - 1] + [last]) == Bytes(insns)
  {
    var front := insns[..|insns| - 1];
    BytesAppend(front, last);
    BytesAppend(front, insns[|insns| - 1]);
    assert insns == front + [insns[|insns| - 1]];
  }

  /** A block is the straight-line code at its address, with the store conditional that may end it
      substituted, and ends where it should. */
  lemma {:induction false} BlockIs<S(!new)>(m: Machine<S>, pc: nat)
    requires WellBehaved(m)
    ensures Straight(Substituted(m), pc, Block(m, pc)) && Delimited(m, pc, Block(m, pc))
    ensures Bytes(Block(m, pc)) == Bytes(Decode(m, pc))
  {
    hide *;
    var insns := Decode(m, pc);
    DecodeIs(m, pc);
    BlockFetched(m, pc);
    StraightFetched(m, pc, insns);
    var at := pc + Bytes(insns[..|insns| - 1]);
    FetchedFields(m, at);
    DelimitedAlike(m, pc, insns, Fetch(m, at));
  }
}
