/** When the compare-and-swap that takes the place of a store conditional (`substitute_cas` in caveat/hart.cc)
    does what the store conditional would have done: the semantics of caveat/interpreter.cc and of `cas` in
    caveat/hart.h, on one hart. */
module CompareAndSwap {
  import opened Machines
  import opened TransCache

  datatype Width = Word | Double

  /** Memory as loads and stores of signed words and double words see it. */
  datatype Memory<!M> = Memory(load: (M, Width, int) -> int, store: (M, Width, int, int) -> M)

  /** The program counter, the registers (0 where nothing was written) and memory. */
  datatype Cpu<M> = Cpu(pc: nat, regs: map<nat, int>, mem: M)

  function Half(w: Width): nat {
    if w == Word then 0x8000_0000 else 0x8000_0000_0000_0000
  }

  /** The conversion of a register to a signed word or double word. */
  function Truncated(w: Width, x: int): int {
    (x + Half(w)) % (2 * Half(w)) - Half(w)
  }

  ghost predicate Sized<M(!new)>(memory: Memory<M>) {
    forall mem: M, w, a :: -(Half(w) as int) <= memory.load(mem, w, a) < Half(w)
  }

  function WidthOf(i: Insn): Width {
    if i.opcode == LrW || i.opcode == ScW || i.opcode == CasW then Word else Double
  }

  /** Every instruction begins by clearing register 0. */
  function Begun<M>(s: Cpu<M>): Cpu<M> {
    s.(regs := s.regs[0 := 0])
  }

  function Reg<M>(s: Cpu<M>, r: nat): int {
    if r in s.regs then s.regs[r] else 0
  }

  /** The end of an instruction that does not jump. */
  function Retired<M>(s: Cpu<M>, i: Insn): Cpu<M> {
    s.(pc := s.pc + Length(i))
  }

  function LoadReserved<M>(memory: Memory<M>, i: Insn, s: Cpu<M>): Cpu<M> {
    var t := Begun(s);
    Retired(t.(regs := t.regs[i.rd := memory.load(t.mem, WidthOf(i), Reg(t, i.rs1))]), i)
  }

  /** The interpreter's store conditional always stores. */
  function StoreConditional<M>(memory: Memory<M>, i: Insn, s: Cpu<M>): Cpu<M> {
    var t := Begun(s);
    var stored := memory.store(t.mem, WidthOf(i), Reg(t, i.rs1), Truncated(WidthOf(i), Reg(t, i.rs2)));
    Retired(t.(mem := stored, regs := t.regs[i.rd := 0]), i)
  }

  function Cas<M>(memory: Memory<M>, i: Insn, s: Cpu<M>): Cpu<M> {
    var t := Begun(s);
    if memory.load(t.mem, WidthOf(i), Reg(t, i.rs1)) != Truncated(WidthOf(i), Reg(t, i.rs3)) then
      Retired(t.(regs := t.regs[i.rd := 1]), i)
    else
      var stored := memory.store(t.mem, WidthOf(i), Reg(t, i.rs1), Truncated(WidthOf(i), Reg(t, i.rs2)));
      Retired(t.(mem := stored, regs := t.regs[i.rd := 0]), i)
  }

  predicate Branches<M>(i: Insn, s: Cpu<M>) {
    Reg(Begun(s), i.rs1) != if i.opcode == CBnez then 0 else Reg(Begun(s), i.rs2)
  }

  /** A load reserved, a branch on what it loaded and a store conditional that `substitute_cas` accepts. */
  predicate IsPattern(i1: Insn, i2: Insn, i3: Insn) {
    ((i3.opcode == ScW && i1.opcode == LrW) || (i3.opcode == ScD && i1.opcode == LrD)) &&
    (i2.opcode == Bne || i2.opcode == CBnez) && i1.rs1 == i3.rs1 && i2.rs1 == i1.rd
  }

  function CasFor(i2: Insn, i3: Insn): Insn {
    i3.(opcode := if i3.opcode == ScW then CasW else CasD, rs3 := if i2.opcode == CBnez then 0 else i2.rs2)
  }

  /** The state before the store conditional, when the branch before it falls through. */
  function Reserved<M>(memory: Memory<M>, i1: Insn, i2: Insn, s: Cpu<M>): Cpu<M> {
    Retired(Begun(LoadReserved(memory, i1, s)), i2)
  }

  /** The load reserved leaves its address alone, and what it loads can be read back. */
  predicate AddressKept(i1: Insn) {
    i1.rd != 0 && i1.rd != i1.rs1
  }

  /** Conversion to 32 or 64 bits keeps the value modulo 2^32 or 2^64, as a signed number. */
  lemma {:induction false} TruncatedIs(x: int)
    ensures var word, double := Truncated(Word, x), Truncated(Double, x);
      -0x8000_0000 <= word < 0x8000_0000 && (x - word) % 0x1_0000_0000 == 0 &&
      -0x8000_0000_0000_0000 <= double < 0x8000_0000_0000_0000 && (x - double) % 0x1_0000_0000_0000_0000 == 0
  {
  }

  /** What the three instructions leave behind, register by register; register 0 reads as 0. */
  lemma {:induction false} InstructionEffects<M>(memory: Memory<M>, i: Insn, s: Cpu<M>, r: nat)
    ensures var rs1, rs2, rs3 := if i.rs1 == 0 then 0 else Reg(s, i.rs1), if i.rs2 == 0 then 0 else Reg(s, i.rs2),
        if i.rs3 == 0 then 0 else Reg(s, i.rs3);
      var w := if i.opcode in {LrW, ScW, CasW} then Word else Double;
      var was, next := if r == 0 then 0 else Reg(s, r), s.pc + if i.compressed then 2 else 4;
      var found, stored := memory.load(s.mem, w, rs1), memory.store(s.mem, w, rs1, Truncated(w, rs2));
      var lr, sc, cas := LoadReserved(memory, i, s), StoreConditional(memory, i, s), Cas(memory, i, s);
      lr.pc == next && lr.mem == s.mem && Reg(lr, r) == (if r == i.rd then found else was) &&
      sc.pc == next && sc.mem == stored && Reg(sc, r) == (if r == i.rd then 0 else was) &&
      cas.pc == next && cas.mem == (if found == Truncated(w, rs3) then stored else s.mem) &&
      Reg(cas, r) == if r != i.rd then was else if found == Truncated(w, rs3) then 0 else 1
  {
    hide Truncated;
  }

  lemma {:induction false} Untruncated(w: Width, x: int)
    requires -(Half(w) as int) <= x < Half(w)
    ensures Truncated(w, x) == x
  {
  }

  /** After its pattern the compare-and-swap finds the value loaded, and so does what the store conditional
      does. */
  lemma {:induction false} CasStores<M(!new)>(memory: Memory<M>, i1: Insn, i2: Insn, i3: Insn, s: Cpu<M>)
    requires Sized(memory) && IsPattern(i1, i2, i3) && AddressKept(i1)
    requires !Branches(i2, LoadReserved(memory, i1, s))
    ensures var t := Reserved(memory, i1, i2, s); Cas(memory, CasFor(i2, i3), t) == StoreConditional(memory, i3, t)
  {
    hide Truncated, Reserved;
    var t, w := Reserved(memory, i1, i2, s), WidthOf(i1);
    var found := memory.load(s.mem, w, Reg(Begun(s), i1.rs1));
    Untruncated(w, found);
    ReservedParts(memory, i1, i2, s, i3.rs1);
    ReservedParts(memory, i1, i2, s, CasFor(i2, i3).rs3);
    LoadedParts(memory, i1, i2, s);
    hide LoadReserved, Branches, Reg, Begun;
  }

  lemma {:induction false} LoadedParts<M>(memory: Memory<M>, i1: Insn, i2: Insn, s: Cpu<M>)
    requires AddressKept(i1) && i2.rs1 == i1.rd && !Branches(i2, LoadReserved(memory, i1, s))
    ensures var u := LoadReserved(memory, i1, s);
      u.mem == s.mem && Reg(Begun(u), i1.rs1) == Reg(Begun(s), i1.rs1) &&
      Reg(Begun(u), if i2.opcode == CBnez then 0 else i2.rs2) ==
        memory.load(s.mem, WidthOf(i1), Reg(Begun(s), i1.rs1))
  {
  }

  /** Memory of words that do not overlap. */
  function Words(): (memory: Memory<map<int, int>>)
    ensures forall mem, w, a :: memory.load(mem, w, a) == Truncated(w, if a in mem then mem[a] else 0)
    ensures forall mem, w, a, x :: memory.store(mem, w, a, x) == mem[a := x]
  {
    Memory((mem: map<int, int>, w, a) => Truncated(w, if a in mem then mem[a] else 0),
      (mem: map<int, int>, w, a, x) => mem[a := x])
  }

  /** Whenever the branch falls through, the substitution makes no difference. */
  ghost predicate KeepsMeaning(i1: Insn, i2: Insn, i3: Insn) {
    forall s :: !Branches(i2, LoadReserved(Words(), i1, s)) ==> SameAfter(i1, i2, i3, s)
  }

  predicate SameAfter(i1: Insn, i2: Insn, i3: Insn, s: Cpu<map<int, int>>) {
    var t := Reserved(Words(), i1, i2, s);
    Cas(Words(), CasFor(i2, i3), t) == StoreConditional(Words(), i3, t)
  }

  /** A state in which the compare-and-swap fails: the branch compares 0 with 0, but the word at the address
      is 5. */
  function Surprise(i1: Insn): Cpu<map<int, int>> {
    Cpu(0, if i1.rd == 0 then map[] else map[i1.rs1 := 8], map[0 := 5])
  }

  /** After the pattern all registers but the address are 0, and the address is that of the 5. */
  lemma {:induction false} SurpriseReserved(i1: Insn, i2: Insn, i3: Insn, r: nat)
    requires IsPattern(i1, i2, i3) && !AddressKept(i1)
    ensures var s := LoadReserved(Words(), i1, Surprise(i1)); Reg(Begun(s), r) == 0 && s.mem == map[0 := 5]
  {
    hide Truncated;
    Untruncated(WidthOf(i1), 0);
  }

  lemma {:induction false} SurpriseDiffers(i1: Insn, i2: Insn, i3: Insn)
    requires IsPattern(i1, i2, i3) && !AddressKept(i1)
    ensures !Branches(i2, LoadReserved(Words(), i1, Surprise(i1))) && !SameAfter(i1, i2, i3, Surprise(i1))
  {
    hide LoadReserved, Surprise, Reserved, Cas, StoreConditional, Begun, Reg, Words, CasFor, IsPattern, AddressKept;
    var s, t := LoadReserved(Words(), i1, Surprise(i1)), Reserved(Words(), i1, i2, Surprise(i1));
    forall r: nat
      ensures Reg(Begun(s), r) == 0 && Reg(Begun(t), r) == 0 && t.mem == map[0 := 5]
    {
      SurpriseReserved(i1, i2, i3, r);
      ReservedParts(Words(), i1, i2, Surprise(i1), r);
    }
    assert Reg(Begun(t), 0) == 0;
    FiveStays(CasFor(i2, i3), t);
    ZeroStored(i3, t);
    assert map[0 := 5][0] != map[0 := 5][0 := 0][0];
  }

  /** The branch that falls through leaves memory and registers alone. */
  lemma {:induction false} ReservedParts<M>(memory: Memory<M>, i1: Insn, i2: Insn, s: Cpu<M>, r: nat)
    ensures var u, t := LoadReserved(memory, i1, s), Reserved(memory, i1, i2, s);
      t.mem == u.mem && Reg(Begun(t), r) == Reg(Begun(u), r)
  {
    hide LoadReserved;
  }

  lemma {:induction false} FiveStays(cas: Insn, t: Cpu<map<int, int>>)
    requires t.mem == map[0 := 5] && forall r: nat :: Reg(Begun(t), r) == 0
    ensures Cas(Words(), cas, t).mem == map[0 := 5]
  {
    hide Truncated;
    Untruncated(WidthOf(cas), 0);
    Untruncated(WidthOf(cas), 5);
  }

  lemma {:induction false} ZeroStored(i3: Insn, t: Cpu<map<int, int>>)
    requires forall r: nat :: Reg(Begun(t), r) == 0
    ensures StoreConditional(Words(), i3, t).mem == t.mem[0 := 0]
  {
    hide Truncated;
    Untruncated(WidthOf(i3), 0);
  }

  /** The pattern that `substitute_cas` accepts is preserved exactly if the load reserved goes to a register
      other than register 0 and its own address register, which `substitute_cas` does not check. */
  lemma {:induction false} SubstitutionExact(i1: Insn, i2: Insn, i3: Insn)
    requires IsPattern(i1, i2, i3)
    ensures KeepsMeaning(i1, i2, i3) <==> AddressKept(i1)
  {
    if AddressKept(i1) {
      forall s | !Branches(i2, LoadReserved(Words(), i1, s))
        ensures SameAfter(i1, i2, i3, s)
      {
        CasStores(Words(), i1, i2, i3, s);
      }
    } else {
      SurpriseDiffers(i1, i2, i3);
    }
  }

  /** The machine executes these instructions as the interpreter does; the others are as they may be. */
  ghost predicate Interprets<M(!new)>(m: Machine<Cpu<M>>, memory: Memory<M>) {
    Sized(memory) && (forall s :: m.pc(s) == s.pc) && forall i, s :: InterpretsOne(m, memory, i, s)
  }

  ghost predicate InterpretsOne<M>(m: Machine<Cpu<M>>, memory: Memory<M>, i: Insn, s: Cpu<M>) {
    match i.opcode
    case LrW => m.exec(i, s) == LoadReserved(memory, i, s)
    case LrD => m.exec(i, s) == LoadReserved(memory, i, s)
    case ScW => m.exec(i, s) == StoreConditional(memory, i, s)
    case ScD => m.exec(i, s) == StoreConditional(memory, i, s)
    case CasW => m.exec(i, s) == Cas(memory, i, s)
    case CasD => m.exec(i, s) == Cas(memory, i, s)
    case Bne => m.taken(i, s) == Branches(i, s) && (Branches(i, s) || m.exec(i, s) == Retired(Begun(s), i))
    case CBnez => m.taken(i, s) == Branches(i, s) && (Branches(i, s) || m.exec(i, s) == Retired(Begun(s), i))
    case OtherOpcode(_) => true
  }

  /** A store conditional met after `k` steps has been come to through its pattern: the load reserved, which
      keeps its address, and the branch, which fell through. */
  ghost predicate ThroughPattern<M(!new)>(m: Machine<Cpu<M>>, s: Cpu<M>, k: nat) {
    var pc := m.pc(Steps(m, s, k));
    IsStoreConditional(m.decode(pc)) ==>
      SubstituteCas(m, pc, m.decode(pc)).Some? && AddressKept(m.decode(ReserveAt(m, pc))) && 2 <= k &&
      m.pc(Steps(m, s, k - 2)) == ReserveAt(m, pc) && m.pc(Steps(m, s, k - 1)) == BranchAt(m, pc) &&
      !m.taken(m.decode(BranchAt(m, pc)), Steps(m, s, k - 1))
  }

  /** Before `pc` are a 4-byte load reserved of the width of the store conditional `i3` from the address it stores
      to, and a branch on what was loaded: a 2-byte one on zero or else a 4-byte one. */
  predicate PatternBefore<S>(m: Machine<S>, pc: nat, i3: Insn) {
    var short := m.decode(Before(pc, 2)).opcode == CBnez;
    var i2 := m.decode(if short then Before(pc, 2) else Before(pc, 4));
    var i1 := m.decode(if short then Before(pc, 6) else Before(pc, 8));
    (short || i2.opcode == Bne) && i1.opcode == (if i3.opcode == ScW then LrW else LrD) &&
    i1.rs1 == i3.rs1 && i2.rs1 == i1.rd
  }

  /** A store conditional is substituted exactly if it comes after its pattern, and then the width, the
      registers and the expected value of the compare-and-swap are these. */
  lemma {:induction false} SubstitutedWhen<S>(m: Machine<S>, pc: nat, i3: Insn)
    requires i3.opcode == ScW || i3.opcode == ScD
    ensures SubstituteCas(m, pc, i3).Some? <==> PatternBefore(m, pc, i3)
    ensures PatternBefore(m, pc, i3) ==>
      (var cas, short := SubstituteCas(m, pc, i3).value, m.decode(Before(pc, 2)).opcode == CBnez;
        cas.opcode == (if i3.opcode == ScW then CasW else CasD) && cas.rd == i3.rd && cas.rs1 == i3.rs1 &&
        cas.rs2 == i3.rs2 && cas.rs3 == (if short then 0 else m.decode(Before(pc, 4)).rs2) &&
        SameEffectOnBlock(cas, i3))
  {
  }

  /** The three instructions laid out one after another from `addr` are substituted.  Of a 4-byte branch the second
      half must not look like a 2-byte one: `substitute_cas` tries that first. */
  lemma {:induction false} LaidOut<S>(m: Machine<S>, addr: nat)
    requires var i1, i2 := m.decode(addr), m.decode(addr + 4);
      var pc := addr + 4 + if i2.opcode == CBnez then 2 else 4;
      IsPattern(i1, i2, m.decode(pc)) && (i2.opcode == Bne ==> m.decode(addr + 6).opcode != CBnez)
    ensures var i2 := m.decode(addr + 4);
      var pc := addr + 4 + if i2.opcode == CBnez then 2 else 4;
      PatternBefore(m, pc, m.decode(pc)) && Fetch(m, pc) == CasFor(i2, m.decode(pc))
  {
    SubstitutedWhen(m, addr + 4 + if m.decode(addr + 4).opcode == CBnez then 2 else 4,
      m.decode(addr + 4 + if m.decode(addr + 4).opcode == CBnez then 2 else 4));
  }

  /** A block is refused exactly if its last instruction is a store conditional that does not come after its
      pattern; otherwise a block that ends in one holds its compare-and-swap. */
  lemma {:induction false} AbortsWhen<S(!new)>(m: Machine<S>, addr: nat)
    requires WellBehaved(m)
    ensures var insns := Decode(m, addr);
      insns != [] &&
      var pc, last := addr + Bytes(insns[..|insns| - 1]), insns[|insns| - 1];
      var isSc := last.opcode == ScW || last.opcode == ScD;
      last == m.decode(pc) && (Aborts(m, addr) <==> isSc && !PatternBefore(m, pc, last)) &&
      if isSc && PatternBefore(m, pc, last) then
        SubstituteCas(m, pc, last).Some? &&
        Block(m, addr) == insns[..|insns| - 1] + [SubstituteCas(m, pc, last).value]
      else Block(m, addr) == insns
  {
    hide Decode, Bytes, PatternBefore, SubstituteCas, Straight;
    var insns := Decode(m, addr);
    DecodeIs(m, addr);
    StraightFetched(m, addr, insns);
    var pc, last := addr + Bytes(insns[..|insns| - 1]), insns[|insns| - 1];
    LastLength(m, pc);
    if IsStoreConditional(last) {
      SubstitutedWhen(m, pc, last);
      assert Before(addr + Bytes(insns), 4) == pc;
    }
  }

  lemma {:induction false} PatternFetched<S>(m: Machine<S>, pc: nat)
    requires IsStoreConditional(m.decode(pc)) && SubstituteCas(m, pc, m.decode(pc)).Some?
    ensures var i1, i2, i3 := m.decode(ReserveAt(m, pc)), m.decode(BranchAt(m, pc)), m.decode(pc);
      IsPattern(i1, i2, i3) && Fetch(m, pc) == CasFor(i2, i3)
  {
  }

  lemma {:induction false} SubstitutedStep<M(!new)>(m: Machine<Cpu<M>>, memory: Memory<M>, s: Cpu<M>, k: nat)
    requires Interprets(m, memory) && ThroughPattern(m, s, k)
    ensures SameStep(m, Steps(m, s, k))
  {
    hide Steps, Sized, Cas, StoreConditional, LoadReserved, Branches, SubstituteCas, ReserveAt, BranchAt;
    var t := Steps(m, s, k);
    var pc := m.pc(t);
    if IsStoreConditional(m.decode(pc)) {
      hide Fetch;
      PatternFetched(m, pc);
      var i1, i2, i3 := m.decode(ReserveAt(m, pc)), m.decode(BranchAt(m, pc)), m.decode(pc);
      var u, v := Steps(m, s, k - 2), Steps(m, s, k - 1);
      OneMore(m, s, k - 2);
      OneMore(m, s, k - 1);
      assert InterpretsOne(m, memory, i1, u) && InterpretsOne(m, memory, i2, v);
      assert InterpretsOne(m, memory, i3, t) && InterpretsOne(m, memory, CasFor(i2, i3), t);
      CasStores(memory, i1, i2, i3, u);
    }
  }

  /** A run in which every store conditional is come to through its pattern is the same with and without the
      substitution. */
  lemma {:induction false} SubstitutedRun<M(!new)>(m: Machine<Cpu<M>>, memory: Memory<M>, s: Cpu<M>, count: nat)
    requires Interprets(m, memory) && forall k: nat :: k < count ==> ThroughPattern(m, s, k)
    ensures Steps(Substituted(m), s, count) == Steps(m, s, count)
  {
    hide *;
    forall k: nat | k < count
      ensures SameStep(m, Steps(m, s, k))
    {
      SubstitutedStep(m, memory, s, k);
    }
    SameRun(m, s, count);
  }
}
