/** The in-order pipeline scoreboard (pipesim/pipesim.cc, pipesim/pipesim.h and the cycle loop of
    pipesim/display.cc). */
module Pipesim {
  /** Integer registers 0 to 31 and floating-point registers 32 to 63; register 0 means none. */
  type Reg = r: nat | r < 64

  datatype Unit = Iu | Fpu | Mem

  /** A decoded instruction: its registers and the attributes that choose its unit. */
  datatype Insn = Insn(rd: Reg, rs1: Reg, rs2: Reg, rs3: Reg, longImmed: bool, fp: bool, memory: bool)

  function UnitOf(insn: Insn): Unit {
    if insn.fp then Fpu else if insn.memory then Mem else Iu
  }

  function Operands(insn: Insn): set<Reg> {
    ({insn.rd, insn.rs1} + if insn.longImmed then {} else {insn.rs2, insn.rs3}) - {0}
  }

  /** One record of the history ring. */
  datatype Past = Past(cycle: int, insn: Insn)

  /** An instruction in flight: where it is, which record of the history it was given, what it writes. */
  datatype Flight = Flight(unit: Unit, serial: nat, rd: Reg)

  /** The circular slot of a cycle. */
  function Index(cycle: int): nat {
    cycle % 16
  }

  /** The latest cycle, up to `now`, that uses slot `s`. */
  function At(now: int, s: nat): (b: int)
    requires s < 16
    ensures b <= now < b + 16 && Index(b) == s
  {
    AtSlot(now, s);
    now - (now - s) % 16
  }

  lemma {:induction false} AtSlot(now: int, s: nat)
    requires s < 16
    ensures (now - (now - s) % 16) % 16 == s
  {
    var q := (now - s) / 16;
    assert now - (now - s) % 16 == 16 * q + s;
  }

  lemma {:induction false} AtUnique(now: int, b: int)
    requires b <= now < b + 16
    ensures At(now, Index(b)) == b
  {
    var c := At(now, Index(b));
    assert (b - c) % 16 == 0;
  }

  /** How far each unit has been clocked. */
  datatype Clocks = Clocks(iu: int, fpu: int, mem: int) {
    function Of(unit: Unit): int {
      match unit
      case Iu => iu
      case Fpu => fpu
      case Mem => mem
    }

    function Tick(unit: Unit): Clocks {
      match unit
      case Iu => this.(iu := iu + 1)
      case Fpu => this.(fpu := fpu + 1)
      case Mem => this.(mem := mem + 1)
    }
  }

  /** What a unit's slot `s` holds when the unit, `depth` deep, has been clocked up to `clk`: the
      flight of the latest cycle that uses the slot, if that flight is this unit's. */
  ghost predicate SlotHolds(depth: nat, unit: Unit, flights: map<int, Flight>, now: int, clk: int, s: nat,
      stage: int, countdown: int)
    requires s < 16
  {
    var b := At(now, s);
    if b in flights && flights[b].unit == unit
    then stage == flights[b].serial % 128 && countdown == depth - (clk - b)
    else stage == -1
  }

  ghost predicate SlotsHold(depth: nat, unit: Unit, flights: map<int, Flight>, now: int, clk: int,
      stage: seq<int>, countdown: seq<int>)
    requires |stage| == |countdown| == 16
  {
    forall s :: 0 <= s < 16 ==> SlotHolds(depth, unit, flights, now, clk, s, stage[s], countdown[s])
  }

  /** In the middle of a clock: the slots of the latest `k` cycles have been seen to. */
  ghost predicate SlotsClocked(depth: nat, unit: Unit, flights: map<int, Flight>, now: int, k: nat,
      stage: seq<int>, countdown: seq<int>)
    requires |stage| == |countdown| == 16
  {
    forall s :: 0 <= s < 16 ==>
      SlotHolds(depth, unit, flights, now, if now - At(now, s) < k then now + 1 else now, s, stage[s], countdown[s])
  }

  lemma {:induction false} SlotOf(now: int, k: nat)
    requires k < 16
    ensures var i := Index(now - k);
      i < 16 && At(now, i) == now - k && forall s :: 0 <= s < 16 && s != i ==> now - At(now, s) != k
  {
    AtUnique(now, now - k);
  }

  /** Nothing in the slot: nothing to count down. */
  lemma {:induction false} PassOver(depth: nat, unit: Unit, flights: map<int, Flight>, now: int, k: nat,
      stage: seq<int>, countdown: seq<int>)
    requires |stage| == |countdown| == 16 && k < 16
    requires SlotsClocked(depth, unit, flights, now, k, stage, countdown) && stage[Index(now - k)] == -1
    ensures SlotsClocked(depth, unit, flights, now, k + 1, stage, countdown)
    ensures !(now - k in flights && flights[now - k].unit == unit)
  {
    var i := Index(now - k);
    SlotOf(now, k);
    assert SlotHolds(depth, unit, flights, now, now, i, stage[i], countdown[i]);
    forall s | 0 <= s < 16
      ensures SlotHolds(depth, unit, flights, now, if now - At(now, s) < k + 1 then now + 1 else now, s,
        stage[s], countdown[s])
    {
      assert SlotHolds(depth, unit, flights, now, if now - At(now, s) < k then now + 1 else now, s,
        stage[s], countdown[s]);
    }
  }

  /** An instruction that has further to go. */
  lemma {:induction false} CountDown(depth: nat, unit: Unit, flights: map<int, Flight>, now: int, k: nat,
      stage: seq<int>, countdown: seq<int>, countdown': seq<int>)
    requires |stage| == |countdown| == |countdown'| == 16 && k < 16
    requires SlotsClocked(depth, unit, flights, now, k, stage, countdown) && stage[Index(now - k)] != -1
    requires countdown' == countdown[Index(now - k) := countdown[Index(now - k)] - 1]
    ensures now - k in flights && flights[now - k].unit == unit
    ensures stage[Index(now - k)] == flights[now - k].serial % 128
    ensures countdown'[Index(now - k)] == depth - k - 1
    ensures SlotsClocked(depth, unit, flights, now, k + 1, stage, countdown')
  {
    var i := Index(now - k);
    SlotOf(now, k);
    assert SlotHolds(depth, unit, flights, now, now, i, stage[i], countdown[i]);
    forall s | 0 <= s < 16
      ensures SlotHolds(depth, unit, flights, now, if now - At(now, s) < k + 1 then now + 1 else now, s,
        stage[s], countdown'[s])
    {
      assert SlotHolds(depth, unit, flights, now, if now - At(now, s) < k then now + 1 else now, s,
        stage[s], countdown[s]);
    }
  }

  /** An instruction that is done leaves its slot and is in flight no more. */
  lemma {:induction false} Retire(depth: nat, unit: Unit, flights: map<int, Flight>, now: int, k: nat,
      stage: seq<int>, stage': seq<int>, countdown: seq<int>)
    requires |stage| == |countdown| == |stage'| == 16 && k <= 16
    requires SlotsClocked(depth, unit, flights, now, k, stage, countdown)
    requires 0 < k && stage' == stage[Index(now - (k as int) + 1) := -1]
    ensures SlotsClocked(depth, unit, Without(flights, now - (k as int) + 1), now, k, stage', countdown)
  {
    SlotOf(now, k - 1);
    forall s | 0 <= s < 16
      ensures SlotHolds(depth, unit, Without(flights, now - (k as int) + 1), now,
        if now - At(now, s) < k then now + 1 else now, s, stage'[s], countdown[s])
    {
      assert SlotHolds(depth, unit, flights, now, if now - At(now, s) < k then now + 1 else now, s,
        stage[s], countdown[s]);
    }
  }

  /** The slots of another unit do not hold the flight. */
  lemma {:induction false} OtherUnit(depth: nat, unit: Unit, flights: map<int, Flight>, now: int, clk: int,
      stage: seq<int>, countdown: seq<int>, b: int)
    requires |stage| == |countdown| == 16 && SlotsHold(depth, unit, flights, now, clk, stage, countdown)
    requires b in flights && flights[b].unit != unit
    ensures SlotsHold(depth, unit, Without(flights, b), now, clk, stage, countdown)
  {
    forall s | 0 <= s < 16
      ensures SlotHolds(depth, unit, Without(flights, b), now, clk, s, stage[s], countdown[s])
    {
      assert SlotHolds(depth, unit, flights, now, clk, s, stage[s], countdown[s]);
    }
  }

  lemma {:induction false} StartClock(depth: nat, unit: Unit, flights: map<int, Flight>, now: int,
      stage: seq<int>, countdown: seq<int>)
    requires |stage| == |countdown| == 16
    ensures SlotsHold(depth, unit, flights, now, now, stage, countdown) ==>
      SlotsClocked(depth, unit, flights, now, 0, stage, countdown)
  {
  }

  /** All that was in flight in the unit has been seen to. */
  lemma {:induction false} FinishClock(depth: nat, unit: Unit, flights: map<int, Flight>, now: int,
      stage: seq<int>, countdown: seq<int>)
    requires |stage| == |countdown| == 16 && SlotsClocked(depth, unit, flights, now, depth, stage, countdown)
    requires forall b :: b in flights && flights[b].unit == unit ==> now - depth < b
    ensures SlotsHold(depth, unit, flights, now, now + 1, stage, countdown)
  {
    forall s | 0 <= s < 16
      ensures SlotHolds(depth, unit, flights, now, now + 1, s, stage[s], countdown[s])
    {
      assert SlotHolds(depth, unit, flights, now, if now - At(now, s) < depth then now + 1 else now, s,
        stage[s], countdown[s]);
    }
  }

  /** The cycle advances; the slot it comes to is free. */
  lemma {:induction false} NextCycle(depth: nat, unit: Unit, flights: map<int, Flight>, now: int,
      stage: seq<int>, countdown: seq<int>)
    requires |stage| == |countdown| == 16 && depth <= 16
    requires SlotsHold(depth, unit, flights, now, now + 1, stage, countdown)
    requires forall b :: b in flights ==> b <= now
    requires forall b :: b in flights && flights[b].unit == unit ==> now + 1 - depth < b
    ensures SlotsHold(depth, unit, flights, now + 1, now + 1, stage, countdown)
    ensures stage[Index(now + 1)] == -1
  {
    AtUnique(now + 1, now + 1);
    forall s | 0 <= s < 16
      ensures SlotHolds(depth, unit, flights, now + 1, now + 1, s, stage[s], countdown[s])
    {
      assert SlotHolds(depth, unit, flights, now, now + 1, s, stage[s], countdown[s]);
      if s != Index(now + 1) {
        AtUnique(now, At(now + 1, s));
      } else {
        AtUnique(now, now - 15);
        SameSlot(now);
      }
    }
    assert SlotHolds(depth, unit, flights, now + 1, now + 1, Index(now + 1), stage[Index(now + 1)],
      countdown[Index(now + 1)]);
  }

  lemma {:induction false} SameSlot(now: int)
    ensures Index(now + 1) == Index(now - 15)
  {
  }

  /** An instruction enters the free slot of its unit. */
  lemma {:induction false} Enter(depth: nat, unit: Unit, flights: map<int, Flight>, now: int, f: Flight,
      stage: seq<int>, stage': seq<int>, countdown: seq<int>, countdown': seq<int>)
    requires |stage| == |countdown| == |stage'| == |countdown'| == 16 && now !in flights
    requires SlotsHold(depth, unit, flights, now, now, stage, countdown)
    requires if f.unit == unit
      then stage' == stage[Index(now) := f.serial % 128] && countdown' == countdown[Index(now) := depth]
      else stage' == stage && countdown' == countdown
    ensures SlotsHold(depth, unit, flights[now := f], now, now, stage', countdown')
  {
    AtUnique(now, now);
    forall s | 0 <= s < 16
      ensures SlotHolds(depth, unit, flights[now := f], now, now, s, stage'[s], countdown'[s])
    {
      assert SlotHolds(depth, unit, flights, now, now, s, stage[s], countdown[s]);
    }
  }

  /** The registers that flights will write. */
  function Busy(flights: map<int, Flight>): set<Reg> {
    set b | b in flights && flights[b].rd != 0 :: flights[b].rd
  }

  /** No two flights write the same register. */
  ghost predicate OneWriter(flights: map<int, Flight>) {
    forall b, c :: b in flights && c in flights && flights[b].rd == flights[c].rd != 0 ==> b == c
  }

  function Without(flights: map<int, Flight>, b: int): map<int, Flight> {
    map c | c in flights && c != b :: flights[c]
  }

  lemma {:induction false} RetiredBusy(flights: map<int, Flight>, b: int)
    requires b in flights && OneWriter(flights)
    ensures OneWriter(Without(flights, b))
    ensures Busy(Without(flights, b)) == Busy(flights) - {flights[b].rd}
  {
    var left := Without(flights, b);
    forall r: Reg | r in Busy(flights) - {flights[b].rd}
      ensures r in Busy(left)
    {
      var c :| c in flights && flights[c].rd == r != 0;
      assert c in left;
    }
  }

  lemma {:induction false} IssuedBusy(flights: map<int, Flight>, b: int, f: Flight)
    requires b !in flights && OneWriter(flights) && f.rd !in Busy(flights)
    ensures OneWriter(flights[b := f])
    ensures Busy(flights[b := f]) == Busy(flights) + {f.rd} - {0}
  {
    var more := flights[b := f];
    forall r: Reg | r in Busy(flights) + {f.rd} - {0}
      ensures r in Busy(more)
    {
      if r == f.rd {
        assert more[b].rd == r;
      } else {
        var c :| c in flights && flights[c].rd == r != 0;
        assert more[c] == flights[c];
      }
    }
    forall c | c in flights && flights[c].rd != 0
      ensures flights[c].rd in Busy(flights)
    {
    }
  }

  /** Each flight is younger than its unit is deep, counting the clocks its unit has seen; its history
      record is one of the latest and names its register; and the busy registers are theirs. */
  ghost predicate Sound(flights: map<int, Flight>, depths: Clocks, clocks: Clocks, cycle: int, executed: nat,
      history: seq<Past>, busy: set<Reg>)
  {
    |history| == 128 && OneWriter(flights) && busy == Busy(flights) &&
    forall b :: b in flights ==> FlyingAt(flights[b], depths, clocks, cycle, executed, history, b)
  }

  ghost predicate FlyingAt(f: Flight, depths: Clocks, clocks: Clocks, cycle: int, executed: nat,
      history: seq<Past>, b: int)
    requires |history| == 128
  {
    clocks.Of(f.unit) - depths.Of(f.unit) < b <= cycle && executed - (cycle - b + 1) <= f.serial < executed &&
    history[f.serial % 128].insn.rd == f.rd
  }

  lemma {:induction false} SoundRetire(flights: map<int, Flight>, depths: Clocks, clocks: Clocks, cycle: int,
      executed: nat, history: seq<Past>, busy: set<Reg>, b: int)
    requires Sound(flights, depths, clocks, cycle, executed, history, busy) && b in flights
    ensures |history| == 128
    ensures Sound(Without(flights, b), depths, clocks, cycle, executed, history,
      busy - {history[flights[b].serial % 128].insn.rd})
  {
    RetiredBusy(flights, b);
    assert FlyingAt(flights[b], depths, clocks, cycle, executed, history, b);
  }

  /** The flights that are not done when `unit` has been clocked up to `clk`. */
  function Left(flights: map<int, Flight>, depths: Clocks, unit: Unit, clk: int): map<int, Flight> {
    map b | b in flights && (flights[b].unit == unit ==> clk - depths.Of(unit) < b) :: flights[b]
  }

  /** At most one flight of a unit is done at a clock. */
  lemma {:induction false} SoundTick(flights: map<int, Flight>, depths: Clocks, clocks: Clocks, cycle: int,
      executed: nat, history: seq<Past>, unit: Unit, left: map<int, Flight>, busy: set<Reg>, was: set<Reg>)
    requires Sound(flights, depths, clocks, cycle, executed, history, was) && clocks.Of(unit) == cycle
    requires var last := cycle - depths.Of(unit) + 1;
      left == if last in flights && flights[last].unit == unit then Without(flights, last) else flights
    requires Sound(left, depths, clocks, cycle, executed, history, busy)
    ensures Sound(left, depths, clocks.Tick(unit), cycle, executed, history, busy)
    ensures left == Left(flights, depths, unit, cycle + 1)
    ensures forall b :: b in left && left[b].unit == unit ==> cycle - depths.Of(unit) < b
  {
    forall b | b in flights
      ensures FlyingAt(flights[b], depths, clocks, cycle, executed, history, b)
    {
    }
    forall b | b in left
      ensures FlyingAt(left[b], depths, clocks.Tick(unit), cycle, executed, history, b)
    {
    }
  }

  /** The flights that are not done when all the units have been clocked up to `clk`. */
  function Remaining(flights: map<int, Flight>, depths: Clocks, clk: int): map<int, Flight> {
    map b | b in flights && clk - depths.Of(flights[b].unit) < b :: flights[b]
  }

  lemma {:induction false} RemainingIs(flights: map<int, Flight>, depths: Clocks, clk: int)
    ensures Left(Left(Left(flights, depths, Iu, clk), depths, Fpu, clk), depths, Mem, clk) ==
      Remaining(flights, depths, clk)
  {
    var first := Left(flights, depths, Iu, clk);
    var second := Left(first, depths, Fpu, clk);
    assert Left(second, depths, Mem, clk).Keys == Remaining(flights, depths, clk).Keys;
  }

  /** Before an instruction is issued in a cycle, there is room for its record. */
  ghost predicate Room(flights: map<int, Flight>, cycle: int, executed: nat) {
    forall b :: b in flights ==> b < cycle && executed - (cycle - b) <= flights[b].serial
  }

  lemma {:induction false} SoundNext(flights: map<int, Flight>, depths: Clocks, cycle: int, executed: nat,
      history: seq<Past>, busy: set<Reg>)
    requires Sound(flights, depths, Clocks(cycle + 1, cycle + 1, cycle + 1), cycle, executed, history, busy)
    ensures Sound(flights, depths, Clocks(cycle + 1, cycle + 1, cycle + 1), cycle + 1, executed, history, busy)
    ensures Room(flights, cycle + 1, executed) && busy == Busy(flights)
    ensures forall b :: b in flights ==> b <= cycle && cycle + 1 - depths.Of(flights[b].unit) < b
  {
    forall b | b in flights
      ensures b <= cycle && cycle + 1 - depths.Of(flights[b].unit) < b
      ensures executed - (cycle - b + 1) <= flights[b].serial
      ensures FlyingAt(flights[b], depths, Clocks(cycle + 1, cycle + 1, cycle + 1), cycle + 1, executed, history, b)
    {
      assert FlyingAt(flights[b], depths, Clocks(cycle + 1, cycle + 1, cycle + 1), cycle, executed, history, b);
    }
  }

  lemma {:induction false} SoundIssue(flights: map<int, Flight>, depths: Clocks, cycle: int, executed: nat,
      history: seq<Past>, history': seq<Past>, busy: set<Reg>, insn: Insn)
    requires Sound(flights, depths, Clocks(cycle, cycle, cycle), cycle, executed, history, busy)
    requires Room(flights, cycle, executed) && insn.rd !in busy
    requires depths.iu <= 16 && depths.fpu <= 16 && depths.mem <= 16
    requires 1 <= depths.iu && 1 <= depths.fpu && 1 <= depths.mem
    requires history' == history[executed % 128 := Past(cycle - 1, insn)]
    ensures Sound(flights[cycle := Flight(UnitOf(insn), executed, insn.rd)], depths, Clocks(cycle, cycle, cycle),
      cycle, executed + 1, history', busy + {insn.rd} - {0})
  {
    var f := Flight(UnitOf(insn), executed, insn.rd);
    IssuedBusy(flights, cycle, f);
    var more := flights[cycle := f];
    forall b | b in more
      ensures FlyingAt(more[b], depths, Clocks(cycle, cycle, cycle), cycle, executed + 1, history', b)
    {
      if b != cycle {
        assert FlyingAt(flights[b], depths, Clocks(cycle, cycle, cycle), cycle, executed, history, b);
        OtherRecord(executed, flights[b].serial);
      }
    }
  }

  lemma {:induction false} OtherRecord(executed: nat, serial: nat)
    requires serial < executed <= serial + 16
    ensures serial % 128 != executed % 128
  {
  }

  class Pipeline {
    const depth: nat
    /** Index of the instruction's history record, or -1 when the slot is free. */
    const stage: array<int>
    const countdown: array<int>

    constructor (depth: nat)
      ensures this.depth == depth && stage.Length == countdown.Length == 16
      ensures fresh(stage) && fresh(countdown) && stage != countdown
      ensures forall s :: 0 <= s < 16 ==> stage[s] == -1
    {
      this.depth := depth;
      stage := new int[16](_ => -1);
      countdown := new int[16](_ => 0);
    }

    ghost predicate Shape() {
      1 <= depth <= 16 && stage.Length == countdown.Length == 16 && stage != countdown
    }

    /** The slots hold exactly this unit's flights, clocked up to `clk`. */
    ghost predicate Holds(unit: Unit, flights: map<int, Flight>, now: int, clk: int)
      requires Shape()
      reads stage, countdown
    {
      SlotsHold(depth, unit, flights, now, clk, stage[..], countdown[..])
    }
  }

  class Core {
    var cycle: int
    var busy: set<Reg>
    const iu: Pipeline
    const fpu: Pipeline
    const mem: Pipeline
    const history: array<Past>
    var executed: nat
    /** What is in flight, by the cycle of issue. */
    ghost var flights: map<int, Flight>

    constructor (iu: nat, fpu: nat, mem: nat)
      requires 1 <= iu <= 16 && 1 <= fpu <= 16 && 1 <= mem <= 16
      ensures Valid() && flights == map[] && cycle == 0 && executed == 0
      ensures this.iu.depth == iu && this.fpu.depth == fpu && this.mem.depth == mem
    {
      cycle, busy, executed, flights := 0, {}, 0, map[];
      this.iu := new Pipeline(iu);
      this.fpu := new Pipeline(fpu);
      this.mem := new Pipeline(mem);
      history := new Past[128](_ => Past(0, Insn(0, 0, 0, 0, false, false, false)));
    }

    function PipelineOf(unit: Unit): Pipeline {
      match unit
      case Iu => iu
      case Fpu => fpu
      case Mem => mem
    }

    function Depths(): Clocks {
      Clocks(iu.depth, fpu.depth, mem.depth)
    }

    ghost predicate Shape() {
      iu.Shape() && fpu.Shape() && mem.Shape() && history.Length == 128 &&
      iu.stage != fpu.stage && iu.stage != mem.stage && fpu.stage != mem.stage &&
      iu.stage != fpu.countdown && iu.stage != mem.countdown && fpu.stage != mem.countdown &&
      fpu.stage != iu.countdown && mem.stage != iu.countdown && mem.stage != fpu.countdown &&
      iu.countdown != fpu.countdown && iu.countdown != mem.countdown && fpu.countdown != mem.countdown
    }

    lemma {:induction false} ShapeOf(unit: Unit)
      requires Shape()
      ensures iu.Shape() && fpu.Shape() && mem.Shape() && history.Length == 128
      ensures PipelineOf(unit).Shape() && PipelineOf(unit).depth == Depths().Of(unit) <= 16
      ensures 1 <= PipelineOf(unit).depth && PipelineOf(unit).stage != PipelineOf(unit).countdown
      ensures PipelineOf(unit).stage.Length == PipelineOf(unit).countdown.Length == 16
      ensures unit != Iu ==> {iu.stage, iu.countdown} !! {PipelineOf(unit).stage, PipelineOf(unit).countdown}
      ensures unit != Fpu ==> {fpu.stage, fpu.countdown} !! {PipelineOf(unit).stage, PipelineOf(unit).countdown}
      ensures unit != Mem ==> {mem.stage, mem.countdown} !! {PipelineOf(unit).stage, PipelineOf(unit).countdown}
    {
    }

    /** The invariant, when each unit has been clocked as far as `clocks` says. */
    ghost predicate Clocked(clocks: Clocks)
      reads this, history, iu.stage, iu.countdown, fpu.stage, fpu.countdown, mem.stage, mem.countdown
    {
      Shape() && Sound(flights, Depths(), clocks, cycle, executed, history[..], busy) &&
      iu.Holds(Iu, flights, cycle, clocks.iu) && fpu.Holds(Fpu, flights, cycle, clocks.fpu) &&
      mem.Holds(Mem, flights, cycle, clocks.mem)
    }

    ghost predicate Valid()
      reads this, history, iu.stage, iu.countdown, fpu.stage, fpu.countdown, mem.stage, mem.countdown
    {
      Clocked(Clocks(cycle, cycle, cycle))
    }

    /** The other units after a flight of `unit` was retired. */
    lemma {:induction false} OthersHold(unit: Unit, before: map<int, Flight>, clocks: Clocks, last: int)
      requires Shape()
      requires unit != Iu ==> iu.Holds(Iu, before, cycle, clocks.iu)
      requires unit != Fpu ==> fpu.Holds(Fpu, before, cycle, clocks.fpu)
      requires unit != Mem ==> mem.Holds(Mem, before, cycle, clocks.mem)
      requires flights == if last in before && before[last].unit == unit then Without(before, last) else before
      ensures unit != Iu ==> iu.Holds(Iu, flights, cycle, clocks.iu)
      ensures unit != Fpu ==> fpu.Holds(Fpu, flights, cycle, clocks.fpu)
      ensures unit != Mem ==> mem.Holds(Mem, flights, cycle, clocks.mem)
    {
      hide SlotsHold, Without;
      if last in before && before[last].unit == unit {
        if unit != Iu {
          OtherUnit(iu.depth, Iu, before, cycle, clocks.iu, iu.stage[..], iu.countdown[..], last);
        }
        if unit != Fpu {
          OtherUnit(fpu.depth, Fpu, before, cycle, clocks.fpu, fpu.stage[..], fpu.countdown[..], last);
        }
        if unit != Mem {
          OtherUnit(mem.depth, Mem, before, cycle, clocks.mem, mem.stage[..], mem.countdown[..], last);
        }
      }
    }

    lemma {:induction false} ClockedParts(clocks: Clocks, unit: Unit)
      requires Clocked(clocks)
      ensures Shape() && Sound(flights, Depths(), clocks, cycle, executed, history[..], busy)
      ensures iu.Holds(Iu, flights, cycle, clocks.iu) && fpu.Holds(Fpu, flights, cycle, clocks.fpu)
      ensures mem.Holds(Mem, flights, cycle, clocks.mem) && |history[..]| == 128
      ensures var pipe := PipelineOf(unit);
        pipe.Shape() && SlotsHold(pipe.depth, unit, flights, cycle, clocks.Of(unit), pipe.stage[..], pipe.countdown[..])
    {
    }

    lemma {:induction false} ClockedAgain(clocks: Clocks, unit: Unit)
      requires Shape() && Sound(flights, Depths(), clocks.Tick(unit), cycle, executed, history[..], busy)
      requires unit != Iu ==> iu.Holds(Iu, flights, cycle, clocks.iu)
      requires unit != Fpu ==> fpu.Holds(Fpu, flights, cycle, clocks.fpu)
      requires unit != Mem ==> mem.Holds(Mem, flights, cycle, clocks.mem)
      requires clocks.Of(unit) == cycle
      requires var pipe := PipelineOf(unit);
        pipe.Shape() && SlotsHold(pipe.depth, unit, flights, cycle, cycle + 1, pipe.stage[..], pipe.countdown[..])
      ensures Clocked(clocks.Tick(unit))
    {
    }

    lemma {:induction false} ValidIs()
      requires Valid()
      ensures Clocked(Clocks(cycle, cycle, cycle))
      ensures forall unit :: Clocks(cycle, cycle, cycle).Of(unit) == cycle
    {
    }

    lemma {:induction false} Units(c: int)
      ensures forall unit :: PipelineOf(unit) in {iu, fpu, mem}
      ensures PipelineOf(Iu) == iu && PipelineOf(Fpu) == fpu && PipelineOf(Mem) == mem
      ensures Clocks(c, c, c).Tick(Iu) == Clocks(c + 1, c, c)
      ensures Clocks(c + 1, c, c).Tick(Fpu) == Clocks(c + 1, c + 1, c)
      ensures Clocks(c + 1, c + 1, c).Tick(Mem) == Clocks(c + 1, c + 1, c + 1)
      ensures Clocks(c, c, c).Of(Iu) == Clocks(c + 1, c, c).Of(Fpu) == Clocks(c + 1, c + 1, c).Of(Mem) == c
    {
    }

    /** What holds of the next cycle once every unit has been clocked. */
    ghost predicate ReadyFor(c: int)
      reads `flights, `executed, `busy, history
      reads iu.stage, iu.countdown, fpu.stage, fpu.countdown, mem.stage, mem.countdown
    {
      Shape() && Sound(flights, Depths(), Clocks(c, c, c), c, executed, history[..], busy) &&
      Room(flights, c, executed) && iu.Holds(Iu, flights, c, c) && fpu.Holds(Fpu, flights, c, c) &&
      mem.Holds(Mem, flights, c, c)
    }

    lemma {:induction false} AdvanceUnit(unit: Unit)
      requires Clocked(Clocks(cycle + 1, cycle + 1, cycle + 1))
      ensures var pipe := PipelineOf(unit);
        pipe.Shape() &&
        SlotsHold(pipe.depth, unit, flights, cycle + 1, cycle + 1, pipe.stage[..], pipe.countdown[..])
    {
      hide *;
      ClockedParts(Clocks(cycle + 1, cycle + 1, cycle + 1), unit);
      SoundNext(flights, Depths(), cycle, executed, history[..], busy);
      ShapeOf(unit);
      EachOf(cycle + 1, unit);
      var pipe := PipelineOf(unit);
      NextCycle(pipe.depth, unit, flights, cycle, pipe.stage[..], pipe.countdown[..]);
    }

    lemma {:induction false} EachOf(c: int, unit: Unit)
      ensures Clocks(c, c, c).Of(unit) == c
    {
    }

    lemma {:induction false} Advance()
      requires Clocked(Clocks(cycle + 1, cycle + 1, cycle + 1))
      ensures ReadyFor(cycle + 1) && busy == Busy(flights)
    {
      hide SlotsHold, Sound, Room;
      AdvanceUnit(Iu);
      AdvanceUnit(Fpu);
      AdvanceUnit(Mem);
      SoundNext(flights, Depths(), cycle, executed, history[..], busy);
    }

    lemma {:induction false} Advanced(c: int)
      requires ReadyFor(c) && c == cycle
      ensures Valid() && Room(flights, cycle, executed)
    {
      hide SlotsHold, Sound, Room;
    }

    /** `core_t::clock_pipeline`. */
    method ClockPipeline(unit: Unit, ghost clocks: Clocks)
      requires Clocked(clocks) && clocks.Of(unit) == cycle
      modifies this`busy, this`flights, PipelineOf(unit).stage, PipelineOf(unit).countdown
      ensures Clocked(clocks.Tick(unit)) && flights == Left(old(flights), Depths(), unit, cycle + 1)
    {
      hide *;
      ClockedParts(clocks, unit);
      ShapeOf(unit);
      var pipe := PipelineOf(unit);
      var k := 0;
      ghost var before, was, last := flights, busy, cycle - pipe.depth + 1;
      StartClock(pipe.depth, unit, flights, cycle, pipe.stage[..], pipe.countdown[..]);
      while k < pipe.depth
        invariant 0 <= k <= pipe.depth
        invariant Sound(flights, Depths(), clocks, cycle, executed, history[..], busy)
        invariant flights == if k == pipe.depth && last in before && before[last].unit == unit
          then Without(before, last) else before
        invariant SlotsClocked(pipe.depth, unit, flights, cycle, k, pipe.stage[..], pipe.countdown[..])
      {
        SlotOf(cycle, k);
        var i := Index(cycle - k);
        k := k + 1;
        if pipe.stage[i] == -1 {
          PassOver(pipe.depth, unit, flights, cycle, k - 1, pipe.stage[..], pipe.countdown[..]);
          continue;
        }
        ghost var countdown := pipe.countdown[..];
        pipe.countdown[i] := pipe.countdown[i] - 1;
        CountDown(pipe.depth, unit, flights, cycle, k - 1, pipe.stage[..], countdown, pipe.countdown[..]);
        if pipe.countdown[i] == 0 {
          ghost var stage := pipe.stage[..];
          assert i == Index(cycle - (k as int) + 1);
          SoundRetire(flights, Depths(), clocks, cycle, executed, history[..], busy, last);
          busy := busy - {history[pipe.stage[i]].insn.rd};
          pipe.stage[i] := -1;
          Retire(pipe.depth, unit, flights, cycle, k, stage, pipe.stage[..], pipe.countdown[..]);
          flights := Without(flights, last);
        }
      }
      SoundTick(before, Depths(), clocks, cycle, executed, history[..], unit, flights, busy, was);
      FinishClock(pipe.depth, unit, flights, cycle, pipe.stage[..], pipe.countdown[..]);
      OthersHold(unit, before, clocks, last);
      ClockedAgain(clocks, unit);
    }

    lemma {:induction false} FreeSlot(unit: Unit)
      requires Valid() && Room(flights, cycle, executed)
      ensures Index(cycle) < 16 && PipelineOf(unit).Shape() && PipelineOf(unit).stage[Index(cycle)] == -1
      ensures cycle !in flights && busy == Busy(flights)
      ensures 1 <= Depths().iu <= 16 && 1 <= Depths().fpu <= 16 && 1 <= Depths().mem <= 16
    {
      AtUnique(cycle, cycle);
      var pipe := PipelineOf(unit);
      assert SlotHolds(pipe.depth, unit, flights, cycle, cycle, Index(cycle), pipe.stage[..][Index(cycle)],
        pipe.countdown[..][Index(cycle)]);
    }

    lemma {:induction false} OutputFree(insn: Insn, busy: set<Reg>)
      requires Operands(insn) !! busy && busy == Busy(flights)
      ensures insn.rd !in busy
    {
    }

    /** The units after an instruction entered one of them. */
    lemma {:induction false} Entered(before: map<int, Flight>, f: Flight, unit: Unit, stage: seq<int>,
        countdown: seq<int>)
      requires Shape() && flights == before[cycle := f] && f.unit == unit && cycle !in before
      requires Sound(flights, Depths(), Clocks(cycle, cycle, cycle), cycle, executed, history[..], busy)
      requires var pipe := PipelineOf(unit);
        |stage| == |countdown| == 16 && pipe.Shape() && Index(cycle) < 16 &&
        SlotsHold(pipe.depth, unit, before, cycle, cycle, stage, countdown) &&
        pipe.stage[..] == stage[Index(cycle) := f.serial % 128] &&
        pipe.countdown[..] == countdown[Index(cycle) := pipe.depth]
      requires unit != Iu ==> iu.Holds(Iu, before, cycle, cycle)
      requires unit != Fpu ==> fpu.Holds(Fpu, before, cycle, cycle)
      requires unit != Mem ==> mem.Holds(Mem, before, cycle, cycle)
      ensures Valid()
    {
      hide SlotsHold, Sound;
      var pipe := PipelineOf(unit);
      Enter(pipe.depth, unit, before, cycle, f, stage, pipe.stage[..], countdown, pipe.countdown[..]);
      if unit != Iu {
        Enter(iu.depth, Iu, before, cycle, f, iu.stage[..], iu.stage[..], iu.countdown[..], iu.countdown[..]);
      }
      if unit != Fpu {
        Enter(fpu.depth, Fpu, before, cycle, f, fpu.stage[..], fpu.stage[..], fpu.countdown[..], fpu.countdown[..]);
      }
      if unit != Mem {
        Enter(mem.depth, Mem, before, cycle, f, mem.stage[..], mem.stage[..], mem.countdown[..], mem.countdown[..]);
      }
    }

    /** An instruction waits for its destination and for its sources; one with a long immediate has one source.
        It goes to the floating-point unit, else to the memory unit if it accesses memory, else to the integer
        unit. */
    lemma {:induction false} IssueRules(insn: Insn, busy: set<Reg>)
      ensures (Operands(insn) !! busy) <==> forall r :: r in busy && r != 0 ==>
        r != insn.rd && r != insn.rs1 && (insn.longImmed || (r != insn.rs2 && r != insn.rs3))
      ensures insn.fp ==> UnitOf(insn) == Fpu
      ensures !insn.fp ==> UnitOf(insn) == if insn.memory then Mem else Iu
    {
    }

    lemma {:induction false} WaitsFor(insn: Insn, left: map<int, Flight>, busy: set<Reg>)
      requires busy == Busy(left)
      ensures (forall r :: r in busy && r != 0 ==>
        r != insn.rd && r != insn.rs1 && (insn.longImmed || (r != insn.rs2 && r != insn.rs3))) <==>
        forall b :: b in left && left[b].rd != 0 ==>
          left[b].rd != insn.rd && left[b].rd != insn.rs1 &&
          (insn.longImmed || (left[b].rd != insn.rs2 && left[b].rd != insn.rs3))
    {
      assert forall b :: b in left && left[b].rd != 0 ==> left[b].rd in Busy(left);
    }

    /** `core_t::issue`, of the instruction at the program counter. */
    method Issue(insn: Insn) returns (issued: bool)
      requires Valid() && Room(flights, cycle, executed)
      modifies this`busy, this`executed, this`flights, history
      modifies PipelineOf(UnitOf(insn)).stage, PipelineOf(UnitOf(insn)).countdown
      ensures Valid() && (issued <==> forall r :: r in old(busy) && r != 0 ==>
        r != insn.rd && r != insn.rs1 && (insn.longImmed || (r != insn.rs2 && r != insn.rs3)))
      ensures var unit := if insn.fp then Fpu else if insn.memory then Mem else Iu;
        flights == if issued then old(flights)[cycle := Flight(unit, old(executed), insn.rd)] else old(flights)
      ensures issued ==> history.Length == 128 && history[old(executed) % 128] == Past(cycle - 1, insn)
      ensures executed == old(executed) + if issued then 1 else 0
      ensures PipelineOf(UnitOf(insn)).Shape() && old(PipelineOf(UnitOf(insn)).stage[Index(cycle)]) == -1
    {
      hide *;
      IssueRules(insn, busy);
      FreeSlot(UnitOf(insn));
      if !(Operands(insn) !! busy) {
        return false;
      }
      Place(insn);
      issued := true;
    }

    /** Puts an instruction that need not wait into its unit. */
    method Place(insn: Insn)
      requires Valid() && Room(flights, cycle, executed) && Operands(insn) !! busy
      modifies this`busy, this`executed, this`flights, history
      modifies PipelineOf(UnitOf(insn)).stage, PipelineOf(UnitOf(insn)).countdown
      ensures Valid() && flights == old(flights)[cycle := Flight(UnitOf(insn), old(executed), insn.rd)]
      ensures history.Length == 128 && history[old(executed) % 128] == Past(cycle - 1, insn)
      ensures executed == old(executed) + 1
    {
      hide *;
      ValidIs();
      ClockedParts(Clocks(cycle, cycle, cycle), UnitOf(insn));
      ShapeOf(UnitOf(insn));
      FreeSlot(UnitOf(insn));
      OutputFree(insn, busy);
      ghost var before, was, records, serial := flights, busy, history[..], executed;
      var unit := PipelineOf(UnitOf(insn));
      var slot := Index(cycle);
      ghost var stage, countdown := unit.stage[..], unit.countdown[..];
      unit.stage[slot] := executed % 128;
      unit.countdown[slot] := unit.depth;
      history[executed % 128] := Past(cycle - 1, insn);
      executed := executed + 1;
      busy := busy + {insn.rd} - {0};
      flights := flights[cycle := Flight(UnitOf(insn), serial, insn.rd)];
      SoundIssue(before, Depths(), cycle, serial, records, history[..], was, insn);
      Entered(before, Flight(UnitOf(insn), serial, insn.rd), UnitOf(insn), stage, countdown);
    }

    /** One cycle: the units are clocked, time advances, and the next instruction is issued if it can
        be. */
    method Tick(insn: Insn) returns (issued: bool)
      requires Valid()
      modifies this`busy, this`executed, this`flights, this`cycle, history
      modifies iu.stage, iu.countdown, fpu.stage, fpu.countdown, mem.stage, mem.countdown
      ensures Valid() && cycle == old(cycle) + 1
      ensures var left := Remaining(old(flights), Depths(), cycle);
        (issued <==> forall b :: b in left && left[b].rd != 0 ==>
          left[b].rd != insn.rd && left[b].rd != insn.rs1 &&
          (insn.longImmed || (left[b].rd != insn.rs2 && left[b].rd != insn.rs3))) &&
        var unit := if insn.fp then Fpu else if insn.memory then Mem else Iu;
        flights == if issued then left[cycle := Flight(unit, old(executed), insn.rd)] else left
      ensures executed == old(executed) + if issued then 1 else 0
    {
      hide *;
      ghost var c := cycle;
      ValidIs();
      Units(c);
      ClockPipeline(Iu, Clocks(c, c, c));
      ClockPipeline(Fpu, Clocks(c + 1, c, c));
      ClockPipeline(Mem, Clocks(c + 1, c + 1, c));
      RemainingIs(old(flights), Depths(), c + 1);
      Advance();
      cycle := cycle + 1;
      Advanced(c + 1);
      WaitsFor(insn, flights, busy);
      issued := Issue(insn);
    }

    /** A slot of a unit holds an instruction that writes `r`. */
    ghost predicate Writes(unit: Unit, s: int, r: Reg)
      requires Shape()
      reads history, iu.stage, fpu.stage, mem.stage
    {
      0 <= s < 16 && 0 <= PipelineOf(unit).stage[s] < 128 && history[PipelineOf(unit).stage[s]].insn.rd == r
    }

    lemma {:induction false} WritesFlight(unit: Unit, s: int, r: Reg)
      requires Valid()
      ensures Writes(unit, s, r) <==> 0 <= s < 16 && var b := At(cycle, s);
        b in flights && flights[b].unit == unit && flights[b].rd == r
    {
      var pipe := PipelineOf(unit);
      if 0 <= s < 16 {
        assert SlotHolds(pipe.depth, unit, flights, cycle, cycle, s, pipe.stage[..][s], pipe.countdown[..][s]);
        var b := At(cycle, s);
        if b in flights {
          assert FlyingAt(flights[b], Depths(), Clocks(cycle, cycle, cycle), cycle, executed, history[..], b);
        }
      }
    }

    /** The scoreboard is exact: a register is busy if and only if a slot holds an instruction that
        writes it, and then only one does. */
    lemma {:induction false} ScoreboardExact(r: Reg)
      requires Valid() && r != 0
      ensures r in busy <==> exists unit, s :: Writes(unit, s, r)
      ensures forall unit, s, unit', s' :: Writes(unit, s, r) && Writes(unit', s', r) ==> unit == unit' && s == s'
    {
      hide Writes;
      if r in busy {
        var b :| b in flights && flights[b].rd == r;
        assert FlyingAt(flights[b], Depths(), Clocks(cycle, cycle, cycle), cycle, executed, history[..], b);
        AtUnique(cycle, b);
        WritesFlight(flights[b].unit, Index(b), r);
        assert Writes(flights[b].unit, Index(b), r);
      }
      forall unit, s | Writes(unit, s, r)
        ensures 0 <= s < 16 && At(cycle, s) in flights
        ensures flights[At(cycle, s)].unit == unit && flights[At(cycle, s)].rd == r && r in busy
      {
        WritesFlight(unit, s, r);
      }
    }

    /** The deepest unit. */
    function Deepest(): nat {
      var deeper := if fpu.depth < iu.depth then iu.depth else fpu.depth;
      if mem.depth < deeper then deeper else mem.depth
    }

    lemma {:induction false} InFlight()
      requires Valid()
      ensures 1 <= Deepest() && forall b :: b in flights ==> cycle - Deepest() < b <= cycle
    {
      forall b | b in flights
        ensures cycle - Deepest() < b <= cycle
      {
        assert FlyingAt(flights[b], Depths(), Clocks(cycle, cycle, cycle), cycle, executed, history[..], b);
      }
    }

    /** A stalled instruction issues before as many cycles have passed as the deepest unit is deep. */
    method IssueWhenReady(insn: Insn) returns (stalls: nat)
      requires Valid()
      modifies this`busy, this`executed, this`flights, this`cycle, history
      modifies iu.stage, iu.countdown, fpu.stage, fpu.countdown, mem.stage, mem.countdown
      ensures Valid() && stalls < Deepest() && cycle == old(cycle) + stalls + 1
      ensures executed == old(executed) + 1
      ensures var unit := if insn.fp then Fpu else if insn.memory then Mem else Iu;
        cycle in flights && flights[cycle] == Flight(unit, old(executed), insn.rd)
    {
      hide Valid;
      InFlight();
      ghost var start := cycle;
      stalls := 0;
      var issued := Tick(insn);
      while !issued
        invariant Valid() && cycle == start + stalls + 1
        invariant executed == old(executed) + if issued then 1 else 0
        invariant issued ==> cycle in flights && flights[cycle] == Flight(UnitOf(insn), old(executed), insn.rd)
        invariant !issued ==> forall b :: b in flights ==> cycle - Deepest() < b <= start
        invariant !issued ==> stalls + 1 < Deepest()
        invariant stalls < Deepest()
        decreases Deepest() - stalls, !issued
      {
        issued := Tick(insn);
        stalls := stalls + 1;
      }
    }
  }
}
