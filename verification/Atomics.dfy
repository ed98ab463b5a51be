/** Harts that share memory: the compare-and-swap loops `amo_int32` and `amo_int64` and the
    compare-and-swap `cas` of caveat/hart.h, as steps that interleave in any order. */
module Atomics {
  type Hart = nat
  type Address = nat

  /** What an atomic memory operation does to the word it addresses. */
  datatype Amo = Amo(addr: Address, f: int -> int)

  /** Where a hart is in its loop: about to load, or about to swap for the value it loaded when the
      history was `mark` events long. */
  datatype Phase = Idle | Looping(amo: Amo) | Loaded(amo: Amo, lhs: int, mark: nat)

  /** What took effect on memory, with what it told its hart. */
  datatype Event =
    | AmoDone(hart: Hart, amo: Amo, returned: int)
    | CasDone(hart: Hart, addr: Address, replacement: int, wanted: int, failed: bool)
    | Stored(hart: Hart, addr: Address, value: int)

  datatype State = State(mem: map<Address, int>, phases: map<Hart, Phase>, history: seq<Event>,
    begun: map<Hart, seq<Amo>>)

  function Read(mem: map<Address, int>, addr: Address): int {
    if addr in mem then mem[addr] else 0
  }

  function PhaseOf(st: State, h: Hart): Phase {
    if h in st.phases then st.phases[h] else Idle
  }

  function BegunBy(st: State, h: Hart): seq<Amo> {
    if h in st.begun then st.begun[h] else []
  }

  datatype Step =
    | Begin(hart: Hart, amo: Amo)
    | Load(hart: Hart)
    | Swap(hart: Hart)
    | Cas(hart: Hart, addr: Address, replacement: int, wanted: int)
    | Store(hart: Hart, addr: Address, value: int)

  predicate Enabled(st: State, step: Step) {
    match step
    case Begin(h, _) => PhaseOf(st, h) == Idle
    case Load(h) => PhaseOf(st, h).Looping?
    case Swap(h) => PhaseOf(st, h).Loaded?
    case Cas(h, _, _, _) => PhaseOf(st, h) == Idle
    case Store(h, _, _) => PhaseOf(st, h) == Idle
  }

  function Next(st: State, step: Step): State
    requires Enabled(st, step)
  {
    match step
    case Begin(h, amo) =>
      st.(phases := st.phases[h := Looping(amo)], begun := st.begun[h := BegunBy(st, h) + [amo]])
    case Load(h) =>
      var amo := PhaseOf(st, h).amo;
      st.(phases := st.phases[h := Loaded(amo, Read(st.mem, amo.addr), |st.history|)])
    case Swap(h) =>
      var amo, lhs := PhaseOf(st, h).amo, PhaseOf(st, h).lhs;
      if Read(st.mem, amo.addr) == lhs then
        st.(mem := st.mem[amo.addr := amo.f(lhs)], phases := st.phases[h := Idle],
          history := st.history + [AmoDone(h, amo, lhs)])
      else st.(phases := st.phases[h := Looping(amo)])
    case Cas(h, addr, replacement, wanted) =>
      var failed := Read(st.mem, addr) != wanted;
      st.(mem := if failed then st.mem else st.mem[addr := replacement],
        history := st.history + [CasDone(h, addr, replacement, wanted, failed)])
    case Store(h, addr, value) =>
      st.(mem := st.mem[addr := value], history := st.history + [Stored(h, addr, value)])
  }

  /** The state after a schedule of steps. */
  ghost predicate Reaches(st: State, steps: seq<Step>, end: State)
    decreases |steps|
  {
    if steps == [] then end == st
    else Enabled(st, steps[0]) && Reaches(Next(st, steps[0]), steps[1..], end)
  }

  ghost predicate Initial(st: State) {
    st.history == [] && st.phases == map[] && st.begun == map[]
  }

  /** The sequential meaning of an event: each happens in one piece, one after another. */
  function Effect(mem: map<Address, int>, event: Event): map<Address, int> {
    match event
    case AmoDone(_, amo, _) => mem[amo.addr := amo.f(Read(mem, amo.addr))]
    case CasDone(_, addr, replacement, wanted, _) => if Read(mem, addr) == wanted then mem[addr := replacement] else mem
    case Stored(_, addr, value) => mem[addr := value]
  }

  /** What the event told its hart is what sequential execution tells it. */
  predicate Answers(mem: map<Address, int>, event: Event) {
    match event
    case AmoDone(_, amo, returned) => returned == Read(mem, amo.addr)
    case CasDone(_, addr, _, wanted, failed) => failed == (Read(mem, addr) != wanted)
    case Stored(_, _, _) => true
  }

  function Replay(mem: map<Address, int>, history: seq<Event>): map<Address, int> {
    if history == [] then mem
    else Effect(Replay(mem, history[..|history| - 1]), history[|history| - 1])
  }

  predicate AllAnswer(mem: map<Address, int>, history: seq<Event>) {
    history == [] || (AllAnswer(mem, history[..|history| - 1]) &&
      Answers(Replay(mem, history[..|history| - 1]), history[|history| - 1]))
  }

  /** The atomic operations `h` has completed, in order. */
  function CompletedBy(history: seq<Event>, h: Hart): seq<Amo> {
    if history == [] then []
    else
      var last := history[|history| - 1];
      CompletedBy(history[..|history| - 1], h) + if last.AmoDone? && last.hart == h then [last.amo] else []
  }

  function PendingOf(p: Phase): seq<Amo> {
    if p.Idle? then [] else [p.amo]
  }

  predicate Touches(event: Event, addr: Address) {
    match event
    case AmoDone(_, amo, _) => amo.addr == addr
    case CasDone(_, a, _, _, failed) => a == addr && !failed
    case Stored(_, a, _) => a == addr
  }

  /** The loaded value still stands unless somebody else has written the word since. */
  ghost predicate Standing(st: State, h: Hart) {
    var p := PhaseOf(st, h);
    p.Loaded? ==> p.mark <= |st.history| && (Read(st.mem, p.amo.addr) == p.lhs || Interfered(st, h))
  }

  /** Another hart's event on the word of `h`, since `h` loaded it. */
  ghost predicate Interfered(st: State, h: Hart)
    requires PhaseOf(st, h).Loaded?
  {
    exists k :: PhaseOf(st, h).mark <= k < |st.history| && st.history[k].hart != h &&
      Touches(st.history[k], PhaseOf(st, h).amo.addr)
  }

  ghost predicate Consistent(mem: map<Address, int>, st: State) {
    st.mem == Replay(mem, st.history) && AllAnswer(mem, st.history) &&
    (forall h: Hart :: BegunBy(st, h) == CompletedBy(st.history, h) + PendingOf(PhaseOf(st, h))) &&
    (forall h: Hart :: Standing(st, h))
  }

  lemma {:induction false} Appended(mem: map<Address, int>, history: seq<Event>, event: Event, h: Hart)
    ensures Replay(mem, history + [event]) == Effect(Replay(mem, history), event)
    ensures AllAnswer(mem, history + [event]) <==> AllAnswer(mem, history) && Answers(Replay(mem, history), event)
    ensures CompletedBy(history + [event], h) ==
      CompletedBy(history, h) + if event.AmoDone? && event.hart == h then [event.amo] else []
  {
    var longer := history + [event];
    assert longer[..|longer| - 1] == history;
  }

  /** An event by `by` leaves what `h` loaded standing or interferes with it. */
  lemma {:induction false} StillStanding(st: State, st': State, event: Event, h: Hart)
    requires Standing(st, h) && st'.history == st.history + [event] && event.hart != h
    requires PhaseOf(st', h) == PhaseOf(st, h)
    requires forall addr :: !Touches(event, addr) ==> Read(st'.mem, addr) == Read(st.mem, addr)
    ensures Standing(st', h)
  {
    var p := PhaseOf(st, h);
    if p.Loaded? {
      if Touches(event, p.amo.addr) {
        assert st'.history[|st.history|] == event;
      } else if Read(st.mem, p.amo.addr) != p.lhs {
        var k :| p.mark <= k < |st.history| && st.history[k].hart != h && Touches(st.history[k], p.amo.addr);
        assert st'.history[k] == st.history[k];
      }
    }
  }

  lemma {:induction false} EventKeeps(mem: map<Address, int>, st: State, st': State, event: Event)
    requires Consistent(mem, st) && st'.history == st.history + [event] && st'.begun == st.begun
    requires st'.mem == Effect(st.mem, event) && Answers(st.mem, event)
    requires forall h :: h != event.hart ==> PhaseOf(st', h) == PhaseOf(st, h)
    requires PhaseOf(st', event.hart) == Idle
    requires PendingOf(PhaseOf(st, event.hart)) == if event.AmoDone? then [event.amo] else []
    ensures Consistent(mem, st')
  {
    Appended(mem, st.history, event, event.hart);
    forall h: Hart
      ensures BegunBy(st', h) == CompletedBy(st'.history, h) + PendingOf(PhaseOf(st', h)) && Standing(st', h)
    {
      Appended(mem, st.history, event, h);
      assert Standing(st, h);
      if h != event.hart {
        StillStanding(st, st', event, h);
      }
    }
  }

  /** A step that writes nothing. */
  lemma {:induction false} QuietKeeps(mem: map<Address, int>, st: State, st': State, h: Hart)
    requires Consistent(mem, st) && st'.history == st.history && st'.mem == st.mem
    requires forall g :: g != h ==> PhaseOf(st', g) == PhaseOf(st, g) && BegunBy(st', g) == BegunBy(st, g)
    requires BegunBy(st', h) == CompletedBy(st.history, h) + PendingOf(PhaseOf(st', h)) && Standing(st', h)
    ensures Consistent(mem, st')
  {
    forall g: Hart
      ensures BegunBy(st', g) == CompletedBy(st'.history, g) + PendingOf(PhaseOf(st', g)) && Standing(st', g)
    {
      assert Standing(st, g);
      if g != h && PhaseOf(st, g).Loaded? && Interfered(st, g) {
        assert Interfered(st', g);
      }
    }
  }

  lemma {:induction false} BegunIs(mem: map<Address, int>, st: State, h: Hart)
    requires Consistent(mem, st)
    ensures BegunBy(st, h) == CompletedBy(st.history, h) + PendingOf(PhaseOf(st, h))
  {
  }

  /** Every step keeps memory what the events so far make of it in sequence. */
  lemma {:induction false} StepKeeps(mem: map<Address, int>, st: State, step: Step)
    requires Consistent(mem, st) && Enabled(st, step)
    ensures Consistent(mem, Next(st, step))
  {
    var st', h := Next(st, step), step.hart;
    BegunIs(mem, st, h);
    hide Consistent, CompletedBy;
    if |st'.history| != |st.history| {
      EventKeeps(mem, st, st', st'.history[|st.history|]);
    } else {
      QuietKeeps(mem, st, st', h);
    }
  }

  /** Linearizability: whatever the interleaving, memory is what the events, in the order of their
      successful swaps, make of it one after another; each operation returned the value just before its own
      effect; and every hart's operations took effect in the order it began them, all but a pending
      one. */
  lemma {:induction false} Linearizable(mem: map<Address, int>, st: State, steps: seq<Step>, end: State)
    requires Consistent(mem, st) && Reaches(st, steps, end)
    ensures Consistent(mem, end)
    decreases |steps|
  {
    if steps != [] {
      StepKeeps(mem, st, steps[0]);
      hide Consistent, Enabled;
      Linearizable(mem, Next(st, steps[0]), steps[1..], end);
    }
  }

  lemma {:induction false} InitiallyConsistent(st: State)
    requires Initial(st)
    ensures Consistent(st.mem, st)
  {
  }

  /** Lock freedom: in every reachable state a swap can only fail because another hart wrote the word
      after it was loaded. */
  lemma {:induction false} FailureMeansInterference(start: State, steps: seq<Step>, st: State, h: Hart)
    requires Initial(start) && Reaches(start, steps, st) && PhaseOf(st, h).Loaded?
    ensures Next(st, Swap(h)).history == st.history ==> Interfered(st, h)
  {
    InitiallyConsistent(start);
    Linearizable(start.mem, start, steps, st);
    assert Standing(st, h);
  }

  /** A swap that finds its word unchanged since the load succeeds, at once. */
  lemma {:induction false} UndisturbedSwap(st: State, h: Hart)
    requires PhaseOf(st, h).Looping?
    ensures var amo := PhaseOf(st, h).amo;
      var done := Next(Next(st, Load(h)), Swap(h));
      done.mem == st.mem[amo.addr := amo.f(Read(st.mem, amo.addr))] && PhaseOf(done, h) == Idle &&
      done.history == st.history + [AmoDone(h, amo, Read(st.mem, amo.addr))]
  {
  }

  /** A hart that is idle begins, loads and swaps; if nobody steps in between, its operation takes effect at
      once, and nothing else changes. */
  lemma {:induction false} UndisturbedOperation(st: State, h: Hart, amo: Amo)
    requires PhaseOf(st, h) == Idle
    ensures var done := Next(Next(Next(st, Begin(h, amo)), Load(h)), Swap(h));
      BegunBy(done, h) == BegunBy(st, h) + [amo] && PhaseOf(done, h) == Idle &&
      done.history == st.history + [AmoDone(h, amo, Read(st.mem, amo.addr))] &&
      (forall a :: Read(done.mem, a) == if a == amo.addr then amo.f(Read(st.mem, a)) else Read(st.mem, a)) &&
      forall g :: g != h ==> PhaseOf(done, g) == PhaseOf(st, g) && BegunBy(done, g) == BegunBy(st, g)
  {
    var begun := Next(st, Begin(h, amo));
    UndisturbedSwap(begun, h);
  }

  /** A swap that finds another value leaves everything as it is, and the hart loads again. */
  lemma {:induction false} SwapAgain(st: State, h: Hart)
    requires PhaseOf(st, h).Loaded? && Read(st.mem, PhaseOf(st, h).amo.addr) != PhaseOf(st, h).lhs
    ensures var st' := Next(st, Swap(h));
      st'.mem == st.mem && st'.history == st.history && st'.begun == st.begun &&
      PhaseOf(st', h) == Looping(PhaseOf(st, h).amo) && Enabled(st', Load(h)) &&
      forall g :: g != h ==> PhaseOf(st', g) == PhaseOf(st, g)
  {
  }

  /** `cas` stores exactly if it finds the value wanted, and tells whether it failed. */
  lemma {:induction false} CasAtOnce(st: State, h: Hart, addr: Address, replacement: int, wanted: int)
    requires PhaseOf(st, h) == Idle
    ensures var st' := Next(st, Cas(h, addr, replacement, wanted));
      var failed := Read(st.mem, addr) != wanted;
      st'.history == st.history + [CasDone(h, addr, replacement, wanted, failed)] &&
      (forall a :: Read(st'.mem, a) == if a == addr && !failed then replacement else Read(st.mem, a)) &&
      st'.phases == st.phases && st'.begun == st.begun
  {
  }

  lemma {:induction false} StoreAtOnce(st: State, h: Hart, addr: Address, value: int)
    requires PhaseOf(st, h) == Idle
    ensures var st' := Next(st, Store(h, addr, value));
      st'.history == st.history + [Stored(h, addr, value)] &&
      (forall a :: Read(st'.mem, a) == if a == addr then value else Read(st.mem, a)) &&
      st'.phases == st.phases && st'.begun == st.begun
  {
  }
}
