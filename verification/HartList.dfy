/** The list of harts that `hart_t::initialize` (caveat/hart.cc) pushes on without a lock, and the loops
    that walk it (`hart_t::find`, and the exit path of caveat/proxy_syscall.cc). */
module HartList {
  /** A hart by its address; 0 is the null pointer. */
  type Pointer = nat

  /** Where a hart is in `initialize`. */
  datatype Stage = Created | Linked | Attached | Numbered

  datatype State = State(list: Pointer, next: map<Pointer, Pointer>, numHarts: nat, sid: map<Pointer, nat>,
    stage: map<Pointer, Stage>)

  datatype Step = Link(hart: Pointer) | Swap(hart: Pointer) | Number(hart: Pointer)

  function StageOf(st: State, h: Pointer): Stage {
    if h in st.stage then st.stage[h] else Created
  }

  predicate Enabled(st: State, step: Step) {
    step.hart != 0 &&
    match step
    case Link(h) => StageOf(st, h) == Created
    case Swap(h) => StageOf(st, h) == Linked && h in st.next
    case Number(h) => StageOf(st, h) == Attached
  }

  /** `_next = _list`, the compare-and-swap of `_list`, and the fetch-and-add of `_num_harts`. */
  function Next(st: State, step: Step): State
    requires Enabled(st, step)
  {
    match step
    case Link(h) => st.(next := st.next[h := st.list], stage := st.stage[h := Linked])
    case Swap(h) =>
      if st.list == st.next[h] then st.(list := h, stage := st.stage[h := Attached])
      else st.(stage := st.stage[h := Created])
    case Number(h) =>
      st.(sid := st.sid[h := st.numHarts], numHarts := st.numHarts + 1, stage := st.stage[h := Numbered])
  }

  ghost predicate Reaches(st: State, steps: seq<Step>, end: State)
    decreases |steps|
  {
    if steps == [] then end == st
    else Enabled(st, steps[0]) && Reaches(Next(st, steps[0]), steps[1..], end)
  }

  function Empty(): State {
    State(0, map[], 0, map[], map[])
  }

  predicate IsAttached(st: State, h: Pointer) {
    StageOf(st, h) == Attached || StageOf(st, h) == Numbered
  }

  /** `harts` is what the links from `p` lead through, up to the null pointer. */
  ghost predicate Chain(next: map<Pointer, Pointer>, p: Pointer, harts: seq<Pointer>)
    decreases |harts|
  {
    if harts == [] then p == 0
    else p == harts[0] && p != 0 && p in next && Chain(next, next[p], harts[1..])
  }

  ghost predicate Distinct(harts: seq<Pointer>) {
    forall i, j :: 0 <= i < j < |harts| ==> harts[i] != harts[j]
  }

  /** The list holds each attached hart once, and the harts numbered so far have the numbers below
      `numHarts`, each its own. */
  ghost predicate Listed(st: State, harts: seq<Pointer>) {
    Chain(st.next, st.list, harts) && Distinct(harts) && (forall h: Pointer :: h in harts <==> IsAttached(st, h)) &&
    (forall h: Pointer :: h in st.sid <==> StageOf(st, h) == Numbered) &&
    (forall h :: h in st.sid ==> st.sid[h] < st.numHarts) &&
    (forall g, h :: g in st.sid && h in st.sid && st.sid[g] == st.sid[h] ==> g == h) && |st.sid| == st.numHarts
  }

  /** A link of a hart that is not on the list does not matter. */
  lemma {:induction false} ChainKept(next: map<Pointer, Pointer>, p: Pointer, harts: seq<Pointer>, h: Pointer,
      to: Pointer)
    requires Chain(next, p, harts) && h !in harts
    ensures Chain(next[h := to], p, harts)
    decreases |harts|
  {
    if harts != [] {
      ChainKept(next, next[p], harts[1..], h, to);
    }
  }

  /** The harts on the list after a step. */
  function After(st: State, step: Step, harts: seq<Pointer>): seq<Pointer>
    requires Enabled(st, step)
  {
    if step.Swap? && st.list == st.next[step.hart] then [step.hart] + harts else harts
  }

  lemma {:induction false} LinkKeeps(st: State, h: Pointer, harts: seq<Pointer>)
    requires Listed(st, harts) && Enabled(st, Link(h))
    ensures Listed(Next(st, Link(h)), harts)
  {
    assert h !in harts;
    ChainKept(st.next, st.list, harts, h, st.list);
    hide Chain, Distinct;
  }

  lemma {:induction false} SwapKeeps(st: State, h: Pointer, harts: seq<Pointer>)
    requires Listed(st, harts) && Enabled(st, Swap(h))
    ensures Listed(Next(st, Swap(h)), After(st, Swap(h), harts))
  {
    assert h !in harts;
    if st.list == st.next[h] {
      Longer(st.next, h, harts);
    }
    hide Chain, Distinct;
  }

  lemma {:induction false} Longer(next: map<Pointer, Pointer>, h: Pointer, harts: seq<Pointer>)
    requires h != 0 && h in next && Chain(next, next[h], harts) && Distinct(harts) && h !in harts
    ensures Chain(next, h, [h] + harts) && Distinct([h] + harts)
  {
    assert ([h] + harts)[1..] == harts;
  }

  lemma {:induction false} NumberKeeps(st: State, h: Pointer, harts: seq<Pointer>)
    requires Listed(st, harts) && Enabled(st, Number(h))
    ensures Listed(Next(st, Number(h)), harts)
  {
    hide Chain, Distinct;
    assert h !in st.sid;
    assert |st.sid[h := st.numHarts]| == |st.sid| + 1;
  }

  lemma {:induction false} StepKeeps(st: State, step: Step, harts: seq<Pointer>)
    requires Listed(st, harts) && Enabled(st, step)
    ensures Listed(Next(st, step), After(st, step, harts))
  {
    hide Listed, Next;
    match step
    case Link(h) => LinkKeeps(st, h, harts);
    case Swap(h) => SwapKeeps(st, h, harts);
    case Number(h) => NumberKeeps(st, h, harts);
  }

  ghost predicate Suffix(harts: seq<Pointer>, longer: seq<Pointer>) {
    |harts| <= |longer| && longer[|longer| - |harts|..] == harts
  }

  /** Whatever the interleaving: the list stays free of cycles and duplicates and holds exactly the harts
      whose swap succeeded, `sid`s are distinct, and harts are only ever put before those already
      there. */
  lemma {:induction false} AlwaysListed(st: State, steps: seq<Step>, end: State, harts: seq<Pointer>)
      returns (harts': seq<Pointer>)
    requires Listed(st, harts) && Reaches(st, steps, end)
    ensures Listed(end, harts') && Suffix(harts, harts')
    decreases |steps|
  {
    if steps == [] {
      harts' := harts;
    } else {
      StepKeeps(st, steps[0], harts);
      hide Listed, Enabled, Next;
      var more := After(st, steps[0], harts);
      assert Suffix(harts, more);
      harts' := AlwaysListed(Next(st, steps[0]), steps[1..], end, more);
      SuffixOfSuffix(harts, more, harts');
    }
  }

  lemma {:induction false} SuffixOfSuffix(a: seq<Pointer>, b: seq<Pointer>, c: seq<Pointer>)
    requires Suffix(a, b) && Suffix(b, c)
    ensures Suffix(a, c)
  {
    assert c[|c| - |a|..] == b[|b| - |a|..];
  }

  lemma {:induction false} EmptyListed()
    ensures Listed(Empty(), [])
  {
  }

  /** A state reached from the empty list: walking it ends, and once a first hart is attached it stays the
      last one on the list. */
  lemma {:induction false} FirstStaysLast(steps: seq<Step>, st: State, more: seq<Step>, end: State)
      returns (harts: seq<Pointer>, harts': seq<Pointer>)
    requires Reaches(Empty(), steps, st) && Reaches(st, more, end)
    ensures Listed(st, harts) && Listed(end, harts')
    ensures harts != [] ==> harts' != [] && harts'[|harts'| - 1] == harts[|harts| - 1]
  {
    EmptyListed();
    harts := AlwaysListed(Empty(), steps, st, []);
    harts' := AlwaysListed(st, more, end, harts);
    hide Listed, Reaches;
    if harts != [] {
      assert harts'[|harts'| - 1] == harts'[|harts'| - |harts|..][|harts| - 1];
    }
  }

  /** `hart_t::find`: the first hart on the list with thread number `tid`, or null. */
  method Find(st: State, tids: map<Pointer, int>, tid: int, ghost harts: seq<Pointer>) returns (p: Pointer)
    requires Listed(st, harts) && forall h :: h in harts ==> h in tids
    ensures p == 0 ==> forall h :: h in harts ==> tids[h] != tid
    ensures p != 0 ==> p in harts && tids[p] == tid
    ensures p != 0 ==> forall i :: 0 <= i < |harts| && harts[i] != p && tids[harts[i]] == tid ==>
      exists j :: 0 <= j < i && harts[j] == p
  {
    p := st.list;
    ghost var i := 0;
    while p != 0
      invariant 0 <= i <= |harts| && Chain(st.next, p, harts[i..])
      invariant forall j :: 0 <= j < i ==> tids[harts[j]] != tid
      decreases |harts| - i
    {
      assert p == harts[i..][0] == harts[i];
      if tids[p] == tid {
        return;
      }
      assert harts[i..][1..] == harts[i + 1..];
      p := st.next[p];
      i := i + 1;
    }
    assert harts[i..] == [];
  }

  /** The exit path's walk: the thread number left over is that of the last hart on the list. */
  method MainTid(st: State, tids: map<Pointer, int>, ghost harts: seq<Pointer>) returns (mainTid: int)
    requires Listed(st, harts) && forall h :: h in harts ==> h in tids
    ensures mainTid == if harts == [] then 0 else tids[harts[|harts| - 1]]
  {
    mainTid := 0;
    var p := st.list;
    ghost var i := 0;
    while p != 0
      invariant 0 <= i <= |harts| && Chain(st.next, p, harts[i..])
      invariant mainTid == if i == 0 then 0 else tids[harts[i - 1]]
      decreases |harts| - i
    {
      assert p == harts[i..][0] == harts[i];
      mainTid := tids[p];
      assert harts[i..][1..] == harts[i + 1..];
      p := st.next[p];
      i := i + 1;
    }
    assert harts[i..] == [];
  }

  /** A hart that links, swaps and takes its number without another stepping in between is put in front of the
      list and gets the next number; nothing else changes. */
  lemma {:induction false} UndisturbedPush(st: State, h: Pointer)
    requires h != 0 && StageOf(st, h) == Created
    ensures var done := Next(Next(Next(st, Link(h)), Swap(h)), Number(h));
      done.list == h && done.next == st.next[h := st.list] && done.sid == st.sid[h := st.numHarts] &&
      done.numHarts == st.numHarts + 1 && StageOf(done, h) == Numbered &&
      forall g :: g != h ==> StageOf(done, g) == StageOf(st, g)
  {
  }

  /** A swap that finds another hart in front changes nothing but that the hart links again. */
  lemma {:induction false} PushAgain(st: State, h: Pointer)
    requires Enabled(st, Swap(h)) && st.list != st.next[h]
    ensures var st' := Next(st, Swap(h));
      st'.list == st.list && st'.next == st.next && st'.sid == st.sid && st'.numHarts == st.numHarts &&
      Enabled(st', Link(h)) && forall g :: g != h ==> StageOf(st', g) == StageOf(st, g)
  {
  }
}
