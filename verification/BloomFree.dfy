/**
  What the free list of the bloom metapage says, over runs of the system: which
  blocks a bulk delete lists, and what an insert leaves on the list; and what a
  cleanup counts.
 */
module BloomFree {
  import opened BloomPage
  import opened BloomIndex

  /** The blocks on the free list. */
  function FreeList(m: Meta): seq<nat>
    requires m.nEnd <= |m.notFull|
  {
    if m.nStart <= m.nEnd then m.notFull[m.nStart..m.nEnd] else []
  }

  // -------------------------------------------------------------- bulk delete

  /** Block b is live, not empty, and has room for another tuple. */
  predicate HasRoom(s: State, b: nat) {
    && Block(s, b)
    && var x := s.pages[b - 1]; !x.isNew && !x.deleted && x.tuples != [] && ROOM - |x.tuples| * s.size >= s.size
  }

  /** In this step bulk delete p deals with block b. */
  predicate Handles(s: State, a: Action, p: nat, b: nat) {
    && a.Go? && a.p == p < |s.procs| && s.procs[p].Vacuum? && !s.procs[p].finished
    && b == s.procs[p].next <= s.procs[p].npages
  }

  /** Somewhere in the run p deals with block b, leaves it with room, and its list is not full. */
  predicate Finds(s: State, acts: seq<Action>, p: nat, b: nat)
    decreases acts
  {
    acts != [] &&
    (|| (Handles(s, acts[0], p, b) && HasRoom(Step(s, acts[0]), b) && |s.procs[p].found| < META_N)
     || Finds(Step(s, acts[0]), acts[1..], p, b))
  }

  lemma {:induction false} PageFinds(s: State, p: nat, v: Proc)
    requires p < |s.procs| && v.Vacuum? && 1 <= v.next <= |s.pages| && ValidPage(s.size, s.pages[v.next - 1])
    ensures VacuumNext(s.size, v, s.pages[v.next - 1]).found ==
              v.found + (if HasRoom(VacuumPage(s, p, v), v.next) && |v.found| < META_N then [v.next] else [])
  {
    var was := s.pages[v.next - 1];
    var x := Compacted(s.size, was, v.dead);
    CompactKeepsValid(s.size, was, v.dead);
    UsedIsProduct(|x.tuples|, s.size);
    assert VacuumPage(s, p, v).pages[v.next - 1] == x;
  }

  /** One step adds exactly the block that was dealt with, if it has room. */
  lemma {:induction false} StepFinds(s: State, a: Action, p: nat)
    requires Valid(s) && p < |s.procs| && s.procs[p].Vacuum?
    ensures var s' := Step(s, a); p < |s'.procs| && s'.procs[p].Vacuum?
    ensures var v, v' := s.procs[p], Step(s, a).procs[p];
      if Handles(s, a, p, v.next) then
        && v'.next == v.next + 1
        && v'.found == v.found + (if HasRoom(Step(s, a), v.next) && |v.found| < META_N then [v.next] else [])
      else v'.next == v.next && v'.found == v.found
  {
    var v := s.procs[p];
    assert ValidProc(s, p, v);
    if Handles(s, a, p, v.next) {
      PageFinds(s, p, v);
    } else if !(a.Go? && a.p == p) {
      OthersStay(s, a, p);
    }
  }

  /** The blocks found are in ascending order, and all have been dealt with. */
  predicate Ascending(found: seq<nat>, next: nat) {
    (forall i :: 0 <= i < |found| ==> found[i] < next) && forall i, j :: 0 <= i < j < |found| ==> found[i] < found[j]
  }

  /**
    Over every run: bulk delete lists, in ascending order, exactly the blocks that
    were live, not empty and had room when it had dealt with them, as far as the
    list can hold them.
   */
  lemma {:induction false} RunFinds(s: State, acts: seq<Action>, p: nat, b: nat)
    requires Valid(s) && p < |s.procs| && s.procs[p].Vacuum? && Ascending(s.procs[p].found, s.procs[p].next)
    ensures var s' := Run(s, acts); p < |s'.procs| && s'.procs[p].Vacuum? && Ascending(s'.procs[p].found, s'.procs[p].next)
    ensures b in Run(s, acts).procs[p].found <==> b in s.procs[p].found || Finds(s, acts, p, b)
    decreases acts
  {
    if acts != [] {
      StepFinds(s, acts[0], p);
      StepValid(s, acts[0]);
      RunFinds(Step(s, acts[0]), acts[1..], p, b);
    }
  }

  /** The step that ends bulk delete makes what it found the whole free list. */
  lemma {:induction false} FinishLists(s: State, a: Action, p: nat)
    requires Valid(s) && p < |s.procs| && s.procs[p].Vacuum? && !s.procs[p].finished
    requires p < |Step(s, a).procs| && Step(s, a).procs[p].Vacuum? && Step(s, a).procs[p].finished
    ensures Valid(Step(s, a)) && FreeList(Step(s, a).meta) == s.procs[p].found && s.lock == Free
  {
    StepValid(s, a);
    assert ValidProc(s, p, s.procs[p]);
    if !(a.Go? && a.p == p) { OthersStay(s, a, p); }
  }

  // ------------------------------------------------------------------- inserts

  /** The list from the first block on that takes another tuple. */
  function FirstFit(s: State, list: seq<nat>): (r: seq<nat>)
    ensures |r| <= |list| && r == list[|list| - |r|..]
    ensures r != [] ==> Takes(s, r[0])
    ensures forall i :: 0 <= i < |list| - |r| ==> !Takes(s, list[i])
  {
    if list == [] then [] else if Takes(s, list[0]) then list else FirstFit(s, list[1..])
  }

  /** What an inserter still has to try. */
  function ToTry(s: State, pc: InsertPc): seq<nat>
    requires s.meta.nEnd <= |s.meta.notFull|
  {
    match pc
    case Loop(n) => if n <= s.meta.nEnd then s.meta.notFull[n..s.meta.nEnd] else []
    case Alloc => []
    case _ => FreeList(s.meta)
  }

  /** An inserter whose record agrees with the free list: nobody has changed it since. */
  predicate UpToDate(s: State, pc: InsertPc) {
    && s.meta.nStart <= s.meta.nEnd <= |s.meta.notFull|
    && match pc
       case Probe(b) => s.meta.nStart < s.meta.nEnd && b == s.meta.notFull[s.meta.nStart]
       case WantMeta(b) =>
         s.meta.nStart < s.meta.nEnd ==> b == s.meta.notFull[s.meta.nStart] && !Takes(s, s.meta.notFull[s.meta.nStart])
       case _ => true
  }

  /** How an inserter that adds nothing goes on. */
  predicate GoesOn(s: State, pc: InsertPc, pc': InsertPc)
    requires UpToDate(s, pc)
  {
    var m := s.meta;
    match pc
    case Start => pc' == if m.nStart < m.nEnd then Probe(m.notFull[m.nStart]) else WantMeta(-1)
    case Probe(b) => pc' == WantMeta(b) && !Takes(s, b)
    case WantMeta(_) => pc' == Loop(if m.nStart < m.nEnd then m.nStart + 1 else m.nStart)
    case Loop(n) => if n >= m.nEnd then pc' == Alloc else pc' == Loop(n + 1) && !Takes(s, m.notFull[n])
    case _ => pc' == pc
  }

  /** An inserter that nobody is in the way of. */
  predicate Trying(s: State, p: nat) {
    && p < |s.procs| && s.procs[p].Insert? && UpToDate(s, s.procs[p].pc)
    && (s.lock == Held(p) <==> s.procs[p].pc.Loop? || s.procs[p].pc.Alloc?) && (s.lock == Free || s.lock == Held(p))
  }

  lemma {:induction false} StepGoesOn(s: State, p: nat, a: Answer)
    requires Trying(s, p) && Target(s, p, s.procs[p].pc, a) == 0
    ensures var s' := Step(s, Go(p, a));
      && p < |s'.procs| && s'.procs[p].Insert? && s'.procs[p].t == s.procs[p].t
      && s'.pages == s.pages && s'.size == s.size && s'.meta == s.meta
      && GoesOn(s, s.procs[p].pc, s'.procs[p].pc)
      && s'.lock == if s.procs[p].pc.WantMeta? then Held(p) else s.lock
  {
  }

  /** The first block that fits stays the same until it is found. */
  lemma {:induction false} FitStays(s: State, pc: InsertPc, pc': InsertPc)
    requires UpToDate(s, pc) && GoesOn(s, pc, pc')
    ensures UpToDate(s, pc') && FirstFit(s, ToTry(s, pc')) == FirstFit(s, ToTry(s, pc))
  {
    if pc.WantMeta? && s.meta.nStart < s.meta.nEnd {
      assert ToTry(s, pc)[1..] == ToTry(s, pc');
    } else if pc.Loop? && pc.n < s.meta.nEnd {
      assert ToTry(s, pc)[1..] == ToTry(s, pc');
    }
  }

  /** A step of an inserter that does not add its tuple leaves the first fit as it is. */
  lemma {:induction false} StepTries(s: State, p: nat, a: Answer)
    requires Trying(s, p) && Target(s, p, s.procs[p].pc, a) == 0
    ensures var s' := Step(s, Go(p, a));
      && Trying(s', p) && s'.procs[p].t == s.procs[p].t
      && FirstFit(s', ToTry(s', s'.procs[p].pc)) == FirstFit(s, ToTry(s, s.procs[p].pc))
  {
    StepGoesOn(s, p, a);
    var s' := Step(s, Go(p, a));
    FitStays(s, s.procs[p].pc, s'.procs[p].pc);
    SameFit(s, s', ToTry(s', s'.procs[p].pc));
  }

  lemma {:induction false} SameFit(s: State, s': State, list: seq<nat>)
    requires s'.pages == s.pages && s'.size == s.size
    ensures FirstFit(s', list) == FirstFit(s, list)
  {
    if list != [] { SameFit(s, s', list[1..]); }
  }

  /** The free list after an insert: from the block that took the tuple on, or only a new block. */
  ghost predicate ListAfter(s': State, t: Tuple, fit: seq<nat>) {
    && s'.meta.nEnd <= |s'.meta.notFull|
    && var list := FreeList(s'.meta);
       && (if fit != [] then list == fit else |list| == 1)
       && Holds(s', list[0], t)
  }

  lemma {:induction false} PutHolds(s: State, b: nat, t: Tuple)
    requires ValidPages(s) && Fits(s.size, EMPTY_PAGE)
    requires 1 <= b <= |s.pages| + 1 && (b <= |s.pages| ==> Takes(s, b))
    ensures Holds(Put(s, b, t), b, t)
  {
    if b <= |s.pages| {
      AppendKeepsValid(s.size, s.pages[b - 1], t);
    } else {
      AppendKeepsValid(s.size, NEW_PAGE, t);
    }
  }

  /** The free list once block b has taken the tuple. */
  lemma {:induction false} ListMoves(s: State, p: nat, pc: InsertPc, a: Answer)
    requires Valid(s) && UpToDate(s, pc) && Target(s, p, pc, a) > 0
    ensures var m, b, fit := MetaAfter(s.meta, pc, Target(s, p, pc, a)), Target(s, p, pc, a), FirstFit(s, ToTry(s, pc));
      && m.nEnd <= |m.notFull| && FreeList(m) != [] && FreeList(m)[0] == b
      && if fit != [] then FreeList(m) == fit else |FreeList(m)| == 1
  {
  }

  lemma {:induction false} AddStep(s: State, p: nat, a: Answer)
    requires Valid(s) && p < |s.procs| && s.procs[p].Insert? && Target(s, p, s.procs[p].pc, a) > 0
    ensures var s', t, b := Step(s, Go(p, a)), s.procs[p].t, Target(s, p, s.procs[p].pc, a);
      && p < |s'.procs| && s'.procs[p] == Insert(t, Done) && s'.meta == MetaAfter(s.meta, s.procs[p].pc, b) && Holds(s', b, t)
  {
    TargetTakes(s, p, s.procs[p].pc, a);
    PutHolds(s, Target(s, p, s.procs[p].pc, a), s.procs[p].t);
  }

  /** The step that adds the tuple. */
  lemma {:induction false} StepAdds(s: State, p: nat, a: Answer)
    requires Valid(s) && Trying(s, p) && Target(s, p, s.procs[p].pc, a) > 0
    ensures var s' := Step(s, Go(p, a));
      && p < |s'.procs| && s'.procs[p] == Insert(s.procs[p].t, Done)
      && ListAfter(s', s.procs[p].t, FirstFit(s, ToTry(s, s.procs[p].pc)))
  {
    AddStep(s, p, a);
    ListMoves(s, p, s.procs[p].pc, a);
  }

  /**
    In any state, whatever else runs: an insert that adds its tuple without the
    metapage lock leaves the free list alone; with the lock, the list starts at the
    block that took the tuple, and goes on with what was still to try or ends there.
   */
  lemma {:induction false} StepLists(s: State, p: nat, a: Answer)
    requires Valid(s) && p < |s.procs| && s.procs[p].Insert? && Target(s, p, s.procs[p].pc, a) > 0
    ensures s.procs[p].pc.Probe? ==> Step(s, Go(p, a)).meta == s.meta
    ensures !s.procs[p].pc.Probe? ==>
              s.lock == Held(p) && ListAfter(Step(s, Go(p, a)), s.procs[p].t, FirstFit(s, ToTry(s, s.procs[p].pc)))
  {
    assert ValidProc(s, p, s.procs[p]);
    AddStep(s, p, a);
    if !s.procs[p].pc.Probe? { ListMoves(s, p, s.procs[p].pc, a); }
  }

  lemma {:induction false} AloneStep(s: State, p: nat, answers: seq<Answer>)
    requires answers != []
    ensures Run(s, Alone(p, answers)) == Run(Step(s, Go(p, answers[0])), Alone(p, answers[1..]))
  {
    assert Alone(p, answers)[0] == Go(p, answers[0]) && Alone(p, answers)[1..] == Alone(p, answers[1..]);
  }

  /**
    An inserter that runs alone leaves the free list from its first block that
    takes the tuple on, with the tuple in that block; if none takes it, only the
    block it got from the free space map or by extending the file.
   */
  lemma {:induction false} InsertLists(s: State, p: nat, answers: seq<Answer>, s': State)
    requires Valid(s) && Trying(s, p) && !s.procs[p].pc.Done? && s' == Run(s, Alone(p, answers))
    requires p < |s'.procs| && s'.procs[p] == Insert(s.procs[p].t, Done)
    ensures ListAfter(s', s.procs[p].t, FirstFit(s, ToTry(s, s.procs[p].pc)))
    decreases answers
  {
    if answers != [] {
      AloneStep(s, p, answers);
      StepValid(s, Go(p, answers[0]));
      if Target(s, p, s.procs[p].pc, answers[0]) > 0 {
        StepAdds(s, p, answers[0]);
        DoneStays(Step(s, Go(p, answers[0])), p, answers[1..]);
      } else {
        StepTries(s, p, answers[0]);
        StepGoesOn(s, p, answers[0]);
        InsertLists(Step(s, Go(p, answers[0])), p, answers[1..], s');
      }
    }
  }

  // ------------------------------------------------------------------- cleanup

  /** Unused pages among the first n, and tuples on the others. */
  function UnusedIn(ps: seq<Page>, n: nat): nat
    requires n <= |ps|
  {
    if n == 0 then 0 else UnusedIn(ps, n - 1) + if ps[n - 1].isNew || ps[n - 1].deleted then 1 else 0
  }

  function TuplesIn(ps: seq<Page>, n: nat): nat
    requires n <= |ps|
  {
    if n == 0 then 0 else TuplesIn(ps, n - 1) + if ps[n - 1].isNew || ps[n - 1].deleted then 0 else |ps[n - 1].tuples|
  }

  /** The counters are right for the blocks seen so far. */
  predicate Counted(s: State, p: nat) {
    && p < |s.procs| && s.procs[p].Cleanup? && 1 <= s.procs[p].next <= |s.pages| + 1
    && s.procs[p].free == UnusedIn(s.pages, s.procs[p].next - 1) && s.procs[p].live == TuplesIn(s.pages, s.procs[p].next - 1)
  }

  /** While only the cleanup moves, its counters stay right. */
  lemma {:induction false} CleanupCounts(s: State, p: nat, answers: seq<Answer>)
    requires Counted(s, p)
    ensures var s' := Run(s, Alone(p, answers)); Counted(s', p) && s'.pages == s.pages && s'.meta == s.meta
    decreases answers
  {
    if answers != [] {
      AloneStep(s, p, answers);
      CleanupCounts(Step(s, Go(p, answers[0])), p, answers[1..]);
    }
  }
}
