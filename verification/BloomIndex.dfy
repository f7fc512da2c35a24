/**
  The bloom index as a concurrent system.  Inserters, bulk deletes, cleanups and
  scans run side by side; one step is what a process does while it holds one
  buffer lock.  The metapage lock is explicit, because an inserter keeps it over
  several steps.  The free space map is an oracle: its answers are part of the
  schedule and are only believed after the page itself has been looked at.

  Data block b (b >= 1) is pages[b - 1]; block 0 is the metapage.
 */
module BloomIndex {
  import opened BloomPage
  import opened BloomSignature
  import opened Counting

  /** Number of block numbers that fit into the metapage. */
  const META_N: nat := 2004

  datatype Meta = Meta(nStart: nat, nEnd: nat, notFull: seq<nat>)

  datatype InsertPc =
    | Start
    | Probe(blk: nat)                  // free list head read, metapage released
    | WantMeta(tried: int)             // -1 when nothing was tried
    | Loop(n: nat)                     // metapage locked, probing notFull[n]
    | Alloc                            // metapage locked, free list exhausted
    | Done
    | Failed

  datatype Proc =
    | Insert(t: Tuple, pc: InsertPc)
    | Vacuum(dead: set<HeapPtr>, npages: nat, next: nat, found: seq<nat>, removed: seq<Tuple>, finished: bool)
    | Cleanup(npages: nat, next: nat, free: nat, live: nat)
    | Scan(sign: Words, npages: nat, next: nat, emitted: seq<HeapPtr>)

  datatype Lock = Free | Held(p: nat)

  datatype State = State(size: nat, pages: seq<Page>, meta: Meta, lock: Lock, procs: seq<Proc>)

  datatype Answer = FsmEmpty | FsmPage(blk: nat, locked: bool)

  datatype Action =
    | NewInsert(t: Tuple)
    | NewVacuum(dead: set<HeapPtr>)
    | NewCleanup
    | NewScan(sign: Words)
    | Go(p: nat, answer: Answer)       // process p takes its next step
    | Fail(p: nat)                     // process p gives up and drops its lock
    | LostExtension                    // a crash leaves an uninitialized page behind

  // -------------------------------------------------------------------- steps

  function Spawn(s: State, p: Proc): State { s.(procs := s.procs + [p]) }

  function SetProc(s: State, p: nat, x: Proc): State
    requires p < |s.procs|
  {
    s.(procs := s.procs[p := x])
  }

  function SetPage(s: State, b: nat, x: Page): State
    requires 1 <= b <= |s.pages|
  {
    s.(pages := s.pages[b - 1 := x])
  }

  /** The page of block b after a successful insertion of t. */
  function Filled(s: State, b: nat, t: Tuple): Page
    requires 1 <= b <= |s.pages|
  {
    Appended(s.size, Usable(s.pages[b - 1]), t)
  }

  predicate Takes(s: State, b: nat) {
    1 <= b <= |s.pages| && Fits(s.size, Usable(s.pages[b - 1]))
  }

  /** The block to which the next step of an inserter adds its tuple, or 0. */
  function Target(s: State, p: nat, pc: InsertPc, a: Answer): (b: nat)
    ensures b <= |s.pages| + 1
  {
    match pc
    case Probe(b) => if Takes(s, b) then b else 0
    case Loop(n) =>
      if n < s.meta.nEnd && n < |s.meta.notFull| && Takes(s, s.meta.notFull[n]) then s.meta.notFull[n] else 0
    case Alloc =>
      (match a
       case FsmEmpty => |s.pages| + 1
       case FsmPage(b, locked) => if locked && 1 <= b <= |s.pages| && Unused(s.pages[b - 1]) then b else 0)
    case _ => 0
  }

  /** Adds t to block b; b may be the block after the last. */
  function Put(s: State, b: nat, t: Tuple): State
    requires 1 <= b <= |s.pages| + 1
  {
    if b <= |s.pages| then SetPage(s, b, Filled(s, b, t))
    else s.(pages := s.pages + [Appended(s.size, EMPTY_PAGE, t)])
  }

  /** The metapage after block b took the tuple. */
  function MetaAfter(m: Meta, pc: InsertPc, b: nat): Meta {
    match pc
    case Loop(n) => m.(nStart := n)
    case Alloc => if |m.notFull| == 0 then m else Meta(0, 1, m.notFull[0 := b])
    case _ => m
  }

  function InsertStep(s: State, p: nat, t: Tuple, pc: InsertPc, a: Answer): State
    requires p < |s.procs|
  {
    var m := s.meta;
    var b := Target(s, p, pc, a);
    if b > 0 then
      var s' := Put(s, b, t);
      SetProc(s', p, Insert(t, Done)).(meta := MetaAfter(m, pc, b), lock := if pc.Probe? then s.lock else Free)
    else
      match pc
      case Start =>
        if s.lock.Held? then s
        else if m.nStart < m.nEnd <= |m.notFull| then SetProc(s, p, Insert(t, Probe(m.notFull[m.nStart])))
        else SetProc(s, p, Insert(t, WantMeta(-1)))
      case Probe(b) => SetProc(s, p, Insert(t, WantMeta(b)))
      case WantMeta(tried) =>
        if s.lock.Held? then s
        else
          var skip := m.nStart < m.nEnd <= |m.notFull| && m.notFull[m.nStart] == tried;
          SetProc(s, p, Insert(t, Loop(if skip then m.nStart + 1 else m.nStart))).(lock := Held(p))
      case Loop(n) => SetProc(s, p, Insert(t, if n >= m.nEnd then Alloc else Loop(n + 1)))
      case _ => s
  }

  /** Bulk delete's own record after one page; a page with room left joins the new free list. */
  function VacuumNext(size: nat, v: Proc, was: Page): Proc
    requires v.Vacuum?
  {
    var x := Compacted(size, was, v.dead);
    var found :=
      if !Unused(was) && |x.tuples| != 0 && Fits(size, x) && |v.found| < META_N
      then v.found + [v.next] else v.found;
    v.(next := v.next + 1, found := found, removed := v.removed + Dropped(Live(was), v.dead))
  }

  /** Bulk delete on one page. */
  function VacuumPage(s: State, p: nat, v: Proc): State
    requires p < |s.procs| && v.Vacuum? && 1 <= v.next <= |s.pages|
  {
    var was := s.pages[v.next - 1];
    SetProc(SetPage(s, v.next, Compacted(s.size, was, v.dead)), p, VacuumNext(s.size, v, was))
  }

  /** The end of bulk delete: the free list is replaced by what was found. */
  function VacuumMeta(s: State, p: nat, v: Proc): State
    requires p < |s.procs| && v.Vacuum? && |v.found| <= |s.meta.notFull|
  {
    SetProc(s, p, v.(finished := true)).(
      meta := Meta(0, |v.found|, v.found + s.meta.notFull[|v.found|..]))
  }

  function VacuumStep(s: State, p: nat, v: Proc): State
    requires p < |s.procs| && v.Vacuum?
  {
    if v.finished then s
    else if 1 <= v.next <= v.npages && v.next <= |s.pages| then VacuumPage(s, p, v)
    else if s.lock.Held? || |v.found| > |s.meta.notFull| then s
    else VacuumMeta(s, p, v)
  }

  function CleanupStep(s: State, p: nat, c: Proc): State
    requires p < |s.procs| && c.Cleanup?
  {
    if 1 <= c.next <= c.npages && c.next <= |s.pages| then
      var x := s.pages[c.next - 1];
      SetProc(s, p, c.(next := c.next + 1,
                       free := if Unused(x) then c.free + 1 else c.free,
                       live := if Unused(x) then c.live else c.live + |x.tuples|))
    else s
  }

  /** Pointers of the matching tuples of a page, in page order. */
  function Matches(ts: seq<Tuple>, sign: Words): seq<HeapPtr> {
    if ts == [] then []
    else
      var r := Matches(ts[..|ts| - 1], sign);
      var t := ts[|ts| - 1];
      if MaskTest(t.sign, sign) then r + [t.heapPtr] else r
  }

  function ScanStep(s: State, p: nat, c: Proc): State
    requires p < |s.procs| && c.Scan?
  {
    if 1 <= c.next <= c.npages && c.next <= |s.pages| then
      SetProc(s, p, c.(next := c.next + 1, emitted := c.emitted + Matches(Live(s.pages[c.next - 1]), c.sign)))
    else s
  }

  /** One step of the system; a process that cannot move leaves the state alone. */
  function Step(s: State, a: Action): State {
    match a
    case NewInsert(t) => Spawn(s, Insert(t, Start))
    case NewVacuum(dead) => Spawn(s, Vacuum(dead, |s.pages|, 1, [], [], false))
    case NewCleanup => Spawn(s, Cleanup(|s.pages|, 1, 0, 0))
    case NewScan(sign) => Spawn(s, Scan(sign, |s.pages|, 1, []))
    case LostExtension => s.(pages := s.pages + [NEW_PAGE])
    case Fail(p) =>
      if p < |s.procs| && s.procs[p].Insert? && !s.procs[p].pc.Done? then
        SetProc(s, p, s.procs[p].(pc := Failed)).(lock := if s.lock == Held(p) then Free else s.lock)
      else s
    case Go(p, answer) =>
      if p < |s.procs| then
        var x := s.procs[p];
        match x
        case Insert(t, pc) => InsertStep(s, p, t, pc, answer)
        case Vacuum(_, _, _, _, _, _) => VacuumStep(s, p, x)
        case Cleanup(_, _, _, _) => CleanupStep(s, p, x)
        case Scan(_, _, _, _) => ScanStep(s, p, x)
      else s
  }

  function Run(s: State, acts: seq<Action>): State
    decreases acts
  {
    if acts == [] then s else Run(Step(s, acts[0]), acts[1..])
  }

  // ---------------------------------------------------------------- invariant

  predicate Block(s: State, b: nat) { 1 <= b <= |s.pages| }

  predicate ValidMeta(s: State) {
    && s.meta.nStart <= s.meta.nEnd <= |s.meta.notFull| == META_N
    && forall i :: 0 <= i < s.meta.nEnd ==> Block(s, s.meta.notFull[i])
  }

  predicate ValidProc(s: State, p: nat, x: Proc) {
    match x
    case Insert(_, pc) =>
      && (pc.Probe? ==> Block(s, pc.blk))
      && (pc.Loop? || pc.Alloc? <==> s.lock == Held(p))
      && (pc.Loop? ==> pc.n <= s.meta.nEnd)
    case Vacuum(dead, npages, next, found, removed, _) =>
      && 1 <= next <= npages + 1 <= |s.pages| + 1
      && |found| <= META_N
      && (forall i :: 0 <= i < |found| ==> Block(s, found[i]))
      && AllDead(removed, dead)
      && s.lock != Held(p)
    case Cleanup(npages, next, _, _) => 1 <= next <= npages + 1 <= |s.pages| + 1 && s.lock != Held(p)
    case Scan(_, npages, next, _) => 1 <= next <= npages + 1 <= |s.pages| + 1 && s.lock != Held(p)
  }

  predicate ValidPages(s: State) {
    forall i :: 0 <= i < |s.pages| ==> ValidPage(s.size, s.pages[i])
  }

  predicate Valid(s: State) {
    && ValidMeta(s)
    && Fits(s.size, EMPTY_PAGE)
    && ValidPages(s)
    && (s.lock.Held? ==> s.lock.p < |s.procs|)
    && forall p :: 0 <= p < |s.procs| ==> ValidProc(s, p, s.procs[p])
  }

  /** A page update keeps everything if the new page is valid. */
  lemma {:induction false} PutValid(s: State, b: nat, t: Tuple)
    requires ValidPages(s) && Fits(s.size, EMPTY_PAGE)
    requires 1 <= b <= |s.pages| + 1 && (b <= |s.pages| ==> Takes(s, b))
    ensures ValidPages(Put(s, b, t)) && |Put(s, b, t).pages| >= |s.pages| && |Put(s, b, t).pages| >= b
  {
    if b <= |s.pages| {
      AppendKeepsValid(s.size, s.pages[b - 1], t);
    } else {
      AppendKeepsValid(s.size, NEW_PAGE, t);
    }
  }

  lemma {:induction false} TargetTakes(s: State, p: nat, pc: InsertPc, a: Answer)
    requires Valid(s) && Target(s, p, pc, a) > 0
    ensures Target(s, p, pc, a) <= |s.pages| ==> Takes(s, Target(s, p, pc, a))
  {
  }

  /** Growing the file and changing p's own record disturbs nobody else. */
  lemma {:induction false} OthersValid(s: State, s': State, p: nat)
    requires Valid(s) && p < |s.procs| == |s'.procs|
    requires |s'.pages| >= |s.pages| && s'.size == s.size
    requires forall q :: 0 <= q < |s.procs| && q != p ==> s'.procs[q] == s.procs[q]
    requires s'.lock == s.lock || (s.lock == Free && s'.lock == Held(p)) || (s.lock == Held(p) && s'.lock == Free)
    requires s'.meta == s.meta || s.lock == Held(p) || s.lock == Free
    ensures forall q :: 0 <= q < |s.procs| && q != p ==> ValidProc(s', q, s'.procs[q])
  {
    forall q | 0 <= q < |s.procs| && q != p
      ensures ValidProc(s', q, s'.procs[q])
    {
      assert ValidProc(s, q, s.procs[q]);
    }
  }

  lemma {:induction false} InsertStepValid(s: State, p: nat, a: Answer)
    requires Valid(s) && p < |s.procs| && s.procs[p].Insert?
    ensures Valid(InsertStep(s, p, s.procs[p].t, s.procs[p].pc, a))
  {
    var t, pc := s.procs[p].t, s.procs[p].pc;
    var s' := InsertStep(s, p, t, pc, a);
    assert ValidProc(s, p, s.procs[p]);
    var b := Target(s, p, pc, a);
    if b > 0 {
      TargetTakes(s, p, pc, a);
      PutValid(s, b, t);
    }
    OthersValid(s, s', p);
  }

  lemma {:induction false} VacuumNextValid(s: State, p: nat, v: Proc, was: Page)
    requires v.Vacuum? && ValidProc(s, p, v) && v.next <= v.npages
    ensures ValidProc(s, p, VacuumNext(s.size, v, was))
  {
    DroppedDead(Live(was), v.dead);
  }

  lemma {:induction false} UpdateValid(s: State, p: nat, b: nat, x: Page, r: Proc)
    requires Valid(s) && p < |s.procs| && Block(s, b)
    requires ValidPage(s.size, x) && ValidProc(s, p, r)
    ensures Valid(SetProc(SetPage(s, b, x), p, r))
  {
    OthersValid(s, SetProc(SetPage(s, b, x), p, r), p);
  }

  lemma {:induction false} VacuumPageValid(s: State, p: nat, v: Proc)
    requires Valid(s) && p < |s.procs| && v == s.procs[p] && v.Vacuum? && v.next <= v.npages
    ensures 1 <= v.next <= |s.pages| && Valid(VacuumPage(s, p, v))
  {
    assert ValidProc(s, p, v);
    var was := s.pages[v.next - 1];
    CompactKeepsValid(s.size, was, v.dead);
    VacuumNextValid(s, p, v, was);
    UpdateValid(s, p, v.next, Compacted(s.size, was, v.dead), VacuumNext(s.size, v, was));
  }

  lemma {:induction false} VacuumMetaValid(s: State, p: nat, v: Proc)
    requires Valid(s) && p < |s.procs| && v == s.procs[p] && v.Vacuum? && s.lock == Free
    ensures |v.found| <= |s.meta.notFull| && Valid(VacuumMeta(s, p, v))
  {
    assert ValidProc(s, p, v);
    OthersValid(s, VacuumMeta(s, p, v), p);
  }

  lemma {:induction false} SpawnValid(s: State, x: Proc)
    requires Valid(s) && ValidProc(s, |s.procs|, x)
    ensures Valid(Spawn(s, x))
  {
    var s' := Spawn(s, x);
    forall q | 0 <= q < |s'.procs|
      ensures ValidProc(s', q, s'.procs[q])
    {
      if q < |s.procs| { assert ValidProc(s, q, s.procs[q]); }
    }
  }

  /** Every step of every process, under any oracle, keeps the index well formed. */
  lemma {:induction false} StepValid(s: State, a: Action)
    requires Valid(s)
    ensures Valid(Step(s, a))
  {
    match a
    case NewInsert(t) => SpawnValid(s, Insert(t, Start));
    case NewVacuum(dead) => SpawnValid(s, Vacuum(dead, |s.pages|, 1, [], [], false));
    case NewCleanup => SpawnValid(s, Cleanup(|s.pages|, 1, 0, 0));
    case NewScan(sign) => SpawnValid(s, Scan(sign, |s.pages|, 1, []));
    case LostExtension =>
      forall q | 0 <= q < |s.procs|
        ensures ValidProc(Step(s, a), q, s.procs[q])
      {
        assert ValidProc(s, q, s.procs[q]);
      }
    case Fail(p) =>
      if p < |s.procs| {
        assert ValidProc(s, p, s.procs[p]);
        OthersValid(s, Step(s, a), p);
      }
    case Go(p, answer) =>
      if p < |s.procs| {
        assert ValidProc(s, p, s.procs[p]);
        match s.procs[p]
        case Insert(t, pc) => InsertStepValid(s, p, answer);
        case Vacuum(_, npages, next, _, _, finished) =>
          if !finished {
            if next <= npages { VacuumPageValid(s, p, s.procs[p]); }
            else if s.lock == Free { VacuumMetaValid(s, p, s.procs[p]); }
          }
        case _ => OthersValid(s, Step(s, a), p);
      }
  }

  // ------------------------------------------------------------- conservation

  function Sum(ns: seq<nat>): nat {
    if ns == [] then 0 else Sum(ns[..|ns| - 1]) + ns[|ns| - 1]
  }

  lemma {:induction false} SumUpdate(ns: seq<nat>, i: nat, m: nat)
    requires i < |ns|
    ensures Sum(ns[i := m]) + ns[i] == Sum(ns) + m
  {
    var n := |ns| - 1;
    if i < n {
      assert ns[i := m][..n] == ns[..n][i := m];
      SumUpdate(ns[..n], i, m);
    } else {
      assert ns[i := m][..n] == ns[..n];
    }
  }

  lemma {:induction false} SumAppend(ns: seq<nat>, m: nat)
    ensures Sum(ns + [m]) == Sum(ns) + m
  {
    assert (ns + [m])[..|ns|] == ns;
  }

  function On(x: Page, t: Tuple): nat { Occurs(Live(x), |Live(x)|, t) }

  function OnPages(ps: seq<Page>, t: Tuple): seq<nat> {
    seq(|ps|, i requires 0 <= i < |ps| => On(ps[i], t))
  }

  /** Number of occurrences of t on live pages. */
  function Count(s: State, t: Tuple): nat { Sum(OnPages(s.pages, t)) }

  function Delivered(x: Proc, t: Tuple): nat {
    if x.Insert? && x.pc.Done? && x.t == t then 1 else 0
  }

  function Dropping(x: Proc, t: Tuple): nat {
    if x.Vacuum? then Occurs(x.removed, |x.removed|, t) else 0
  }

  function DeliveredBy(ps: seq<Proc>, t: Tuple): seq<nat> {
    seq(|ps|, i requires 0 <= i < |ps| => Delivered(ps[i], t))
  }

  function DroppedBy(ps: seq<Proc>, t: Tuple): seq<nat> {
    seq(|ps|, i requires 0 <= i < |ps| => Dropping(ps[i], t))
  }

  /** Number of completed inserts of t. */
  function Inserted(s: State, t: Tuple): nat { Sum(DeliveredBy(s.procs, t)) }

  /** Number of occurrences of t that bulk deletes dropped. */
  function Removed(s: State, t: Tuple): nat { Sum(DroppedBy(s.procs, t)) }

  lemma {:induction false} PageUpdate(ps: seq<Page>, i: nat, x: Page, t: Tuple)
    requires i < |ps|
    ensures Sum(OnPages(ps[i := x], t)) + On(ps[i], t) == Sum(OnPages(ps, t)) + On(x, t)
  {
    assert OnPages(ps[i := x], t) == OnPages(ps, t)[i := On(x, t)];
    SumUpdate(OnPages(ps, t), i, On(x, t));
  }

  lemma {:induction false} PageAppend(ps: seq<Page>, x: Page, t: Tuple)
    ensures Sum(OnPages(ps + [x], t)) == Sum(OnPages(ps, t)) + On(x, t)
  {
    assert OnPages(ps + [x], t) == OnPages(ps, t) + [On(x, t)];
    SumAppend(OnPages(ps, t), On(x, t));
  }

  lemma {:induction false} ProcUpdate(ps: seq<Proc>, p: nat, x: Proc, t: Tuple)
    requires p < |ps|
    ensures Sum(DeliveredBy(ps[p := x], t)) + Delivered(ps[p], t) == Sum(DeliveredBy(ps, t)) + Delivered(x, t)
    ensures Sum(DroppedBy(ps[p := x], t)) + Dropping(ps[p], t) == Sum(DroppedBy(ps, t)) + Dropping(x, t)
  {
    assert DeliveredBy(ps[p := x], t) == DeliveredBy(ps, t)[p := Delivered(x, t)];
    assert DroppedBy(ps[p := x], t) == DroppedBy(ps, t)[p := Dropping(x, t)];
    SumUpdate(DeliveredBy(ps, t), p, Delivered(x, t));
    SumUpdate(DroppedBy(ps, t), p, Dropping(x, t));
  }

  lemma {:induction false} ProcAppend(ps: seq<Proc>, x: Proc, t: Tuple)
    requires Delivered(x, t) == Dropping(x, t) == 0
    ensures Sum(DeliveredBy(ps + [x], t)) == Sum(DeliveredBy(ps, t))
    ensures Sum(DroppedBy(ps + [x], t)) == Sum(DroppedBy(ps, t))
  {
    assert DeliveredBy(ps + [x], t) == DeliveredBy(ps, t) + [0];
    assert DroppedBy(ps + [x], t) == DroppedBy(ps, t) + [0];
    SumAppend(DeliveredBy(ps, t), 0);
    SumAppend(DroppedBy(ps, t), 0);
  }

  lemma {:induction false} PutCount(s: State, b: nat, x: Tuple, t: Tuple)
    requires ValidPages(s) && Fits(s.size, EMPTY_PAGE)
    requires 1 <= b <= |s.pages| + 1 && (b <= |s.pages| ==> Takes(s, b))
    ensures Count(Put(s, b, x), t) == Count(s, t) + if x == t then 1 else 0
  {
    if b <= |s.pages| {
      AppendKeepsValid(s.size, s.pages[b - 1], x);
      OccursAppend(Live(s.pages[b - 1]), x, t);
      PageUpdate(s.pages, b - 1, Filled(s, b, x), t);
    } else {
      AppendKeepsValid(s.size, NEW_PAGE, x);
      OccursAppend([], x, t);
      PageAppend(s.pages, Appended(s.size, EMPTY_PAGE, x), t);
    }
  }

  /** Occurrences of t are accounted for between two states. */
  predicate Balanced(s: State, s': State, t: Tuple) {
    Count(s', t) + Removed(s', t) + Inserted(s, t) == Count(s, t) + Removed(s, t) + Inserted(s', t)
  }

  lemma {:induction false} InsertConserves(s: State, p: nat, a: Answer, t: Tuple)
    requires Valid(s) && p < |s.procs| && s.procs[p].Insert?
    ensures Balanced(s, InsertStep(s, p, s.procs[p].t, s.procs[p].pc, a), t)
  {
    var x, pc := s.procs[p].t, s.procs[p].pc;
    var s' := InsertStep(s, p, x, pc, a);
    ProcUpdate(s.procs, p, s'.procs[p], t);
    assert s'.procs == s.procs[p := s'.procs[p]];
    var b := Target(s, p, pc, a);
    if b > 0 {
      TargetTakes(s, p, pc, a);
      PutCount(s, b, x, t);
    }
  }

  /** What the page loses of t, the process has dropped. */
  predicate Accounts(was: Page, v: Proc, x: Page, r: Proc, t: Tuple) {
    Delivered(r, t) == Delivered(v, t) && On(x, t) + Dropping(r, t) == On(was, t) + Dropping(v, t)
  }

  lemma {:induction false} UpdateBalanced(s: State, p: nat, b: nat, x: Page, r: Proc, s': State, t: Tuple)
    requires p < |s.procs| && Block(s, b) && Accounts(s.pages[b - 1], s.procs[p], x, r, t)
    requires s' == SetProc(SetPage(s, b, x), p, r)
    ensures Balanced(s, s', t)
  {
    ProcUpdate(s.procs, p, r, t);
    PageUpdate(s.pages, b - 1, x, t);
  }

  lemma {:induction false} VacuumBalance(size: nat, v: Proc, was: Page, t: Tuple)
    requires v.Vacuum? && ValidPage(size, was)
    ensures On(Compacted(size, was, v.dead), t) + Dropping(VacuumNext(size, v, was), t) == On(was, t) + Dropping(v, t)
  {
    var ts := Live(was);
    CompactKeepsValid(size, was, v.dead);
    KeepCounts(ts, v.dead, t);
    var gone := Dropped(ts, v.dead);
    OccursConcat(v.removed, gone, |gone|, t);
    assert Dropping(VacuumNext(size, v, was), t) == Occurs(v.removed + gone, |v.removed| + |gone|, t);
  }

  lemma {:induction false} VacuumAccounts(size: nat, v: Proc, was: Page, t: Tuple)
    requires v.Vacuum? && ValidPage(size, was)
    ensures Accounts(was, v, Compacted(size, was, v.dead), VacuumNext(size, v, was), t)
  {
    VacuumBalance(size, v, was, t);
  }

  /** The page and the record a page of bulk delete leaves behind. */
  lemma {:induction false} VacuumOutcome(s: State, p: nat, v: Proc, t: Tuple) returns (x: Page, r: Proc)
    requires p < |s.procs| && v == s.procs[p] && v.Vacuum? && 1 <= v.next <= |s.pages|
    requires ValidPage(s.size, s.pages[v.next - 1])
    ensures Accounts(s.pages[v.next - 1], v, x, r, t) && VacuumPage(s, p, v) == SetProc(SetPage(s, v.next, x), p, r)
  {
    var was := s.pages[v.next - 1];
    VacuumAccounts(s.size, v, was, t);
    x, r := Compacted(s.size, was, v.dead), VacuumNext(s.size, v, was);
  }

  lemma {:induction false} VacuumPageConserves(s: State, p: nat, v: Proc, t: Tuple)
    requires p < |s.procs| && v == s.procs[p] && v.Vacuum? && 1 <= v.next <= |s.pages|
    requires ValidPage(s.size, s.pages[v.next - 1])
    ensures Balanced(s, VacuumPage(s, p, v), t)
  {
    var x, r := VacuumOutcome(s, p, v, t);
    UpdateBalanced(s, p, v.next, x, r, VacuumPage(s, p, v), t);
  }

  lemma {:induction false} VacuumConserves(s: State, p: nat, v: Proc, t: Tuple)
    requires Valid(s) && p < |s.procs| && v == s.procs[p] && v.Vacuum?
    ensures Balanced(s, VacuumStep(s, p, v), t)
  {
    assert ValidProc(s, p, v);
    if !v.finished && v.next <= v.npages {
      VacuumPageConserves(s, p, v, t);
    } else {
      ProcUpdate(s.procs, p, v.(finished := true), t);
    }
  }

  /** Nothing is lost and nothing appears in one step. */
  lemma {:induction false} StepConserves(s: State, a: Action, t: Tuple)
    requires Valid(s)
    ensures Balanced(s, Step(s, a), t)
  {
    var s' := Step(s, a);
    match a
    case NewInsert(x) => ProcAppend(s.procs, Insert(x, Start), t);
    case NewVacuum(dead) => ProcAppend(s.procs, Vacuum(dead, |s.pages|, 1, [], [], false), t);
    case NewCleanup => ProcAppend(s.procs, Cleanup(|s.pages|, 1, 0, 0), t);
    case NewScan(sign) => ProcAppend(s.procs, Scan(sign, |s.pages|, 1, []), t);
    case LostExtension => PageAppend(s.pages, NEW_PAGE, t);
    case Fail(p) =>
      if p < |s.procs| { ProcUpdate(s.procs, p, s'.procs[p], t); }
    case Go(p, answer) =>
      if p < |s.procs| {
        match s.procs[p]
        case Insert(_, _) => InsertConserves(s, p, answer, t);
        case Vacuum(_, _, _, _, _, _) => VacuumConserves(s, p, s.procs[p], t);
        case _ => ProcUpdate(s.procs, p, s'.procs[p], t);
      }
  }

  /**
    Over every interleaving and every oracle: all pages stay well formed, and
    every tuple occurs as often as it did at first, plus its completed inserts,
    minus what bulk deletes dropped.
   */
  lemma {:induction false} RunConserves(s: State, acts: seq<Action>, t: Tuple)
    requires Valid(s)
    ensures Valid(Run(s, acts))
    ensures Balanced(s, Run(s, acts), t)
    decreases acts
  {
    if acts != [] {
      StepValid(s, acts[0]);
      StepConserves(s, acts[0], t);
      RunConserves(Step(s, acts[0]), acts[1..], t);
    }
  }

  // -------------------------------------------------------- scans and vacuums

  /** t lies on live block b. */
  predicate Holds(s: State, b: nat, t: Tuple) {
    Block(s, b) && t in Live(s.pages[b - 1])
  }

  /** The step completes an insert of t. */
  predicate Adds(s: State, a: Action, t: Tuple) {
    && a.Go? && a.p < |s.procs| && s.procs[a.p].Insert? && s.procs[a.p].t == t
    && Target(s, a.p, s.procs[a.p].pc, a.answer) > 0
  }

  predicate NeverAdded(s: State, acts: seq<Action>, t: Tuple)
    decreases acts
  {
    acts == [] || (!Adds(s, acts[0], t) && NeverAdded(Step(s, acts[0]), acts[1..], t))
  }

  lemma {:induction false} InsertMovesNothing(s: State, p: nat, a: Answer, b: nat, t: Tuple)
    requires Valid(s) && p < |s.procs| && s.procs[p].Insert?
    requires Holds(InsertStep(s, p, s.procs[p].t, s.procs[p].pc, a), b, t) && !Adds(s, Go(p, a), t)
    ensures Holds(s, b, t)
  {
    var x, pc := s.procs[p].t, s.procs[p].pc;
    var k := Target(s, p, pc, a);
    if k > 0 {
      TargetTakes(s, p, pc, a);
      if k <= |s.pages| {
        AppendKeepsValid(s.size, s.pages[k - 1], x);
      } else {
        AppendKeepsValid(s.size, NEW_PAGE, x);
      }
    }
  }

  lemma {:induction false} VacuumMovesNothing(s: State, p: nat, v: Proc, b: nat, t: Tuple)
    requires p < |s.procs| && v.Vacuum? && 1 <= v.next <= |s.pages| && ValidPage(s.size, s.pages[v.next - 1])
    requires Holds(VacuumPage(s, p, v), b, t)
    ensures Holds(s, b, t)
  {
    var was := s.pages[v.next - 1];
    CompactKeepsValid(s.size, was, v.dead);
    KeepsLiving(Live(was), v.dead, t);
  }

  /** No step moves a tuple: what lies on a block was there before or is just being added. */
  lemma {:induction false} StepMovesNothing(s: State, a: Action, b: nat, t: Tuple)
    requires Valid(s) && Holds(Step(s, a), b, t) && !Adds(s, a, t)
    ensures Holds(s, b, t)
  {
    if a.Go? && a.p < |s.procs| {
      var x := s.procs[a.p];
      assert ValidProc(s, a.p, x);
      if x.Insert? {
        InsertMovesNothing(s, a.p, a.answer, b, t);
      } else if x.Vacuum? && !x.finished && x.next <= x.npages {
        VacuumMovesNothing(s, a.p, x, b, t);
      }
    }
  }

  lemma {:induction false} MatchesIn(ts: seq<Tuple>, sign: Words, t: Tuple)
    requires t in ts && MaskTest(t.sign, sign)
    ensures t.heapPtr in Matches(ts, sign)
  {
    var n := |ts| - 1;
    if t != ts[n] {
      assert ts == ts[..n] + [ts[n]];
      MatchesIn(ts[..n], sign, t);
    }
  }

  /** Block b holds t before, between and after the steps. */
  predicate HeldThroughout(s: State, acts: seq<Action>, b: nat, t: Tuple)
    decreases acts
  {
    Holds(s, b, t) && (acts != [] ==> HeldThroughout(Step(s, acts[0]), acts[1..], b, t))
  }

  /** The tuple on block b is still ahead of the scan or has been emitted. */
  ghost predicate ScanPromise(s: State, p: nat, sign: Words, b: nat, t: Tuple) {
    && p < |s.procs| && s.procs[p].Scan? && s.procs[p].sign == sign
    && b <= s.procs[p].npages && (b >= s.procs[p].next || t.heapPtr in s.procs[p].emitted)
  }

  lemma {:induction false} StepKeepsScanPromise(s: State, a: Action, p: nat, sign: Words, b: nat, t: Tuple)
    requires Valid(s) && ScanPromise(s, p, sign, b, t) && MaskTest(t.sign, sign) && Holds(s, b, t)
    ensures ScanPromise(Step(s, a), p, sign, b, t)
  {
    assert ValidProc(s, p, s.procs[p]);
    if a.Go? && a.p == p && b == s.procs[p].next { MatchesIn(Live(s.pages[b - 1]), sign, t); }
  }

  lemma {:induction false} RunKeepsScanPromise(s: State, acts: seq<Action>, p: nat, sign: Words, b: nat, t: Tuple)
    requires Valid(s) && ScanPromise(s, p, sign, b, t) && MaskTest(t.sign, sign) && HeldThroughout(s, acts, b, t)
    ensures ScanPromise(Run(s, acts), p, sign, b, t)
    decreases acts
  {
    if acts != [] {
      StepValid(s, acts[0]);
      StepKeepsScanPromise(s, acts[0], p, sign, b, t);
      RunKeepsScanPromise(Step(s, acts[0]), acts[1..], p, sign, b, t);
    }
  }

  /**
    A scan that started in s and has finished emitted every matching tuple that
    stayed on its block all the while, whatever else ran.
   */
  lemma {:induction false} ScanComplete(s: State, sign: Words, acts: seq<Action>, b: nat, t: Tuple)
    requires Valid(s) && MaskTest(t.sign, sign)
    requires var s1 := Step(s, NewScan(sign));
             var s2 := Run(s1, acts);
             && HeldThroughout(s1, acts, b, t)
             && |s.procs| < |s2.procs| && s2.procs[|s.procs|].Scan?
             && s2.procs[|s.procs|].next > s2.procs[|s.procs|].npages
    ensures t.heapPtr in Run(Step(s, NewScan(sign)), acts).procs[|s.procs|].emitted
  {
    var s1 := Step(s, NewScan(sign));
    StepValid(s, NewScan(sign));
    RunKeepsScanPromise(s1, acts, |s.procs|, sign, b, t);
  }

  /** A tuple that is there at the end and was not inserted meanwhile stayed on its block. */
  lemma {:induction false} HeldUnlessAdded(s: State, acts: seq<Action>, b: nat, t: Tuple)
    requires Valid(s) && NeverAdded(s, acts, t) && Holds(Run(s, acts), b, t)
    ensures HeldThroughout(s, acts, b, t)
    decreases acts
  {
    if acts != [] {
      StepValid(s, acts[0]);
      HeldUnlessAdded(Step(s, acts[0]), acts[1..], b, t);
      StepMovesNothing(s, acts[0], b, t);
    }
  }

  /** Occurrences of t per page, without the blocks from lo to hi. */
  function Off(ps: seq<Page>, lo: nat, hi: nat, t: Tuple): seq<nat> {
    seq(|ps|, i requires 0 <= i < |ps| => if lo <= i + 1 <= hi then 0 else On(ps[i], t))
  }

  lemma {:induction false} OffUpdate(ps: seq<Page>, i: nat, x: Page, lo: nat, hi: nat, t: Tuple)
    requires i < |ps|
    ensures Sum(Off(ps[i := x], lo, hi, t)) <= Sum(Off(ps, lo, hi, t)) + if On(x, t) > On(ps[i], t) then On(x, t) - On(ps[i], t) else 0
  {
    var n := if lo <= i + 1 <= hi then 0 else On(x, t);
    assert Off(ps[i := x], lo, hi, t) == Off(ps, lo, hi, t)[i := n];
    SumUpdate(Off(ps, lo, hi, t), i, n);
  }

  lemma {:induction false} OffAppend(ps: seq<Page>, x: Page, lo: nat, hi: nat, t: Tuple)
    ensures Sum(Off(ps + [x], lo, hi, t)) <= Sum(Off(ps, lo, hi, t)) + On(x, t)
  {
    var n := if lo <= |ps| + 1 <= hi then 0 else On(x, t);
    assert Off(ps + [x], lo, hi, t) == Off(ps, lo, hi, t) + [n];
    SumAppend(Off(ps, lo, hi, t), n);
  }

  lemma {:induction false} OffNone(ps: seq<Page>, n: nat, t: Tuple)
    requires n <= |ps|
    ensures Sum(Off(ps[..n], 1, |ps|, t)) == 0
  {
    if n > 0 {
      OffNone(ps, n - 1, t);
      assert Off(ps[..n], 1, |ps|, t) == Off(ps[..n - 1], 1, |ps|, t) + [0];
      SumAppend(Off(ps[..n - 1], 1, |ps|, t), 0);
    }
  }

  /** Outside the blocks from lo to hi, t gains no more than is inserted. */
  predicate Contained(s: State, s': State, lo: nat, hi: nat, t: Tuple) {
    Sum(Off(s'.pages, lo, hi, t)) + Inserted(s, t) <= Sum(Off(s.pages, lo, hi, t)) + Inserted(s', t)
  }

  lemma {:induction false} PutContained(s: State, b: nat, x: Tuple, lo: nat, hi: nat, t: Tuple)
    requires ValidPages(s) && Fits(s.size, EMPTY_PAGE)
    requires 1 <= b <= |s.pages| + 1 && (b <= |s.pages| ==> Takes(s, b))
    ensures Sum(Off(Put(s, b, x).pages, lo, hi, t)) <= Sum(Off(s.pages, lo, hi, t)) + if x == t then 1 else 0
  {
    if b <= |s.pages| {
      AppendKeepsValid(s.size, s.pages[b - 1], x);
      OccursAppend(Live(s.pages[b - 1]), x, t);
      OffUpdate(s.pages, b - 1, Filled(s, b, x), lo, hi, t);
    } else {
      AppendKeepsValid(s.size, NEW_PAGE, x);
      OccursAppend([], x, t);
      OffAppend(s.pages, Appended(s.size, EMPTY_PAGE, x), lo, hi, t);
    }
  }

  lemma {:induction false} InsertContained(s: State, p: nat, a: Answer, lo: nat, hi: nat, t: Tuple)
    requires Valid(s) && p < |s.procs| && s.procs[p].Insert?
    ensures Contained(s, InsertStep(s, p, s.procs[p].t, s.procs[p].pc, a), lo, hi, t)
  {
    var x, pc := s.procs[p].t, s.procs[p].pc;
    var s' := InsertStep(s, p, x, pc, a);
    ProcUpdate(s.procs, p, s'.procs[p], t);
    assert s'.procs == s.procs[p := s'.procs[p]];
    var b := Target(s, p, pc, a);
    if b > 0 {
      TargetTakes(s, p, pc, a);
      PutContained(s, b, x, lo, hi, t);
    }
  }

  lemma {:induction false} UpdateContained(s: State, p: nat, b: nat, x: Page, r: Proc, s': State, lo: nat, hi: nat, t: Tuple)
    requires p < |s.procs| && Block(s, b) && Delivered(r, t) == Delivered(s.procs[p], t) && On(x, t) <= On(s.pages[b - 1], t)
    requires s' == SetProc(SetPage(s, b, x), p, r)
    ensures Contained(s, s', lo, hi, t)
  {
    ProcUpdate(s.procs, p, r, t);
    OffUpdate(s.pages, b - 1, x, lo, hi, t);
  }

  /** What bulk delete leaves on a page: no more of t, and none if t is dead. */
  lemma {:induction false} VacuumLeaves(size: nat, v: Proc, was: Page, t: Tuple)
    requires v.Vacuum? && ValidPage(size, was)
    ensures On(Compacted(size, was, v.dead), t) <= On(was, t)
    ensures t.heapPtr in v.dead ==> On(Compacted(size, was, v.dead), t) == 0
  {
    CompactKeepsValid(size, was, v.dead);
    KeepCounts(Live(was), v.dead, t);
  }

  lemma {:induction false} VacuumPageContained(s: State, p: nat, v: Proc, lo: nat, hi: nat, t: Tuple)
    requires p < |s.procs| && v == s.procs[p] && v.Vacuum? && 1 <= v.next <= |s.pages|
    requires ValidPage(s.size, s.pages[v.next - 1])
    ensures Contained(s, VacuumPage(s, p, v), lo, hi, t)
  {
    var was := s.pages[v.next - 1];
    VacuumLeaves(s.size, v, was, t);
    UpdateContained(s, p, v.next, Compacted(s.size, was, v.dead), VacuumNext(s.size, v, was), VacuumPage(s, p, v), lo, hi, t);
  }

  lemma {:induction false} VacuumContained(s: State, p: nat, v: Proc, lo: nat, hi: nat, t: Tuple)
    requires Valid(s) && p < |s.procs| && v == s.procs[p] && v.Vacuum?
    ensures Contained(s, VacuumStep(s, p, v), lo, hi, t)
  {
    assert ValidProc(s, p, v);
    if !v.finished && v.next <= v.npages {
      VacuumPageContained(s, p, v, lo, hi, t);
    } else {
      ProcUpdate(s.procs, p, v.(finished := true), t);
    }
  }

  lemma {:induction false} StepContained(s: State, a: Action, lo: nat, hi: nat, t: Tuple)
    requires Valid(s)
    ensures Contained(s, Step(s, a), lo, hi, t)
  {
    var s' := Step(s, a);
    match a
    case NewInsert(x) => ProcAppend(s.procs, Insert(x, Start), t);
    case NewVacuum(dead) => ProcAppend(s.procs, Vacuum(dead, |s.pages|, 1, [], [], false), t);
    case NewCleanup => ProcAppend(s.procs, Cleanup(|s.pages|, 1, 0, 0), t);
    case NewScan(sign) => ProcAppend(s.procs, Scan(sign, |s.pages|, 1, []), t);
    case LostExtension => OffAppend(s.pages, NEW_PAGE, lo, hi, t);
    case Fail(p) =>
      if p < |s.procs| { ProcUpdate(s.procs, p, s'.procs[p], t); }
    case Go(p, answer) =>
      if p < |s.procs| {
        match s.procs[p]
        case Insert(_, _) => InsertContained(s, p, answer, lo, hi, t);
        case Vacuum(_, _, _, _, _, _) => VacuumContained(s, p, s.procs[p], lo, hi, t);
        case _ => ProcUpdate(s.procs, p, s'.procs[p], t);
      }
  }

  /** Outside the blocks that bulk delete p still has to visit, t occurs no more often than it was inserted since. */
  ghost predicate VacuumPromise(s: State, p: nat, dead: set<HeapPtr>, t: Tuple, before: nat) {
    && p < |s.procs| && s.procs[p].Vacuum? && s.procs[p].dead == dead
    && Sum(Off(s.pages, s.procs[p].next, s.procs[p].npages, t)) + before <= Inserted(s, t)
    && (s.procs[p].finished ==> s.procs[p].next > s.procs[p].npages)
  }

  /** The page bulk delete has just dealt with holds no dead tuple. */
  lemma {:induction false} WindowMoves(ps: seq<Page>, lo: nat, hi: nat, t: Tuple)
    requires 1 <= lo <= |ps| && On(ps[lo - 1], t) == 0
    ensures Off(ps, lo + 1, hi, t) == Off(ps, lo, hi, t)
  {
  }

  /** Bulk delete is where it was, or has moved past a page without t. */
  predicate Advanced(v: Proc, s': State, p: nat, t: Tuple)
    requires v.Vacuum?
  {
    && p < |s'.procs| && s'.procs[p].Vacuum? && s'.procs[p].dead == v.dead
    && Off(s'.pages, s'.procs[p].next, s'.procs[p].npages, t) == Off(s'.pages, v.next, v.npages, t)
    && (s'.procs[p].finished ==> s'.procs[p].next > s'.procs[p].npages)
  }

  lemma {:induction false} OwnPageKeeps(s: State, p: nat, v: Proc, t: Tuple)
    requires p < |s.procs| && v.Vacuum? && 1 <= v.next <= |s.pages| && !v.finished && t.heapPtr in v.dead
    requires ValidPage(s.size, s.pages[v.next - 1])
    ensures Advanced(v, VacuumPage(s, p, v), p, t)
  {
    VacuumLeaves(s.size, v, s.pages[v.next - 1], t);
    WindowMoves(VacuumPage(s, p, v).pages, v.next, v.npages, t);
  }

  lemma {:induction false} OwnStepKeeps(s: State, p: nat, v: Proc, t: Tuple)
    requires Valid(s) && p < |s.procs| && v == s.procs[p] && v.Vacuum? && t.heapPtr in v.dead
    requires v.finished ==> v.next > v.npages
    ensures Advanced(v, VacuumStep(s, p, v), p, t)
  {
    assert ValidProc(s, p, v);
    if !v.finished && v.next <= v.npages { OwnPageKeeps(s, p, v, t); }
  }

  lemma {:induction false} StepKeepsVacuumPromise(s: State, a: Action, p: nat, dead: set<HeapPtr>, t: Tuple, before: nat)
    requires Valid(s) && VacuumPromise(s, p, dead, t, before) && t.heapPtr in dead
    ensures VacuumPromise(Step(s, a), p, dead, t, before)
  {
    var v := s.procs[p];
    StepContained(s, a, v.next, v.npages, t);
    VacuumAdvances(s, a, p, v, t);
  }

  lemma {:induction false} VacuumAdvances(s: State, a: Action, p: nat, v: Proc, t: Tuple)
    requires Valid(s) && p < |s.procs| && v == s.procs[p] && v.Vacuum? && t.heapPtr in v.dead
    requires v.finished ==> v.next > v.npages
    ensures Advanced(v, Step(s, a), p, t)
  {
    if a.Go? && a.p == p {
      OwnStepKeeps(s, p, v, t);
    } else {
      OthersStay(s, a, p);
    }
  }

  /** Only its own steps change a bulk delete's record. */
  lemma {:induction false} OthersStay(s: State, a: Action, p: nat)
    requires p < |s.procs| && s.procs[p].Vacuum? && !(a.Go? && a.p == p)
    ensures p < |Step(s, a).procs| && Step(s, a).procs[p] == s.procs[p]
  {
  }

  lemma {:induction false} RunKeepsVacuumPromise(s: State, acts: seq<Action>, p: nat, dead: set<HeapPtr>, t: Tuple, before: nat)
    requires Valid(s) && VacuumPromise(s, p, dead, t, before) && t.heapPtr in dead
    ensures VacuumPromise(Run(s, acts), p, dead, t, before)
    decreases acts
  {
    if acts != [] {
      StepValid(s, acts[0]);
      StepKeepsVacuumPromise(s, acts[0], p, dead, t, before);
      RunKeepsVacuumPromise(Step(s, acts[0]), acts[1..], p, dead, t, before);
    }
  }

  /**
    After a finished bulk delete a tuple it was asked to remove occurs at most as
    often as it was inserted while the bulk delete ran, whatever else ran.
   */
  lemma {:induction false} VacuumComplete(s: State, dead: set<HeapPtr>, acts: seq<Action>, t: Tuple)
    requires Valid(s) && t.heapPtr in dead
    requires var s2 := Run(Step(s, NewVacuum(dead)), acts);
             |s.procs| < |s2.procs| && s2.procs[|s.procs|].Vacuum? && s2.procs[|s.procs|].finished
    ensures var s2 := Run(Step(s, NewVacuum(dead)), acts); Count(s2, t) + Inserted(s, t) <= Inserted(s2, t)
  {
    var s1, p := Step(s, NewVacuum(dead)), |s.procs|;
    StepValid(s, NewVacuum(dead));
    ProcAppend(s.procs, s1.procs[p], t);
    OffNone(s.pages, |s.pages|, t);
    assert s.pages[..|s.pages|] == s.pages;
    RunKeepsVacuumPromise(s1, acts, p, dead, t, Inserted(s, t));
    var s2 := Run(s1, acts);
    assert Off(s2.pages, s2.procs[p].next, s2.procs[p].npages, t) == OnPages(s2.pages, t);
  }

  lemma {:induction false} MatchesOnly(ts: seq<Tuple>, sign: Words, h: HeapPtr)
    requires h in Matches(ts, sign)
    ensures exists t :: t in ts && t.heapPtr == h && MaskTest(t.sign, sign)
  {
    var n := |ts| - 1;
    if MaskTest(ts[n].sign, sign) && ts[n].heapPtr == h {
      assert ts[n] in ts;
    } else {
      MatchesOnly(ts[..n], sign, h);
      var t :| t in ts[..n] && t.heapPtr == h && MaskTest(t.sign, sign);
      assert t in ts;
    }
  }

  /** Somewhere in the run a live page held a matching tuple with pointer h. */
  ghost predicate Seen(s: State, acts: seq<Action>, sign: Words, h: HeapPtr)
    decreases acts
  {
    || (exists b: nat, t :: Holds(s, b, t) && t.heapPtr == h && MaskTest(t.sign, sign))
    || (acts != [] && Seen(Step(s, acts[0]), acts[1..], sign, h))
  }

  /** A scan emits only pointers of matching tuples it saw on a live page while it ran. */
  lemma {:induction false} ScanSound(s: State, acts: seq<Action>, p: nat, h: HeapPtr)
    requires Valid(s) && p < |s.procs| && s.procs[p].Scan?
    requires h !in s.procs[p].emitted
    ensures |Run(s, acts).procs| >= |s.procs| && Run(s, acts).procs[p].Scan?
    ensures h in Run(s, acts).procs[p].emitted ==> Seen(s, acts, s.procs[p].sign, h)
    decreases acts
  {
    if acts != [] {
      var s', c := Step(s, acts[0]), s.procs[p];
      assert ValidProc(s, p, c);
      StepValid(s, acts[0]);
      if h in s'.procs[p].emitted {
        var b := c.next;
        MatchesOnly(Live(s.pages[b - 1]), c.sign, h);
        var t :| t in Live(s.pages[b - 1]) && t.heapPtr == h && MaskTest(t.sign, c.sign);
        assert Holds(s, b, t);
        RunKeepsScan(s', acts[1..], p);
      } else {
        ScanSound(s', acts[1..], p, h);
      }
    }
  }

  lemma {:induction false} RunKeepsScan(s: State, acts: seq<Action>, p: nat)
    requires p < |s.procs| && s.procs[p].Scan?
    ensures |Run(s, acts).procs| >= |s.procs| && Run(s, acts).procs[p].Scan?
    decreases acts
  {
    if acts != [] { RunKeepsScan(Step(s, acts[0]), acts[1..], p); }
  }

  // ----------------------------------------------------------------- progress

  /** Own steps an inserter still needs when nobody interferes. */
  function Rank(s: State, pc: InsertPc): int {
    match pc
    case Start => s.meta.nEnd + 5
    case Probe(_) => s.meta.nEnd + 4
    case WantMeta(_) => s.meta.nEnd + 3
    case Loop(n) => s.meta.nEnd - n + 2
    case Alloc => 1
    case _ => 0
  }

  /** Only process p moves, with the given answers of the free space map. */
  function Alone(p: nat, answers: seq<Answer>): seq<Action> {
    if answers == [] then [] else [Go(p, answers[0])] + Alone(p, answers[1..])
  }

  /** How often the map proposed a page that could not be used. */
  function Wasted(s: State, p: nat, answers: seq<Answer>): nat
    decreases answers
  {
    if answers == [] then 0
    else
      var waste := p < |s.procs| && s.procs[p].Insert? && s.procs[p].pc.Alloc? && Target(s, p, Alloc, answers[0]) == 0;
      (if waste then 1 else 0) + Wasted(Step(s, Go(p, answers[0])), p, answers[1..])
  }

  lemma {:induction false} DoneStays(s: State, p: nat, answers: seq<Answer>)
    requires p < |s.procs| && s.procs[p].Insert? && s.procs[p].pc.Done?
    ensures Run(s, Alone(p, answers)) == s
  {
    if answers != [] {
      assert Alone(p, answers)[0] == Go(p, answers[0]) && Alone(p, answers)[1..] == Alone(p, answers[1..]);
      DoneStays(s, p, answers[1..]);
    }
  }

  /**
    An inserter that is left alone with a free (or its own) metapage lock adds its
    tuple within nEnd + 5 steps and one for each unusable page the free space map
    proposes, whatever the map answers; the "empty page" error is unreachable.
   */
  lemma {:induction false} InsertFinishes(s: State, p: nat, answers: seq<Answer>)
    requires Valid(s) && p < |s.procs| && s.procs[p].Insert? && !s.procs[p].pc.Failed?
    requires s.lock == Free || s.lock == Held(p)
    requires |answers| >= Rank(s, s.procs[p].pc) + Wasted(s, p, answers)
    ensures var s' := Run(s, Alone(p, answers)); p < |s'.procs| && s'.procs[p] == Insert(s.procs[p].t, Done)
    decreases answers
  {
    assert ValidProc(s, p, s.procs[p]);
    if s.procs[p].pc.Done? {
      DoneStays(s, p, answers);
    } else if answers != [] {
      var a := Go(p, answers[0]);
      assert Alone(p, answers)[0] == a && Alone(p, answers)[1..] == Alone(p, answers[1..]);
      StepValid(s, a);
      InsertFinishes(Step(s, a), p, answers[1..]);
    }
  }
}
