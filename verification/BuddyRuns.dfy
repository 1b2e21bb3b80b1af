/** Whole runs of the frame allocator: frames are fed in, blocks are allocated and freed. */
module BuddyRuns {
  import opened Blocks
  import opened BuddySpec

  /** `live` maps the first page of every block a caller holds to its order. */
  datatype State = State(lists: FreeLists, live: map<nat, nat>)

  datatype Event = AddFrame(page: nat) | Alloc(order: nat) | Dealloc(start: nat)

  const EMPTY: FreeLists := seq(MAX_ORDER, _ => [])

  ghost predicate InLive(live: map<nat, nat>, x: nat) {
    exists q :: q in live && InBlock(x, q, live[q])
  }

  /** What callers owe: a frame fed in is neither free nor held, and only held blocks are freed,
      at the order they were allocated with. */
  ghost predicate Legal(s: State, e: Event)
    requires |s.lists| == MAX_ORDER
  {
    match e
    case AddFrame(p) => p < MAX_PAGES ==> !Free(s.lists, p) && !InLive(s.live, p)
    case Alloc(_) => true
    case Dealloc(p) => p in s.live && s.live[p] < MAX_ORDER
  }

  function Step(s: State, e: Event): (t: State)
    requires |s.lists| == MAX_ORDER
    requires e.Dealloc? ==> e.start in s.live && s.live[e.start] < MAX_ORDER
    ensures |t.lists| == MAX_ORDER
  {
    match e
    case AddFrame(p) => if p < MAX_PAGES then s.(lists := Release(s.lists, p, 0)) else s
    case Alloc(o) =>
      (match Take(s.lists, o)
       case None => s
       case Some((p, R)) => State(R, s.live[p := o]))
    case Dealloc(p) => State(Release(s.lists, p, s.live[p]), s.live - {p})
  }

  /** Free and held blocks are aligned, inside the managed pages and pairwise disjoint. */
  ghost predicate StateInv(s: State) {
    && Inv(s.lists)
    && (forall p :: p in s.live ==> s.live[p] < MAX_ORDER && p < MAX_PAGES && Aligned(p, s.live[p]))
    && (forall p :: p in s.live ==> Unfree(s.lists, p, s.live[p]))
    && (forall p, q, x: nat :: p in s.live && q in s.live && InBlock(x, p, s.live[p]) && InBlock(x, q, s.live[q]) ==> p == q)
  }

  /** The pages the allocator accounts for. */
  ghost predicate Managed(s: State, x: nat)
    requires |s.lists| == MAX_ORDER
  {
    Free(s.lists, x) || InLive(s.live, x)
  }

  ghost predicate LegalRun(s: State, es: seq<Event>)
    requires |s.lists| == MAX_ORDER
    decreases |es|
  {
    es == [] || (Legal(s, es[0]) && LegalRun(Step(s, es[0]), es[1..]))
  }

  ghost function Final(s: State, es: seq<Event>): (t: State)
    requires |s.lists| == MAX_ORDER && LegalRun(s, es)
    decreases |es|
  {
    if es == [] then s else Final(Step(s, es[0]), es[1..])
  }

  /** The frames a run feeds in; those past the managed range are ignored. */
  ghost function Added(es: seq<Event>): set<nat> {
    if es == [] then {}
    else Added(es[1..]) + (if es[0].AddFrame? && es[0].page < MAX_PAGES then {es[0].page} else {})
  }

  /** One legal event keeps the invariant and conserves pages. */
  lemma StepInv(s: State, e: Event)
    requires StateInv(s) && Legal(s, e)
    ensures StateInv(Step(s, e))
    ensures forall x: nat :: Managed(Step(s, e), x) <==> Managed(s, x) || x in Added([e])
  {
    assert Added([e]) == if e.AddFrame? && e.page < MAX_PAGES then {e.page} else {};
    match e
    case AddFrame(p) => if p < MAX_PAGES { AddStep(s, p); }
    case Alloc(o) => AllocStep(s, o);
    case Dealloc(p) => DeallocStep(s, p);
  }

  lemma AddStep(s: State, p: nat)
    requires StateInv(s) && Legal(s, AddFrame(p)) && p < MAX_PAGES
    ensures StateInv(Step(s, AddFrame(p)))
    ensures forall x: nat :: Managed(Step(s, AddFrame(p)), x) <==> Managed(s, x) || x == p
  {
    SinglePage(s.lists, p);
    VacantIffUnfree(s.lists, p, 0);
    ReleaseCorrect(s.lists, p, 0);
    assert forall x: nat :: InBlock(x, p, 0) <==> x == p;
  }

  lemma AllocStep(s: State, o: nat)
    requires StateInv(s)
    ensures StateInv(Step(s, Alloc(o)))
    ensures forall x: nat :: Managed(Step(s, Alloc(o)), x) <==> Managed(s, x)
  {
    TakeCorrect(s.lists, o);
    if Take(s.lists, o).Some? {
      var (p, R) := Take(s.lists, o).value;
      var t := Step(s, Alloc(o));
      VacantIffUnfree(R, p, o);
      assert p !in s.live by { assert InBlock(p, p, o); assert p in s.live ==> InBlock(p, p, s.live[p]); }
      forall x: nat ensures InLive(t.live, x) <==> InLive(s.live, x) || InBlock(x, p, o) {
        if InLive(s.live, x) {
          var q :| q in s.live && InBlock(x, q, s.live[q]);
          assert q in t.live && InBlock(x, q, t.live[q]);
        }
        if InBlock(x, p, o) { assert InBlock(x, p, t.live[p]); }
      }
    }
  }

  lemma DeallocStep(s: State, p: nat)
    requires StateInv(s) && Legal(s, Dealloc(p))
    ensures StateInv(Step(s, Dealloc(p)))
    ensures forall x: nat :: Managed(Step(s, Dealloc(p)), x) <==> Managed(s, x)
  {
    var o := s.live[p];
    var t := Step(s, Dealloc(p));
    VacantIffUnfree(s.lists, p, o);
    ReleaseCorrect(s.lists, p, o);
    forall x: nat ensures InLive(s.live, x) <==> InLive(t.live, x) || InBlock(x, p, o) {
      if InLive(s.live, x) {
        var q :| q in s.live && InBlock(x, q, s.live[q]);
        if q != p { assert q in t.live && InBlock(x, q, t.live[q]); }
      }
      if InLive(t.live, x) {
        var q :| q in t.live && InBlock(x, q, t.live[q]);
        assert InBlock(x, q, s.live[q]);
      }
    }
  }

  lemma {:induction false} RunInvFrom(s: State, es: seq<Event>)
    requires StateInv(s) && LegalRun(s, es)
    ensures StateInv(Final(s, es))
    ensures forall x: nat :: Managed(Final(s, es), x) <==> Managed(s, x) || x in Added(es)
    decreases |es|
  {
    if es == [] {
    } else {
      StepInv(s, es[0]);
      RunInvFrom(Step(s, es[0]), es[1..]);
      assert Added(es) == Added(es[1..]) + Added([es[0]]);
    }
  }

  /** In every state any legal run reaches the invariant holds, and the free and held pages are
      exactly the frames fed in. */
  lemma RunInvariant(es: seq<Event>)
    requires LegalRun(State(EMPTY, map[]), es)
    ensures StateInv(Final(State(EMPTY, map[]), es))
    ensures forall x: nat :: Managed(Final(State(EMPTY, map[]), es), x) <==> x in Added(es)
  {
    RunInvFrom(State(EMPTY, map[]), es);
  }

  /** History independence over runs: if two runs fed in the same frames and leave the same pages
      held, they leave the same free blocks. */
  lemma RunsConverge(es: seq<Event>, fs: seq<Event>)
    requires LegalRun(State(EMPTY, map[]), es) && LegalRun(State(EMPTY, map[]), fs)
    requires Added(es) == Added(fs)
    requires var s, t := Final(State(EMPTY, map[]), es), Final(State(EMPTY, map[]), fs);
             forall x: nat :: InLive(s.live, x) <==> InLive(t.live, x)
    ensures SameBlocks(Final(State(EMPTY, map[]), es).lists, Final(State(EMPTY, map[]), fs).lists)
  {
    var s, t := Final(State(EMPTY, map[]), es), Final(State(EMPTY, map[]), fs);
    RunInvariant(es);
    RunInvariant(fs);
    forall x: nat ensures Free(s.lists, x) <==> Free(t.lists, x) {
      assert Managed(s, x) <==> Managed(t, x);
      HeldIsNotFree(s, x);
      HeldIsNotFree(t, x);
    }
    FreePagesDetermineBlocks(s.lists, t.lists);
  }

  lemma HeldIsNotFree(s: State, x: nat)
    requires StateInv(s)
    ensures !(Free(s.lists, x) && InLive(s.live, x))
  {}
}
