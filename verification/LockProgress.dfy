/**
 Spin-loop soundness, service order and progress of the slim reader/writer lock.
 */
module LockProgress {
  import opened LockMemory
  import opened LockMachine
  import opened LockInvariant
  import opened LockSteps
  import opened LockSafety

  // ------------------------------------------------------------------------ counts and the chain

  // The block reached after following k Next links.
  function Walk(m: Mem, p: Addr, k: nat): Addr {
    if k == 0 then p else m.BlockAt(Walk(m, p, k - 1)).next
  }

  lemma {:induction false} WalkVisits(s: State, k: nat)
    requires Inv(s) && s.a.queue != [] && k <= |s.a.queue|
    ensures Walk(s.c.mem, s.c.mem.word.high, k) ==
            if k < |s.a.queue| then Head(s.a.queue[k]) else NULL
  {
    WordFacts(s);
    if k > 0 {
      WalkVisits(s, k - 1);
      assert EntryOk(s.c.mem, s.a.queue, k - 1);
    }
  }

  // The chain of wait blocks is finite and without repetition, the first block knows its end, and
  // no two shared blocks are neighbours.
  ghost predicate ProperChain(m: Mem, n: nat) {
    && n > 0
    && Walk(m, m.word.high, n) == NULL
    && Walk(m, m.word.high, n - 1) == m.First().last
    && (forall i, k | 0 <= i < k < n :: Walk(m, m.word.high, i) != Walk(m, m.word.high, k))
    && (forall k | 0 <= k < n :: Walk(m, m.word.high, k) in m.blocks)
    && (forall k | 0 <= k < n - 1 ::
          m.BlockAt(Walk(m, m.word.high, k)).exclusive || m.BlockAt(Walk(m, m.word.high, k + 1)).exclusive)
  }

  lemma ChainIsProper(es: seq<Event>)
    requires Run(START, es).mem.word.contended
    ensures ProperChain(Run(START, es).mem, |Reached(es).a.queue|)
  {
    var s := Reached(es);
    WordFacts(s);
    var q, m := s.a.queue, s.c.mem;
    forall k | 0 <= k <= |q| ensures Walk(m, m.word.high, k) == if k < |q| then Head(q[k]) else NULL {
      WalkVisits(s, k);
    }
    forall i, k | 0 <= i < k < |q| ensures Walk(m, m.word.high, i) != Walk(m, m.word.high, k) {
      HeadsDiffer(s, i, k);
    }
    forall k | 0 <= k < |q|
      ensures Walk(m, m.word.high, k) in m.blocks
      ensures k + 1 < |q| ==>
                m.BlockAt(Walk(m, m.word.high, k)).exclusive || m.BlockAt(Walk(m, m.word.high, k + 1)).exclusive
    {
      assert EntryOk(m, q, k);
      if k + 1 < |q| {
        assert EntryOk(m, q, k + 1);
      }
    }
  }

  // t has been counted as a sharer: it is inside, or it still spins but its block was served.
  predicate Shares(s: State, t: Tid) {
    var p := s.c.PcOf(t);
    InsideShared(p) || (p.WaitS? && Granted(s.a, p.me))
  }

  // Where the count of sharers is kept.
  function CountOf(m: Mem): int {
    if !m.word.shared then 0
    else if m.word.contended then m.First().sharedCount
    else m.word.high
  }

  // The count in the word, or in the first block of a contended lock, is the number of sharers.
  lemma CountsSharers(es: seq<Event>)
    ensures var s := Reached(es);
            && (forall t: Tid :: t in s.a.holders <==> Shares(s, t))
            && CountOf(Run(START, es).mem) == |s.a.holders|
  {
    var s := Reached(es);
    WordFacts(s);
    forall t: Tid ensures t in s.a.holders <==> Shares(s, t) {
      assert ThreadOk(s.c, s.a, t);
    }
  }

  // ------------------------------------------------------------------------------- leaving a wait

  predicate Spinning(p: Pc) {
    p.WaitS? || p.WaitX?
  }

  // A waiter leaves its spin loop only after its block was taken off the chain and after it was
  // made the owner, or counted as a sharer; and the word agrees.
  lemma SpinLoopsAreSound(es: seq<Event>, t: Tid)
    requires Spinning(Run(START, es).PcOf(t)) && !Spinning(Run(START, es + [Go(t)]).PcOf(t))
    ensures var s := Reached(es);
            var p := s.c.PcOf(t);
            && Granted(s.a, p.me)
            && (forall i, j | 0 <= i < |s.a.queue| && 0 <= j < |s.a.queue[i].members| ::
                  s.a.queue[i].members[j].node != p.me)
            && (p.WaitX? ==> s.a.owner == Some(t) && s.c.mem.word.owned && !s.c.mem.word.shared)
            && (p.WaitS? ==> t in s.a.holders && s.c.mem.word.shared)
            && InsideExclusive(Run(START, es + [Go(t)]).PcOf(t)) == p.WaitX?
            && InsideShared(Run(START, es + [Go(t)]).PcOf(t)) == p.WaitS?
  {
    var s := Reached(es);
    RunAppends(START, es, Go(t));
    WordFacts(s);
    assert ThreadOk(s.c, s.a, t);
    forall i, j | 0 <= i < |s.a.queue| && 0 <= j < |s.a.queue[i].members|
      ensures s.a.queue[i].members[j].node != s.c.PcOf(t).me
    {
      assert MemberOk(s.c, s.a, i, j);
    }
  }

  lemma {:induction false} RunAppends(c: Conc, es: seq<Event>, e: Event)
    ensures Run(c, es + [e]) == Step(Run(c, es), e)
    decreases es
  {
    if es == [] {
      assert Run(Step(c, e), []) == Step(c, e);
    } else {
      assert (es + [e])[1..] == es[1..] + [e];
      RunAppends(Step(c, es[0]), es[1..], e);
    }
  }

  // ---------------------------------------------------------------------------------- service order

  // What one step does to the queue: nothing, one newcomer in a new last block or in a shared
  // block, or the first block leaves.
  ghost predicate QueueStep(a: Abs, a': Abs) {
    || (a'.queue == a.queue && a'.served == a.served && a'.slot == a.slot)
    || (exists t, n, x :: n !in a.slot && a' == AddEntry(a, t, n, x))
    || (exists i, t, n ::
          n !in a.slot && 0 <= i < |a.queue| && !a.queue[i].exclusive && a' == JoinEntry(a, i, t, n))
    || (a.queue != [] && a'.queue == a.queue[1..] && a'.served == a.served + 1 && a'.slot == a.slot)
  }

  lemma QueueIsFifo(s: State, e: Event)
    requires Inv(s)
    ensures QueueStep(s.a, StepS(s, e).a)
  {
    hide MemberOk, Waiting;
    if e.Go? {
      assert ThreadOk(s.c, s.a, e.t);
      WordFacts(s);
      var p := s.c.PcOf(e.t);
      var a' := StepS(s, e).a;
      if s.a.queue != [] {
        assert EntryOk(s.c.mem, s.a.queue, 0) && EntryOk(s.c.mem, s.a.queue, |s.a.queue| - 1);
      }
      match p
      case AcqSRead(me, cv) =>
        assert a' == AddEntry(s.a, e.t, me, false) || a' == JoinEntry(s.a, 0, e.t, me)
               || (s.a.queue != [] && a' == JoinEntry(s.a, |s.a.queue| - 1, e.t, me)) || a'.queue == s.a.queue;
      case AcqXRead(me, cv) =>
        assert a' == AddEntry(s.a, e.t, me, true) || a'.queue == s.a.queue;
      case _ =>
    }
  }

  lemma {:induction false} SlotsPersist(s: State, es: seq<Event>, n: Addr)
    requires Inv(s) && n in s.a.slot
    ensures n in RunS(s, es).a.slot && RunS(s, es).a.slot[n] == s.a.slot[n]
    ensures s.a.served <= RunS(s, es).a.served
    decreases es
  {
    if es != [] {
      QueueIsFifo(s, es[0]);
      StepKeeps(s, es[0]);
      SlotsPersist(StepS(s, es[0]), es[1..], n);
    }
  }

  lemma LeavesOnlyServed(s: State, e: Event, t: Tid)
    requires Inv(s) && Spinning(s.c.PcOf(t))
    ensures var p, p' := s.c.PcOf(t), StepS(s, e).c.PcOf(t);
            p.me in s.a.slot && (WaitsFor(p', p.me, p.WaitX?) || Granted(s.a, p.me))
  {
    hide EntryOk, MemberOk;
    assert ThreadOk(s.c, s.a, t);
    WordFacts(s);
  }

  // A thread that waits keeps waiting on the same node until its block is served.
  lemma {:induction false} WaitsUntilServed(s: State, es: seq<Event>, t: Tid)
    requires Inv(s) && Spinning(s.c.PcOf(t))
    ensures var p, s' := s.c.PcOf(t), RunS(s, es);
            Granted(s'.a, p.me) || WaitsFor(s'.c.PcOf(t), p.me, p.WaitX?)
    decreases es
  {
    if es != [] {
      var s1 := StepS(s, es[0]);
      StepKeeps(s, es[0]);
      LeavesOnlyServed(s, es[0], t);
      if Granted(s.a, s.c.PcOf(t).me) {
        SlotsPersist(s, es, s.c.PcOf(t).me);
      } else {
        WaitsUntilServed(s1, es[1..], t);
      }
    }
  }

  // First come, first served, by block: when a thread of a later block has got the lock, the
  // threads of every earlier block have been served.
  lemma NoOvertaking(s: State, es: seq<Event>, t: Tid, u: Tid)
    requires Inv(s) && Spinning(s.c.PcOf(t)) && Spinning(s.c.PcOf(u))
    requires s.c.PcOf(t).me in s.a.slot && s.c.PcOf(u).me in s.a.slot
    requires s.a.slot[s.c.PcOf(t).me].0 < s.a.slot[s.c.PcOf(u).me].0
    ensures var x, y, s' := s.c.PcOf(t), s.c.PcOf(u), RunS(s, es);
            WaitsFor(s'.c.PcOf(u), y.me, y.WaitX?) || Granted(s'.a, x.me)
  {
    assert ThreadOk(s.c, s.a, t) && ThreadOk(s.c, s.a, u);
    WaitsUntilServed(s, es, u);
    SlotsPersist(s, es, s.c.PcOf(t).me);
    SlotsPersist(s, es, s.c.PcOf(u).me);
  }

  // No waiter is lost: it is in exactly one place of the queue, or it was served and is awake or
  // about to be woken.
  lemma NoLostWaiter(es: seq<Event>, t: Tid)
    requires Spinning(Run(START, es).PcOf(t))
    ensures var s := Reached(es);
            var p := s.c.PcOf(t);
            var awake := if p.WaitX? then s.c.mem.BlockAt(p.me).wake else s.c.mem.NodeAt(p.me).wake;
            if Granted(s.a, p.me) then awake || Pending(s.a, p.me)
            else
              && !awake
              && QueuedAt(s.a, t, p.me, p.WaitX?)
              && forall i, j | 0 <= i < |s.a.queue| && 0 <= j < |s.a.queue[i].members| ::
                   s.a.queue[i].members[j].node == p.me ==> (s.a.served + i, j) == s.a.slot[p.me]
  {
    var s := Reached(es);
    assert ThreadOk(s.c, s.a, t);
    forall i, j | 0 <= i < |s.a.queue| && 0 <= j < |s.a.queue[i].members|
      ensures s.a.queue[i].members[j].node in s.a.slot
              && s.a.slot[s.a.queue[i].members[j].node] == (s.a.served + i, j)
    {
      assert MemberOk(s.c, s.a, i, j);
    }
  }
}
