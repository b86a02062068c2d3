/**
 The main safety results for the slim reader/writer lock, over every run with any number of threads.
 */
module LockSafety {
  import opened LockMemory
  import opened LockMachine
  import opened LockInvariant
  import opened LockSteps
  import opened LockHandOff

  lemma AcqSKeeps(s: State, t: Tid)
    requires Inv(s) && s.c.PcOf(t).AcqSRead?
    ensures Inv(StepS(s, Go(t)))
  {
    hide Waiting, MemberOk;
    WordFacts(s);
    assert ThreadOk(s.c, s.a, t);
    var AcqSRead(me, cv) := s.c.PcOf(t);
    var s' := StepS(s, Go(t));
    var q := s.a.queue;
    if cv.contended && (cv.shared || cv.owned) {
      if q == [] {
        OnlyPc(s, s', t, AcqS(me));
      } else {
        assert EntryOk(s.c.mem, q, 0) && EntryOk(s.c.mem, q, |q| - 1);
        if cv.shared && !q[0].exclusive {
          JoinKeeps(s, s', t, me, 0);
        } else if q[|q| - 1].exclusive {
          AppendKeeps(s, s', t, me, false);
        } else {
          JoinKeeps(s, s', t, me, |q| - 1);
        }
      }
    } else if s.c.mem.word != cv {
      OnlyPc(s, s', t, AcqS(me));
    } else if cv.shared || !cv.owned {
      Uncontended(s, s', t, HeldS, SimpleShared(|s.a.holders| + 1));
    } else {
      PublishKeeps(s, s', t, me, false);
    }
  }

  lemma AcqXKeeps(s: State, t: Tid)
    requires Inv(s) && s.c.PcOf(t).AcqXRead?
    ensures Inv(StepS(s, Go(t)))
  {
    WordFacts(s);
    assert ThreadOk(s.c, s.a, t);
    var AcqXRead(me, cv) := s.c.PcOf(t);
    var s' := StepS(s, Go(t));
    if cv.contended && (cv.shared || cv.owned) {
      if s.a.queue == [] {
        OnlyPc(s, s', t, AcqXLoop(me));
      } else {
        AppendKeeps(s, s', t, me, true);
      }
    } else if cv.shared || cv.owned {
      if s.c.mem.word != cv {
        OnlyPc(s, s', t, AcqXLoop(me));
      } else {
        PublishKeeps(s, s', t, me, true);
      }
    } else {
      TestAndSetKeeps(s, t, me);
    }
  }

  lemma RelXKeeps(s: State, t: Tid)
    requires Inv(s) && s.c.PcOf(t).RelXRead?
    ensures Inv(StepS(s, Go(t)))
  {
    WordFacts(s);
    assert ThreadOk(s.c, s.a, t);
    var cv := s.c.PcOf(t).cv;
    var s' := StepS(s, Go(t));
    if cv.contended {
      HandOffRepresents(s, t);
      assert s'.a == Served(s.a, t);
      HandOffBlocks(s);
      ServeKeeps(s, s', t);
    } else if s.c.mem.word != cv {
      OnlyPc(s, s', t, HeldX);
    } else {
      Uncontended(s, s', t, Idle, FREE);
    }
  }

  lemma HandOffBlocks(s: State)
    requires Inv(s) && s.a.queue != []
    ensures forall n | n in s.c.mem.blocks ::
              && n in HandOff(s.c.mem).blocks
              && HandOff(s.c.mem).blocks[n].wake == s.c.mem.blocks[n].wake
  {
    WordFacts(s);
    if |s.a.queue| > 1 {
      assert EntryOk(s.c.mem, s.a.queue, 1);
    }
  }

  lemma DropFrames(s: State, s': State, t: Tid)
    requires Inv(s) && s.a.queue != [] && s.c.PcOf(t).RelSRead?
    requires s.a.holders - {t} != {}
    requires s'.c == s.c.(mem := DropSharer(s.c.mem)).At(t, Idle)
    requires s'.a == s.a.(holders := s.a.holders - {t})
    ensures Frame(s, s', t) && QueueGrows(s.a, s'.a, t) && KeepsPlace(s, s', t) && ThreadOk(s'.c, s'.a, t)
    ensures t in s.a.holders
  {
    hide MemberOk;
    WordFacts(s);
    assert ThreadOk(s.c, s.a, t);
  }

  // One of several sharers leaves: only the count in the first block changes.
  lemma DropKeeps(s: State, s': State, t: Tid)
    requires Inv(s) && s.a.queue != [] && s.c.PcOf(t).RelSRead?
    requires s.a.holders - {t} != {}
    requires s'.c == s.c.(mem := DropSharer(s.c.mem)).At(t, Idle)
    requires s'.a == s.a.(holders := s.a.holders - {t})
    ensures Inv(s')
  {
    hide ThreadOk, MemberOk, Frame, QueueGrows, KeepsPlace;
    WordFacts(s);
    var q := s.a.queue;
    forall i | 0 <= i < |q| ensures EntryOk(s'.c.mem, q, i) {
      assert EntryOk(s.c.mem, q, i);
      HeadsDiffer(s, i, 0);
      if !q[i].exclusive {
        forall j | 0 <= j < |q[i].members| ensures NodeOk(s'.c.mem, q[i].members, j) {
          assert NodeOk(s.c.mem, q[i].members, j);
        }
      }
    }
    DropFrames(s, s', t);
    OtherThreads(s, s', t);
    OldMembers(s, s', t);
  }

  lemma RelSKeeps(s: State, t: Tid)
    requires Inv(s) && s.c.PcOf(t).RelSRead?
    ensures Inv(StepS(s, Go(t)))
  {
    WordFacts(s);
    assert ThreadOk(s.c, s.a, t);
    var cv := s.c.PcOf(t).cv;
    var s' := StepS(s, Go(t));
    if cv.contended {
      var rest := s.a.holders - {t};
      assert |s.a.holders| == |rest| + 1;
      assert rest == {} <==> |rest| == 0;
      if rest == {} {
        assert s.a.holders == {t};
        LastSharedRepresents(s, t);
        assert s'.a == Served(s.a, t);
        LastSharedBlocks(s);
        ServeKeeps(s, s', t);
      } else {
        DropKeeps(s, s', t);
      }
    } else if s.c.mem.word != cv {
      OnlyPc(s, s', t, HeldS);
    } else {
      var rest := s.a.holders - {t};
      assert |s.a.holders| == |rest| + 1;
      assert rest == {} <==> |rest| == 0;
      Uncontended(s, s', t, Idle, if rest == {} then FREE else SimpleShared(|rest|));
    }
  }

  lemma LastSharedBlocks(s: State)
    requires Inv(s) && s.a.queue != []
    ensures var m := HandOffLastShared(DropSharer(s.c.mem));
            forall n | n in s.c.mem.blocks :: n in m.blocks && m.blocks[n].wake == s.c.mem.blocks[n].wake
  {
    WordFacts(s);
    if |s.a.queue| > 1 {
      assert EntryOk(s.c.mem, s.a.queue, 1);
    }
  }

  // A wake write of the releaser t reaches node or block n.
  ghost predicate Waking(s: State, s': State, t: Tid, n: Addr) {
    && Inv(s)
    && (s.c.PcOf(t) == WakeOne(n) || s.c.PcOf(t) == WakeAll(n))
    && s' == StepS(s, Go(t))
  }

  lemma StillPending(s: State, s': State, t: Tid, n: Addr, p: Addr)
    requires Waking(s, s', t, n) && p != n && Pending(s.a, p)
    ensures Pending(s'.a, p)
  {
    assert ThreadOk(s.c, s.a, t);
    var w :| w in s.a.todo && p in s.a.todo[w];
    if w == t {
      assert s.a.todo[t] == [n] + s.a.todo[t][1..];
      assert p in s.a.todo[t][1..];
    }
    assert w in s'.a.todo && p in s'.a.todo[w];
  }

  lemma WokenWaiter(s: State, s': State, t: Tid, n: Addr, u: Tid)
    requires Waking(s, s', t, n) && u != t && (s.c.PcOf(u).WaitS? || s.c.PcOf(u).WaitX?)
    ensures ThreadOk(s'.c, s'.a, u)
  {
    hide Represents, MembersOk;
    assert ThreadOk(s.c, s.a, u) && ThreadOk(s.c, s.a, t);
    var p := s.c.PcOf(u);
    if s.c.PcOf(t).WakeAll? {
      assert LinkOk(s.c, s.a, s.a.todo[t], 0);
    }
    if p.me != n && Pending(s.a, p.me) {
      StillPending(s, s', t, n, p.me);
    }
  }

  lemma WokenOther(s: State, s': State, t: Tid, n: Addr, u: Tid)
    requires Waking(s, s', t, n) && u != t && !s.c.PcOf(u).WaitS? && !s.c.PcOf(u).WaitX?
    ensures ThreadOk(s'.c, s'.a, u)
  {
    hide Represents, MembersOk, Waiting;
    assert ThreadOk(s.c, s.a, u) && ThreadOk(s.c, s.a, t);
    if s.c.PcOf(t).WakeAll? {
      assert LinkOk(s.c, s.a, s.a.todo[t], 0);
    }
    if s.c.PcOf(u).WakeAll? {
      ChainKept(s.c, s.a, s'.c, s'.a, s.a.todo[u]);
    }
  }

  lemma WokenOthers(s: State, t: Tid, n: Addr)
    requires Inv(s) && (s.c.PcOf(t) == WakeOne(n) || s.c.PcOf(t) == WakeAll(n))
    ensures var s' := StepS(s, Go(t)); forall u: Tid | u != t :: ThreadOk(s'.c, s'.a, u)
  {
    assert ThreadOk(s.c, s.a, t);
    var s' := StepS(s, Go(t));
    forall u: Tid | u != t ensures ThreadOk(s'.c, s'.a, u) {
      if s.c.PcOf(u).WaitS? || s.c.PcOf(u).WaitX? {
        WokenWaiter(s, s', t, n, u);
      } else {
        WokenOther(s, s', t, n, u);
      }
    }
  }

  lemma WakeRepresents(s: State, t: Tid, n: Addr)
    requires Inv(s) && (s.c.PcOf(t) == WakeOne(n) || s.c.PcOf(t) == WakeAll(n))
    ensures Represents(StepS(s, Go(t)).c.mem, s.a)
  {
    var m := StepS(s, Go(t)).c.mem;
    var q := s.a.queue;
    assert ThreadOk(s.c, s.a, t);
    if s.c.PcOf(t).WakeAll? {
      assert LinkOk(s.c, s.a, s.a.todo[t], 0);
    }
    forall i | 0 <= i < |q| ensures EntryOk(m, q, i) {
      assert EntryOk(s.c.mem, q, i);
      if !q[i].exclusive {
        forall j | 0 <= j < |q[i].members| ensures NodeOk(m, q[i].members, j) {
          assert NodeOk(s.c.mem, q[i].members, j);
        }
      }
    }
  }

  lemma WakeKeeps(s: State, t: Tid, n: Addr)
    requires Inv(s) && (s.c.PcOf(t) == WakeOne(n) || s.c.PcOf(t) == WakeAll(n))
    ensures Inv(StepS(s, Go(t)))
  {
    var s' := StepS(s, Go(t));
    assert ThreadOk(s.c, s.a, t);
    WokenOthers(s, t, n);
    WakeRepresents(s, t, n);
    if s.c.PcOf(t).WakeAll? {
      assert LinkOk(s.c, s.a, s.a.todo[t], 0);
    }
    assert MembersOk(s'.c, s'.a) by {
      forall i, j | 0 <= i < |s.a.queue| && 0 <= j < |s.a.queue[i].members|
        ensures MemberOk(s'.c, s'.a, i, j)
      {
        assert MemberOk(s.c, s.a, i, j);
      }
    }
    assert ThreadOk(s'.c, s'.a, t) by {
      if s.c.PcOf(t).WakeAll? {
        var ns := s.a.todo[t];
        assert LinkOk(s.c, s.a, ns, 0);
        if |ns| > 1 {
          assert LinkOk(s.c, s.a, ns, 1);
          assert Bounded(s.c, s.a) && 0 < ns[1];
          forall j | 0 <= j < |ns| - 1 ensures LinkOk(s'.c, s'.a, ns[1..], j) {
            assert LinkOk(s.c, s.a, ns, j + 1);
          }
        }
      }
    }
  }

  // ------------------------------------------------------------------------------ main results

  lemma StepKeeps(s: State, e: Event)
    requires Inv(s)
    ensures Inv(StepS(s, e))
  {
    match e
    case Call(t, exclusive) => CallKeeps(s, t, exclusive);
    case Go(t) =>
      assert ThreadOk(s.c, s.a, t);
      match s.c.PcOf(t)
      case AcqSRead(_, _) => AcqSKeeps(s, t);
      case WaitS(_, _, _) => WaitKeeps(s, t);
      case RelSRead(_) => RelSKeeps(s, t);
      case AcqX(me) => TestAndSetKeeps(s, t, me);
      case AcqXRead(_, _) => AcqXKeeps(s, t);
      case WaitX(_, _) => WaitKeeps(s, t);
      case RelXRead(_) => RelXKeeps(s, t);
      case WakeOne(b) => WakeKeeps(s, t, b);
      case WakeAll(n) => WakeKeeps(s, t, n);
      case _ => ReadKeeps(s, t);
  }

  lemma InitialHolds()
    ensures Inv(INITIAL)
  {
  }

  lemma {:induction false} RunKeeps(s: State, es: seq<Event>)
    requires Inv(s)
    ensures Inv(RunS(s, es))
    ensures RunS(s, es).c == Run(s.c, es)
    decreases es
  {
    if es != [] {
      StepKeeps(s, es[0]);
      RunKeeps(StepS(s, es[0]), es[1..]);
    }
  }

  // The state after a run from the start, together with the queue it represents.
  ghost function Reached(es: seq<Event>): (s: State)
    ensures Inv(s) && s.c == Run(START, es)
  {
    InitialHolds();
    RunKeeps(INITIAL, es);
    RunS(INITIAL, es)
  }

  // Whatever the threads do, nobody is inside together with an exclusive holder.
  lemma MutualExclusion(es: seq<Event>, t: Tid, u: Tid)
    requires t != u
    ensures var c := Run(START, es);
            InsideExclusive(c.PcOf(t)) ==> !InsideExclusive(c.PcOf(u)) && !InsideShared(c.PcOf(u))
  {
    var s := Reached(es);
    assert ThreadOk(s.c, s.a, t) && ThreadOk(s.c, s.a, u);
  }

  // The compiled-out ASSERTs hold, and no step follows a dangling or null pointer.
  lemma AllAssertsHold(es: seq<Event>, t: Tid)
    ensures AssertsHold(Run(START, es), t)
  {
    var s := Reached(es);
    WordFacts(s);
    assert ThreadOk(s.c, s.a, t);
    if s.a.queue != [] {
      var q := s.a.queue;
      assert EntryOk(s.c.mem, q, 0) && EntryOk(s.c.mem, q, |q| - 1);
      if !q[|q| - 1].exclusive {
        assert NodeOk(s.c.mem, q[|q| - 1].members, |q[|q| - 1].members| - 1);
      }
      if !q[0].exclusive {
        assert NodeOk(s.c.mem, q[0].members, |q[0].members| - 1);
        assert NodeOk(s.c.mem, q[0].members, 0);
      }
      if |q| > 1 {
        assert EntryOk(s.c.mem, q, 1);
        HeadsDiffer(s, 0, 1);
      }
    }
    if s.c.PcOf(t).WakeAll? {
      assert LinkOk(s.c, s.a, s.a.todo[t], 0);
    }
  }
}
