/**
 Every thread gets what it asked for: a thread is inside only in the mode of its last request, an acquisition
 ends inside and nowhere else, and an exclusive request that is inside is alone.
 */
module LockModes {
  import opened LockMemory
  import opened LockMachine
  import opened LockInvariant
  import opened LockSafety
  import opened LockDrain
  import opened LockFair

  // On the way into the lock, in shared or in exclusive mode.
  predicate Acquiring(p: Pc, exclusive: bool) {
    if exclusive then p.AcqX? || p.AcqXLoop? || p.AcqXRead? || p.WaitX?
    else p.AcqS? || p.AcqSRead? || p.WaitS?
  }

  predicate Inside(p: Pc, exclusive: bool) {
    if exclusive then p.HeldX? || p.RelXRead? else p.HeldS? || p.RelSRead?
  }

  predicate Waking(p: Pc) {
    p.WakeOne? || p.WakeAll?
  }

  // From one place a thread gets only to these ones.
  predicate Follows(p: Pc, q: Pc, exclusive: bool) {
    && (Acquiring(p, exclusive) ==> Acquiring(q, exclusive) || q == (if exclusive then HeldX else HeldS))
    && (Inside(p, exclusive) ==> Inside(q, exclusive) || q == Idle || Waking(q))
    && (Waking(p) ==> q == Idle || Waking(q))
    && (p == Idle ==> q == Idle)
  }

  // A step leads from the way into the lock on to this way or inside, in the same mode, from inside out, and
  // moves no other thread.
  lemma StepFollows(c: Conc, t: Tid, u: Tid, exclusive: bool)
    ensures var c' := Step(c, Go(t));
            if u == t then Follows(c.PcOf(t), c'.PcOf(t), exclusive) else c'.PcOf(u) == c.PcOf(u)
  {
    if u == t {
      OwnStep(c, t, exclusive);
    } else {
      OthersStay(c, t, u);
    }
  }

  lemma OwnStep(c: Conc, t: Tid, exclusive: bool)
    ensures Follows(c.PcOf(t), Step(c, Go(t)).PcOf(t), exclusive)
  {
    hide QueueExclusive, QueueSharedBehindOwner, QueueSharedBehindSharers, HandOff, HandOffLastShared, DropSharer;
  }

  lemma OthersStay(c: Conc, t: Tid, u: Tid)
    requires u != t
    ensures Step(c, Go(t)).PcOf(u) == c.PcOf(u)
  {
    hide QueueExclusive, QueueSharedBehindOwner, QueueSharedBehindSharers, HandOff, HandOffLastShared, DropSharer;
  }

  // The mode in the last request of t, which a thread makes only while it is idle.
  function Asked(es: seq<Event>, t: Tid): Option<bool> {
    if es == [] then None
    else
      var rest, e := es[..|es| - 1], es[|es| - 1];
      if e.Call? && e.t == t && Run(START, rest).PcOf(t) == Idle then Some(e.exclusive) else Asked(rest, t)
  }

  lemma RunLast(es: seq<Event>)
    requires es != []
    ensures Run(START, es) == Step(Run(START, es[..|es| - 1]), es[|es| - 1])
  {
    var rest, e := es[..|es| - 1], es[|es| - 1];
    assert es == rest + [e];
    RunJoins(START, rest, [e]);
    assert Run(Run(START, rest), [e]) == Run(Step(Run(START, rest), e), []);
  }

  // After every run, whoever is on the way or inside has asked for that mode, and whoever has asked for nothing
  // is idle.
  lemma {:induction false} ModeAsked(es: seq<Event>, t: Tid, exclusive: bool)
    ensures var p := Run(START, es).PcOf(t);
            && (Acquiring(p, exclusive) || Inside(p, exclusive) ==> Asked(es, t) == Some(exclusive))
            && (Asked(es, t) == None ==> p == Idle)
    decreases es
  {
    hide GoStep;
    if es != [] {
      var rest, e := es[..|es| - 1], es[|es| - 1];
      RunLast(es);
      ModeAsked(rest, t, exclusive);
      if e.Go? {
        StepFollows(Run(START, rest), e.t, t, exclusive);
        StepFollows(Run(START, rest), e.t, t, !exclusive);
      }
    }
  }

  // A thread that has asked for the lock exclusively and is inside is the only one inside.
  lemma ExclusiveIsAlone(es: seq<Event>, t: Tid, u: Tid)
    requires Asked(es, t) == Some(true) && t != u
    ensures var c := Run(START, es);
            Inside(c.PcOf(t), true) || Inside(c.PcOf(t), false) ==>
              !Inside(c.PcOf(u), true) && !Inside(c.PcOf(u), false)
  {
    hide Asked, Run;
    ModeAsked(es, t, false);
    MutualExclusion(es, t, u);
  }

  lemma RunFirst(c: Conc, e: Event, es: seq<Event>)
    ensures Run(c, [e] + es) == Run(Step(c, e), es)
  {
    assert ([e] + es)[1..] == es;
  }

  // A request of an idle thread of a free or simply shared lock is granted in two steps.
  lemma SharedAtOnce(c: Conc, t: Tid, es: seq<Event>) returns (c': Conc)
    requires c.PcOf(t) == Idle && !c.mem.word.contended && (c.mem.word.shared || !c.mem.word.owned)
    ensures Run(c, [Call(t, false), Go(t), Go(t)] + es) == Run(c', es)
    ensures c'.PcOf(t) == HeldS && forall u: Tid | u != t :: c'.PcOf(u) == c.PcOf(u)
    ensures !c'.mem.word.contended && c'.mem.word.shared
  {
    var c1 := Step(c, Call(t, false));
    var c2 := Step(c1, Go(t));
    c' := Step(c2, Go(t));
    RunFirst(c2, Go(t), es);
    RunFirst(c1, Go(t), [Go(t)] + es);
    RunFirst(c, Call(t, false), [Go(t)] + ([Go(t)] + es));
    assert [Call(t, false), Go(t), Go(t)] + es == [Call(t, false)] + ([Go(t)] + ([Go(t)] + es));
  }

  // So is an exclusive request of a free lock.
  lemma ExclusiveAtOnce(c: Conc, t: Tid, es: seq<Event>) returns (c': Conc)
    requires c.PcOf(t) == Idle && !c.mem.word.owned
    ensures Run(c, [Call(t, true), Go(t)] + es) == Run(c', es)
    ensures c'.PcOf(t) == HeldX && forall u: Tid | u != t :: c'.PcOf(u) == c.PcOf(u)
    ensures c'.mem.word == c.mem.word.(owned := true)
  {
    var c1 := Step(c, Call(t, true));
    c' := Step(c1, Go(t));
    RunFirst(c1, Go(t), es);
    RunFirst(c, Call(t, true), [Go(t)] + es);
    assert [Call(t, true), Go(t)] + es == [Call(t, true)] + ([Go(t)] + es);
  }

  // Without waiters, a lock is given back in two steps: it is free again, or has one sharer less.
  lemma ReleasedAtOnce(c: Conc, t: Tid, es: seq<Event>) returns (c': Conc)
    requires var w := c.mem.word;
             && !w.contended && w.owned
             && (if w.shared then c.PcOf(t) == HeldS && w.high > 0 else c.PcOf(t) == HeldX)
    ensures Run(c, [Go(t), Go(t)] + es) == Run(c', es)
    ensures c'.PcOf(t) == Idle && forall u: Tid | u != t :: c'.PcOf(u) == c.PcOf(u)
    ensures var w := c'.mem.word;
            && !w.contended
            && if c.mem.word.shared && c.mem.word.high > 1
               then w.owned && w.shared && w.high == c.mem.word.high - 1 else !w.owned && !w.shared && w.high == 0
  {
    var c1 := Step(c, Go(t));
    c' := Step(c1, Go(t));
    RunFirst(c1, Go(t), es);
    RunFirst(c, Go(t), [Go(t)] + es);
    assert [Go(t), Go(t)] + es == [Go(t)] + ([Go(t)] + es);
  }

  // Sharers do not exclude each other.
  lemma SharersMeet(t: Tid, u: Tid)
    requires t != u
    ensures var c := Run(START, [Call(t, false), Go(t), Go(t)] + [Call(u, false), Go(u), Go(u)]);
            c.PcOf(t) == HeldS && c.PcOf(u) == HeldS
  {
    hide Run, Step;
    var es := [Call(u, false), Go(u), Go(u)];
    var c := SharedAtOnce(START, t, es);
    var d := SharedAtOnce(c, u, []);
    assert es + [] == es;
    RunNothing(d);
  }

  lemma RunNothing(c: Conc)
    ensures Run(c, []) == c
  {
  }

  // Whoever was on the way into the lock and is idle in the end has been inside in between.
  lemma {:induction false} WasInside(c: Conc, es: seq<Event>, t: Tid, exclusive: bool) returns (k: nat)
    requires Acquiring(c.PcOf(t), exclusive) && Run(c, es).PcOf(t) == Idle
    ensures k <= |es| && Run(c, es[..k]).PcOf(t) == if exclusive then HeldX else HeldS
    decreases es
  {
    hide GoStep;
    var c' := Step(c, es[0]);
    if es[0].Go? {
      StepFollows(c, es[0].t, t, exclusive);
    }
    if Acquiring(c'.PcOf(t), exclusive) {
      var j := WasInside(c', es[1..], t, exclusive);
      k := j + 1;
      assert es[..k][1..] == es[1..][..j];
    } else {
      k := 1;
      assert es[..1][1..] == [];
    }
  }

  // In a fair run without new requests every request leads inside, in the mode that was asked for.
  lemma FairRunsGrant(es: seq<Event>, rs: seq<seq<Event>>, t: Tid, exclusive: bool) returns (k: nat)
    requires var s := Reached(es); FairRounds(s, rs) && |rs| >= Measure(s)
    requires Acquiring(Run(START, es).PcOf(t), exclusive)
    ensures k <= |Joined(rs)| && Asked(es, t) == Some(exclusive)
    ensures Run(START, es + Joined(rs)[..k]).PcOf(t) == if exclusive then HeldX else HeldS
  {
    hide Inv, FairRounds, Measure, Joined, Asked, Run;
    FairRunsServe(es, rs);
    ModeAsked(es, t, exclusive);
    var fs := Joined(rs);
    RunJoins(START, es, fs);
    k := WasInside(Run(START, es), fs, t, exclusive);
    RunJoins(START, es, fs[..k]);
  }

  // And every request of an idle thread is one: after any run, the thread that asks is granted the lock in the
  // mode it asks for, in every such fair run.
  lemma RequestIsGranted(es: seq<Event>, t: Tid, exclusive: bool, rs: seq<seq<Event>>) returns (k: nat)
    requires Run(START, es).PcOf(t) == Idle
    requires var s := Reached(es + [Call(t, exclusive)]); FairRounds(s, rs) && |rs| >= Measure(s)
    ensures k <= |Joined(rs)|
    ensures Run(START, es + [Call(t, exclusive)] + Joined(rs)[..k]).PcOf(t) == if exclusive then HeldX else HeldS
  {
    hide Inv, FairRounds, Measure, Joined, Asked, Run;
    var asked := es + [Call(t, exclusive)];
    RunLast(asked);
    assert asked[..|es|] == es;
    k := FairRunsGrant(asked, rs, t, exclusive);
  }
}
