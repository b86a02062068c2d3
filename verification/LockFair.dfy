/**
 Every fair run without new requests serves everybody: it need not be chosen.  A step that does not make the
 measure smaller leaves the lock alone, so a thread that is about to get further stays so whatever the others
 do, and three turns of its own are enough.
 */
module LockFair {
  import opened LockMachine
  import opened LockInvariant
  import opened LockSteps
  import opened LockSafety
  import opened LockProgress
  import opened LockDrain

  // ------------------------------------------------------------- steps that do not get further

  // Nothing but the place of thread t changes.
  ghost predicate OnlyMoves(s: State, t: Tid) {
    var s' := StepS(s, Go(t));
    s'.a == s.a && s'.c.mem == s.c.mem && forall u: Tid | u != t :: s'.c.PcOf(u) == s.c.PcOf(u)
  }

  lemma AcqSMoves(s: State, t: Tid)
    requires Inv(s) && s.c.PcOf(t).AcqSRead? && Delta(s, t) >= 0
    ensures OnlyMoves(s, t)
  {
    WordFacts(s);
    assert ThreadOk(s.c, s.a, t);
    var me := s.c.PcOf(t).me;
    NewcomerCounts(s.a, t, me, false, 0);
    if s.a.queue != [] {
      NewcomerCounts(s.a, t, me, false, |s.a.queue| - 1);
    }
  }

  lemma AcqXMoves(s: State, t: Tid)
    requires Inv(s) && s.c.PcOf(t).AcqXRead? && Delta(s, t) >= 0
    ensures OnlyMoves(s, t)
  {
    WordFacts(s);
    assert ThreadOk(s.c, s.a, t);
    NewcomerCounts(s.a, t, s.c.PcOf(t).me, true, 0);
  }

  lemma RelMoves(s: State, t: Tid)
    requires Inv(s) && (s.c.PcOf(t).RelSRead? || s.c.PcOf(t).RelXRead?) && Delta(s, t) >= 0
    ensures OnlyMoves(s, t)
  {
    RelDelta(s, t);
    WordFacts(s);
  }

  lemma RestMoves(s: State, t: Tid)
    requires Inv(s) && Delta(s, t) >= 0
    requires var p := s.c.PcOf(t);
             !p.AcqSRead? && !p.AcqXRead? && !p.RelSRead? && !p.RelXRead? && !p.WakeOne? && !p.WakeAll?
    ensures OnlyMoves(s, t)
  {
    RestDelta(s, t);
  }

  lemma Moves(s: State, t: Tid)
    requires Inv(s) && Measure(StepS(s, Go(t))) >= Measure(s)
    ensures OnlyMoves(s, t)
  {
    hide Inv, Measure, Delta, OnlyMoves, StepS;
    MeasureAfter(s, t);
    var p := s.c.PcOf(t);
    if p.AcqSRead? {
      AcqSMoves(s, t);
    } else if p.AcqXRead? {
      AcqXMoves(s, t);
    } else if p.RelSRead? || p.RelXRead? {
      RelMoves(s, t);
    } else if p.WakeOne? || p.WakeAll? {
      WakeDelta(s, t);
    } else {
      RestMoves(s, t);
    }
  }

  // Whoever is about to get further is so after such a step of another thread.
  lemma StillHelps(s: State, t: Tid, u: Tid)
    requires Inv(s) && Helps(s, t) && u != t && OnlyMoves(s, u)
    ensures var s' := StepS(s, Go(u)); Helps(s', t) && Distance(s', t) == Distance(s, t)
  {
    hide Inv, StepS;
  }

  // ------------------------------------------------------------------------------- fair rounds

  function Turns(es: seq<Event>, t: Tid): nat {
    if es == [] then 0 else (if es[0] == Go(t) then 1 else 0) + Turns(es[1..], t)
  }

  lemma FirstStep(s: State, es: seq<Event>) returns (u: Tid)
    requires es != [] && NoCalls(es)
    ensures es[0] == Go(u) && RunS(s, es) == RunS(StepS(s, Go(u)), es[1..]) && NoCalls(es[1..])
  {
    assert es[0] in es;
    u := es[0].t;
    assert es[0] == Go(u);
    assert forall e | e in es[1..] :: e in es;
  }

  lemma {:induction false} RunDoesNotGrow(s: State, es: seq<Event>)
    requires Inv(s) && NoCalls(es)
    ensures Inv(RunS(s, es)) && Measure(RunS(s, es)) <= Measure(s)
    decreases es
  {
    hide Inv, Measure, StepS;
    if es != [] {
      var u := FirstStep(s, es);
      var s' := OneStepKeeps(s, u);
      RunDoesNotGrow(s', es[1..]);
    }
  }

  // A run in which a helping thread has enough turns gets further, whatever else happens in it.
  lemma {:induction false} TurnsHelp(s: State, es: seq<Event>, t: Tid)
    requires Inv(s) && NoCalls(es) && Helps(s, t) && Turns(es, t) > Distance(s, t)
    ensures Inv(RunS(s, es)) && Measure(RunS(s, es)) < Measure(s)
    decreases es
  {
    hide Inv, Measure, StepS, Helps, Distance, OnlyMoves, Gains;
    var u := FirstStep(s, es);
    var s' := OneStepKeeps(s, u);
    if Measure(s') < Measure(s) {
      RunDoesNotGrow(s', es[1..]);
    } else {
      Moves(s, u);
      if u == t {
        HelpsSteps(s, t);
      } else {
        StillHelps(s, t, u);
      }
      TurnsHelp(s', es[1..], t);
    }
  }

  // A run without new requests in which every thread that is active at its start has three turns.
  ghost predicate FairRound(s: State, es: seq<Event>) {
    NoCalls(es) && forall t: Tid | s.c.PcOf(t) != Idle :: Turns(es, t) >= 3
  }

  ghost predicate FairRounds(s: State, rs: seq<seq<Event>>)
    decreases |rs|
  {
    rs != [] ==> FairRound(s, rs[0]) && FairRounds(RunS(s, rs[0]), rs[1..])
  }

  function Joined(rs: seq<seq<Event>>): seq<Event> {
    if rs == [] then [] else rs[0] + Joined(rs[1..])
  }

  lemma FairRoundHelps(s: State, es: seq<Event>)
    requires Inv(s) && FairRound(s, es)
    ensures Inv(RunS(s, es)) && Measure(RunS(s, es)) <= Measure(s)
    ensures !Quiet(s) ==> Measure(RunS(s, es)) < Measure(s)
  {
    hide Inv, Measure, RunS;
    RunDoesNotGrow(s, es);
    if !Quiet(s) {
      SomebodyHelps(s);
      var t :| Helps(s, t);
      HelpsSteps(s, t);
      TurnsHelp(s, es, t);
    }
  }

  lemma {:induction false} QuietStays(s: State, es: seq<Event>)
    requires Quiet(s) && NoCalls(es)
    ensures RunS(s, es) == s
    decreases es
  {
    if es != [] {
      var u := FirstStep(s, es);
      assert s.c.PcOf(u) == Idle;
      QuietStays(s, es[1..]);
    }
  }

  lemma NothingLeft(s: State)
    requires Inv(s) && Measure(s) == 0
    ensures Quiet(s)
  {
    hide Inv;
    if !Quiet(s) {
      SomebodyHelps(s);
      var t :| Helps(s, t);
      HelpsSolo(s, t);
    }
  }

  lemma {:induction false} FairRoundsDrain(s: State, rs: seq<seq<Event>>)
    requires Inv(s) && FairRounds(s, rs) && (Quiet(s) || |rs| >= Measure(s))
    ensures Quiet(RunS(s, Joined(rs))) && NoCalls(Joined(rs))
    decreases |rs|
  {
    hide Inv, Measure, Quiet;
    if rs == [] {
      if !Quiet(s) {
        NothingLeft(s);
      }
    } else {
      var s' := RunS(s, rs[0]);
      FairRoundHelps(s, rs[0]);
      if Quiet(s) {
        QuietStays(s, rs[0]);
      }
      FairRoundsDrain(s', rs[1..]);
      RunSJoins(s, rs[0], Joined(rs[1..]));
    }
  }

  // After any run, a run without new requests in which every active thread has its turns over and over again, as
  // often as the measure says, leaves nobody behind: every thread is idle, and whoever was waiting has been served.
  lemma FairRunsServe(es: seq<Event>, rs: seq<seq<Event>>)
    requires var s := Reached(es); FairRounds(s, rs) && |rs| >= Measure(s)
    ensures NoCalls(Joined(rs)) && forall t: Tid :: Run(START, es + Joined(rs)).PcOf(t) == Idle
    ensures var s := Reached(es);
            forall t: Tid | Spinning(s.c.PcOf(t)) :: Granted(RunS(s, Joined(rs)).a, s.c.PcOf(t).me)
  {
    hide Inv, Measure, FairRounds, Joined, WaitsFor;
    var s := Reached(es);
    var fs := Joined(rs);
    FairRoundsDrain(s, rs);
    RunKeeps(s, fs);
    RunJoins(START, es, fs);
    forall t: Tid | Spinning(s.c.PcOf(t)) ensures Granted(RunS(s, fs).a, s.c.PcOf(t).me) {
      StillWaiting(s, fs, t);
    }
  }

  lemma StillWaiting(s: State, fs: seq<Event>, t: Tid)
    requires Inv(s) && Spinning(s.c.PcOf(t)) && Quiet(RunS(s, fs))
    ensures Granted(RunS(s, fs).a, s.c.PcOf(t).me)
  {
    hide Inv, RunS;
    WaitsUntilServed(s, fs, t);
  }
}
