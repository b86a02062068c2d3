/**
 The lock never gets stuck.  A measure on the threads, the queue and the pending wakes never grows
 while no new request comes in, and in every reachable state with an active thread some thread
 makes it smaller with at most three steps of its own; so from every reachable state there is a
 run that serves every queued thread and brings everybody home.
 */
module LockDrain {
  import opened LockMemory
  import opened LockMachine
  import opened LockInvariant
  import opened LockSteps
  import opened LockSafety
  import opened LockProgress

  ghost function Total(f: map<Tid, nat>): nat {
    if f == map[] then 0
    else
      var t :| t in f;
      f[t] + Total(f - {t})
  }

  lemma {:induction false} TotalWithout(f: map<Tid, nat>, t: Tid)
    requires t in f
    ensures Total(f) == f[t] + Total(f - {t})
    decreases |f|
  {
    var u :| u in f && Total(f) == f[u] + Total(f - {u});
    if u != t {
      TotalWithout(f - {u}, t);
      TotalWithout(f - {t}, u);
      assert f - {u} - {t} == f - {t} - {u};
    }
  }

  lemma TotalPut(f: map<Tid, nat>, t: Tid, v: nat)
    ensures Total(f[t := v]) == Total(f) - (if t in f then f[t] else 0) + v
  {
    TotalWithout(f[t := v], t);
    assert f[t := v] - {t} == f - {t};
    if t in f {
      TotalWithout(f, t);
    } else {
      assert f - {t} == f;
    }
  }

  // How far a thread is from being idle.
  function Rank(s: State, t: Tid): nat {
    match s.c.PcOf(t)
    case Idle => 0
    case HeldS => 1
    case HeldX => 1
    case RelSRead(_) => 1
    case RelXRead(_) => 1
    case WaitS(_, _, _) => 2
    case WaitX(_, _) => 2
    case WakeOne(_) => if t in s.a.todo then |s.a.todo[t]| else 0
    case WakeAll(_) => if t in s.a.todo then |s.a.todo[t]| else 0
    case _ => 5
  }

  function Queued(q: seq<Entry>): nat {
    if q == [] then 0 else |q[0].members| + Queued(q[1..])
  }

  lemma {:induction false} QueuedPlus(q: seq<Entry>, e: Entry)
    ensures Queued(q + [e]) == Queued(q) + |e.members|
  {
    if q == [] {
      assert (q + [e])[1..] == [];
    } else {
      assert (q + [e])[1..] == q[1..] + [e];
      QueuedPlus(q[1..], e);
    }
  }

  lemma {:induction false} QueuedPut(q: seq<Entry>, i: nat, e: Entry)
    requires i < |q|
    ensures Queued(q[i := e]) == Queued(q) - |q[i].members| + |e.members|
  {
    if i == 0 {
      assert q[0 := e][1..] == q[1..];
    } else {
      assert q[i := e][1..] == q[1..][i - 1 := e];
      QueuedPut(q[1..], i - 1, e);
    }
  }

  ghost function Ranks(s: State): map<Tid, nat> {
    map t | t in s.c.pcs :: Rank(s, t)
  }

  ghost function Measure(s: State): nat {
    Total(Ranks(s)) + 2 * Queued(s.a.queue)
  }

  // Only the moving thread changes its program counter and its list of nodes to wake.
  lemma PcsAfter(c: Conc, t: Tid)
    ensures var c' := GoStep(c, t); c'.pcs == c.pcs || c'.pcs == c.pcs[t := c'.PcOf(t)]
  {
  }

  lemma TodoAfter(s: State, t: Tid, u: Tid)
    requires u != t
    ensures var a' := StepS(s, Go(t)).a;
            (u in a'.todo <==> u in s.a.todo) && (u in a'.todo ==> a'.todo[u] == s.a.todo[u])
  {
    hide Step;
  }

  ghost function Delta(s: State, t: Tid): int {
    var s' := StepS(s, Go(t));
    Rank(s', t) - Rank(s, t) + 2 * (Queued(s'.a.queue) - Queued(s.a.queue))
  }

  lemma MeasureAfter(s: State, t: Tid)
    requires Inv(s)
    ensures Measure(StepS(s, Go(t))) == Measure(s) + Delta(s, t)
  {
    var s' := StepS(s, Go(t));
    var f := Ranks(s);
    PcsAfter(s.c, t);
    forall u: Tid | u != t ensures Rank(s', u) == Rank(s, u) {
      TodoAfter(s, t, u);
    }
    if s.c.PcOf(t) == Idle {
      assert s' == s;
    } else {
      assert t in s.c.pcs;
      assert Ranks(s') == f[t := Rank(s', t)];
      TotalPut(f, t, Rank(s', t));
    }
  }

  lemma NewcomerCounts(a: Abs, t: Tid, n: Addr, x: bool, i: nat)
    ensures Queued(AddEntry(a, t, n, x).queue) == Queued(a.queue) + 1
    ensures Queued(JoinEntry(a, i, t, n).queue) == Queued(a.queue) + if i < |a.queue| then 1 else 0
  {
    QueuedPlus(a.queue, Entry(x, [Member(t, n)]));
    if i < |a.queue| {
      QueuedPut(a.queue, i, a.queue[i].(members := a.queue[i].members + [Member(t, n)]));
    }
  }

  lemma AcqSDelta(s: State, t: Tid)
    requires Inv(s) && s.c.PcOf(t).AcqSRead?
    ensures Delta(s, t) <= 0
    ensures s.c.PcOf(t).cv == s.c.mem.word ==> Delta(s, t) < 0
  {
    WordFacts(s);
    assert ThreadOk(s.c, s.a, t);
    var me := s.c.PcOf(t).me;
    NewcomerCounts(s.a, t, me, false, 0);
    if s.a.queue != [] {
      NewcomerCounts(s.a, t, me, false, |s.a.queue| - 1);
    }
  }

  lemma AcqXDelta(s: State, t: Tid)
    requires Inv(s) && s.c.PcOf(t).AcqXRead?
    ensures Delta(s, t) <= 0
    ensures s.c.PcOf(t).cv == s.c.mem.word ==> Delta(s, t) < 0
  {
    WordFacts(s);
    assert ThreadOk(s.c, s.a, t);
    NewcomerCounts(s.a, t, s.c.PcOf(t).me, true, 0);
  }

  lemma RelDelta(s: State, t: Tid)
    requires Inv(s) && (s.c.PcOf(t).RelSRead? || s.c.PcOf(t).RelXRead?)
    ensures Delta(s, t) <= 0
    ensures s.c.PcOf(t).cv == s.c.mem.word || s.c.PcOf(t).cv.contended ==> Delta(s, t) < 0
  {
    WordFacts(s);
    assert ThreadOk(s.c, s.a, t);
    if s.a.queue != [] {
      assert EntryOk(s.c.mem, s.a.queue, 0);
    }
  }

  lemma WakeDelta(s: State, t: Tid)
    requires Inv(s) && (s.c.PcOf(t).WakeOne? || s.c.PcOf(t).WakeAll?)
    ensures Delta(s, t) < 0
  {
    assert ThreadOk(s.c, s.a, t);
    if s.c.PcOf(t).WakeAll? {
      var ns := s.a.todo[t];
      assert LinkOk(s.c, s.a, ns, 0);
      if |ns| > 1 {
        assert LinkOk(s.c, s.a, ns, 1);
      }
    }
  }

  lemma RestDelta(s: State, t: Tid)
    requires Inv(s)
    requires var p := s.c.PcOf(t);
             !p.AcqSRead? && !p.AcqXRead? && !p.RelSRead? && !p.RelXRead? && !p.WakeOne? && !p.WakeAll?
    ensures Delta(s, t) <= 0
    ensures Spinning(s.c.PcOf(t)) && !Spinning(StepS(s, Go(t)).c.PcOf(t)) ==> Delta(s, t) < 0
    ensures s.c.PcOf(t).AcqX? && !s.c.mem.word.owned ==> Delta(s, t) < 0
  {
    WordFacts(s);
    assert ThreadOk(s.c, s.a, t);
  }

  // A step that is not a fresh request never makes the measure larger, and a step of a waker, a
  // successful attempt on a fresh word and leaving a spin loop make it smaller.
  lemma NeverIncreases(s: State, t: Tid)
    requires Inv(s)
    ensures Measure(StepS(s, Go(t))) <= Measure(s)
    ensures Gains(s, t) ==> Measure(StepS(s, Go(t))) < Measure(s)
  {
    MeasureAfter(s, t);
    var p := s.c.PcOf(t);
    if p.AcqSRead? {
      AcqSDelta(s, t);
    } else if p.AcqXRead? {
      AcqXDelta(s, t);
    } else if p.RelSRead? || p.RelXRead? {
      RelDelta(s, t);
    } else if p.WakeOne? || p.WakeAll? {
      WakeDelta(s, t);
    } else {
      RestDelta(s, t);
    }
  }

  predicate Gains(s: State, t: Tid) {
    var p := s.c.PcOf(t);
    || p.WakeOne? || p.WakeAll?
    || ((p.AcqSRead? || p.AcqXRead? || p.RelSRead? || p.RelXRead?) && p.cv == s.c.mem.word)
    || ((p.RelSRead? || p.RelXRead?) && p.cv.contended)
    || (p.AcqX? && !s.c.mem.word.owned)
    || (Spinning(p) && !Spinning(StepS(s, Go(t)).c.PcOf(t)))
  }

  // ------------------------------------------------------------------------- somebody gets further

  function Repeat(t: Tid, k: nat): seq<Event> {
    if k == 0 then [] else [Go(t)] + Repeat(t, k - 1)
  }

  lemma SoloStep(s: State, t: Tid, k: nat)
    ensures RunS(s, Repeat(t, k)) == if k == 0 then s else RunS(StepS(s, Go(t)), Repeat(t, k - 1))
  {
    if k > 0 {
      assert Repeat(t, k)[1..] == Repeat(t, k - 1);
    }
  }

  lemma OneStepKeeps(s: State, t: Tid) returns (s': State)
    requires Inv(s)
    ensures s' == StepS(s, Go(t)) && Inv(s') && Measure(s') <= Measure(s)
    ensures Gains(s, t) ==> Measure(s') < Measure(s)
  {
    s' := StepS(s, Go(t));
    StepKeeps(s, Go(t));
    NeverIncreases(s, t);
  }

  lemma SoloNext(s: State, t: Tid, k: nat) returns (s': State)
    requires Inv(s) && k > 0
    ensures Inv(s') && Measure(s') <= Measure(s)
    ensures RunS(s, Repeat(t, k)) == RunS(s', Repeat(t, k - 1))
  {
    SoloStep(s, t, k);
    s' := OneStepKeeps(s, t);
  }

  lemma {:induction false} SoloKeeps(s: State, t: Tid, k: nat)
    requires Inv(s)
    ensures Inv(RunS(s, Repeat(t, k))) && Measure(RunS(s, Repeat(t, k))) <= Measure(s)
    decreases k
  {
    if k == 0 {
      SoloStep(s, t, k);
    } else {
      var s' := SoloNext(s, t, k);
      SoloKeeps(s', t, k - 1);
    }
  }

  // After at most three steps of its own, a thread in one of these places has got further.
  ghost predicate Helps(s: State, t: Tid) {
    var p := s.c.PcOf(t);
    || p.WakeOne? || p.WakeAll?
    || p.HeldS? || p.HeldX? || p.RelSRead? || p.RelXRead?
    || (Spinning(p) && Granted(s.a, p.me)
        && (if p.WaitX? then s.c.mem.BlockAt(p.me).wake else s.c.mem.NodeAt(p.me).wake))
    || (s.c.mem.word == FREE && (p.AcqS? || p.AcqSRead? || p.AcqX? || p.AcqXLoop? || p.AcqXRead?))
  }

  // The number of steps to the next gain.
  function Distance(s: State, t: Tid): nat {
    match s.c.PcOf(t)
    case HeldS => 1
    case HeldX => 1
    case RelSRead(cv) => if cv == s.c.mem.word || cv.contended then 0 else 2
    case RelXRead(cv) => if cv == s.c.mem.word || cv.contended then 0 else 2
    case WaitS(_, firstWait, seen) => if firstWait || seen || !s.c.mem.word.contended then 0 else 1
    case WaitX(_, seen) => if seen || !s.c.mem.word.contended then 0 else 1
    case AcqS(_) => 1
    case AcqSRead(_, cv) => if cv == s.c.mem.word then 0 else 2
    case AcqXLoop(_) => 1
    case AcqXRead(_, cv) => if cv == s.c.mem.word then 0 else 2
    case _ => 0
  }

  lemma HelpsSteps(s: State, t: Tid)
    requires Inv(s) && Helps(s, t)
    ensures Distance(s, t) <= 2
    ensures Distance(s, t) == 0 ==> Gains(s, t)
    ensures Distance(s, t) > 0 ==>
              var s' := StepS(s, Go(t)); Helps(s', t) && Distance(s', t) < Distance(s, t)
  {
    WordFacts(s);
    assert ThreadOk(s.c, s.a, t);
  }

  lemma {:induction false} HelpsSolo(s: State, t: Tid)
    requires Inv(s) && Helps(s, t)
    ensures Inv(RunS(s, Repeat(t, Distance(s, t) + 1)))
    ensures Measure(RunS(s, Repeat(t, Distance(s, t) + 1))) < Measure(s)
    decreases Distance(s, t)
  {
    hide Inv, Measure, StepS, Helps;
    var d := Distance(s, t);
    HelpsSteps(s, t);
    SoloStep(s, t, d + 1);
    var s' := OneStepKeeps(s, t);
    if d > 0 {
      HelpsSolo(s', t);
      MoreSolo(s', t, Distance(s', t) + 1, d);
    } else {
      SoloStep(s', t, 0);
    }
  }

  // Going on alone for longer does not lose what was gained.
  lemma {:induction false} MoreSolo(s: State, t: Tid, k: nat, d: nat)
    requires Inv(s) && k <= d
    ensures Inv(RunS(s, Repeat(t, d)))
    ensures Measure(RunS(s, Repeat(t, d))) <= Measure(RunS(s, Repeat(t, k)))
    decreases k
  {
    if k == 0 {
      SoloKeeps(s, t, d);
      SoloStep(s, t, 0);
    } else {
      var s' := OneStepKeeps(s, t);
      MoreSolo(s', t, k - 1, d - 1);
      SoloStep(s, t, d);
      SoloStep(s, t, k);
    }
  }

  ghost predicate Quiet(s: State) {
    forall t: Tid :: s.c.PcOf(t) == Idle
  }

  // Unless everybody is idle, somebody helps.
  lemma SomebodyHelps(s: State)
    requires Inv(s) && !Quiet(s)
    ensures exists t :: Helps(s, t)
  {
    WordFacts(s);
    if t: Tid :| s.c.PcOf(t).WakeOne? || s.c.PcOf(t).WakeAll? {
      assert Helps(s, t);
    } else {
      forall u: Tid ensures u !in s.a.todo {
        assert ThreadOk(s.c, s.a, u);
      }
      if s.a.owner.Some? || s.a.holders != {} {
        var t :| t in s.a.holders || s.a.owner == Some(t);
        assert ThreadOk(s.c, s.a, t);
        assert Helps(s, t);
      } else {
        var t :| s.c.PcOf(t) != Idle;
        assert ThreadOk(s.c, s.a, t);
        assert Helps(s, t);
      }
    }
  }

  predicate NoCalls(es: seq<Event>) {
    forall e | e in es :: e.Go?
  }

  lemma {:induction false} RunSJoins(s: State, es: seq<Event>, fs: seq<Event>)
    ensures RunS(s, es + fs) == RunS(RunS(s, es), fs)
    decreases es
  {
    if es == [] {
      assert es + fs == fs;
    } else {
      assert (es + fs)[1..] == es[1..] + fs;
      RunSJoins(StepS(s, es[0]), es[1..], fs);
    }
  }

  lemma {:induction false} DrainsFrom(s: State) returns (es: seq<Event>)
    requires Inv(s)
    ensures NoCalls(es) && Inv(RunS(s, es)) && Quiet(RunS(s, es))
    decreases Measure(s)
  {
    if Quiet(s) {
      es := [];
    } else {
      SomebodyHelps(s);
      var t :| Helps(s, t);
      var k := Distance(s, t) + 1;
      HelpsSolo(s, t);
      var fs := DrainsFrom(RunS(s, Repeat(t, k)));
      RunSJoins(s, Repeat(t, k), fs);
      OnlySteps(t, k);
      es := Repeat(t, k) + fs;
    }
  }

  lemma {:induction false} OnlySteps(t: Tid, k: nat)
    ensures NoCalls(Repeat(t, k))
  {
    if k > 0 {
      OnlySteps(t, k - 1);
    }
  }

  // From every reachable state the threads can finish without outside help, and every thread that
  // was waiting has then been served.
  lemma EverybodyIsServed(es: seq<Event>) returns (fs: seq<Event>)
    ensures NoCalls(fs)
    ensures forall t: Tid :: Run(START, es + fs).PcOf(t) == Idle
    ensures var s := Reached(es);
            forall t: Tid | Spinning(s.c.PcOf(t)) :: Granted(RunS(s, fs).a, s.c.PcOf(t).me)
  {
    var s := Reached(es);
    fs := DrainsFrom(s);
    RunKeeps(s, fs);
    RunJoins(START, es, fs);
    forall t: Tid | Spinning(s.c.PcOf(t)) ensures Granted(RunS(s, fs).a, s.c.PcOf(t).me) {
      WaitsUntilServed(s, fs, t);
    }
  }

  lemma {:induction false} RunJoins(c: Conc, es: seq<Event>, fs: seq<Event>)
    ensures Run(c, es + fs) == Run(Run(c, es), fs)
    decreases es
  {
    if es == [] {
      assert es + fs == fs;
    } else {
      assert (es + fs)[1..] == es[1..] + fs;
      RunJoins(Step(c, es[0]), es[1..], fs);
    }
  }
}
