/**
 The progress that is told to Total Commander while an archive is written (src/wcx_callback.cpp): the
 deltas that are passed on and the bytes that were processed.
 */
module Progress {
  import opened Bytes

  const INT_MAX := 0x7FFF_FFFF
  const TELL_SIZE_FACTOR := 0x3FFF_FFFF  // INT_MAX / 2, rounded down

  const CANCEL := 0
  const PROCESS := 1

  // m_prev_read_size, m_read_size and m_tell_size.
  datatype Counters = Counters(prevRead: nat, read: nat, told: nat)

  // A call of tell_process_data; late: more than half a second has passed since the last telling.
  datatype Call = Call(size: nat, forced: bool, late: bool)

  function Wrap(x: int): nat {
    x % UINT64_LIMIT
  }

  // The counters after a call, and the delta that is told, if any.
  function Tell(c: Counters, call: Call): (Counters, Option<int>) {
    var c1 := if call.size == 0 then Counters(Wrap(c.prevRead + c.read), 0, c.told) else c;
    var forced := call.forced || call.size == 0;
    var delta := Wrap(c1.prevRead + call.size - c1.told);
    if delta == 0 then (c1, None)
    else if forced || delta >= TELL_SIZE_FACTOR || call.late then
      (Counters(c1.prevRead, call.size, Wrap(c1.prevRead + call.size)),
       Some(if delta > INT_MAX then INT_MAX else delta))
    else (c1.(read := call.size), None)
  }

  // The order of calls that the callers keep: every file starts with 0, and then the size never goes back
  // and grows by at most one step.
  predicate InOrder(read: nat, call: Call) {
    call.size == 0 || read <= call.size <= read + TELL_SIZE_FACTOR
  }

  // ------------------------------------------------------------------------------------ whole runs

  datatype Log = Log(c: Counters, deltas: seq<int>)

  function Run(calls: seq<Call>): Log {
    if calls == [] then Log(Counters(0, 0, 0), [])
    else
      var l := Run(calls[..|calls| - 1]);
      var (c, d) := Tell(l.c, calls[|calls| - 1]);
      Log(c, if d.Some? then l.deltas + [d.value] else l.deltas)
  }

  // What the calls mean: the size in the last call of the current file, and the bytes of all files.
  function LastSize(calls: seq<Call>): nat {
    if calls == [] then 0 else calls[|calls| - 1].size
  }

  function Finished(calls: seq<Call>): nat {
    if calls == [] then 0
    else
      var rest := calls[..|calls| - 1];
      if calls[|calls| - 1].size == 0 then Finished(rest) + LastSize(rest) else Finished(rest)
  }

  function Processed(calls: seq<Call>): nat {
    Finished(calls) + LastSize(calls)
  }

  predicate AllInOrder(calls: seq<Call>) {
    calls != [] ==>
      var rest := calls[..|calls| - 1];
      AllInOrder(rest) && InOrder(LastSize(rest), calls[|calls| - 1])
  }

  function Sum(s: seq<int>): int {
    if s == [] then 0 else Sum(s[..|s| - 1]) + s[|s| - 1]
  }

  predicate Forced(calls: seq<Call>) {
    calls != [] && (calls[|calls| - 1].forced || calls[|calls| - 1].size == 0)
  }

  // All bytes processed so far fit into the counters.
  predicate Fits(calls: seq<Call>) {
    Processed(calls) < UINT64_LIMIT
  }

  lemma Growing(calls: seq<Call>)
    requires calls != [] && AllInOrder(calls)
    ensures Processed(calls[..|calls| - 1]) <= Processed(calls)
  {
  }

  // One call: nothing is clamped, less than a step stays untold, and nothing is told without need: only if there is
  // something to tell, and the call is forced or the first one of a file, half a second has passed, or it is a step.
  lemma OneCall(c: Counters, call: Call) returns (r: Counters, d: Option<int>)
    requires InOrder(c.read, call)
    requires c.told <= c.prevRead + c.read < c.told + TELL_SIZE_FACTOR
    requires c.prevRead + c.read < UINT64_LIMIT && (call.size != 0 ==> c.prevRead + call.size < UINT64_LIMIT)
    ensures (r, d) == Tell(c, call)
    ensures r.read == call.size && r.prevRead == if call.size == 0 then c.prevRead + c.read else c.prevRead
    ensures r.told <= r.prevRead + r.read < r.told + TELL_SIZE_FACTOR
    ensures r.told == c.told + if d.Some? then d.value else 0
    ensures var now := r.prevRead + r.read;
            && (d.Some? <==>
                  c.told < now && (call.forced || call.size == 0 || call.late || now - c.told >= 0x3FFF_FFFF))
            && (d.Some? ==> d.value == now - c.told < 0x7FFF_FFFF)
    ensures d.Some? ==> 0 < d.value
    ensures call.forced || call.size == 0 ==> r.told == r.prevRead + r.read
  {
    r, d := Tell(c, call).0, Tell(c, call).1;
  }

  lemma SumMore(s: seq<int>, x: int)
    ensures Sum(s + [x]) == Sum(s) + x
  {
    assert (s + [x])[..|s|] == s;
  }

  // Over every run that keeps the order: the deltas are exact and below the limit, they add up to what
  // was told, what was told falls short of the processed bytes by less than a step, and after a forced
  // call it is all of them.
  lemma {:induction false} DeltasAddUp(calls: seq<Call>)
    requires AllInOrder(calls) && Fits(calls)
    ensures var l := Run(calls);
            && l.c.prevRead == Finished(calls) && l.c.read == LastSize(calls)
            && Sum(l.deltas) == l.c.told
            && l.c.told <= Processed(calls) < l.c.told + 0x3FFF_FFFF
            && (forall i | 0 <= i < |l.deltas| :: 0 < l.deltas[i] < 0x7FFF_FFFF)
            && (Forced(calls) ==> Sum(l.deltas) == Processed(calls))
  {
    if calls != [] {
      var rest, call := calls[..|calls| - 1], calls[|calls| - 1];
      Growing(calls);
      DeltasAddUp(rest);
      var l := Run(rest);
      var r, d := OneCall(l.c, call);
      if d.Some? {
        SumMore(l.deltas, d.value);
      }
    }
  }

  // ---------------------------------------------------------------------------------- tell_skip_file

  // The loop counts s in 64 bits.  The number of steps until it comes to the size: F is a step, the inverse is
  // its inverse modulo 2^64, so the counter gets to every number before it gets to the same one again.
  const STEP_INVERSE := UINT64_LIMIT - (1 + 0x4000_0000 + 0x1000_0000_0000_0000)
  const LAST_STEP := UINT64_LIMIT - 16 // the last multiple of a step

  function StepsLeft(size: nat, s: nat): nat {
    ((size - s) * STEP_INVERSE) % UINT64_LIMIT
  }

  lemma ModShift(x: int, k: int)
    ensures (x + k * UINT64_LIMIT) % UINT64_LIMIT == x % UINT64_LIMIT
    decreases if k < 0 then -k else k
  {
    if k > 0 {
      ModShift(x, k - 1);
      assert x + k * UINT64_LIMIT == x + (k - 1) * UINT64_LIMIT + UINT64_LIMIT;
    } else if k < 0 {
      ModShift(x, k + 1);
      assert x + k * UINT64_LIMIT == x + (k + 1) * UINT64_LIMIT - UINT64_LIMIT;
    }
  }

  const STEP_QUOTIENT := TELL_SIZE_FACTOR * STEP_INVERSE / UINT64_LIMIT

  lemma InverseOfStep()
    ensures TELL_SIZE_FACTOR * STEP_INVERSE == 1 + STEP_QUOTIENT * UINT64_LIMIT
  {
  }

  // A number below 2^64 that is no zero is a whole number of steps, and not none.
  lemma SomeSteps(d: nat, f: nat, v: nat, q: nat)
    requires 0 < d < UINT64_LIMIT && f * v == 1 + q * UINT64_LIMIT
    ensures (d * v) % UINT64_LIMIT > 0
  {
    var x := d * v;
    var k, r := x / UINT64_LIMIT, x % UINT64_LIMIT;
    assert x * f == d * (1 + q * UINT64_LIMIT) by {
      assert x * f == d * (f * v);
    }
    assert x * f == k * f * UINT64_LIMIT + r * f by {
      assert x == k * UINT64_LIMIT + r;
    }
    assert d == r * f + (k * f - d * q) * UINT64_LIMIT;
    ModShift(r * f, k * f - d * q);
  }

  lemma ShiftedSteps(d: int, f: nat, v: nat, q: nat, c: int)
    requires f * v == 1 + q * UINT64_LIMIT
    ensures ((d - f + c * UINT64_LIMIT) * v) % UINT64_LIMIT == (d * v - 1) % UINT64_LIMIT
  {
    assert (d - f + c * UINT64_LIMIT) * v == d * v - 1 + (c * v - q) * UINT64_LIMIT;
    ModShift(d * v - 1, c * v - q);
  }

  lemma OneStepLess(size: nat, s: nat)
    requires s < size < UINT64_LIMIT
    ensures StepsLeft(size, s) > 0 && StepsLeft(size, Wrap(s + TELL_SIZE_FACTOR)) == StepsLeft(size, s) - 1
  {
    InverseOfStep();
    SomeSteps(size - s, TELL_SIZE_FACTOR, STEP_INVERSE, STEP_QUOTIENT);
    var c := if s + TELL_SIZE_FACTOR >= UINT64_LIMIT then 1 else 0;
    assert size - Wrap(s + TELL_SIZE_FACTOR) == size - s - TELL_SIZE_FACTOR + c * UINT64_LIMIT;
    ShiftedSteps(size - s, TELL_SIZE_FACTOR, STEP_INVERSE, STEP_QUOTIENT, c);
    OneLess((size - s) * STEP_INVERSE);
  }

  lemma OneLess(x: int)
    requires x % UINT64_LIMIT > 0
    ensures (x - 1) % UINT64_LIMIT == x % UINT64_LIMIT - 1
  {
  }

  // The calls for a file that is skipped, from the size s on.
  function SkipCalls(size: nat, s: nat, forced: bool, late: nat -> bool): (calls: seq<Call>)
    requires size < UINT64_LIMIT && s < UINT64_LIMIT
    ensures calls != []
    decreases if s < size then StepsLeft(size, s) + 1 else 0
  {
    if s >= size then [Call(size, forced, late(s))]
    else
      OneStepLess(size, s);
      [Call(s, forced, late(s))] + SkipCalls(size, Wrap(s + TELL_SIZE_FACTOR), forced, late)
  }

  lemma {:induction false} InOrderMore(calls: seq<Call>, c: Call)
    requires AllInOrder(calls) && InOrder(LastSize(calls), c)
    ensures AllInOrder(calls + [c]) && LastSize(calls + [c]) == c.size
    ensures Finished(calls + [c]) == Finished(calls) + if c.size == 0 then LastSize(calls) else 0
  {
    assert (calls + [c])[..|calls|] == calls;
  }

  lemma Associates<T>(a: seq<T>, b: seq<T>, c: seq<T>)
    ensures a + (b + c) == a + b + c
  {
  }

  lemma SkipFirst(calls: seq<Call>, more: seq<Call>, goal: seq<Call>, size: nat, s: nat, forced: bool,
                  late: nat -> bool)
    returns (c: Call, rest: seq<Call>)
    requires size < UINT64_LIMIT && s < UINT64_LIMIT
    requires more == SkipCalls(size, s, forced, late) && goal == calls + more
    ensures c == Call(if s < size then s else size, forced, late(s))
    ensures s >= size ==> rest == []
    ensures s < size ==> rest == SkipCalls(size, Wrap(s + TELL_SIZE_FACTOR), forced, late)
    ensures goal == calls + [c] + rest
  {
    c := Call(if s < size then s else size, forced, late(s));
    rest := if s >= size then [] else SkipCalls(size, Wrap(s + TELL_SIZE_FACTOR), forced, late);
    Associates(calls, [c], rest);
  }

  predicate WholeSteps(s: nat) {
    s % TELL_SIZE_FACTOR == 0
  }

  // Where the counter has come to, as long as it has not wrapped.
  predicate CountsUp(calls: seq<Call>, s: nat) {
    WholeSteps(s) && s <= LAST_STEP && (s == 0 || LastSize(calls) + TELL_SIZE_FACTOR == s)
  }

  lemma NextStep(s: nat)
    requires WholeSteps(s) && s < LAST_STEP
    ensures WholeSteps(s + TELL_SIZE_FACTOR) && Wrap(s + TELL_SIZE_FACTOR) == s + TELL_SIZE_FACTOR <= LAST_STEP
  {
    var q := s / TELL_SIZE_FACTOR;
    assert s == q * TELL_SIZE_FACTOR;
    assert LAST_STEP == 0x4_0000_0010 * TELL_SIZE_FACTOR;
    assert s + TELL_SIZE_FACTOR == (q + 1) * TELL_SIZE_FACTOR;
  }

  // Skipping a file keeps the order and processes exactly its bytes.
  lemma {:induction false} SkipInOrder(calls: seq<Call>, more: seq<Call>, goal: seq<Call>, size: nat, s: nat,
                                       forced: bool, late: nat -> bool)
    requires AllInOrder(calls) && CountsUp(calls, s) && size <= LAST_STEP && (s == 0 || LastSize(calls) < size)
    requires more == SkipCalls(size, s, forced, late) && goal == calls + more
    ensures AllInOrder(goal) && LastSize(goal) == size && (forced ==> Forced(goal))
    ensures Finished(goal) == Finished(calls) + if s == 0 then LastSize(calls) else 0
    decreases LAST_STEP - s
  {
    hide WholeSteps, Wrap, SkipCalls, AllInOrder, Finished;
    var c, rest := SkipFirst(calls, more, goal, size, s, forced, late);
    InOrderMore(calls, c);
    if s >= size {
      assert goal == calls + [c];
    } else {
      NextStep(s);
      SkipInOrder(calls + [c], rest, goal, size, s + TELL_SIZE_FACTOR, forced, late);
    }
  }

  lemma {:induction false} InOrderPrefix(a: seq<Call>, b: seq<Call>)
    requires AllInOrder(a + b)
    ensures AllInOrder(a)
    decreases |b|
  {
    if b == [] {
      assert a + b == a;
    } else {
      var rest := b[..|b| - 1];
      assert (a + b)[..|a + b| - 1] == a + rest;
      InOrderPrefix(a, rest);
    }
  }

  // Beyond the last step the counter wraps, and a size is told that lies behind the one told before.
  lemma {:induction false} SkipGoesBack(calls: seq<Call>, more: seq<Call>, goal: seq<Call>, size: nat, s: nat,
                                        forced: bool, late: nat -> bool)
    requires LAST_STEP < size < UINT64_LIMIT && AllInOrder(calls) && CountsUp(calls, s)
    requires more == SkipCalls(size, s, forced, late) && goal == calls + more
    ensures !AllInOrder(goal)
    decreases LAST_STEP - s
  {
    hide WholeSteps, Wrap, SkipCalls, AllInOrder, Finished;
    var c, rest := SkipFirst(calls, more, goal, size, s, forced, late);
    InOrderMore(calls, c);
    if s < LAST_STEP {
      NextStep(s);
      SkipGoesBack(calls + [c], rest, goal, size, s + TELL_SIZE_FACTOR, forced, late);
    } else {
      StepsBack(calls + [c], rest, goal, size, forced, late);
    }
  }

  lemma StepsBack(calls: seq<Call>, more: seq<Call>, goal: seq<Call>, size: nat, forced: bool, late: nat -> bool)
    requires LAST_STEP < size < UINT64_LIMIT && LastSize(calls) == LAST_STEP
    requires more == SkipCalls(size, Wrap(LAST_STEP + TELL_SIZE_FACTOR), forced, late) && goal == calls + more
    ensures !AllInOrder(goal)
  {
    hide SkipCalls;
    var c, rest := SkipFirst(calls, more, goal, size, Wrap(LAST_STEP + TELL_SIZE_FACTOR), forced, late);
    assert (calls + [c])[..|calls|] == calls;
    assert !AllInOrder(calls + [c]);
    if AllInOrder(goal) {
      InOrderPrefix(calls + [c], rest);
    }
  }

  // Skipping a file of any size: the order is kept exactly up to 2^64 - 16 bytes.
  lemma SkipKeepsOrder(calls: seq<Call>, size: nat, forced: bool, late: nat -> bool)
    requires AllInOrder(calls) && size < UINT64_LIMIT
    ensures var goal := calls + SkipCalls(size, 0, forced, late);
            && (AllInOrder(goal) <==> size <= LAST_STEP)
            && (size <= LAST_STEP ==> Processed(goal) == Processed(calls) + size && (forced ==> Forced(goal)))
  {
    hide SkipCalls;
    var more := SkipCalls(size, 0, forced, late);
    if size <= LAST_STEP {
      SkipInOrder(calls, more, calls + more, size, 0, forced, late);
    } else {
      SkipGoesBack(calls, more, calls + more, size, 0, forced, late);
    }
  }

  // Tell, branch by branch.
  lemma Branches(c: Counters, call: Call) returns (c1: Counters, delta: nat, r: Counters, d: Option<int>)
    ensures (r, d) == Tell(c, call)
    ensures c1 == if call.size == 0 then Counters(Wrap(c.prevRead + c.read), 0, c.told) else c
    ensures delta == Wrap(c1.prevRead + call.size - c1.told)
    ensures delta == 0 ==> r == c1 && d == None
    ensures delta != 0 && (call.forced || call.size == 0 || delta >= TELL_SIZE_FACTOR || call.late) ==>
              && r == Counters(c1.prevRead, call.size, Wrap(c1.prevRead + call.size))
              && d == Some(if delta > INT_MAX then INT_MAX else delta)
    ensures delta != 0 && !(call.forced || call.size == 0 || delta >= TELL_SIZE_FACTOR || call.late) ==>
              r == c1.(read := call.size) && d == None
  {
    c1 := if call.size == 0 then Counters(Wrap(c.prevRead + c.read), 0, c.told) else c;
    delta := Wrap(c1.prevRead + call.size - c1.told);
    r, d := Tell(c, call).0, Tell(c, call).1;
  }

  lemma RunMore(calls: seq<Call>, call: Call, l: Log, r: Counters, d: Option<int>) returns (more: seq<Call>)
    requires l == Run(calls) && (r, d) == Tell(l.c, call)
    ensures more == calls + [call]
    ensures Run(more) == Log(r, if d.Some? then l.deltas + [d.value] else l.deltas)
  {
    more := calls + [call];
    assert more[..|calls|] == calls;
  }

  // -------------------------------------------------------------------------- the imperative form

  class Callback {
    var prevRead: nat
    var read: nat
    var told: nat
    var deltas: seq<int>     // what was passed to ProcessDataProcW
    ghost var calls: seq<Call>

    // The calls so far led to these counters and deltas.
    ghost predicate Valid()
      reads this
    {
      Run(calls) == Log(Counters(prevRead, read, told), deltas)
    }

    // reset
    constructor ()
      ensures Valid() && calls == []
    {
      prevRead, read, told, deltas, calls := 0, 0, 0, [], [];
    }

    // tell_process_data in the writing mode; answer is what the callback returns if it is called.
    method TellProcessData(size: nat, force: bool, late: bool, answer: int) returns (hr: int)
      requires Valid() && size < UINT64_LIMIT
      modifies this
      ensures Valid() && calls == old(calls) + [Call(size, force, late)]
      ensures hr == if deltas == old(deltas) then PROCESS else answer
    {
      ghost var call := Call(size, force, late);
      ghost var c := Counters(prevRead, read, told);
      ghost var c1, delta1, r, d := Branches(c, call);
      ghost var more := RunMore(calls, call, Log(c, deltas), r, d);
      hr := PROCESS;
      var forced := force;
      if size == 0 {
        prevRead := Wrap(prevRead + read);
        assert prevRead == c1.prevRead;
        read := 0;
        forced := true;
      }
      assert Counters(prevRead, read, told) == c1;
      var delta := Wrap(prevRead + size - told);
      assert delta == delta1;
      if delta != 0 {
        read := size;
        if forced || delta >= TELL_SIZE_FACTOR || late {
          if delta > INT_MAX {
            delta := INT_MAX;
          }
          hr := answer;
          deltas := deltas + [delta];
          told := Wrap(prevRead + size);
        }
      }
      assert Counters(prevRead, read, told) == r;
      assert deltas == if d.Some? then old(deltas) + [d.value] else old(deltas);
      calls := more;
    }

    // tell_skip_file; late and answer are for the calls at the loop's s.
    method TellSkipFile(size: nat, forced: bool, late: nat -> bool, answer: nat -> int) returns (hr: int)
      requires Valid() && size < UINT64_LIMIT
      modifies this
      ensures Valid() && |old(calls)| < |calls| && calls <= old(calls) + SkipCalls(size, 0, forced, late)
      ensures hr != CANCEL ==> hr == PROCESS && calls == old(calls) + SkipCalls(size, 0, forced, late)
    {
      hide SkipCalls, Run;
      var s: nat := 0;
      ghost var more := SkipCalls(size, 0, forced, late);
      ghost var goal := calls + more;
      while true
        invariant Valid() && |old(calls)| <= |calls| && s < UINT64_LIMIT
        invariant more == SkipCalls(size, s, forced, late) && goal == calls + more
        decreases if s < size then StepsLeft(size, s) + 1 else 0
      {
        ghost var c, rest := SkipFirst(calls, more, goal, size, s, forced, late);
        var ret := TellProcessData(if s < size then s else size, forced, late(s), answer(s));
        if ret == CANCEL {
          return CANCEL;
        }
        if s >= size {
          return PROCESS;
        }
        OneStepLess(size, s);
        more := rest;
        s := Wrap(s + TELL_SIZE_FACTOR);
      }
    }
  }
}
