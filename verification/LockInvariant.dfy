/**
 The lock seen as a queue: who owns it, who shares it, and the waiting acquirers in the order in
 which they will be served.  The invariant says that the word, the linked wait blocks and the
 linked wake nodes represent such a queue and that every thread is where its program counter says.
 */
module LockInvariant {
  import opened LockMemory
  import opened LockMachine

  datatype Option<T> = None | Some(value: T)

  datatype Member = Member(tid: Tid, node: Addr)

  // One wait block: a single exclusive waiter, or a group of shared waiters, the first of which
  // provided the block.
  datatype Entry = Entry(exclusive: bool, members: seq<Member>)

  // served counts the blocks taken off the chain so far; slot gives every queued or served node
  // its block (counted from the beginning) and its rank in it; todo lists the nodes a releaser
  // still has to wake.
  datatype Abs = Abs(owner: Option<Tid>, holders: set<Tid>, queue: seq<Entry>,
                     served: nat, slot: map<Addr, (nat, nat)>, who: map<Addr, Tid>,
                     todo: map<Tid, seq<Addr>>)

  const NOBODY := Abs(None, {}, [], 0, map[], map[], map[])

  datatype State = State(c: Conc, a: Abs)

  const INITIAL := State(START, NOBODY)

  function Nodes(ms: seq<Member>): seq<Addr> {
    seq(|ms|, i requires 0 <= i < |ms| => ms[i].node)
  }

  function Tids(ms: seq<Member>): set<Tid> {
    set i | 0 <= i < |ms| :: ms[i].tid
  }

  function AddEntry(a: Abs, t: Tid, me: Addr, exclusive: bool): Abs {
    a.(queue := a.queue + [Entry(exclusive, [Member(t, me)])],
    slot := a.slot[me := (a.served + |a.queue|, 0)])
  }

  function JoinEntry(a: Abs, i: nat, t: Tid, me: Addr): Abs {
    if i >= |a.queue| then a
    else
      a.(queue := a.queue[i := a.queue[i].(members := a.queue[i].members + [Member(t, me)])],
      slot := a.slot[me := (a.served + i, |a.queue[i].members|)])
  }

  // The first block is served: its members own or share the lock, and t has to wake them.
  function Serve(a: Abs, t: Tid): Abs {
    if a.queue == [] || a.queue[0].members == [] then a
    else
      var h := a.queue[0];
      a.(owner := if h.exclusive then Some(h.members[0].tid) else None,
      holders := if h.exclusive then {} else Tids(h.members),
      queue := a.queue[1..], served := a.served + 1, todo := a.todo[t := Nodes(h.members)])
  }

  function JoinGroup(a: Abs, t: Tid, me: Addr): Abs {
    if a.queue == [] then a
    else if a.queue[|a.queue| - 1].exclusive then AddEntry(a, t, me, false)
    else JoinEntry(a, |a.queue| - 1, t, me)
  }

  function AbsAcqS(c: Conc, a: Abs, t: Tid, me: Addr, cv: Word): Abs {
    if cv.contended && (cv.shared || cv.owned) then
      if a.queue == [] then a
      else if cv.shared && !a.queue[0].exclusive then JoinEntry(a, 0, t, me)
      else JoinGroup(a, t, me)
    else if c.mem.word != cv then a
    else if cv.shared || !cv.owned then a.(holders := a.holders + {t})
    else AddEntry(a, t, me, false)
  }

  function AbsRelS(c: Conc, a: Abs, t: Tid, cv: Word): Abs {
    var a' := a.(holders := a.holders - {t});
    if cv.contended then
      if a.queue == [] then a
      else if a'.holders == {} then Serve(a', t)
      else a'
    else if c.mem.word != cv then a
    else a'
  }

  function AbsTestAndSet(c: Conc, a: Abs, t: Tid): Abs {
    if c.mem.word.owned then a else a.(owner := Some(t))
  }

  function AbsAcqX(c: Conc, a: Abs, t: Tid, me: Addr, cv: Word): Abs {
    if cv.contended && (cv.shared || cv.owned) then
      if a.queue == [] then a else AddEntry(a, t, me, true)
    else if cv.shared || cv.owned then
      if c.mem.word != cv then a else AddEntry(a, t, me, true)
    else AbsTestAndSet(c, a, t)
  }

  function AbsRelX(c: Conc, a: Abs, t: Tid, cv: Word): Abs {
    if cv.contended then
      if a.queue == [] then a else Serve(a.(owner := None), t)
    else if c.mem.word != cv then a
    else a.(owner := None)
  }

  function AbsWake(a: Abs, t: Tid): Abs {
    if t in a.todo && |a.todo[t]| > 1 then a.(todo := a.todo[t := a.todo[t][1..]])
    else a.(todo := a.todo - {t})
  }

  function AbsStep(c: Conc, a: Abs, e: Event): Abs {
    match e
    case Call(t, exclusive) => if c.PcOf(t) != Idle then a else a.(who := a.who[c.nextAddr := t])
    case Go(t) =>
      match c.PcOf(t)
      case AcqSRead(me, cv) => AbsAcqS(c, a, t, me, cv)
      case RelSRead(cv) => AbsRelS(c, a, t, cv)
      case AcqX(me) => AbsTestAndSet(c, a, t)
      case AcqXRead(me, cv) => AbsAcqX(c, a, t, me, cv)
      case RelXRead(cv) => AbsRelX(c, a, t, cv)
      case WakeOne(b) => AbsWake(a, t)
      case WakeAll(n) => AbsWake(a, t)
      case _ => a
  }

  function StepS(s: State, e: Event): State {
    State(Step(s.c, e), AbsStep(s.c, s.a, e))
  }

  function RunS(s: State, es: seq<Event>): State
    decreases es
  {
    if es == [] then s else RunS(StepS(s, es[0]), es[1..])
  }

  // ---------------------------------------------------------------- the memory represents a queue

  function Head(e: Entry): Addr {
    if e.members == [] then NULL else e.members[0].node
  }

  function WordOf(a: Abs): Word {
    if a.queue != [] then Word(true, true, a.owner.None?, Head(a.queue[0]))
    else if a.owner.Some? then SIMPLE_EXCLUSIVE
    else if a.holders != {} then SimpleShared(|a.holders|)
    else FREE
  }

  ghost predicate NodeOk(m: Mem, ms: seq<Member>, j: int)
    requires 0 <= j < |ms|
  {
    && ms[j].node in m.nodes
    && m.nodes[ms[j].node].next == if j + 1 < |ms| then ms[j + 1].node else NULL
  }

  ghost predicate GroupOk(m: Mem, ms: seq<Member>) {
    forall j | 0 <= j < |ms| :: NodeOk(m, ms, j)
  }

  ghost predicate EntryOk(m: Mem, q: seq<Entry>, i: int)
    requires 0 <= i < |q|
  {
    var e := q[i];
    && e.members != []
    && Head(e) in m.blocks
    && var b := m.blocks[Head(e)];
    && b.exclusive == e.exclusive
    && b.next == (if i + 1 < |q| then Head(q[i + 1]) else NULL)
    && (e.exclusive ==> |e.members| == 1)
    && (!e.exclusive ==>
          && GroupOk(m, e.members)
          && b.wakeChain == Head(e)
          && b.lastWake == e.members[|e.members| - 1].node
          && b.sharedCount == |e.members|
          && (i + 1 < |q| ==> q[i + 1].exclusive))
  }

  ghost predicate Linked(m: Mem, q: seq<Entry>) {
    forall i | 0 <= i < |q| :: EntryOk(m, q, i)
  }

  ghost predicate Represents(m: Mem, a: Abs) {
    && m.word == WordOf(a)
    && Linked(m, a.queue)
    && (a.owner.None? || a.holders == {})
    && (a.queue != [] ==>
          && (a.owner.Some? || a.holders != {})
          && m.BlockAt(Head(a.queue[0])).last == Head(a.queue[|a.queue| - 1])
          && (a.owner.None? ==>
                && a.queue[0].exclusive
                && m.BlockAt(Head(a.queue[0])).sharedCount == |a.holders|))
  }

  // ------------------------------------------------------------------- every thread is accounted for

  predicate Granted(a: Abs, n: Addr) {
    n in a.slot && a.slot[n].0 < a.served
  }

  predicate QueuedAt(a: Abs, t: Tid, n: Addr, exclusive: bool) {
    && n in a.slot
    && a.served <= a.slot[n].0 < a.served + |a.queue|
    && var e := a.queue[a.slot[n].0 - a.served];
    && e.exclusive == exclusive
    && a.slot[n].1 < |e.members|
    && e.members[a.slot[n].1] == Member(t, n)
  }

  predicate WaitsFor(p: Pc, n: Addr, exclusive: bool) {
    if exclusive then p.WaitX? && p.me == n else p.WaitS? && p.me == n
  }

  // The member at rank j of the i-th queued block is a thread that waits on exactly this node.
  ghost predicate MemberOk(c: Conc, a: Abs, i: int, j: int)
    requires 0 <= i < |a.queue| && 0 <= j < |a.queue[i].members|
  {
    var x := a.queue[i].members[j];
    && x.node in a.slot
    && a.slot[x.node] == (a.served + i, j)
    && WaitsFor(c.PcOf(x.tid), x.node, a.queue[i].exclusive)
  }

  ghost predicate Pending(a: Abs, n: Addr) {
    exists u :: u in a.todo && n in a.todo[u]
  }

  predicate Outside(a: Abs, t: Tid) {
    t !in a.holders && a.owner != Some(t)
  }

  predicate Private(c: Conc, a: Abs, t: Tid, me: Addr) {
    0 < me < c.nextAddr && me in a.who && a.who[me] == t && me !in a.slot
  }

  ghost predicate Waiting(c: Conc, a: Abs, t: Tid, me: Addr, exclusive: bool, awake: bool) {
    && me in a.who && a.who[me] == t
    && if Granted(a, me) then
      && (if exclusive then a.owner == Some(t) && t !in a.holders else t in a.holders && a.owner != Some(t))
      && (awake || Pending(a, me))
    else
      && Outside(a, t)
      && QueuedAt(a, t, me, exclusive)
      && !awake
  }

  ghost predicate LinkOk(c: Conc, a: Abs, ns: seq<Addr>, j: int)
    requires 0 <= j < |ns|
  {
    && ns[j] in c.mem.nodes
    && Granted(a, ns[j])
    && c.mem.nodes[ns[j]].next == if j + 1 < |ns| then ns[j + 1] else NULL
  }

  ghost predicate ChainOf(c: Conc, a: Abs, ns: seq<Addr>) {
    forall j | 0 <= j < |ns| :: LinkOk(c, a, ns, j)
  }

  ghost predicate ThreadOk(c: Conc, a: Abs, t: Tid) {
    && (t in a.todo <==> c.PcOf(t).WakeOne? || c.PcOf(t).WakeAll?)
    && match c.PcOf(t)
      case Idle => Outside(a, t)
      case AcqS(me) => Outside(a, t) && Private(c, a, t, me)
      case AcqSRead(me, cv) => Outside(a, t) && Private(c, a, t, me) && WellFormed(cv)
      case WaitS(me, firstWait, seen) =>
        && me in c.mem.nodes
        && me in a.slot
        && Waiting(c, a, t, me, false, c.mem.nodes[me].wake)
      case HeldS => t in a.holders && a.owner != Some(t)
      case RelSRead(cv) =>
        && t in a.holders && a.owner != Some(t)
        && WellFormed(cv) && cv.shared
        && (cv.contended ==> a.queue != [])
      case AcqX(me) => Outside(a, t) && Private(c, a, t, me) && me !in c.mem.nodes
      case AcqXLoop(me) => Outside(a, t) && Private(c, a, t, me) && me !in c.mem.nodes
      case AcqXRead(me, cv) =>
        Outside(a, t) && Private(c, a, t, me) && me !in c.mem.nodes && WellFormed(cv)
      case WaitX(me, seen) =>
        && me !in c.mem.nodes
        && me in c.mem.blocks
        && me in a.slot
        && Waiting(c, a, t, me, true, c.mem.blocks[me].wake)
      case HeldX => a.owner == Some(t) && t !in a.holders
      case RelXRead(cv) =>
        && a.owner == Some(t) && t !in a.holders
        && WellFormed(cv) && cv.owned && !cv.shared
        && (cv.contended ==> a.queue != [])
      case WakeOne(b) =>
        && Outside(a, t)
        && a.todo[t] == [b]
        && b in c.mem.blocks && b !in c.mem.nodes
        && Granted(a, b)
      case WakeAll(n) =>
        && Outside(a, t)
        && a.todo[t] != []
        && a.todo[t][0] == n
        && ChainOf(c, a, a.todo[t])
  }

  ghost predicate Bounded(c: Conc, a: Abs) {
    && 0 < c.nextAddr
    && (forall n | n in a.who :: 0 < n < c.nextAddr)
    && (forall n | n in a.slot :: n in a.who)
    && (forall n | n in c.mem.nodes :: n in a.who)
  }

  ghost predicate MembersOk(c: Conc, a: Abs) {
    forall i, j | 0 <= i < |a.queue| && 0 <= j < |a.queue[i].members| :: MemberOk(c, a, i, j)
  }

  ghost predicate Inv(s: State) {
    && Represents(s.c.mem, s.a)
    && Bounded(s.c, s.a)
    && MembersOk(s.c, s.a)
    && forall t: Tid :: ThreadOk(s.c, s.a, t)
  }
}
