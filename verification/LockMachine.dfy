/**
 The slim reader/writer lock as a transition system over unboundedly many threads.  A step of a
 thread is one read of the word, one compare-and-swap or bit-test-and-set, one contended section,
 one poll or one wake write; decisions are taken on the word the thread read earlier, which may be
 stale.  The step function never looks at any auxiliary state.
 */
module LockMachine {
  import opened LockMemory

  type Tid = nat

  // Where a thread is.  `me` names the wait block and wake node of the current acquisition.
  datatype Pc =
    | Idle
    | AcqS(me: Addr)                               // top of the loop of AcquireSRWLockShared
    | AcqSRead(me: Addr, cv: Word)                 // CurrentValue was read
    | WaitS(me: Addr, firstWait: bool, seen: bool) // AcquireSRWLockSharedWait; seen: word looked contended
    | HeldS                                        // holds shared, or at the top of the release loop
    | RelSRead(cv: Word)
    | AcqX(me: Addr)                               // before the first bit-test-and-set
    | AcqXLoop(me: Addr)
    | AcqXRead(me: Addr, cv: Word)
    | WaitX(me: Addr, seen: bool)
    | HeldX
    | RelXRead(cv: Word)
    | WakeOne(block: Addr)                         // released, still has to wake an exclusive waiter
    | WakeAll(node: Addr)                          // released, still has to wake the chain from node

  datatype Conc = Conc(mem: Mem, pcs: map<Tid, Pc>, nextAddr: Addr) {
    function PcOf(t: Tid): Pc {
      if t in pcs then pcs[t] else Idle
    }

    function At(t: Tid, p: Pc): Conc {
      this.(pcs := pcs[t := p])
    }
  }

  const START := Conc(Mem(FREE, map[], map[]), map[], 1)

  // The environment lets an idle thread ask for the lock, or lets a thread take its next step.
  // (A holder that takes a step is a holder that releases.)
  datatype Event = Call(t: Tid, exclusive: bool) | Go(t: Tid)

  function CallStep(c: Conc, t: Tid, exclusive: bool): Conc {
    if c.PcOf(t) != Idle then c
    else c.At(t, if exclusive then AcqX(c.nextAddr) else AcqS(c.nextAddr)).(nextAddr := c.nextAddr + 1)
  }

  // AcquireWaitBlockLock finds that the chain is gone.
  predicate SectionFails(w: Word) {
    !w.contended || w.high == NULL
  }

  function AcqSReadStep(c: Conc, t: Tid, me: Addr, cv: Word): Conc {
    var w := c.mem.word;
    if cv.contended && (cv.shared || cv.owned) then
      if SectionFails(w) then c.At(t, AcqS(me))
      else if cv.shared then
        c.(mem := QueueSharedBehindSharers(c.mem, me))
        .At(t, WaitS(me, c.mem.First().exclusive && c.mem.BlockAt(c.mem.First().last).exclusive, false))
      else
        c.(mem := QueueSharedBehindOwner(c.mem, me))
        .At(t, WaitS(me, c.mem.BlockAt(c.mem.First().last).exclusive, false))
    else if w != cv then c.At(t, AcqS(me))
    else if cv.shared then c.(mem := c.mem.(word := cv.(high := cv.high + 1))).At(t, HeldS)
    else if cv.owned then
      c.(mem := c.mem.PutBlock(me, SharedBlock(me)).PutNode(me, NO_NODE).(word := Word(true, true, false, me)))
      .At(t, WaitS(me, true, false))
    else c.(mem := c.mem.(word := SimpleShared(1))).At(t, HeldS)
  }

  function WaitSStep(c: Conc, t: Tid, me: Addr, firstWait: bool, seen: bool): Conc {
    var w := c.mem.word;
    if firstWait || seen then
      if c.mem.NodeAt(me).wake then c.At(t, HeldS) else c.At(t, WaitS(me, firstWait, false))
    else if !w.shared then c
    else if w.contended then c.At(t, WaitS(me, firstWait, true))
    else c.At(t, HeldS)
  }

  function RelSReadStep(c: Conc, t: Tid, cv: Word): Conc {
    var w := c.mem.word;
    if cv.contended then
      if SectionFails(w) then c.At(t, HeldS)
      else
        var m := DropSharer(c.mem);
        if m.First().sharedCount == 0 then c.(mem := HandOffLastShared(m)).At(t, WakeOne(w.high))
        else c.(mem := m).At(t, Idle)
    else if w != cv then c.At(t, HeldS)
    else c.(mem := c.mem.(word := if cv.high <= 1 then FREE else SimpleShared(cv.high - 1))).At(t, Idle)
  }

  function TestAndSetOwned(c: Conc, t: Tid, me: Addr): Conc {
    if c.mem.word.owned then c.At(t, AcqXLoop(me))
    else c.(mem := c.mem.(word := c.mem.word.(owned := true))).At(t, HeldX)
  }

  function AcqXReadStep(c: Conc, t: Tid, me: Addr, cv: Word): Conc {
    var w := c.mem.word;
    if cv.contended && (cv.shared || cv.owned) then
      if SectionFails(w) then c.At(t, AcqXLoop(me))
      else c.(mem := QueueExclusive(c.mem, me)).At(t, WaitX(me, false))
    else if cv.shared || cv.owned then
      if w != cv then c.At(t, AcqXLoop(me))
      else
        c.(mem := c.mem.PutBlock(me, ExclusiveBlock(me, if cv.shared then cv.high else 0))
        .(word := Word(true, true, cv.shared, me)))
        .At(t, WaitX(me, false))
    else TestAndSetOwned(c, t, me)
  }

  function WaitXStep(c: Conc, t: Tid, me: Addr, seen: bool): Conc {
    var w := c.mem.word;
    if seen then
      if c.mem.BlockAt(me).wake then c.At(t, HeldX) else c.At(t, WaitX(me, false))
    else if w.shared then c
    else if w.contended then c.At(t, WaitX(me, true))
    else c.At(t, HeldX)
  }

  function RelXReadStep(c: Conc, t: Tid, cv: Word): Conc {
    var w := c.mem.word;
    if cv.contended then
      if SectionFails(w) then c.At(t, HeldX)
      else c.(mem := HandOff(c.mem))
           .At(t, if c.mem.First().exclusive then WakeOne(w.high) else WakeAll(c.mem.First().wakeChain))
    else if w != cv then c.At(t, HeldX)
    else c.(mem := c.mem.(word := FREE)).At(t, Idle)
  }

  function WakeAllStep(c: Conc, t: Tid, n: Addr): Conc {
    var next := c.mem.NodeAt(n).next;
    c.(mem := c.mem.PutNode(n, WakeNode(true, next))).At(t, if next != NULL then WakeAll(next) else Idle)
  }

  function GoStep(c: Conc, t: Tid): Conc {
    var w := c.mem.word;
    match c.PcOf(t)
    case Idle => c
    case AcqS(me) => c.At(t, AcqSRead(me, w))
    case AcqSRead(me, cv) => AcqSReadStep(c, t, me, cv)
    case WaitS(me, firstWait, seen) => WaitSStep(c, t, me, firstWait, seen)
    case HeldS => if w.shared then c.At(t, RelSRead(w)) else c.At(t, Idle)
    case RelSRead(cv) => RelSReadStep(c, t, cv)
    case AcqX(me) => TestAndSetOwned(c, t, me)
    case AcqXLoop(me) => c.At(t, AcqXRead(me, w))
    case AcqXRead(me, cv) => AcqXReadStep(c, t, me, cv)
    case WaitX(me, seen) => WaitXStep(c, t, me, seen)
    case HeldX => if w.owned && !w.shared then c.At(t, RelXRead(w)) else c.At(t, Idle)
    case RelXRead(cv) => RelXReadStep(c, t, cv)
    case WakeOne(b) => c.(mem := c.mem.PutBlock(b, c.mem.BlockAt(b).(wake := true))).At(t, Idle)
    case WakeAll(n) => WakeAllStep(c, t, n)
  }

  function Step(c: Conc, e: Event): Conc {
    match e
    case Call(t, exclusive) => CallStep(c, t, exclusive)
    case Go(t) => GoStep(c, t)
  }

  function Run(c: Conc, es: seq<Event>): Conc
    decreases es
  {
    if es == [] then c else Run(Step(c, es[0]), es[1..])
  }

  // Inside the critical section, up to the step that gives the lock back.
  predicate InsideShared(p: Pc) {
    p.HeldS? || p.RelSRead?
  }

  predicate InsideExclusive(p: Pc) {
    p.HeldX? || p.RelXRead?
  }

  // The ASSERTs of the source (compiled out there) at the step thread t is about to take, together
  // with the existence of every block and node the step follows a pointer to.
  predicate AssertsHold(c: Conc, t: Tid) {
    var m := c.mem;
    var b := m.First();
    match c.PcOf(t)
    case AcqSRead(me, cv) =>
      && (cv.shared ==> cv.owned)
      && (!cv.shared && !cv.owned ==> !cv.contended)
      && (cv.contended && !SectionFails(m.word) ==> ChainSound(m))
    case AcqXRead(me, cv) => cv.contended && !SectionFails(m.word) ==> ChainSound(m)
    case WaitS(me, firstWait, seen) => me in m.nodes && (m.word.shared ==> m.word.owned)
    case WaitX(me, seen) => me in m.blocks
    case RelSRead(cv) =>
      cv.contended ==>
        && ChainSound(m)
        && !SectionFails(m.word)
        && (b.sharedCount == 1 ==> b.exclusive)
    case RelXRead(cv) =>
      && (!cv.contended ==> cv == SIMPLE_EXCLUSIVE)
      && (cv.contended ==>
            && ChainSound(m)
            && !SectionFails(m.word)
            && (b.next != NULL && !b.exclusive ==> m.BlockAt(b.next).exclusive)
            && (b.next == NULL && !b.exclusive ==> b.sharedCount > 0)
            && (!b.exclusive ==> b.wakeChain in m.nodes))
    case HeldS => m.word.shared
    case HeldX => m.word.owned && !m.word.shared
    case WakeOne(p) => p in m.blocks
    case WakeAll(n) => n in m.nodes
    case _ => true
  }

  predicate ChainSound(m: Mem) {
    && m.word.high in m.blocks
    && m.First().last in m.blocks
    && (m.First().next != NULL ==> m.First().next in m.blocks && m.First().next != m.word.high)
    && (!m.First().exclusive ==> m.First().lastWake in m.nodes)
    && (!m.BlockAt(m.First().last).exclusive ==> m.BlockAt(m.First().last).lastWake in m.nodes)
  }
}
