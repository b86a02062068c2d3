/**
 Every step keeps the invariant.  Each lemma below handles one kind of step; the frame lemmas say
 what a step of thread t leaves alone for every other thread.
 */
module LockSteps {
  import opened LockMemory
  import opened LockMachine
  import opened LockInvariant

  // What every other thread can rely on when t moves, except that a served block changes more.
  ghost predicate Frame(s: State, s': State, t: Tid) {
    && (forall u: Tid | u != t :: s'.c.PcOf(u) == s.c.PcOf(u))
    && s.c.nextAddr <= s'.c.nextAddr
    && (forall n | n in s.a.who :: n in s'.a.who && s'.a.who[n] == s.a.who[n])
    && (forall n | n in s.a.slot :: n in s'.a.slot && s'.a.slot[n] == s.a.slot[n])
    && (forall n | n in s'.a.slot && n !in s.a.slot :: n in s'.a.who && s'.a.who[n] == t)
    && (forall u: Tid | u != t :: u in s.a.todo <==> u in s'.a.todo)
    && (forall u: Tid | u != t && u in s.a.todo :: s'.a.todo[u] == s.a.todo[u])
    && MemFrame(s, s'.c.mem)
    && (forall n | n in s'.c.mem.nodes && n !in s.c.mem.nodes ::
          n in s'.a.who && s'.a.who[n] == t && n !in s.a.slot)
  }

  // Nodes and blocks that were handed out keep their wake flags, and served chains keep their links.
  ghost predicate MemFrame(s: State, m: Mem) {
    && (forall n | n in s.a.slot && n in s.c.mem.nodes ::
          && n in m.nodes
          && m.nodes[n].wake == s.c.mem.nodes[n].wake
          && (Granted(s.a, n) ==> m.nodes[n].next == s.c.mem.nodes[n].next))
    && (forall n | n in s.a.slot && n in s.c.mem.blocks ::
          n in m.blocks && m.blocks[n].wake == s.c.mem.blocks[n].wake)
  }

  ghost predicate QueueGrows(a: Abs, a': Abs, t: Tid) {
    && a'.served == a.served
    && |a.queue| <= |a'.queue|
    && (forall i | 0 <= i < |a.queue| ::
          a.queue[i].exclusive == a'.queue[i].exclusive && a.queue[i].members <= a'.queue[i].members)
    && (forall u: Tid | u != t ::
          (u in a.holders <==> u in a'.holders) && (a.owner == Some(u) <==> a'.owner == Some(u)))
    && (t in a.todo ==> t in a'.todo && a'.todo[t] == a.todo[t])
  }

  lemma PendingKept(a: Abs, a': Abs, t: Tid, n: Addr)
    requires Pending(a, n)
    requires forall u: Tid | u != t && u in a.todo :: u in a'.todo && a'.todo[u] == a.todo[u]
    requires t in a.todo ==> t in a'.todo && a'.todo[t] == a.todo[t]
    ensures Pending(a', n)
  {
    var u :| u in a.todo && n in a.todo[u];
    assert u in a'.todo && n in a'.todo[u];
  }

  // The nodes a releaser still has to wake stay linked as long as served nodes keep their links.
  lemma ChainKept(c: Conc, a: Abs, c': Conc, a': Abs, ns: seq<Addr>)
    requires ChainOf(c, a, ns)
    requires forall n | n in c.mem.nodes && Granted(a, n) ::
               n in c'.mem.nodes && c'.mem.nodes[n].next == c.mem.nodes[n].next && Granted(a', n)
    ensures ChainOf(c', a', ns)
  {
    forall j | 0 <= j < |ns| ensures LinkOk(c', a', ns, j) {
      assert LinkOk(c, a, ns, j);
    }
  }

  lemma OtherThread(s: State, s': State, t: Tid, u: Tid)
    requires Frame(s, s', t) && QueueGrows(s.a, s'.a, t) && u != t
    requires ThreadOk(s.c, s.a, u)
    ensures ThreadOk(s'.c, s'.a, u)
  {
    hide ChainOf;
    var p := s.c.PcOf(u);
    if p.WakeAll? {
      ChainKept(s.c, s.a, s'.c, s'.a, s.a.todo[u]);
    }
    if (p.WaitS? || p.WaitX?) && Pending(s.a, p.me) {
      PendingKept(s.a, s'.a, t, p.me);
    }
  }

  lemma OtherThreads(s: State, s': State, t: Tid)
    requires Inv(s) && Frame(s, s', t) && QueueGrows(s.a, s'.a, t)
    ensures forall u: Tid | u != t :: ThreadOk(s'.c, s'.a, u)
  {
    forall u: Tid | u != t ensures ThreadOk(s'.c, s'.a, u) {
      OtherThread(s, s', t, u);
    }
  }

  // t is not queued, or it stays where it is.
  ghost predicate KeepsPlace(s: State, s': State, t: Tid) {
    forall n, x :: WaitsFor(s.c.PcOf(t), n, x) && !Granted(s.a, n) ==> WaitsFor(s'.c.PcOf(t), n, x)
  }

  lemma OldMembers(s: State, s': State, t: Tid)
    requires Inv(s) && Frame(s, s', t) && QueueGrows(s.a, s'.a, t) && KeepsPlace(s, s', t)
    ensures forall i, j | 0 <= i < |s.a.queue| && 0 <= j < |s.a.queue[i].members| ::
              MemberOk(s'.c, s'.a, i, j)
  {
    forall i, j | 0 <= i < |s.a.queue| && 0 <= j < |s.a.queue[i].members|
      ensures MemberOk(s'.c, s'.a, i, j)
    {
      assert MemberOk(s.c, s.a, i, j);
      assert s'.a.queue[i].members[j] == s.a.queue[i].members[j];
    }
  }

  // A step that changes nothing but the program counter of t.
  lemma OnlyPc(s: State, s': State, t: Tid, p: Pc)
    requires Inv(s) && s' == State(s.c.At(t, p), s.a)
    requires ThreadOk(s'.c, s'.a, t) && KeepsPlace(s, s', t)
    ensures Inv(s')
  {
    OtherThreads(s, s', t);
    OldMembers(s, s', t);
  }

  // A step that moves the word between two states without waiters.
  lemma Uncontended(s: State, s': State, t: Tid, p: Pc, w: Word)
    requires Inv(s) && s.a.queue == []
    requires s'.c == s.c.(mem := s.c.mem.(word := w)).At(t, p)
    requires s'.a == s.a.(owner := s'.a.owner, holders := s'.a.holders)
    requires w == WordOf(s'.a) && (s'.a.owner.None? || s'.a.holders == {})
    requires QueueGrows(s.a, s'.a, t)
    requires ThreadOk(s'.c, s'.a, t)
    ensures Inv(s')
  {
    OtherThreads(s, s', t);
  }

  lemma WordFacts(s: State)
    requires Inv(s)
    ensures WellFormed(s.c.mem.word)
    ensures SectionFails(s.c.mem.word) <==> s.a.queue == []
    ensures s.c.mem.word.contended <==> s.a.queue != []
    ensures s.a.queue != [] ==> s.c.mem.word.high == Head(s.a.queue[0]) && EntryOk(s.c.mem, s.a.queue, 0)
    ensures s.c.mem.word.shared <==> s.a.holders != {}
    ensures s.c.mem.word.owned <==> s.a.holders != {} || s.a.owner.Some?
  {
    if s.a.queue != [] {
      assert EntryOk(s.c.mem, s.a.queue, 0);
      assert MemberOk(s.c, s.a, 0, 0);
    }
  }

  // A thread starts to acquire, with a block of its own.
  ghost predicate Called(s: State, s': State, t: Tid, exclusive: bool) {
    var me := s.c.nextAddr;
    && s.c.PcOf(t) == Idle
    && s'.c == s.c.At(t, if exclusive then AcqX(me) else AcqS(me)).(nextAddr := me + 1)
    && s'.a == s.a.(who := s.a.who[me := t])
  }

  lemma CallFrames(s: State, s': State, t: Tid, exclusive: bool)
    requires Inv(s) && Called(s, s', t, exclusive)
    ensures Frame(s, s', t) && QueueGrows(s.a, s'.a, t) && KeepsPlace(s, s', t)
  {
    hide Represents, MembersOk, Waiting;
    assert ThreadOk(s.c, s.a, t);
  }

  lemma CallPlace(s: State, s': State, t: Tid, exclusive: bool)
    requires Inv(s) && Called(s, s', t, exclusive)
    ensures ThreadOk(s'.c, s'.a, t)
  {
    hide Represents, MembersOk, Waiting;
    assert ThreadOk(s.c, s.a, t);
  }

  lemma {:induction false} CallKeeps(s: State, t: Tid, exclusive: bool)
    requires Inv(s)
    ensures Inv(StepS(s, Call(t, exclusive)))
  {
    hide GoStep, EntryOk, MemberOk, ThreadOk, Frame, QueueGrows, KeepsPlace;
    var s' := StepS(s, Call(t, exclusive));
    if s.c.PcOf(t) == Idle {
      CallFrames(s, s', t, exclusive);
      CallPlace(s, s', t, exclusive);
      OtherThreads(s, s', t);
      OldMembers(s, s', t);
    }
  }

  // Reads of the word, failed attempts and polls.
  lemma ReadKeeps(s: State, t: Tid)
    requires Inv(s)
    requires var p := s.c.PcOf(t); p.Idle? || p.AcqS? || p.HeldS? || p.AcqXLoop? || p.HeldX?
    ensures Inv(StepS(s, Go(t)))
  {
    WordFacts(s);
    assert ThreadOk(s.c, s.a, t);
    var s' := StepS(s, Go(t));
    if s.c.PcOf(t) != Idle {
      OnlyPc(s, s', t, s'.c.PcOf(t));
    }
  }

  lemma WaitKeeps(s: State, t: Tid)
    requires Inv(s)
    requires var p := s.c.PcOf(t); p.WaitS? || p.WaitX?
    ensures Inv(StepS(s, Go(t)))
  {
    hide EntryOk, MemberOk, Pending, ChainOf;
    WordFacts(s);
    assert ThreadOk(s.c, s.a, t);
    var s' := StepS(s, Go(t));
    if s'.c != s.c {
      OnlyPc(s, s', t, s'.c.PcOf(t));
    }
  }

  lemma TestAndSetKeeps(s: State, t: Tid, me: Addr)
    requires Inv(s) && Outside(s.a, t) && Private(s.c, s.a, t, me)
    requires t !in s.a.todo && !s.c.PcOf(t).WaitS? && !s.c.PcOf(t).WaitX? && me !in s.c.mem.nodes
    ensures Inv(State(TestAndSetOwned(s.c, t, me), AbsTestAndSet(s.c, s.a, t)))
  {
    WordFacts(s);
    var s' := State(TestAndSetOwned(s.c, t, me), AbsTestAndSet(s.c, s.a, t));
    if s.c.mem.word.owned {
      OnlyPc(s, s', t, AcqXLoop(me));
    } else {
      Uncontended(s, s', t, HeldX, SIMPLE_EXCLUSIVE);
    }
  }

  // t is about to publish or queue the block and node it has kept private so far.
  ghost predicate Arriving(s: State, t: Tid, me: Addr) {
    && Inv(s)
    && Outside(s.a, t)
    && Private(s.c, s.a, t, me)
    && t !in s.a.todo
    && !s.c.PcOf(t).WaitS? && !s.c.PcOf(t).WaitX? && !s.c.PcOf(t).WakeOne? && !s.c.PcOf(t).WakeAll?
  }

  function Waiter(me: Addr, exclusive: bool, firstWait: bool): Pc {
    if exclusive then WaitX(me, false) else WaitS(me, firstWait, false)
  }

  // A newcomer that goes into a new block.
  ghost predicate NewBlock(s: State, s': State, t: Tid, me: Addr, exclusive: bool) {
    && Arriving(s, t, me)
    && s'.a == AddEntry(s.a, t, me, exclusive)
    && s'.c == s.c.(mem := s'.c.mem).At(t, Waiter(me, exclusive, true))
    && MemFrame(s, s'.c.mem)
    && s'.c.mem.nodes.Keys == (if exclusive then s.c.mem.nodes.Keys else s.c.mem.nodes.Keys + {me})
    && if exclusive then me in s'.c.mem.blocks && !s'.c.mem.blocks[me].wake && me !in s.c.mem.nodes
       else me in s'.c.mem.nodes && !s'.c.mem.nodes[me].wake
  }

  lemma NewcomerOk(s: State, s': State, t: Tid, me: Addr, exclusive: bool)
    requires NewBlock(s, s', t, me, exclusive)
    ensures ThreadOk(s'.c, s'.a, t)
  {
    assert s'.a.queue[|s.a.queue|] == Entry(exclusive, [Member(t, me)]);
    assert QueuedAt(s'.a, t, me, exclusive);
  }

  lemma NewBlockFrame(s: State, s': State, t: Tid, me: Addr, exclusive: bool)
    requires NewBlock(s, s', t, me, exclusive)
    ensures Frame(s, s', t) && QueueGrows(s.a, s'.a, t)
  {
  }

  // It keeps the invariant once the memory represents the longer queue.
  lemma NewBlockKeeps(s: State, s': State, t: Tid, me: Addr, exclusive: bool)
    requires NewBlock(s, s', t, me, exclusive)
    requires Represents(s'.c.mem, s'.a)
    ensures Inv(s')
  {
    hide ThreadOk, EntryOk, Frame, QueueGrows, Waiting;
    NewBlockFrame(s, s', t, me, exclusive);
    NewcomerOk(s, s', t, me, exclusive);
    OtherThreads(s, s', t);
    assert MembersOk(s'.c, s'.a) by {
      OldMembers(s, s', t);
      assert s'.a.queue[|s.a.queue|] == Entry(exclusive, [Member(t, me)]);
      assert MemberOk(s'.c, s'.a, |s.a.queue|, 0);
    }
  }

  // The first waiter turns a simple lock into a contended one.
  lemma PublishKeeps(s: State, s': State, t: Tid, me: Addr, exclusive: bool)
    requires Arriving(s, t, me) && s.a.queue == [] && (exclusive ==> me !in s.c.mem.nodes)
    requires if exclusive then s.a.owner.Some? || s.a.holders != {} else s.a.owner.Some?
    requires s'.a == AddEntry(s.a, t, me, exclusive)
    requires s'.c == s.c.(mem := s'.c.mem).At(t, Waiter(me, exclusive, true))
    requires s'.c.mem == (if exclusive then s.c.mem.PutBlock(me, ExclusiveBlock(me, |s.a.holders|))
                          else s.c.mem.PutBlock(me, SharedBlock(me)).PutNode(me, NO_NODE))
                         .(word := Word(true, true, s.a.holders != {}, me))
    ensures Inv(s')
  {
    var q := s'.a.queue;
    assert q == [Entry(exclusive, [Member(t, me)])];
    assert Represents(s'.c.mem, s'.a) by {
      if !exclusive {
        assert NodeOk(s'.c.mem, q[0].members, 0);
      }
      assert EntryOk(s'.c.mem, q, 0);
    }
    NewBlockKeeps(s, s', t, me, exclusive);
  }

  lemma HeadsDiffer(s: State, i: int, k: int)
    requires Inv(s) && 0 <= i < |s.a.queue| && 0 <= k < |s.a.queue|
    ensures Head(s.a.queue[i]) == Head(s.a.queue[k]) ==> i == k
    ensures Head(s.a.queue[i]) in s.a.slot
  {
    assert EntryOk(s.c.mem, s.a.queue, i) && EntryOk(s.c.mem, s.a.queue, k);
    assert MemberOk(s.c, s.a, i, 0) && MemberOk(s.c, s.a, k, 0);
  }

  // The blocks that were queued before keep everything but the link of the last one.
  lemma AppendOldEntry(s: State, m0: Mem, me: Addr, b: Block, e: Entry, i: int)
    requires Inv(s) && s.a.queue != [] && me !in s.a.slot && Head(e) == me && e.members != []
    requires m0 == s.c.mem || m0 == s.c.mem.PutNode(me, NO_NODE)
    requires b.last == me
    requires 0 <= i < |s.a.queue|
    requires e.exclusive || s.a.queue[|s.a.queue| - 1].exclusive
    ensures EntryOk(Append(m0, me, b), s.a.queue + [e], i)
  {
    WordFacts(s);
    var q, n := s.a.queue, |s.a.queue|;
    HeadsDiffer(s, i, 0);
    HeadsDiffer(s, i, n - 1);
    HeadsDiffer(s, 0, n - 1);
    assert EntryOk(s.c.mem, q, i) && EntryOk(s.c.mem, q, 0) && EntryOk(s.c.mem, q, n - 1);
    var m := Append(m0, me, b);
    if !q[i].exclusive {
      forall j | 0 <= j < |q[i].members| ensures NodeOk(m, q[i].members, j) {
        assert NodeOk(s.c.mem, q[i].members, j);
        assert MemberOk(s.c, s.a, i, j);
      }
    }
  }

  lemma AppendRepresents(s: State, m0: Mem, t: Tid, me: Addr, b: Block, exclusive: bool)
    requires Arriving(s, t, me) && s.a.queue != []
    requires exclusive || s.a.queue[|s.a.queue| - 1].exclusive
    requires m0 == if exclusive then s.c.mem else s.c.mem.PutNode(me, NO_NODE)
    requires b == if exclusive then ExclusiveBlock(me, 0) else SharedBlock(me)
    ensures Represents(Append(m0, me, b), AddEntry(s.a, t, me, exclusive))
    ensures MemFrame(s, Append(m0, me, b))
    ensures me in Append(m0, me, b).blocks && !Append(m0, me, b).blocks[me].wake
  {
    WordFacts(s);
    var q, n, e := s.a.queue, |s.a.queue|, Entry(exclusive, [Member(t, me)]);
    var m := Append(m0, me, b);
    HeadsDiffer(s, 0, n - 1);
    HeadsDiffer(s, n - 1, 0);
    assert EntryOk(s.c.mem, q, 0) && EntryOk(s.c.mem, q, n - 1);
    assert Linked(m, q + [e]) by {
      forall i | 0 <= i < n + 1 ensures EntryOk(m, q + [e], i) {
        if i < n {
          AppendOldEntry(s, m0, me, b, e, i);
        } else if !exclusive {
          assert NodeOk(m, e.members, 0);
        }
      }
    }
  }

  lemma AppendKeeps(s: State, s': State, t: Tid, me: Addr, exclusive: bool)
    requires Arriving(s, t, me) && s.a.queue != [] && (exclusive ==> me !in s.c.mem.nodes)
    requires exclusive || s.a.queue[|s.a.queue| - 1].exclusive
    requires s'.a == AddEntry(s.a, t, me, exclusive)
    requires s'.c == s.c.(mem := s'.c.mem).At(t, Waiter(me, exclusive, true))
    requires s'.c.mem == if exclusive then Append(s.c.mem, me, ExclusiveBlock(me, 0))
                         else Append(s.c.mem.PutNode(me, NO_NODE), me, SharedBlock(me))
    ensures Inv(s')
  {
    AppendRepresents(s, if exclusive then s.c.mem else s.c.mem.PutNode(me, NO_NODE), t, me,
                     if exclusive then ExclusiveBlock(me, 0) else SharedBlock(me), exclusive);
    NewBlockKeeps(s, s', t, me, exclusive);
  }
}
