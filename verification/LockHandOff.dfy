/**
 Joining a shared block, giving the lock back and handing it to the first block of the chain.
 */
module LockHandOff {
  import opened LockMemory
  import opened LockMachine
  import opened LockInvariant
  import opened LockSteps

  // ---------------------------------------------------------------- joining a shared wait block

  lemma JoinOldEntry(s: State, t: Tid, me: Addr, i: int, k: int)
    requires Arriving(s, t, me)
    requires 0 <= i < |s.a.queue| && !s.a.queue[i].exclusive
    requires 0 <= k < |s.a.queue|
    ensures EntryOk(Join(s.c.mem, me, Head(s.a.queue[i])), JoinEntry(s.a, i, t, me).queue, k)
  {
    var q, q' := s.a.queue, JoinEntry(s.a, i, t, me).queue;
    var ms := q[i].members;
    var m := Join(s.c.mem, me, Head(q[i]));
    HeadsDiffer(s, i, k);
    assert EntryOk(s.c.mem, q, i) && EntryOk(s.c.mem, q, k);
    if k + 1 < |q| {
      assert EntryOk(s.c.mem, q, k + 1);
      assert Head(q'[k + 1]) == Head(q[k + 1]);
    }
    assert MemberOk(s.c, s.a, i, |ms| - 1);
    if !q[k].exclusive {
      forall j | 0 <= j < |q'[k].members| ensures NodeOk(m, q'[k].members, j) {
        if j < |q[k].members| {
          assert NodeOk(s.c.mem, q[k].members, j);
          assert MemberOk(s.c, s.a, k, j);
        }
      }
    }
  }

  lemma JoinRepresents(s: State, t: Tid, me: Addr, i: int)
    requires Arriving(s, t, me)
    requires 0 <= i < |s.a.queue| && !s.a.queue[i].exclusive
    ensures Represents(Join(s.c.mem, me, Head(s.a.queue[i])), JoinEntry(s.a, i, t, me))
    ensures MemFrame(s, Join(s.c.mem, me, Head(s.a.queue[i])))
    ensures Join(s.c.mem, me, Head(s.a.queue[i])).nodes.Keys == s.c.mem.nodes.Keys + {me}
    ensures !Join(s.c.mem, me, Head(s.a.queue[i])).NodeAt(me).wake
  {
    var q, q' := s.a.queue, JoinEntry(s.a, i, t, me).queue;
    var m := Join(s.c.mem, me, Head(q[i]));
    assert EntryOk(s.c.mem, q, i) && EntryOk(s.c.mem, q, 0) && EntryOk(s.c.mem, q, |q| - 1);
    assert MemberOk(s.c, s.a, i, |q[i].members| - 1);
    assert NodeOk(s.c.mem, q[i].members, |q[i].members| - 1);
    HeadsDiffer(s, i, 0);
    forall k | 0 <= k < |q'| ensures EntryOk(m, q', k) {
      JoinOldEntry(s, t, me, i, k);
    }
    assert Head(q'[0]) == Head(q[0]) && Head(q'[|q| - 1]) == Head(q[|q| - 1]);
  }

  ghost predicate Joining(s: State, s': State, t: Tid, me: Addr, i: int) {
    && Arriving(s, t, me)
    && 0 <= i < |s.a.queue| && !s.a.queue[i].exclusive
    && s'.a == JoinEntry(s.a, i, t, me)
    && s'.c == s.c.(mem := s'.c.mem).At(t, Waiter(me, false, false))
    && MemFrame(s, s'.c.mem)
    && s'.c.mem.nodes.Keys == s.c.mem.nodes.Keys + {me}
    && !s'.c.mem.NodeAt(me).wake
  }

  lemma JoinFrame(s: State, s': State, t: Tid, me: Addr, i: int)
    requires Joining(s, s', t, me, i)
    ensures Frame(s, s', t) && QueueGrows(s.a, s'.a, t)
  {
  }

  lemma JoinerOk(s: State, s': State, t: Tid, me: Addr, i: int)
    requires Joining(s, s', t, me, i)
    ensures ThreadOk(s'.c, s'.a, t)
  {
    assert s'.a.queue[i].members[|s.a.queue[i].members|] == Member(t, me);
    assert QueuedAt(s'.a, t, me, false);
  }

  lemma JoinMembers(s: State, s': State, t: Tid, me: Addr, i: int)
    requires Joining(s, s', t, me, i) && Frame(s, s', t) && QueueGrows(s.a, s'.a, t)
    ensures MembersOk(s'.c, s'.a)
  {
    var q', n := s'.a.queue, |s.a.queue[i].members|;
    OldMembers(s, s', t);
    assert q'[i].members[n] == Member(t, me);
    forall k, j | 0 <= k < |q'| && 0 <= j < |q'[k].members| ensures MemberOk(s'.c, s'.a, k, j) {
      if k == i && j == n {
      } else {
        assert 0 <= j < |s.a.queue[k].members|;
      }
    }
  }

  lemma JoinKeeps(s: State, s': State, t: Tid, me: Addr, i: int)
    requires Arriving(s, t, me)
    requires 0 <= i < |s.a.queue| && !s.a.queue[i].exclusive
    requires s'.a == JoinEntry(s.a, i, t, me)
    requires s'.c == s.c.(mem := Join(s.c.mem, me, Head(s.a.queue[i]))).At(t, Waiter(me, false, false))
    ensures Inv(s')
  {
    JoinRepresents(s, t, me, i);
    JoinFrame(s, s', t, me, i);
    JoinerOk(s, s', t, me, i);
    OtherThreads(s, s', t);
    JoinMembers(s, s', t, me, i);
  }

  // ------------------------------------------------------------------------------ handing off

  lemma TidsDistinct(s: State, i: int)
    requires Inv(s) && 0 <= i < |s.a.queue|
    ensures |Tids(s.a.queue[i].members)| == |s.a.queue[i].members|
  {
    var ms := s.a.queue[i].members;
    forall j, k | 0 <= j < k < |ms| ensures ms[j].tid != ms[k].tid {
      assert MemberOk(s.c, s.a, i, j) && MemberOk(s.c, s.a, i, k);
    }
    DistinctCount(ms);
  }

  lemma {:induction false} DistinctCount(ms: seq<Member>)
    requires forall j, k | 0 <= j < k < |ms| :: ms[j].tid != ms[k].tid
    ensures |Tids(ms)| == |ms|
  {
    if ms == [] {
      assert Tids(ms) == {};
    } else {
      var n := |ms| - 1;
      DistinctCount(ms[..n]);
      assert Tids(ms) == Tids(ms[..n]) + {ms[n].tid} by {
        forall x | x in Tids(ms) ensures x in Tids(ms[..n]) + {ms[n].tid} {
          var j :| 0 <= j < |ms| && ms[j].tid == x;
          if j < n {
            assert ms[..n][j].tid == x;
          }
        }
        forall x | x in Tids(ms[..n]) + {ms[n].tid} ensures x in Tids(ms) {
          if x in Tids(ms[..n]) {
            var j :| 0 <= j < n && ms[..n][j].tid == x;
            assert ms[j].tid == x;
          }
        }
      }
      assert ms[n].tid !in Tids(ms[..n]);
    }
  }

  // t is the only holder, in the one way or the other, and there is a waiter.
  ghost predicate Leaving(s: State, t: Tid) {
    && Inv(s)
    && s.a.queue != []
    && t !in s.a.todo
    && !s.c.PcOf(t).WaitS? && !s.c.PcOf(t).WaitX?
    && ((s.a.owner == Some(t) && s.a.holders == {}) || (s.a.owner == None && s.a.holders == {t}))
  }

  function Served(a: Abs, t: Tid): Abs {
    Serve(a.(owner := None, holders := {}), t)
  }

  // A waiting thread is a member of the first block exactly if its slot says so.
  lemma FirstMembers(s: State, u: Tid)
    requires Inv(s) && s.a.queue != []
    ensures u in Tids(s.a.queue[0].members) <==>
            var p := s.c.PcOf(u);
            (p.WaitS? || p.WaitX?) && p.me in s.a.slot && s.a.slot[p.me].0 == s.a.served
    ensures u in Tids(s.a.queue[0].members) ==>
              var p := s.c.PcOf(u);
              && WaitsFor(p, p.me, s.a.queue[0].exclusive)
              && p.me in Nodes(s.a.queue[0].members)
  {
    var ms := s.a.queue[0].members;
    var p := s.c.PcOf(u);
    assert ThreadOk(s.c, s.a, u);
    if u in Tids(ms) {
      var j :| 0 <= j < |ms| && ms[j].tid == u;
      assert MemberOk(s.c, s.a, 0, j);
      assert Nodes(ms)[j] == p.me;
    }
    if (p.WaitS? || p.WaitX?) && p.me in s.a.slot && s.a.slot[p.me].0 == s.a.served {
      assert QueuedAt(s.a, u, p.me, p.WaitX?);
      assert ms[s.a.slot[p.me].1] == Member(u, p.me);
    }
  }

  ghost predicate ServedFrame(s: State, s': State, t: Tid) {
    && Leaving(s, t)
    && s'.a == Served(s.a, t)
    && s'.c == s.c.(mem := s'.c.mem).At(t, s'.c.PcOf(t))
    && s'.c.mem.nodes == s.c.mem.nodes
    && (forall n | n in s.c.mem.blocks ::
          n in s'.c.mem.blocks && s'.c.mem.blocks[n].wake == s.c.mem.blocks[n].wake)
  }

  lemma ServedOther(s: State, s': State, t: Tid, u: Tid)
    requires ServedFrame(s, s', t) && u != t
    ensures ThreadOk(s'.c, s'.a, u)
  {
    hide EntryOk;
    assert ThreadOk(s.c, s.a, u);
    FirstMembers(s, u);
    WordFacts(s);
    var p := s.c.PcOf(u);
    var h := s.a.queue[0];
    if p.WaitS? || p.WaitX? {
      if Granted(s.a, p.me) {
        // Only t holds the lock.
        assert false;
      } else if s.a.slot[p.me].0 == s.a.served {
        assert p.me in s'.a.todo[t];
        assert Pending(s'.a, p.me);
        if h.exclusive {
          assert |h.members| == 1;
          assert h.members[0].tid == u;
        }
      } else {
        assert QueuedAt(s.a, u, p.me, p.WaitX?);
        assert QueuedAt(s'.a, u, p.me, p.WaitX?);
      }
    }
    if p.WakeAll? {
      ChainKept(s.c, s.a, s'.c, s'.a, s.a.todo[u]);
    }
    if h.exclusive && s'.a.owner == Some(u) {
      assert u in Tids(h.members) by {
        assert h.members[0].tid == u;
      }
    }
  }

  lemma ServedMembers(s: State, s': State, t: Tid)
    requires ServedFrame(s, s', t)
    ensures MembersOk(s'.c, s'.a)
  {
    WordFacts(s);
    forall i, j | 0 <= i < |s'.a.queue| && 0 <= j < |s'.a.queue[i].members|
      ensures MemberOk(s'.c, s'.a, i, j)
    {
      assert s'.a.queue[i] == s.a.queue[i + 1];
      assert MemberOk(s.c, s.a, i + 1, j);
    }
  }

  // The releaser has to wake the members of the block.
  lemma ServedSelf(s: State, s': State, t: Tid)
    requires ServedFrame(s, s', t)
    requires Represents(s'.c.mem, s'.a)
    requires s'.c.PcOf(t) == if s.a.queue[0].exclusive then WakeOne(Head(s.a.queue[0]))
                             else WakeAll(Head(s.a.queue[0]))
    ensures ThreadOk(s'.c, s'.a, t)
  {
    WordFacts(s);
    var h := s.a.queue[0];
    assert ThreadOk(s.c, s.a, t);
    FirstMembers(s, t);
    assert Outside(s'.a, t) by {
      if h.exclusive {
        assert h.members[0].tid in Tids(h.members);
      }
    }
    var ns := Nodes(h.members);
    assert s'.a.todo[t] == ns;
    forall j | 0 <= j < |ns| ensures Granted(s'.a, ns[j]) {
      assert MemberOk(s.c, s.a, 0, j);
      assert ns[j] == h.members[j].node;
    }
    if !h.exclusive {
      forall j | 0 <= j < |ns| ensures LinkOk(s'.c, s'.a, ns, j) {
        assert NodeOk(s.c.mem, h.members, j);
      }
    } else {
      assert ns[0] == Head(h);
      assert MemberOk(s.c, s.a, 0, 0);
      assert ThreadOk(s.c, s.a, h.members[0].tid);
    }
  }

  lemma ServeKeeps(s: State, s': State, t: Tid)
    requires ServedFrame(s, s', t)
    requires Represents(s'.c.mem, s'.a)
    requires s'.c.PcOf(t) == if s.a.queue[0].exclusive then WakeOne(Head(s.a.queue[0]))
                             else WakeAll(Head(s.a.queue[0]))
    ensures Inv(s')
  {
    hide ThreadOk, EntryOk, MemberOk;
    forall u: Tid ensures ThreadOk(s'.c, s'.a, u) {
      if u != t {
        ServedOther(s, s', t, u);
      } else {
        ServedSelf(s, s', t);
      }
    }
    ServedMembers(s, s', t);
  }

  // The rest of the chain after the first block was taken off and the second one told about the end.
  lemma RestLinked(s: State, m: Mem)
    requires Inv(s) && s.a.queue != []
    requires m.nodes == s.c.mem.nodes
    requires forall n | n in s.c.mem.blocks && n != Head(s.a.queue[0]) ::
               && n in m.blocks
               && ((|s.a.queue| > 1 && n == Head(s.a.queue[1])) || m.blocks[n] == s.c.mem.blocks[n])
    requires |s.a.queue| > 1 ==>
               && Head(s.a.queue[1]) in m.blocks
               && var b, b' := s.c.mem.BlockAt(Head(s.a.queue[1])), m.blocks[Head(s.a.queue[1])];
               && b' == b.(last := b'.last, sharedCount := b'.sharedCount)
               && (b.exclusive || b'.sharedCount == b.sharedCount)
    ensures Linked(m, s.a.queue[1..])
  {
    var q, q' := s.a.queue, s.a.queue[1..];
    forall i | 0 <= i < |q'| ensures EntryOk(m, q', i) {
      assert q'[i] == q[i + 1];
      assert EntryOk(s.c.mem, q, i + 1);
      HeadsDiffer(s, i + 1, 0);
      HeadsDiffer(s, i + 1, 1);
      if !q'[i].exclusive {
        forall j | 0 <= j < |q'[i].members| ensures NodeOk(m, q'[i].members, j) {
          assert NodeOk(s.c.mem, q[i + 1].members, j);
        }
      }
    }
  }

  lemma HandOffRepresents(s: State, t: Tid)
    requires Leaving(s, t) && s.a.owner == Some(t)
    ensures Represents(HandOff(s.c.mem), Served(s.a, t))
  {
    WordFacts(s);
    TidsDistinct(s, 0);
    var q, m := s.a.queue, HandOff(s.c.mem);
    var ms := q[0].members;
    assert ms[0].tid in Tids(ms);
    if |q| > 1 {
      assert EntryOk(s.c.mem, q, 1);
      HeadsDiffer(s, 0, 1);
      HeadsDiffer(s, 1, 0);
      assert MemberOk(s.c, s.a, 1, 0);
    }
    RestLinked(s, m);
  }

  lemma LastSharedRepresents(s: State, t: Tid)
    requires Leaving(s, t) && s.a.holders == {t}
    ensures Represents(HandOffLastShared(DropSharer(s.c.mem)), Served(s.a, t))
  {
    WordFacts(s);
    var q, m := s.a.queue, HandOffLastShared(DropSharer(s.c.mem));
    if |q| > 1 {
      assert EntryOk(s.c.mem, q, 1);
      HeadsDiffer(s, 0, 1);
      HeadsDiffer(s, 1, 0);
      assert MemberOk(s.c, s.a, 1, 0);
    }
    RestLinked(s, m);
  }
}
