/**
 The memory of the slim reader/writer lock: the lock word, the wait blocks and the shared wake
 nodes, and the bodies that run between a successful AcquireWaitBlockLock and the release of the
 contention lock.  Each body is an imperative method of class SrwLock, proved equal to a function
 on memory values, which the transition system of LockMachine uses.
 */
module LockMemory {
  // An address without its four low bits, which are zero in every wait block (align(16)).
  type Addr = nat
  const NULL: Addr := 0

  // The machine word: three flag bits and everything above the four flag bits, which is a shared
  // count or the address of the first wait block.  The contention lock bit is never visible
  // between two steps, so it has no field.
  datatype Word = Word(owned: bool, contended: bool, shared: bool, high: nat)

  const FREE := Word(false, false, false, 0)
  const SIMPLE_EXCLUSIVE := Word(true, false, false, 0)

  function SimpleShared(count: nat): Word {
    Word(true, false, true, count)
  }

  // The word never claims waiters or sharers without being owned, and a word that is neither
  // shared nor contended carries nothing in its upper bits.
  predicate WellFormed(w: Word) {
    && (w.shared ==> w.owned)
    && (w.contended ==> w.owned && w.high != NULL)
    && (!w.shared && !w.contended ==> w.high == 0)
    && (w.shared && !w.contended ==> w.high > 0)
  }

  datatype Block = Block(exclusive: bool, sharedCount: int, next: Addr, last: Addr,
                         wake: bool, wakeChain: Addr, lastWake: Addr)

  datatype WakeNode = WakeNode(wake: bool, next: Addr)

  const NO_BLOCK := Block(false, 0, NULL, NULL, false, NULL, NULL)
  const NO_NODE := WakeNode(false, NULL)

  datatype Mem = Mem(word: Word, blocks: map<Addr, Block>, nodes: map<Addr, WakeNode>) {
    function BlockAt(p: Addr): Block {
      if p in blocks then blocks[p] else NO_BLOCK
    }

    function NodeAt(p: Addr): WakeNode {
      if p in nodes then nodes[p] else NO_NODE
    }

    function First(): Block {
      BlockAt(word.high)
    }

    function PutBlock(p: Addr, b: Block): Mem {
      this.(blocks := blocks[p := b])
    }

    function PutNode(p: Addr, n: WakeNode): Mem {
      this.(nodes := nodes[p := n])
    }
  }

  function ExclusiveBlock(me: Addr, count: int): Block {
    Block(true, count, NULL, me, false, NULL, NULL)
  }

  function SharedBlock(me: Addr): Block {
    Block(false, 1, NULL, me, false, me, me)
  }

  // The new block goes behind the current last one, and only the first block learns of it.
  function Append(m: Mem, me: Addr, b: Block): Mem {
    var first := m.word.high;
    var m1 := m.PutBlock(me, b);
    var last := m1.BlockAt(first).last;
    var m2 := m1.PutBlock(last, m1.BlockAt(last).(next := me));
    m2.PutBlock(first, m2.BlockAt(first).(last := me))
  }

  // It does not matter whether the block is there already.
  lemma AppendWritten(m: Mem, me: Addr, b: Block)
    ensures Append(m.PutBlock(me, b), me, b) == Append(m, me, b)
  {
    assert m.PutBlock(me, b).PutBlock(me, b) == m.PutBlock(me, b);
  }

  // A shared acquirer joins the shared block sh as its newest wake node.
  function Join(m: Mem, me: Addr, sh: Addr): Mem {
    var tail := m.BlockAt(sh).lastWake;
    var m1 := m.PutNode(tail, m.NodeAt(tail).(next := me));
    var m2 := m1.PutNode(me, NO_NODE);
    m2.PutBlock(sh, m2.BlockAt(sh).(sharedCount := m2.BlockAt(sh).sharedCount + 1, lastWake := me))
  }

  // An exclusive acquirer goes behind all others.
  function QueueExclusive(m: Mem, me: Addr): Mem {
    Append(m, me, ExclusiveBlock(me, 0))
  }

  // A shared acquirer behind an exclusive owner joins the last block if it is shared.
  function QueueSharedBehindOwner(m: Mem, me: Addr): Mem {
    var last := m.First().last;
    if m.BlockAt(last).exclusive then Append(m.PutNode(me, NO_NODE), me, SharedBlock(me))
    else Join(m, me, last)
  }

  // A shared acquirer behind sharers joins the first block if it is shared.
  function QueueSharedBehindSharers(m: Mem, me: Addr): Mem {
    if m.First().exclusive then QueueSharedBehindOwner(m, me)
    else Join(m, me, m.word.high)
  }

  // The exclusive owner leaves and the first block is taken off the chain.
  function HandOff(m: Mem): Mem {
    var b := m.First();
    if b.next != NULL then
      var n := m.BlockAt(b.next).(last := b.last);
      var n' := if b.exclusive then n else n.(sharedCount := b.sharedCount);
      m.PutBlock(b.next, n').(word := Word(true, true, !b.exclusive, b.next))
    else if b.exclusive then m.(word := SIMPLE_EXCLUSIVE)
    else m.(word := SimpleShared(if b.sharedCount > 0 then b.sharedCount else 0))
  }

  // One of the sharers leaves; the first block counts them.
  function DropSharer(m: Mem): Mem {
    m.PutBlock(m.word.high, m.First().(sharedCount := m.First().sharedCount - 1))
  }

  // The last sharer leaves and the first block, an exclusive one, is taken off.
  function HandOffLastShared(m: Mem): Mem {
    var b := m.First();
    if b.next != NULL then
      m.PutBlock(b.next, m.BlockAt(b.next).(last := b.last)).(word := Word(true, true, false, b.next))
    else m.(word := SIMPLE_EXCLUSIVE)
  }

  class SrwLock {
    var word: Word
    var blocks: map<Addr, Block>
    var nodes: map<Addr, WakeNode>

    ghost function Memory(): Mem
      reads this
    {
      Mem(word, blocks, nodes)
    }

    // Every pointer that the contended sections follow leads to a block or node that exists.
    ghost predicate Sound()
      reads this
    {
      && word.high in blocks
      && blocks[word.high].last in blocks
      && (blocks[word.high].next != NULL ==> blocks[word.high].next in blocks)
      && (!blocks[word.high].exclusive ==> blocks[word.high].lastWake in nodes)
      && (!blocks[blocks[word.high].last].exclusive ==> blocks[blocks[word.high].last].lastWake in nodes)
    }

    constructor ()
      ensures Memory() == Mem(FREE, map[], map[])
    {
      word, blocks, nodes := FREE, map[], map[];
    }

    method LinkLast(me: Addr)
      requires Sound() && me in blocks && me != word.high
      requires blocks[word.high].last != me
      modifies this
      ensures word == old(word) && nodes == old(nodes)
      ensures Memory() == Append(old(Memory()), me, old(blocks[me]))
    {
      var first := word.high;
      var last := blocks[first].last;
      blocks := blocks[last := blocks[last].(next := me)];
      blocks := blocks[first := blocks[first].(last := me)];
    }

    method JoinShared(me: Addr, sh: Addr)
      requires sh in blocks && blocks[sh].lastWake in nodes
      modifies this
      ensures Memory() == Join(old(Memory()), me, sh)
    {
      var tail := blocks[sh].lastWake;
      nodes := nodes[tail := nodes[tail].(next := me)];
      blocks := blocks[sh := blocks[sh].(sharedCount := blocks[sh].sharedCount + 1)];
      nodes := nodes[me := WakeNode(false, NULL)];
      blocks := blocks[sh := blocks[sh].(lastWake := me)];
    }

    // The AddWaitBlock section of AcquireSRWLockExclusive.
    method AddExclusive(me: Addr)
      requires Sound() && me !in blocks
      modifies this
      ensures Memory() == QueueExclusive(old(Memory()), me)
    {
      blocks := blocks[me := Block(true, 0, NULL, me, false, NULL, NULL)];
      LinkLast(me);
    }

    // The contended section of AcquireSRWLockShared while the lock is held exclusively.
    method AddSharedBehindOwner(me: Addr) returns (firstWait: bool)
      requires Sound() && me !in blocks && me !in nodes
      modifies this
      ensures Memory() == QueueSharedBehindOwner(old(Memory()), me)
      ensures firstWait == old(blocks[blocks[word.high].last].exclusive)
    {
      hide Append, Join;
      var shared := blocks[word.high].last;
      if blocks[shared].exclusive {
        nodes := nodes[me := WakeNode(false, NULL)];
        blocks := blocks[me := Block(false, 0, NULL, me, false, me, NULL)];
        blocks := blocks[me := blocks[me].(sharedCount := blocks[me].sharedCount + 1, lastWake := me)];
        ghost var m := old(Memory()).PutNode(me, NO_NODE);
        AppendWritten(m, me, SharedBlock(me));
        assert Memory() == m.PutBlock(me, SharedBlock(me));
        LinkLast(me);
        firstWait := true;
      } else {
        JoinShared(me, shared);
        firstWait := false;
      }
    }

    // The contended section of AcquireSRWLockShared chosen on a word that looked shared.
    method AddSharedBehindSharers(me: Addr) returns (firstWait: bool)
      requires Sound() && me !in blocks && me !in nodes
      modifies this
      ensures Memory() == QueueSharedBehindSharers(old(Memory()), me)
      ensures firstWait == old(blocks[word.high].exclusive && blocks[blocks[word.high].last].exclusive)
    {
      firstWait := false;
      if blocks[word.high].exclusive {
        firstWait := AddSharedBehindOwner(me);
      } else {
        JoinShared(me, word.high);
      }
    }

    method ReleaseWaitBlockLockExclusive()
      requires Sound()
      modifies this
      ensures Memory() == HandOff(old(Memory()))
    {
      var first := blocks[word.high];
      var newValue: Word;
      if first.next != NULL {
        newValue := Word(true, true, false, first.next);
        if !first.exclusive {
          blocks := blocks[first.next := blocks[first.next].(sharedCount := first.sharedCount)];
          newValue := newValue.(shared := true);
        }
        blocks := blocks[first.next := blocks[first.next].(last := first.last)];
      } else if first.exclusive {
        newValue := SIMPLE_EXCLUSIVE;
      } else {
        newValue := SimpleShared(if first.sharedCount > 0 then first.sharedCount else 0);
      }
      word := newValue;
    }

    // The contended section of ReleaseSRWLockShared.
    method ReleaseSharedContended() returns (lastShared: bool)
      requires Sound() && (blocks[word.high].next != word.high)
      modifies this
      ensures lastShared == (old(blocks[word.high].sharedCount) == 1)
      ensures Memory() == if lastShared then HandOffLastShared(DropSharer(old(Memory())))
                          else DropSharer(old(Memory()))
    {
      var p := word.high;
      blocks := blocks[p := blocks[p].(sharedCount := blocks[p].sharedCount - 1)];
      lastShared := blocks[p].sharedCount == 0;
      if lastShared {
        var next := blocks[p].next;
        if next != NULL {
          blocks := blocks[next := blocks[next].(last := blocks[p].last)];
          word := Word(true, true, false, next);
        } else {
          word := SIMPLE_EXCLUSIVE;
        }
      }
    }
  }
}
