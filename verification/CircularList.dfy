/**
 The intrusive circular list (src/bst/list.hpp): nodes that relink their neighbours when they are built
 and destroyed, around a head node without an object.
 */
module CircularList {
  import opened Bytes

  predicate NoDuplicates<T(==)>(s: seq<T>) {
    forall i, j | 0 <= i < j < |s| :: s[i] != s[j]
  }

  // ------------------------------------------------------------------------------------ whole runs

  // The list as a sequence, with the objects it has deleted and those it has handed back.
  datatype Value<T> = Value(contents: seq<T>, deleted: seq<T>, popped: seq<T>)

  // None stands for a null pointer.
  datatype Op<T> = Add(obj: Option<T>) | Del(obj: Option<T>) | Pop(obj: Option<T>) | Clear

  predicate Holds<T(==)>(s: seq<T>, obj: Option<T>) {
    obj.Some? && obj.value in s
  }

  function Without<T(==)>(s: seq<T>, x: T): seq<T> {
    if s == [] then [] else if s[0] == x then s[1..] else [s[0]] + Without(s[1..], x)
  }

  function Apply<T(==)>(v: Value<T>, op: Op<T>): (Value<T>, bool) {
    match op
    case Add(obj) =>
      if obj.None? || obj.value in v.contents then (v, false)
      else (v.(contents := v.contents + [obj.value]), true)
    case Del(obj) =>
      if !Holds(v.contents, obj) then (v, false)
      else (v.(contents := Without(v.contents, obj.value), deleted := v.deleted + [obj.value]), true)
    case Pop(obj) =>
      if !Holds(v.contents, obj) then (v, false)
      else (v.(contents := Without(v.contents, obj.value), popped := v.popped + [obj.value]), true)
    case Clear => (Value([], v.deleted + v.contents, v.popped), true)
  }

  function Run<T(==)>(ops: seq<Op<T>>): Value<T> {
    if ops == [] then Value([], [], []) else Apply(Run(ops[..|ops| - 1]), ops[|ops| - 1]).0
  }

  // The objects that a run has successfully added.
  function Added<T(==)>(ops: seq<Op<T>>): multiset<T> {
    if ops == [] then multiset{}
    else
      var rest, op := ops[..|ops| - 1], ops[|ops| - 1];
      Added(rest) + if op.Add? && Apply(Run(rest), op).1 then multiset{op.obj.value} else multiset{}
  }

  lemma {:induction false} WithoutOne<T>(s: seq<T>, x: T)
    requires NoDuplicates(s) && x in s
    ensures x !in Without(s, x)
    ensures multiset(s) == multiset(Without(s, x)) + multiset{x}
    ensures forall y | y != x :: y in Without(s, x) <==> y in s
    ensures NoDuplicates(Without(s, x))
  {
    assert s == [s[0]] + s[1..];
    if s[0] != x {
      WithoutOne(s[1..], x);
      assert s[0] !in s[1..];
    }
  }

  // One operation keeps the list free of duplicates and loses no object.
  lemma OneOperation<T>(v: Value<T>, op: Op<T>)
    requires NoDuplicates(v.contents)
    ensures var (r, done) := Apply(v, op);
            && NoDuplicates(r.contents)
            && (multiset(r.contents) + multiset(r.deleted) + multiset(r.popped)
                == multiset(v.contents) + multiset(v.deleted) + multiset(v.popped)
                   + if op.Add? && done then multiset{op.obj.value} else multiset{})
  {
    if (op.Del? || op.Pop?) && Holds(v.contents, op.obj) {
      WithoutOne(v.contents, op.obj.value);
    }
  }

  // What each operation answers and does: add refuses null and what is there, del and pop take out the object at its
  // first place and refuse what is not there, and only del and clear delete.
  lemma AppliedExactly<T>(v: Value<T>, op: Op<T>) returns (k: nat)
    ensures var (r, done) := Apply(v, op);
            && (done <==> op.Clear? || (op.obj.Some? && (op.Add? <==> op.obj.value !in v.contents)))
            && (!done ==> r == v)
            && (done ==>
                  match op
                  case Add(obj) => r == v.(contents := v.contents + [obj.value])
                  case Del(obj) =>
                    IsFirst(v.contents, obj.value, k)
                    && r == Value(v.contents[..k] + v.contents[k + 1..], v.deleted + [obj.value], v.popped)
                  case Pop(obj) =>
                    IsFirst(v.contents, obj.value, k)
                    && r == Value(v.contents[..k] + v.contents[k + 1..], v.deleted, v.popped + [obj.value])
                  case Clear => r == Value([], v.deleted + v.contents, v.popped))
  {
    k := 0;
    if (op.Del? || op.Pop?) && Holds(v.contents, op.obj) {
      k := TakenOut(v.contents, op.obj.value);
    }
  }

  predicate IsFirst<T(==)>(s: seq<T>, x: T, k: nat) {
    k < |s| && s[k] == x && x !in s[..k]
  }

  lemma {:induction false} TakenOut<T>(s: seq<T>, x: T) returns (k: nat)
    requires x in s
    ensures IsFirst(s, x, k) && Without(s, x) == s[..k] + s[k + 1..]
  {
    if s[0] == x {
      k := 0;
    } else {
      var j := TakenOut(s[1..], x);
      k := j + 1;
      assert s[..k] == [s[0]] + s[1..][..j] && s[k + 1..] == s[1..][j + 1..];
    }
  }

  // Over any run of add, del, pop and clear the list has no duplicates, and every added object is in the
  // list, deleted or popped, exactly as often as it was added: none is leaked and none deleted twice.
  lemma {:induction false} ObjectsAreConserved<T>(ops: seq<Op<T>>)
    ensures var v := Run(ops);
            && NoDuplicates(v.contents)
            && multiset(v.contents) + multiset(v.deleted) + multiset(v.popped) == Added(ops)
  {
    if ops != [] {
      ObjectsAreConserved(ops[..|ops| - 1]);
      OneOperation(Run(ops[..|ops| - 1]), ops[|ops| - 1]);
    }
  }

  // -------------------------------------------------------------------------------------- the ring

  class ListNode<T> {
    var prev: ListNode<T>
    var next: ListNode<T>
    var obj: Option<T>

    constructor Head()
      ensures prev == this && next == this && obj == None
    {
      prev, next, obj := this, this, None;
    }

    constructor Between(p: ListNode<T>, n: ListNode<T>, o: Option<T>)
      modifies {p, n}
      ensures prev == p && next == n && obj == o
      ensures p.next == this && n.prev == this && p.obj == old(p.obj) && n.obj == old(n.obj)
      ensures p != n ==> p.prev == old(p.prev) && n.next == old(n.next)
    {
      prev, next, obj := p, n, o;
      new;
      next.prev := this;
      prev.next := this;
    }

    // The destructor; freed is the object that it deletes.
    method Destroy() returns (freed: Option<T>)
      requires prev != this && next != this
      modifies prev`next, next`prev
      ensures old(prev).next == old(next) && old(next).prev == old(prev)
      ensures freed == obj
    {
      prev.next := next;
      next.prev := prev;
      freed := obj;
    }
  }

  // The node after the i-th one, around the ring.
  function After(n: nat, i: nat): nat {
    if i + 1 >= n then 0 else i + 1
  }

  ghost predicate Linked<T>(ring: seq<ListNode<T>>, i: nat)
    requires i < |ring|
    reads ring
  {
    ring[i].next == ring[After(|ring|, i)] && ring[After(|ring|, i)].prev == ring[i]
  }

  // The ring begins at the head, next and prev are inverse to each other all the way round, and the nodes
  // after the head, the k-th possibly excepted, carry the contents.
  ghost predicate IsRingBut<T(!new)>(ring: seq<ListNode<T>>, base: ListNode<T>, contents: seq<T>, k: nat)
    reads ring
  {
    && |ring| == |contents| + 1
    && ring[0] == base
    && (forall i, j | 0 <= i < j < |ring| :: ring[i] != ring[j])
    && (forall i: nat | i < |ring| :: Linked(ring, i))
    && (forall i | 1 <= i < |ring| && i != k :: ring[i].obj == Some(contents[i - 1]))
  }

  ghost predicate IsRing<T(!new)>(ring: seq<ListNode<T>>, base: ListNode<T>, contents: seq<T>)
    reads ring
  {
    IsRingBut(ring, base, contents, 0)
  }

  // What the destructor deletes along with the node.
  function Objects<T>(freed: Option<T>): seq<T> {
    if freed.Some? then [freed.value] else []
  }

  // The last node points back at the head, and two nodes of the ring differ.
  lemma Ends<T(!new)>(ring: seq<ListNode<T>>, base: ListNode<T>, contents: seq<T>)
    requires IsRing(ring, base, contents)
    ensures base == ring[0] && base.prev == ring[|ring| - 1] && base.next == ring[After(|ring|, 0)]
    ensures contents != [] ==> ring[1] != base
  {
    assert Linked(ring, 0) && Linked(ring, |ring| - 1);
  }

  // If the neighbours of the k-th node are linked to each other, the ring without it is a ring.
  lemma RingWithout<T(!new)>(ring: seq<ListNode<T>>, less: seq<ListNode<T>>, k: nat, contents: seq<T>,
                              nodes: set<ListNode<T>>)
    requires 1 <= k < |ring| == |contents| + 1 && less == ring[..k] + ring[k + 1..]
    requires forall i, j | 0 <= i < j < |ring| :: ring[i] != ring[j]
    requires forall i | 1 <= i < |ring| && i != k :: ring[i].obj == Some(contents[i - 1])
    requires forall i: nat | i < |ring| && i != k - 1 && i != k :: Linked(ring, i)
    requires ring[k - 1].next == ring[After(|ring|, k)] && ring[After(|ring|, k)].prev == ring[k - 1]
    requires forall i | 0 <= i < |ring| :: ring[i] in nodes
    ensures IsRing(less, ring[0], contents[..k - 1] + contents[k..])
    ensures forall i | 0 <= i < |less| :: less[i] in nodes
  {
    forall i: nat | i < |less|
      ensures Linked(less, i)
    {
      var j := if i < k then i else i + 1;
      assert less[i] == ring[j];
      assert less[After(|less|, i)] == if i == k - 1 then ring[After(|ring|, k)] else ring[After(|ring|, j)];
      if j != k - 1 {
        assert Linked(ring, j);
      }
    }
  }

  // If a new node is linked between the last node and the head, the longer ring is a ring.
  lemma RingWith<T(!new)>(ring: seq<ListNode<T>>, more: seq<ListNode<T>>, node: ListNode<T>, contents: seq<T>, x: T,
                           nodes: set<ListNode<T>>)
    requires |ring| == |contents| + 1 && more == ring + [node] && node !in ring && node.obj == Some(x)
    requires forall i, j | 0 <= i < j < |ring| :: ring[i] != ring[j]
    requires forall i | 1 <= i < |ring| :: ring[i].obj == Some(contents[i - 1])
    requires forall i: nat | i + 1 < |ring| :: Linked(ring, i)
    requires ring[|ring| - 1].next == node && node.prev == ring[|ring| - 1]
    requires node.next == ring[0] && ring[0].prev == node
    requires node in nodes && forall i | 0 <= i < |ring| :: ring[i] in nodes
    ensures IsRing(more, ring[0], contents + [x])
    ensures forall i | 0 <= i < |more| :: more[i] in nodes
  {
    forall i: nat | i < |more|
      ensures Linked(more, i)
    {
      assert i + 1 < |ring| ==> Linked(ring, i);
    }
  }

  lemma {:induction false} WithoutAt<T>(s: seq<T>, i: nat)
    requires i < |s| && NoDuplicates(s)
    ensures Without(s, s[i]) == s[..i] + s[i + 1..]
  {
    if i > 0 {
      WithoutAt(s[1..], i - 1);
      assert s[..i] == [s[0]] + s[1..][..i - 1];
    }
  }

  class List<T(==,!new)> {
    const base: ListNode<T>
    var isEmpty: bool

    ghost var nodes: set<ListNode<T>>  // all nodes that were ever built
    ghost var ring: seq<ListNode<T>>
    ghost var contents: seq<T>
    ghost var deleted: seq<T>
    ghost var popped: seq<T>

    ghost function V(): Value<T>
      reads `contents, `deleted, `popped
    {
      Value(contents, deleted, popped)
    }

    ghost predicate Ring()
      reads `nodes, `ring, `contents, nodes
    {
      && (forall i | 0 <= i < |ring| :: ring[i] in nodes)
      && IsRing(ring, base, contents) && NoDuplicates(contents)
    }

    ghost predicate Valid()
      reads this, nodes
    {
      Ring() && isEmpty == (contents == [])
    }

    constructor ()
      ensures Valid() && fresh(nodes) && V() == Value([], [], [])
    {
      base := new ListNode<T>.Head();
      isEmpty := true;
      contents, deleted, popped := [], [], [];
      new;
      ring, nodes := [base], {base};
    }

    method IsEmpty() returns (r: bool)
      requires Valid()
      ensures r == (contents == [])
    {
      r := isEmpty;
    }

    method IsEmptyInternal() returns (r: bool)
      requires Ring()
      ensures r == (contents == [])
    {
      r := base.next == base && base.prev == base;
      assert Linked(ring, 0) && Linked(ring, |ring| - 1);
    }

    // k is the node's place in the ring.
    method FindNode(obj: Option<T>) returns (node: ListNode?<T>, ghost k: nat)
      requires Ring()
      ensures node != null <==> Holds(contents, obj)
      ensures node != null ==> 1 <= k < |ring| && ring[k] == node && node.obj == obj
    {
      node, k := null, 0;
      var isEmptyNow := IsEmptyInternal();
      if obj.Some? && !isEmptyNow {
        Ends(ring, base, contents);
        node, k := base.next, 1;
        while node != base
          invariant 1 <= k <= |ring| && node == ring[if k == |ring| then 0 else k]
          invariant obj.value !in contents[..k - 1]
          decreases |ring| - k
        {
          if node.obj == obj {
            return node, k;
          }
          assert Linked(ring, k);
          node, k := node.next, k + 1;
        }
        node := null;
      }
    }

    method Find(obj: Option<T>) returns (r: bool)
      requires Valid()
      ensures r == Holds(contents, obj)
    {
      var node, k := FindNode(obj);
      r := node != null;
    }

    method Add(obj: Option<T>) returns (r: bool)
      requires Valid()
      modifies this, nodes
      ensures Valid() && fresh(nodes - old(nodes))
      ensures (V(), r) == Apply(old(V()), Op.Add(obj))
    {
      r := false;
      if obj.Some? {
        var found, k := FindNode(obj);
        if found == null {
          ghost var was, c, last := ring, contents, base.prev;
          Ends(was, base, c);
          var node := new ListNode.Between(base.prev, base, obj);
          ring, nodes, contents, isEmpty := was + [node], nodes + {node}, c + [obj.value], false;
          forall i: nat | i + 1 < |was|
            ensures Linked(was, i)
          {
            assert old(Linked(was, i));
            assert was[i] != last && was[i + 1] != base;
          }
          assert was[|was| - 1] == last && was[0] == base;
          RingWith(was, ring, node, c, obj.value, nodes);
          r := true;
        }
      }
    }

    method NoteEmpty()
      requires Ring()
      modifies `isEmpty
      ensures Ring() && isEmpty == (contents == [] || old(isEmpty))
    {
      var empty := IsEmptyInternal();
      if empty {
        isEmpty := true;
      }
    }

    // The neighbours of the k-th node are linked to each other, the rest of the ring stays as it is.
    method Unlink(node: ListNode<T>, ghost k: nat, ghost after: nat) returns (freed: Option<T>)
      requires forall i | 0 <= i < |ring| :: ring[i] in nodes
      requires 1 <= k < |ring| && ring[k] == node && after == After(|ring|, k)
      requires IsRingBut(ring, base, contents, k)
      modifies nodes
      ensures ring[k - 1].next == ring[after] && ring[after].prev == ring[k - 1]
      ensures forall i: nat | i < |ring| && i != k - 1 && i != k :: Linked(ring, i)
      ensures forall i | 1 <= i < |ring| && i != k :: ring[i].obj == Some(contents[i - 1])
      ensures freed == old(node.obj)
    {
      assert Linked(ring, k) && Linked(ring, k - 1);
      freed := node.Destroy();
      forall i: nat | i < |ring| && i != k - 1 && i != k
        ensures Linked(ring, i)
      {
        assert old(Linked(ring, i));
        assert ring[i] != ring[k - 1] && ring[After(|ring|, i)] != ring[after];
      }
    }

    // delete node; the object of the node may have been taken out before.
    method Delete(node: ListNode<T>, ghost k: nat)
      requires forall i | 0 <= i < |ring| :: ring[i] in nodes
      requires 1 <= k < |ring| && ring[k] == node
      requires IsRingBut(ring, base, contents, k) && NoDuplicates(contents)
      modifies `ring, `contents, `deleted, nodes
      ensures Ring() && contents == old(Without(contents, contents[k - 1]))
      ensures deleted == old(deleted) + Objects(old(node.obj))
    {
      ghost var was, c := ring, contents;
      WithoutAt(c, k - 1);
      WithoutOne(c, c[k - 1]);
      var freed := Unlink(node, k, After(|ring|, k));
      ghost var less := was[..k] + was[k + 1..];
      RingWithout(was, less, k, c, nodes);
      ring, contents, deleted := less, Without(c, c[k - 1]), deleted + Objects(freed);
    }

    method Del(obj: Option<T>) returns (r: bool)
      requires Valid()
      modifies this, nodes
      ensures Valid() && nodes == old(nodes)
      ensures (V(), r) == Apply(old(V()), Op.Del(obj))
    {
      r := false;
      if obj.Some? {
        var node, k := FindNode(obj);
        if node != null {
          Delete(node, k);
          NoteEmpty();
          r := true;
        }
      }
    }

    // As Del, but the node gives its object up before it is deleted.
    method Pop(obj: Option<T>) returns (r: bool)
      requires Valid()
      modifies this, nodes
      ensures Valid() && nodes == old(nodes)
      ensures (V(), r) == Apply(old(V()), Op.Pop(obj))
    {
      r := false;
      if obj.Some? {
        var node, k := FindNode(obj);
        if node != null {
          node.obj, popped := None, popped + [obj.value];
          forall i: nat | i < |ring|
            ensures Linked(ring, i)
          {
            assert old(Linked(ring, i));
          }
          Delete(node, k);
          assert deleted == old(deleted);
          NoteEmpty();
          r := true;
        }
      }
    }

    method Clear()
      requires Valid()
      modifies this, nodes
      ensures Valid() && nodes == old(nodes)
      ensures V() == Apply(old(V()), Op.Clear).0
    {
      var empty := IsEmptyInternal();
      while !empty
        invariant Ring() && empty == (contents == []) && nodes == old(nodes)
        invariant popped == old(popped) && deleted + contents == old(deleted + contents)
        decreases |contents|
      {
        Ends(ring, base, contents);
        Delete(base.next, 1);
        empty := IsEmptyInternal();
      }
      isEmpty := true;
    }
  }
}
