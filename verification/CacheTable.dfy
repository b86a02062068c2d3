/**
 The table of caches (src/wcx_cache.cpp, class cache_list): reference counts and objects in slots
 1 to 1023, changed in place under the write lock of the list.
 */
module CacheTable {
  import opened Bytes

  const MAX_ITEMS := 1024

  datatype Status = Alloc | Init | Processed | Ready | Zombie

  // A cache object; id tells objects apart that lived in the same slot, key stands for the file name and
  // attr for the size and times of the archive.
  datatype Object = Object(id: nat, key: nat, attr: nat, status: Status, lastUsed: int)

  datatype Table = Table(refs: seq<int>, objects: seq<Option<Object>>)

  predicate Shaped(t: Table) {
    |t.refs| == |t.objects| == MAX_ITEMS
  }

  predicate IsSlot(i: nat) {
    1 <= i < MAX_ITEMS
  }

  predicate SameFile(o: Option<Object>, key: nat) {
    o.Some? && o.value.status != Zombie && o.value.key == key
  }

  // The first slot from i on that holds this file, or 0.
  function FindSame(objects: seq<Option<Object>>, key: nat, i: nat): (r: nat)
    requires |objects| == MAX_ITEMS && i <= MAX_ITEMS
    ensures r != 0 ==> i <= r < MAX_ITEMS && SameFile(objects[r], key)
    decreases MAX_ITEMS - i
  {
    if i == MAX_ITEMS then 0
    else if i > 0 && SameFile(objects[i], key) then i
    else FindSame(objects, key, i + 1)
  }

  predicate Free(t: Table, i: nat)
    requires Shaped(t) && i < MAX_ITEMS
  {
    t.objects[i].None? && t.refs[i] == 0
  }

  function FreeItem(t: Table, i: nat): (r: nat)
    requires Shaped(t) && i <= MAX_ITEMS
    ensures r != 0 ==> i <= r < MAX_ITEMS && Free(t, r)
    decreases MAX_ITEMS - i
  {
    if i == MAX_ITEMS then 0
    else if i > 0 && Free(t, i) then i
    else FreeItem(t, i + 1)
  }

  function SetObject(t: Table, i: nat, o: Option<Object>): (r: Table)
    requires Shaped(t) && i < MAX_ITEMS
    ensures Shaped(r)
  {
    t.(objects := t.objects[i := o])
  }

  function SetRef(t: Table, i: nat, n: int): (r: Table)
    requires Shaped(t) && i < MAX_ITEMS
    ensures Shaped(r)
  {
    t.(refs := t.refs[i := n])
  }

  function WithStatus(t: Table, i: nat, status: Status): (r: Table)
    requires Shaped(t) && i < MAX_ITEMS
    ensures Shaped(r)
  {
    match t.objects[i]
    case None => t
    case Some(o) => SetObject(t, i, Some(o.(status := status)))
  }

  datatype Got = Refused | Existing(i: nat) | Created(i: nat)

  // create, and the reference for the caller; creatable is false for an empty or unknown archive.
  function CreateIn(t: Table, o: Object, creatable: bool): (r: (Table, Got))
    requires Shaped(t)
    ensures Shaped(r.0) && (!r.1.Refused? ==> IsSlot(r.1.i))
  {
    var i := FreeItem(t, 1);
    if !creatable || i == 0 then (t, Refused)
    else (SetRef(SetObject(t, i, Some(o)), i, 1), Created(i))
  }

  // The locked section of get_cache with a reference for the caller, after the search ended at slot i or,
  // with 0, found nothing.  An object that is not ready, or that is out of date, is replaced.
  function GetFrom(t: Table, i: nat, o: Object, creatable: bool): (r: (Table, Got))
    requires Shaped(t) && (i != 0 ==> IsSlot(i) && t.objects[i].Some?)
    ensures Shaped(r.0) && (!r.1.Refused? ==> IsSlot(r.1.i))
  {
    if i == 0 || t.objects[i].value.status != Ready then CreateIn(t, o, creatable)
    else if t.objects[i].value.attr == o.attr then (SetRef(t, i, t.refs[i] + 1), Existing(i))
    else CreateIn(WithStatus(t, i, Zombie), o, creatable)
  }

  // The object is still being built by the thread that created it.
  predicate Unready(status: Status) {
    status == Alloc || status == Init || status == Processed
  }

  // The table when get_cache has waited, inside the section, for the object of this file: its builder, which
  // does not need the lock for that, has made it ready or, if it failed, a zombie.
  function Awaited(t: Table, key: nat, built: Status): (r: Table)
    requires Shaped(t)
    ensures Shaped(r)
  {
    var i := FindSame(t.objects, key, 1);
    if i != 0 && Unready(t.objects[i].value.status) then WithStatus(t, i, built) else t
  }

  // get_cache: the search, the wait and the rest.
  function GetIn(t: Table, o: Object, creatable: bool, built: Status): (r: (Table, Got))
    requires Shaped(t)
    ensures Shaped(r.0) && (!r.1.Refused? ==> IsSlot(r.1.i))
  {
    GetFrom(Awaited(t, o.key, built), FindSame(t.objects, o.key, 1), o, creatable)
  }

  // cache::release: the time of use, and then the reference count.
  function ReleaseIn(t: Table, i: nat, now: int): (r: Table)
    requires Shaped(t)
    ensures Shaped(r)
  {
    if !IsSlot(i) then t
    else
      var u := match t.objects[i] case None => t case Some(o) => SetObject(t, i, Some(o.(lastUsed := now)));
      if u.refs[i] > 0 then SetRef(u, i, u.refs[i] - 1) else u
  }

  const MINUTE := 10_000_000 * 60

  predicate Expired(o: Object, now: int, lifetime: int) {
    var minutes := if now - o.lastUsed >= 0 then (now - o.lastUsed) / MINUTE else -((o.lastUsed - now) / MINUTE);
    o.status == Zombie || minutes >= lifetime
  }

  // What delete_zombies leaves of the object in a slot.
  function Swept(t: Table, i: nat, now: int, lifetime: int): Option<Object>
    requires Shaped(t) && i < MAX_ITEMS
  {
    if i > 0 && t.refs[i] == 0 && t.objects[i].Some? && Expired(t.objects[i].value, now, lifetime) then None
    else t.objects[i]
  }

  function Sweep(t: Table, now: int, lifetime: int): (r: Table)
    requires Shaped(t)
    ensures Shaped(r) && forall i | 0 <= i < MAX_ITEMS :: r.objects[i] == Swept(t, i, now, lifetime)
  {
    t.(objects := seq(MAX_ITEMS, i requires 0 <= i < MAX_ITEMS => Swept(t, i, now, lifetime)))
  }

  // clear: everything without references goes, everything else stays.
  function Clear(t: Table): (r: Table)
    requires Shaped(t)
    ensures Shaped(r)
    ensures forall i | 0 <= i < MAX_ITEMS ::
              r.objects[i] == (if i > 0 && t.refs[i] <= 0 then None else t.objects[i]) &&
              r.refs[i] == if i > 0 && t.refs[i] <= 0 then 0 else t.refs[i]
  {
    Table(seq(MAX_ITEMS, i requires 0 <= i < MAX_ITEMS => if i > 0 && t.refs[i] <= 0 then 0 else t.refs[i]),
          seq(MAX_ITEMS, i requires 0 <= i < MAX_ITEMS => if i > 0 && t.refs[i] <= 0 then None else t.objects[i]))
  }

  // The number of objects in the slots in front of i.
  function Count(objects: seq<Option<Object>>, i: nat): nat
    requires i <= |objects|
  {
    if i <= 1 then 0 else Count(objects, i - 1) + if objects[i - 1].Some? then 1 else 0
  }

  class CacheList {
    const refcount: array<int>
    const slots: array<Option<Object>>
    var count: int

    ghost predicate Valid()
      reads this
    {
      refcount.Length == slots.Length == MAX_ITEMS
    }

    ghost function View(): (t: Table)
      requires Valid()
      reads this, refcount, slots
      ensures Shaped(t)
    {
      Table(refcount[..], slots[..])
    }

    constructor ()
      ensures Valid() && fresh(refcount) && fresh(slots)
      ensures View() == Table(seq(MAX_ITEMS, _ => 0), seq(MAX_ITEMS, _ => None)) && count == 0
    {
      refcount := new int[MAX_ITEMS](_ => 0);
      slots := new Option<Object>[MAX_ITEMS](_ => None);
      count := 0;
    }

    method GetFreeItem() returns (index: nat)
      requires Valid()
      ensures index == FreeItem(View(), 1)
    {
      index := 1;
      while index < MAX_ITEMS
        invariant 1 <= index <= MAX_ITEMS && FreeItem(View(), index) == FreeItem(View(), 1)
      {
        if slots[index] == None && refcount[index] == 0 {
          return;
        }
        index := index + 1;
      }
      index := 0;
    }

    // create and the reference for the caller.
    method Create(o: Object, creatable: bool) returns (got: Got)
      requires Valid()
      modifies this`count, refcount, slots
      ensures (View(), got) == CreateIn(old(View()), o, creatable)
      ensures count == old(count) + if got.Refused? then 0 else 1
    {
      if !creatable {
        return Refused;
      }
      var index := GetFreeItem();
      if index == 0 {
        return Refused;
      }
      refcount[index] := 0;
      slots[index] := Some(o);
      count := count + 1;
      refcount[index] := refcount[index] + 1;
      assert refcount[..] == old(refcount[..])[index := 1] && slots[..] == old(slots[..])[index := Some(o)];
      got := Created(index);
    }

    // The section of get_cache under the write lock.  Should the object found be unready, the section waits for
    // the builder, which sets the status to built.
    method GetCache(o: Object, creatable: bool, built: Status) returns (got: Got)
      requires Valid() && (built == Ready || built == Zombie)
      modifies this`count, refcount, slots
      ensures (View(), got) == GetIn(old(View()), o, creatable, built)
      ensures count == old(count) + if got.Created? then 1 else 0
    {
      var i := 1;
      while i < MAX_ITEMS && !SameFile(slots[i], o.key)
        invariant 1 <= i <= MAX_ITEMS
        invariant FindSame(View().objects, o.key, i) == FindSame(View().objects, o.key, 1)
      {
        i := i + 1;
      }
      if i < MAX_ITEMS {
        if Unready(slots[i].value.status) {
          slots[i] := Some(slots[i].value.(status := built));
        }
        assert View() == Awaited(old(View()), o.key, built);
        if slots[i].value.status == Ready {
          if slots[i].value.attr == o.attr {
            refcount[i] := refcount[i] + 1;
            return Existing(i);
          }
          slots[i] := Some(slots[i].value.(status := Zombie));
        }
      }
      got := Create(o, creatable);
    }

    // cache::release and cache_list::release.
    method Release(index: nat, now: int)
      requires Valid()
      modifies refcount, slots
      ensures View() == ReleaseIn(old(View()), index, now)
    {
      if index == 0 || index >= MAX_ITEMS {
        return;
      }
      if slots[index].Some? {
        slots[index] := Some(slots[index].value.(lastUsed := now));
      }
      if refcount[index] > 0 {
        refcount[index] := refcount[index] - 1;
      }
    }

    // delete_zombies, called in the main thread.
    method DeleteZombies(now: int, lifetime: int)
      requires Valid()
      modifies this`count, slots
      ensures View() == Sweep(old(View()), now, lifetime)
      ensures count == Count(View().objects, MAX_ITEMS)
    {
      ghost var t := View();
      var n, i := 0, 1;
      while i < MAX_ITEMS
        invariant 1 <= i <= MAX_ITEMS && n == Count(slots[..], i)
        invariant forall j | 0 <= j < i :: slots[j] == Swept(t, j, now, lifetime)
        invariant forall j | i <= j < MAX_ITEMS :: slots[j] == t.objects[j]
      {
        ghost var was := slots[..];
        var obj := slots[i];
        if refcount[i] == 0 && obj.Some? && Expired(obj.value, now, lifetime) {
          slots[i] := None;
        } else if obj.Some? {
          n := n + 1;
        }
        CountFront(was, slots[..], i);
        i := i + 1;
      }
      count := n;
    }

    method ClearAll()
      requires Valid()
      modifies refcount, slots
      ensures View() == Clear(old(View()))
    {
      ghost var t := View();
      var i := 1;
      while i < MAX_ITEMS
        invariant 1 <= i <= MAX_ITEMS
        invariant forall j | 0 <= j < i :: slots[j] == Clear(t).objects[j] && refcount[j] == Clear(t).refs[j]
        invariant forall j | i <= j < MAX_ITEMS :: slots[j] == t.objects[j] && refcount[j] == t.refs[j]
      {
        if refcount[i] <= 0 {
          slots[i] := None;
          refcount[i] := 0;
        }
        i := i + 1;
      }
    }
  }

  lemma {:induction false} CountFront(a: seq<Option<Object>>, b: seq<Option<Object>>, i: nat)
    requires i <= |a| == |b| && a[..i] == b[..i]
    ensures Count(a, i) == Count(b, i)
  {
    if i > 1 {
      assert a[..i - 1] == a[..i][..i - 1] && b[..i - 1] == b[..i][..i - 1];
      assert a[i - 1] == a[..i][i - 1] && b[i - 1] == b[..i][i - 1];
      CountFront(a, b, i - 1);
    }
  }
}
