/**
 What get_cache and delete_zombies do, in terms of the objects in the table: a cache is used again exactly if it
 is current and ready, and deleted exactly if nobody refers to it and it is a zombie or old.
 */
module CacheLookup {
  import opened Bytes
  import opened CacheTable

  // The first object of this file that is no zombie is in slot i.
  ghost predicate FirstOf(t: Table, key: nat, i: nat)
    requires Shaped(t)
  {
    && 1 <= i < 1024 && t.objects[i].Some? && t.objects[i].value.status != Zombie && t.objects[i].value.key == key
    && forall j | 1 <= j < i ::
         t.objects[j].None? || t.objects[j].value.status == Zombie || t.objects[j].value.key != key
  }

  // The first slot without object and references.
  ghost predicate FirstFree(t: Table, i: nat)
    requires Shaped(t)
  {
    && 1 <= i < 1024 && t.objects[i] == None && t.refs[i] == 0
    && forall j | 1 <= j < i :: t.objects[j].Some? || t.refs[j] != 0
  }

  ghost predicate NoneOf(t: Table, key: nat)
    requires Shaped(t)
  {
    forall j | 1 <= j < 1024 ::
      t.objects[j].None? || t.objects[j].value.status == Zombie || t.objects[j].value.key != key
  }

  ghost predicate NoneFree(t: Table)
    requires Shaped(t)
  {
    forall j | 1 <= j < 1024 :: t.objects[j].Some? || t.refs[j] != 0
  }

  lemma {:induction false} FoundFirst(t: Table, key: nat, i: nat, k: nat)
    requires Shaped(t) && FirstOf(t, key, i) && 1 <= k <= i
    ensures FindSame(t.objects, key, k) == i
    decreases i - k
  {
    if k < i {
      FoundFirst(t, key, i, k + 1);
    }
  }

  lemma {:induction false} FoundNone(t: Table, key: nat, k: nat)
    requires Shaped(t) && NoneOf(t, key) && 1 <= k <= MAX_ITEMS
    ensures FindSame(t.objects, key, k) == 0
    decreases MAX_ITEMS - k
  {
    if k < MAX_ITEMS {
      FoundNone(t, key, k + 1);
    }
  }

  lemma {:induction false} FreeFirst(t: Table, i: nat, k: nat)
    requires Shaped(t) && FirstFree(t, i) && 1 <= k <= i
    ensures FreeItem(t, k) == i
    decreases i - k
  {
    if k < i {
      FreeFirst(t, i, k + 1);
    }
  }

  lemma {:induction false} FreeNone(t: Table, k: nat)
    requires Shaped(t) && NoneFree(t) && 1 <= k <= MAX_ITEMS
    ensures FreeItem(t, k) == 0
    decreases MAX_ITEMS - k
  {
    if k < MAX_ITEMS {
      FreeNone(t, k + 1);
    }
  }

  // ------------------------------------------------------------------------------------------ get_cache

  // The status of an object once get_cache need not wait for it.
  function After(status: Status, built: Status): Status {
    if status == Ready || status == Zombie then status else built
  }

  // A cache that is current and ready is used again: one reference more, and nothing else changes, but for
  // the status of a cache that had to be waited for.
  lemma Reused(t: Table, o: Object, creatable: bool, built: Status, i: nat)
    requires Shaped(t) && FirstOf(t, o.key, i)
    requires var x := t.objects[i].value; After(x.status, built) == Ready && x.attr == o.attr
    ensures GetIn(t, o, creatable, built)
            == (Table(t.refs[i := t.refs[i] + 1], t.objects[i := Some(t.objects[i].value.(status := Ready))]),
                Existing(i))
  {
    FoundFirst(t, o.key, i, 1);
    assert t.objects[i := t.objects[i]] == t.objects;
  }

  // The table when get_cache comes to need a new object: an outdated cache has become a zombie, and so has one
  // that could not be built.
  ghost predicate NeedsNew(t: Table, o: Object, built: Status, u: Table)
    requires Shaped(t)
  {
    || (NoneOf(t, o.key) && u == t)
    || exists i: nat :: Discarded(t, o, built, i, u)
  }

  ghost predicate Discarded(t: Table, o: Object, built: Status, i: nat, u: Table)
    requires Shaped(t)
  {
    && FirstOf(t, o.key, i)
    && var x := t.objects[i].value;
    && !(After(x.status, built) == Ready && x.attr == o.attr)
    && u == t.(objects := t.objects[i := Some(x.(status := Zombie))])
  }

  lemma Replaced(t: Table, o: Object, creatable: bool, built: Status, u: Table)
    requires Shaped(t) && (built == Ready || built == Zombie) && NeedsNew(t, o, built, u)
    ensures Shaped(u) && GetIn(t, o, creatable, built) == CreateIn(u, o, creatable)
  {
    if NoneOf(t, o.key) && u == t {
      FoundNone(t, o.key, 1);
    } else {
      var i: nat :| Discarded(t, o, built, i, u);
      FoundFirst(t, o.key, i, 1);
      var x := t.objects[i].value;
      assert t.objects[i := Some(x.(status := built))][i := Some(x.(status := Zombie))]
          == t.objects[i := Some(x.(status := Zombie))];
    }
  }

  // The new object goes to the first free slot, with one reference.
  lemma Added(t: Table, o: Object, creatable: bool, built: Status, u: Table, j: nat)
    requires Shaped(t) && (built == Ready || built == Zombie) && NeedsNew(t, o, built, u) && Shaped(u)
    requires creatable && FirstFree(u, j)
    ensures GetIn(t, o, creatable, built) == (Table(u.refs[j := 1], u.objects[j := Some(o)]), Created(j))
  {
    Replaced(t, o, creatable, built, u);
    FreeFirst(u, j, 1);
  }

  // Without a free slot, or for an archive without a cache, it is refused.
  lemma NotAdded(t: Table, o: Object, creatable: bool, built: Status, u: Table)
    requires Shaped(t) && (built == Ready || built == Zombie) && NeedsNew(t, o, built, u) && Shaped(u)
    requires !creatable || NoneFree(u)
    ensures GetIn(t, o, creatable, built) == (u, Refused)
  {
    Replaced(t, o, creatable, built, u);
    if NoneFree(u) {
      FreeNone(u, 1);
    }
  }

  lemma {:induction false} SomeFirst(t: Table, key: nat, k: nat) returns (i: nat)
    requires Shaped(t) && 1 <= k <= MAX_ITEMS
    requires forall j | 1 <= j < k ::
               t.objects[j].None? || t.objects[j].value.status == Zombie || t.objects[j].value.key != key
    ensures NoneOf(t, key) || FirstOf(t, key, i)
    decreases MAX_ITEMS - k
  {
    i := k;
    if k < MAX_ITEMS && !FirstOf(t, key, k) {
      i := SomeFirst(t, key, k + 1);
    }
  }

  lemma {:induction false} SomeFree(t: Table, k: nat) returns (i: nat)
    requires Shaped(t) && 1 <= k <= MAX_ITEMS && forall j | 1 <= j < k :: t.objects[j].Some? || t.refs[j] != 0
    ensures NoneFree(t) || FirstFree(t, i)
    decreases MAX_ITEMS - k
  {
    i := k;
    if k < MAX_ITEMS && !FirstFree(t, k) {
      i := SomeFree(t, k + 1);
    }
  }

  // The first cache of the file is ready and current, once its builder is done.
  ghost predicate Current(t: Table, o: Object, built: Status)
    requires Shaped(t)
  {
    exists i: nat ::
      FirstOf(t, o.key, i) && After(t.objects[i].value.status, built) == Ready && t.objects[i].value.attr == o.attr
  }

  lemma OneFirst(t: Table, key: nat, i: nat, j: nat)
    requires Shaped(t) && FirstOf(t, key, i)
    ensures !NoneOf(t, key) && (FirstOf(t, key, j) ==> i == j)
  {
  }

  // Whatever the table is: the slot that get_cache returns holds a cache of the file and the state of the archive
  // that were asked for, ready or new, with one reference more than before; it is refused exactly if a new one is
  // needed and is not possible; and all other objects stay as they are, but for one of the same file.
  lemma GetsWhatWasAsked(t: Table, o: Object, creatable: bool, built: Status)
    requires Shaped(t) && (built == Ready || built == Zombie)
    ensures var (r, got) := GetIn(t, o, creatable, built);
            && Shaped(r)
            && (!got.Refused? ==>
                  && 1 <= got.i < 1024 && r.objects[got.i].Some?
                  && var x := r.objects[got.i].value;
                  && x.key == o.key && x.attr == o.attr && (if got.Existing? then x.status == Ready else x == o)
                  && r.refs == t.refs[got.i := t.refs[got.i] + 1])
            && (got.Existing? <==> Current(t, o, built))
            && (got.Refused? <==> !Current(t, o, built) && (!creatable || NoneFree(t)))
            && (got.Refused? ==> r.refs == t.refs)
            && forall j | 0 <= j < 1024 && r.objects[j] != t.objects[j] ::
                 if t.objects[j].None? then got == Created(j)
                 else
                   && t.objects[j].value.key == o.key && t.objects[j].value.status != Zombie
                   && r.objects[j].Some?
                   && r.objects[j].value == t.objects[j].value.(status := r.objects[j].value.status)
  {
    hide GetIn;
    var i := SomeFirst(t, o.key, 1);
    if !NoneOf(t, o.key) && After(t.objects[i].value.status, built) == Ready && t.objects[i].value.attr == o.attr {
      Reused(t, o, creatable, built, i);
      assert Current(t, o, built);
    } else {
      var u := if NoneOf(t, o.key) then t
               else t.(objects := t.objects[i := Some(t.objects[i].value.(status := Zombie))]);
      assert NoneOf(t, o.key) || Discarded(t, o, built, i, u);
      forall n: nat | FirstOf(t, o.key, n) ensures n == i && !NoneOf(t, o.key) {
        OneFirst(t, o.key, n, i);
      }
      SameFree(t, u);
      var j := SomeFree(u, 1);
      if creatable && !NoneFree(u) {
        Added(t, o, creatable, built, u, j);
      } else {
        NotAdded(t, o, creatable, built, u);
      }
    }
  }

  lemma SameFree(t: Table, u: Table)
    requires Shaped(t) && Shaped(u) && u.refs == t.refs
    requires forall j | 0 <= j < 1024 :: u.objects[j].Some? <==> t.objects[j].Some?
    ensures NoneFree(u) <==> NoneFree(t)
  {
    if NoneFree(u) {
      forall j | 1 <= j < 1024 ensures t.objects[j].Some? || t.refs[j] != 0 {
        assert u.objects[j].Some? || u.refs[j] != 0;
      }
    }
    if NoneFree(t) {
      forall j | 1 <= j < 1024 ensures u.objects[j].Some? || u.refs[j] != 0 {
        assert t.objects[j].Some? || t.refs[j] != 0;
      }
    }
  }

  // A cache whose archive has changed is never returned: with the archive at attr 200 a cache at 100 becomes a
  // zombie, and a new one is made.
  lemma OutdatedIsReplaced(t: Table, o: Object, i: nat, j: nat, built: Status)
    requires Shaped(t) && (built == Ready || built == Zombie) && FirstOf(t, o.key, i) && FirstFree(t, j)
    requires t.objects[i].value.status == Ready && t.objects[i].value.attr != o.attr
    ensures var x := t.objects[i].value.(status := Zombie);
            GetIn(t, o, true, built) == (Table(t.refs[j := 1], t.objects[i := Some(x)][j := Some(o)]), Created(j))
  {
    var u := t.(objects := t.objects[i := Some(t.objects[i].value.(status := Zombie))]);
    assert Discarded(t, o, built, i, u);
    Added(t, o, true, built, u, j);
  }

  // --------------------------------------------------------------------------------------- delete_zombies

  const TICKS_PER_MINUTE := 10 * 1000 * 1000 * 60 // of 100 nanoseconds

  // More than lifetime minutes, rounded towards zero.
  predicate Old(age: int, lifetime: int) {
    if lifetime > 0 then age >= lifetime * TICKS_PER_MINUTE else age > (lifetime - 1) * TICKS_PER_MINUTE
  }

  // The clean-up deletes an object exactly if there is no reference to it and it is a zombie or was not used for
  // as many minutes as the lifetime has.
  lemma SweptExactly(t: Table, i: nat, now: int, lifetime: int)
    requires Shaped(t) && 1 <= i < 1024 && t.objects[i].Some?
    ensures var x := t.objects[i].value;
            Sweep(t, now, lifetime).objects[i]
            == if t.refs[i] == 0 && (x.status == Zombie || Old(now - x.lastUsed, lifetime)) then None else t.objects[i]
  {
    var x := t.objects[i].value;
    var d := now - x.lastUsed;
    if d >= 0 && lifetime > 0 {
      Quotient(d, TICKS_PER_MINUTE, lifetime);
    } else if d < 0 && lifetime <= 0 {
      Quotient(-d, TICKS_PER_MINUTE, 1 - lifetime);
    }
  }

  // A cache that is given back for the last time stays for its lifetime from then on, and no longer.
  lemma KeptForItsLifetime(t: Table, i: nat, now: int, later: int, lifetime: int)
    requires Shaped(t) && 1 <= i < 1024 && t.objects[i].Some? && t.objects[i].value.status != Zombie && t.refs[i] == 1
    ensures var r := ReleaseIn(t, i, now);
            && Shaped(r) && r.refs == t.refs[i := 0]
            && (Sweep(r, later, lifetime).objects[i] == None <==> Old(later - now, lifetime))
  {
    var r := ReleaseIn(t, i, now);
    SweptExactly(r, i, later, lifetime);
  }

  // m_count is the number of objects in the table.
  lemma {:induction false} CountExactly(objects: seq<Option<Object>>, i: nat)
    requires 1 <= i <= |objects|
    ensures Count(objects, i) == |set j | 1 <= j < i && objects[j].Some?|
  {
    var all := set j | 1 <= j < i && objects[j].Some?;
    if i == 1 {
      assert all == {};
    } else {
      CountExactly(objects, i - 1);
      var rest := set j | 1 <= j < i - 1 && objects[j].Some?;
      assert all == if objects[i - 1].Some? then rest + {i - 1} else rest;
    }
  }

  lemma Quotient(d: nat, m: nat, k: nat)
    requires m > 0
    ensures d / m >= k <==> d >= k * m
  {
    var q := d / m;
    assert q * m <= d < q * m + m;
    if q >= k {
      assert q * m >= k * m;
    } else {
      assert k * m >= (q + 1) * m;
    }
  }
}
