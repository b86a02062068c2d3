/**
 Opening and closing archives (src/wcx_plugin.cpp) as interleaved steps on the table of caches.  A session
 is one call of open_file and, if it succeeds, the archive until close_file; any number of sessions take
 their steps in any order, together with delete_zombies and clear.  The write lock of the table is held by
 at most one get_cache, from its search on, while it waits for a cache that another session builds.
 */
module CacheSessions {
  import opened Bytes
  import opened CacheTable

  // Where a session is: building a new cache; the build failed and the reference must be given back; the
  // reference is there but no archive; the archive has the cache; it has the read lock; it has given the
  // read lock back.
  datatype Place = Building | Failed | Held | Attached | Reading | Unlocked

  // key and attr are the file that the session opens and its state then.
  datatype Session = Session(place: Place, slot: nat, id: nat, key: nat, attr: nat)

  // The session k inside the locked section of get_cache, after its search ended at slot i, or with 0 found nothing.
  datatype Entering = Entering(k: nat, key: nat, attr: nat, creatable: bool, i: nat)

  datatype State = State(table: Table, sessions: map<nat, Session>, nextId: nat, entering: Option<Entering>)

  const START := State(Table(seq(MAX_ITEMS, _ => 0), seq(MAX_ITEMS, _ => None)), map[], 0, None)

  // Search, Enter: the locked section of get_cache up to the wait, and behind it.  Mark: init changes the status
  // of its cache on the way, which for moments is that of a zombie.  Finish: the end of init.  Attach:
  // archive::init.  Lock, Unlock: the read lock of the cache.  Drop: cache::release, at the end of a failed
  // get_cache or in the destructor of the archive.
  datatype Event =
    | Search(k: nat, key: nat, attr: nat, creatable: bool)
    | Enter
    | Mark(k: nat, status: Status)
    | Finish(k: nat, ok: bool)
    | Attach(k: nat)
    | Lock(k: nat)
    | Unlock(k: nat)
    | Drop(k: nat, now: int)
    | DeleteZombies(now: int, lifetime: int)
    | ClearAll

  predicate IsAt(s: State, k: nat, p: Place) {
    k in s.sessions && s.sessions[k].place == p
  }

  function Move(s: State, k: nat, p: Place): State
    requires k in s.sessions
  {
    s.(sessions := s.sessions[k := s.sessions[k].(place := p)])
  }

  // The object that get_cache found is still being built.
  predicate Waits(s: State)
    requires Shaped(s.table)
  {
    && s.entering.Some?
    && var i := s.entering.value.i;
    IsSlot(i) && s.table.objects[i].Some? && Unready(s.table.objects[i].value.status)
  }

  predicate CanEnter(s: State)
    requires Shaped(s.table)
  {
    && s.entering.Some? && !Waits(s)
    && var i := s.entering.value.i;
    i != 0 ==> IsSlot(i) && s.table.objects[i].Some?
  }

  function EnterStep(s: State, e: Entering): (r: State)
    requires Shaped(s.table) && CanEnter(s) && s.entering == Some(e)
    ensures Shaped(r.table)
  {
    var o := Object(s.nextId, e.key, e.attr, Alloc, 0);
    var (t, got) := GetFrom(s.table, e.i, o, e.creatable);
    match got
    case Refused => s.(table := t, entering := None)
    case Existing(j) =>
      State(t, s.sessions[e.k := Session(Held, j, ObjectId(t, j), e.key, e.attr)], s.nextId, None)
    case Created(j) =>
      State(t, s.sessions[e.k := Session(Building, j, s.nextId, e.key, e.attr)], s.nextId + 1, None)
  }

  function ObjectId(t: Table, i: nat): nat
    requires Shaped(t) && i < MAX_ITEMS
  {
    match t.objects[i] case None => 0 case Some(o) => o.id
  }

  function Marked(s: State, k: nat, status: Status): State
    requires Shaped(s.table) && k in s.sessions
  {
    var i := s.sessions[k].slot;
    if i < MAX_ITEMS then s.(table := WithStatus(s.table, i, status)) else s
  }

  function FinishStep(s: State, k: nat, ok: bool): State
    requires Shaped(s.table) && k in s.sessions
  {
    Move(Marked(s, k, if ok then Ready else Zombie), k, if ok then Held else Failed)
  }

  function DropStep(s: State, k: nat, now: int): State
    requires Shaped(s.table) && k in s.sessions
  {
    s.(table := ReleaseIn(s.table, s.sessions[k].slot, now), sessions := s.sessions - {k})
  }

  // These take the write lock of the table.
  predicate NeedsLock(e: Event) {
    e.Search? || e.Drop? || e.DeleteZombies? || e.ClearAll?
  }

  // An event that is not possible changes nothing.
  function Step(s: State, e: Event): (r: State)
    requires Shaped(s.table)
    ensures Shaped(r.table)
  {
    if s.entering.Some? && NeedsLock(e) then s
    else
      match e
      case Search(k, key, attr, creatable) =>
        if k in s.sessions then s
        else s.(entering := Some(Entering(k, key, attr, creatable, FindSame(s.table.objects, key, 1))))
      case Enter => if CanEnter(s) then EnterStep(s, s.entering.value) else s
      case Mark(k, status) => if IsAt(s, k, Building) && status != Ready then Marked(s, k, status) else s
      case Finish(k, ok) => if IsAt(s, k, Building) then FinishStep(s, k, ok) else s
      case Attach(k) => if IsAt(s, k, Held) then Move(s, k, Attached) else s
      case Lock(k) => if IsAt(s, k, Attached) then Move(s, k, Reading) else s
      case Unlock(k) => if IsAt(s, k, Reading) then Move(s, k, Unlocked) else s
      case Drop(k, now) =>
        if IsAt(s, k, Failed) || IsAt(s, k, Attached) || IsAt(s, k, Unlocked) then DropStep(s, k, now) else s
      case DeleteZombies(now, lifetime) => s.(table := Sweep(s.table, now, lifetime))
      case ClearAll => s.(table := Clear(s.table))
  }

  function Run(s: State, es: seq<Event>): (r: State)
    requires Shaped(s.table)
    ensures Shaped(r.table)
    decreases |es|
  {
    if es == [] then s else Run(Step(s, es[0]), es[1..])
  }

  // ----------------------------------------------------------------------------------- the invariant

  // The sessions that hold a reference to slot i.
  function Holders(sessions: map<nat, Session>, i: nat): set<nat> {
    set k | k in sessions && sessions[k].slot == i
  }

  ghost predicate RefsOk(s: State)
    requires Shaped(s.table)
  {
    forall i | 0 <= i < MAX_ITEMS :: s.table.refs[i] == |Holders(s.sessions, i)|
  }

  // The object that a session refers to is still in its slot.
  ghost predicate Alive(s: State, k: nat)
    requires Shaped(s.table) && k in s.sessions
  {
    var i := s.sessions[k].slot;
    IsSlot(i) && s.table.objects[i].Some? && s.table.objects[i].value.id == s.sessions[k].id
  }

  ghost predicate IdsOk(s: State)
    requires Shaped(s.table)
  {
    forall i | 0 <= i < MAX_ITEMS && s.table.objects[i].Some? :: s.table.objects[i].value.id < s.nextId
  }

  ghost predicate Inv(s: State) {
    && Shaped(s.table) && RefsOk(s) && IdsOk(s) && (forall k | k in s.sessions :: Alive(s, k))
    && (s.entering.Some? ==> s.entering.value.k !in s.sessions)
  }

  lemma HoldersAdd(m: map<nat, Session>, k: nat, x: Session, i: nat)
    requires k !in m
    ensures |Holders(m[k := x], i)| == |Holders(m, i)| + if x.slot == i then 1 else 0
  {
    if x.slot == i {
      assert Holders(m[k := x], i) == Holders(m, i) + {k};
    } else {
      assert Holders(m[k := x], i) == Holders(m, i);
    }
  }

  lemma HoldersMove(m: map<nat, Session>, k: nat, p: Place, i: nat)
    requires k in m
    ensures Holders(m[k := m[k].(place := p)], i) == Holders(m, i)
  {
  }

  lemma HoldersDrop(m: map<nat, Session>, k: nat, i: nat)
    requires k in m
    ensures |Holders(m - {k}, i)| == |Holders(m, i)| - if m[k].slot == i then 1 else 0
  {
    if m[k].slot == i {
      assert Holders(m, i) == Holders(m - {k}, i) + {k};
    } else {
      assert Holders(m, i) == Holders(m - {k}, i);
    }
  }

  lemma Holds(s: State, k: nat)
    requires Inv(s) && k in s.sessions
    ensures IsSlot(s.sessions[k].slot) && s.table.refs[s.sessions[k].slot] > 0
  {
    assert Alive(s, k);
    assert k in Holders(s.sessions, s.sessions[k].slot);
  }

  lemma MoveKeeps(s: State, k: nat, p: Place)
    requires Inv(s) && k in s.sessions
    ensures Inv(Move(s, k, p))
  {
    forall i | 0 <= i < MAX_ITEMS ensures s.table.refs[i] == |Holders(Move(s, k, p).sessions, i)| {
      HoldersMove(s.sessions, k, p, i);
    }
    forall j | j in Move(s, k, p).sessions ensures Alive(Move(s, k, p), j) {
      assert Alive(s, j);
    }
  }

  lemma MarkKeeps(s: State, i: nat, status: Status)
    requires Inv(s) && i < MAX_ITEMS
    ensures Inv(s.(table := WithStatus(s.table, i, status)))
  {
    forall j | j in s.sessions ensures Alive(s.(table := WithStatus(s.table, i, status)), j) {
      assert Alive(s, j);
    }
  }

  lemma DropKeeps(s: State, k: nat, now: int)
    requires Inv(s) && k in s.sessions
    ensures Inv(DropStep(s, k, now))
  {
    Holds(s, k);
    var r, slot := DropStep(s, k, now), s.sessions[k].slot;
    forall i | 0 <= i < MAX_ITEMS ensures r.table.refs[i] == |Holders(r.sessions, i)| {
      HoldersDrop(s.sessions, k, i);
    }
    forall j | j in r.sessions ensures Alive(r, j) {
      assert Alive(s, j);
    }
  }

  // Only objects without sessions are deleted.
  lemma SweepKeeps(s: State, t: Table)
    requires Inv(s) && Shaped(t)
    requires forall i | 0 <= i < MAX_ITEMS ::
               && t.refs[i] == s.table.refs[i]
               && (t.objects[i] == s.table.objects[i] || (t.objects[i].None? && s.table.refs[i] == 0))
    ensures Inv(s.(table := t))
  {
    forall j | j in s.sessions ensures Alive(s.(table := t), j) {
      assert Alive(s, j);
      Holds(s, j);
    }
  }

  lemma ExistingKeeps(s: State, e: Entering, r: State)
    requires Inv(s) && s.entering == Some(e) && IsSlot(e.i) && s.table.objects[e.i].Some?
    requires r == State(SetRef(s.table, e.i, s.table.refs[e.i] + 1),
                        s.sessions[e.k := Session(Held, e.i, ObjectId(s.table, e.i), e.key, e.attr)], s.nextId, None)
    ensures Inv(r)
  {
    forall j | 0 <= j < MAX_ITEMS ensures r.table.refs[j] == |Holders(r.sessions, j)| {
      HoldersAdd(s.sessions, e.k, r.sessions[e.k], j);
    }
    forall j | j in r.sessions ensures Alive(r, j) {
      if j != e.k {
        assert Alive(s, j);
      }
    }
  }

  lemma CreateKeeps(s: State, e: Entering, o: Object, i: nat, r: State)
    requires Inv(s) && s.entering == Some(e) && IsSlot(i) && Free(s.table, i) && o.id == s.nextId
    requires r == State(SetRef(SetObject(s.table, i, Some(o)), i, 1),
                        s.sessions[e.k := Session(Building, i, s.nextId, e.key, e.attr)], s.nextId + 1, None)
    ensures Inv(r)
  {
    forall j | 0 <= j < MAX_ITEMS ensures r.table.refs[j] == |Holders(r.sessions, j)| {
      HoldersAdd(s.sessions, e.k, r.sessions[e.k], j);
    }
    forall j | j in r.sessions ensures Alive(r, j) {
      if j != e.k {
        assert Alive(s, j);
        Holds(s, j);
      }
    }
  }

  // The table in front of create, if a new object is needed.
  function Before(s: State, e: Entering): (t: Table)
    requires Shaped(s.table) && (e.i != 0 ==> IsSlot(e.i) && s.table.objects[e.i].Some?)
    ensures Shaped(t)
  {
    if e.i != 0 && s.table.objects[e.i].value.status == Ready then WithStatus(s.table, e.i, Zombie) else s.table
  }

  predicate Shares(s: State, e: Entering)
    requires Shaped(s.table)
  {
    && e.i != 0 && IsSlot(e.i) && s.table.objects[e.i].Some?
    && s.table.objects[e.i].value.status == Ready && s.table.objects[e.i].value.attr == e.attr
  }

  // The outcomes of get_cache: a share of the cache that is there, a new one, or a refusal.
  lemma Outcomes(s: State, e: Entering) returns (r: State, j: nat)
    requires Shaped(s.table) && CanEnter(s) && s.entering == Some(e)
    ensures r == EnterStep(s, e)
    ensures Shares(s, e) ==>
              r == State(SetRef(s.table, e.i, s.table.refs[e.i] + 1),
                         s.sessions[e.k := Session(Held, e.i, ObjectId(s.table, e.i), e.key, e.attr)], s.nextId, None)
    ensures j == FreeItem(Before(s, e), 1) && (j != 0 ==> IsSlot(j) && Free(Before(s, e), j))
    ensures !Shares(s, e) ==>
              r == if e.creatable && j != 0
                   then State(SetRef(SetObject(Before(s, e), j, Some(Object(s.nextId, e.key, e.attr, Alloc, 0))), j, 1),
                              s.sessions[e.k := Session(Building, j, s.nextId, e.key, e.attr)], s.nextId + 1, None)
                   else s.(table := Before(s, e), entering := None)
  {
    r, j := EnterStep(s, e), FreeItem(Before(s, e), 1);
  }

  lemma EnterKeeps(s: State, e: Entering)
    requires Inv(s) && CanEnter(s) && s.entering == Some(e)
    ensures Inv(EnterStep(s, e))
  {
    hide EnterStep, FreeItem;
    var r, j := Outcomes(s, e);
    if Shares(s, e) {
      ExistingKeeps(s, e, r);
    } else {
      var u := s.(table := Before(s, e));
      if u != s {
        MarkKeeps(s, e.i, Zombie);
      }
      if e.creatable && j != 0 {
        CreateKeeps(u, e, Object(s.nextId, e.key, e.attr, Alloc, 0), j, r);
      } else {
        assert forall k | k in r.sessions :: Alive(u, k) ==> Alive(r, k);
        assert r == u.(entering := None);
      }
    }
  }

  lemma StepKeeps(s: State, e: Event)
    requires Inv(s)
    ensures Inv(Step(s, e))
  {
    hide EnterStep, Clear, ReleaseIn;
    if !(s.entering.Some? && NeedsLock(e)) {
      match e
      case Search(k, key, attr, creatable) =>
        assert forall j | j in s.sessions :: Alive(s, j) ==> Alive(Step(s, e), j);
      case Enter => if CanEnter(s) { EnterKeeps(s, s.entering.value); }
      case Mark(k, status) =>
        if IsAt(s, k, Building) {
          Holds(s, k);
          MarkKeeps(s, s.sessions[k].slot, status);
        }
      case Finish(k, ok) =>
        if IsAt(s, k, Building) {
          Holds(s, k);
          MarkKeeps(s, s.sessions[k].slot, if ok then Ready else Zombie);
          MoveKeeps(Marked(s, k, if ok then Ready else Zombie), k, if ok then Held else Failed);
        }
      case Attach(k) => if IsAt(s, k, Held) { MoveKeeps(s, k, Attached); }
      case Lock(k) => if IsAt(s, k, Attached) { MoveKeeps(s, k, Reading); }
      case Unlock(k) => if IsAt(s, k, Reading) { MoveKeeps(s, k, Unlocked); }
      case Drop(k, now) =>
        if IsAt(s, k, Failed) || IsAt(s, k, Attached) || IsAt(s, k, Unlocked) {
          DropKeeps(s, k, now);
        }
      case DeleteZombies(now, lifetime) => SweepKeeps(s, Sweep(s.table, now, lifetime));
      case ClearAll => SweepKeeps(s, Clear(s.table));
    }
  }

  lemma StartOk()
    ensures Inv(START)
  {
    forall i | 0 <= i < MAX_ITEMS ensures START.table.refs[i] == |Holders(START.sessions, i)| {
      assert Holders(START.sessions, i) == {};
    }
  }

  lemma {:induction false} RunKeeps(s: State, es: seq<Event>)
    requires Inv(s)
    ensures Inv(Run(s, es))
    decreases |es|
  {
    if es != [] {
      StepKeeps(s, es[0]);
      RunKeeps(Step(s, es[0]), es[1..]);
    }
  }

  // ----------------------------------------------------------------------------------- the theorems

  // In every state that any interleaving leads to, the reference count of a slot is the number of the
  // archives and unfinished opens that refer to it, and each of them refers to the cache it got.
  lemma RefcountsAreExact(es: seq<Event>)
    ensures var s := Run(START, es);
            && (forall i | 0 <= i < MAX_ITEMS :: s.table.refs[i] == |Holders(s.sessions, i)|)
            && (forall k | k in s.sessions :: Alive(s, k))
  {
    StartOk();
    RunKeeps(START, es);
  }

  // Whatever happens next, a session keeps its cache, with the same identity, until it drops it itself.
  lemma CacheStays(es: seq<Event>, e: Event, k: nat)
    requires k in Run(START, es).sessions
    ensures var s, r := Run(START, es), Step(Run(START, es), e);
            && (k in r.sessions <==>
                  !(e.Drop? && e.k == k && s.entering == None
                    && (IsAt(s, k, Failed) || IsAt(s, k, Attached) || IsAt(s, k, Unlocked))))
            && (k in r.sessions ==>
                  && r.sessions[k].slot == s.sessions[k].slot && r.sessions[k].id == s.sessions[k].id
                  && Alive(r, k))
  {
    StartOk();
    RunKeeps(START, es);
    StepKeeps(Run(START, es), e);
  }

  // No cache is deleted while somebody holds its read lock: a deletion hits only slots without sessions.
  lemma DeletedOnlyUnused(es: seq<Event>, e: Event, i: nat)
    requires i < MAX_ITEMS && Run(START, es).table.objects[i].Some?
    ensures var s, r := Run(START, es), Step(Run(START, es), e);
            r.table.objects[i].None? || r.table.objects[i].value.id != s.table.objects[i].value.id ==>
              (e.DeleteZombies? || e.ClearAll?) && forall k | k in s.sessions :: s.sessions[k].slot != i
  {
    hide Run, Step, Inv;
    var s := Run(START, es);
    StartOk();
    RunKeeps(START, es);
    if e.DeleteZombies? || e.ClearAll? {
      forall k | k in s.sessions && s.sessions[k].slot == i ensures Step(s, e).table.objects[i] == s.table.objects[i] {
        Holds(s, k);
        UsedStays(s, e, i);
      }
    } else {
      ObjectsStay(s, e, i);
    }
  }

  lemma UsedStays(s: State, e: Event, i: nat)
    requires Shaped(s.table) && IsSlot(i) && s.table.refs[i] > 0 && (e.DeleteZombies? || e.ClearAll?)
    ensures Step(s, e).table.objects[i] == s.table.objects[i]
  {
  }

  // All other steps only change what is inside the objects.
  lemma ObjectsStay(s: State, e: Event, i: nat)
    requires Inv(s) && i < MAX_ITEMS && s.table.objects[i].Some? && !e.DeleteZombies? && !e.ClearAll?
    ensures var r := Step(s, e).table.objects[i]; r.Some? && r.value.id == s.table.objects[i].value.id
  {
    hide FindSame, RefsOk, Alive;
  }

  // When every session is over, nothing is referenced any more, and clear deletes every cache.
  lemma NothingLeaks(es: seq<Event>)
    requires Run(START, es).sessions == map[] && Run(START, es).entering == None
    ensures forall i | 0 <= i < MAX_ITEMS :: Run(START, es).table.refs[i] == 0
    ensures forall i | 1 <= i < MAX_ITEMS :: Step(Run(START, es), ClearAll).table.objects[i] == None
  {
    var s := Run(START, es);
    RefcountsAreExact(es);
    forall i | 0 <= i < MAX_ITEMS ensures s.table.refs[i] == 0 {
      assert Holders(s.sessions, i) == {};
    }
  }
}
