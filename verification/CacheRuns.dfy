/**
 What a session of a cache can rely on over every run: it has the cache of the file that it asked for, nobody
 waits for a cache that is not being built, and when a file can have two caches at the same time.
 */
module CacheRuns {
  import opened Bytes
  import opened CacheTable
  import opened CacheLookup
  import opened CacheSessions

  // ------------------------------------------------------------------------------ builders and waiting

  // A session builds its own object, and all other objects are ready or zombies.
  ghost predicate Built(s: State)
    requires Shaped(s.table)
  {
    && (forall k | IsAt(s, k, Building) :: Builds(s, k))
    && (forall i | 0 <= i < MAX_ITEMS && s.table.objects[i].Some? && Unready(s.table.objects[i].value.status) ::
          Builder(s, i))
  }

  ghost predicate Builds(s: State, k: nat)
    requires Shaped(s.table) && k in s.sessions
  {
    var i := s.sessions[k].slot;
    && IsSlot(i) && s.table.objects[i].Some? && s.table.objects[i].value.status != Ready
    && forall j | j in s.sessions && s.sessions[j].slot == i :: j == k
  }

  ghost predicate Builder(s: State, i: nat) {
    exists k :: IsAt(s, k, Building) && s.sessions[k].slot == i
  }

  // Every session has what it asked for, and the search ended at a cache of the file.
  ghost predicate AsAsked(s: State)
    requires Shaped(s.table)
  {
    && (forall k | k in s.sessions :: HasFile(s, s.sessions[k].slot, s.sessions[k].key, s.sessions[k].attr))
    && (s.entering.Some? && s.entering.value.i != 0 ==>
          var e := s.entering.value;
          IsSlot(e.i) && s.table.objects[e.i].Some? && s.table.objects[e.i].value.key == e.key)
  }

  ghost predicate HasFile(s: State, i: nat, key: nat, attr: nat)
    requires Shaped(s.table)
  {
    && IsSlot(i) && s.table.objects[i].Some?
    && s.table.objects[i].value.key == key && s.table.objects[i].value.attr == attr
  }

  ghost predicate Sound(s: State) {
    Inv(s) && Built(s) && AsAsked(s)
  }

  // Nothing changes but the status of some objects that nobody builds, from Ready to Zombie.
  lemma ExistingSound(s: State, e: Entering, r: State)
    requires Sound(s) && s.entering == Some(e) && Shares(s, e) && Inv(r)
    requires r == State(SetRef(s.table, e.i, s.table.refs[e.i] + 1),
                        s.sessions[e.k := Session(Held, e.i, ObjectId(s.table, e.i), e.key, e.attr)], s.nextId, None)
    ensures Sound(r)
  {
    forall k | IsAt(r, k, Building) ensures Builds(r, k) {
      assert IsAt(s, k, Building) && Builds(s, k);
    }
    forall i | 0 <= i < MAX_ITEMS && r.table.objects[i].Some? && Unready(r.table.objects[i].value.status)
      ensures Builder(r, i)
    {
      var k :| IsAt(s, k, Building) && s.sessions[k].slot == i;
      assert IsAt(r, k, Building);
    }
  }

  lemma OutdatedSound(s: State, e: Entering, r: State)
    requires Sound(s) && s.entering == Some(e) && CanEnter(s) && r == s.(table := Before(s, e), entering := None)
    requires Inv(r)
    ensures Sound(r)
  {
    forall k | IsAt(r, k, Building) ensures Builds(r, k) {
      assert IsAt(s, k, Building) && Builds(s, k);
    }
    forall i | 0 <= i < MAX_ITEMS && r.table.objects[i].Some? && Unready(r.table.objects[i].value.status)
      ensures Builder(r, i)
    {
      var k :| IsAt(s, k, Building) && s.sessions[k].slot == i;
      assert IsAt(r, k, Building);
    }
    forall k | k in r.sessions ensures HasFile(r, r.sessions[k].slot, r.sessions[k].key, r.sessions[k].attr) {
      assert HasFile(s, s.sessions[k].slot, s.sessions[k].key, s.sessions[k].attr);
    }
  }

  lemma CreateSound(u: State, e: Entering, j: nat, r: State)
    requires Sound(u) && u.entering == None && e.k !in u.sessions && IsSlot(j) && Free(u.table, j) && Inv(r)
    requires r == State(SetRef(SetObject(u.table, j, Some(Object(u.nextId, e.key, e.attr, Alloc, 0))), j, 1),
                        u.sessions[e.k := Session(Building, j, u.nextId, e.key, e.attr)], u.nextId + 1, None)
    ensures Sound(r)
  {
    forall k | k in u.sessions ensures u.sessions[k].slot != j && r.sessions[k] == u.sessions[k] {
      Holds(u, k);
    }
    forall i | 0 <= i < MAX_ITEMS && r.table.objects[i].Some? && Unready(r.table.objects[i].value.status)
      ensures Builder(r, i)
    {
      if i == j {
        assert IsAt(r, e.k, Building);
      } else {
        var k :| IsAt(u, k, Building) && u.sessions[k].slot == i;
        assert IsAt(r, k, Building);
      }
    }
    forall k | k in r.sessions ensures HasFile(r, r.sessions[k].slot, r.sessions[k].key, r.sessions[k].attr) {
      if k != e.k {
        assert HasFile(u, u.sessions[k].slot, u.sessions[k].key, u.sessions[k].attr);
      }
    }
    forall k | IsAt(r, k, Building) ensures Builds(r, k) {
      if k != e.k {
        assert IsAt(u, k, Building) && Builds(u, k);
      }
    }
  }

  lemma EnterSound(s: State, e: Entering)
    requires Sound(s) && CanEnter(s) && s.entering == Some(e)
    ensures Sound(EnterStep(s, e))
  {
    hide EnterStep, FreeItem, Inv, Built, AsAsked;
    TableShaped(s);
    var r, j := Outcomes(s, e);
    EnterKeeps(s, e);
    if Shares(s, e) {
      ExistingSound(s, e, r);
    } else {
      var u := s.(table := Before(s, e), entering := None);
      OutdatedKeeps(s, e, u);
      OutdatedSound(s, e, u);
      if e.creatable && j != 0 {
        KeyIsFree(s, e);
        CreateSound(u, e, j, r);
      }
    }
  }

  lemma TableShaped(s: State)
    requires Inv(s)
    ensures Shaped(s.table)
  {
  }

  lemma KeyIsFree(s: State, e: Entering)
    requires Inv(s) && s.entering == Some(e)
    ensures e.k !in s.sessions
  {
  }

  lemma OutdatedKeeps(s: State, e: Entering, u: State)
    requires Inv(s) && s.entering == Some(e) && CanEnter(s) && u == s.(table := Before(s, e), entering := None)
    ensures Inv(u)
  {
    if Before(s, e) != s.table {
      MarkKeeps(s, e.i, Zombie);
    }
    var v := s.(table := Before(s, e));
    assert forall k | k in v.sessions :: Alive(v, k) ==> Alive(u, k);
  }

  // init changes the status of its object.
  lemma MarkSound(s: State, k: nat, status: Status, r: State)
    requires Sound(s) && IsAt(s, k, Building) && Inv(r) && r == Marked(s, k, status) && status != Ready
    ensures Sound(r)
  {
    var slot := s.sessions[k].slot;
    forall i | 0 <= i < MAX_ITEMS && r.table.objects[i].Some? && Unready(r.table.objects[i].value.status)
      ensures Builder(r, i)
    {
      if i == slot {
        assert IsAt(r, k, Building);
      } else {
        var j :| IsAt(s, j, Building) && s.sessions[j].slot == i;
        assert IsAt(r, j, Building);
      }
    }
    forall j | j in r.sessions ensures HasFile(r, r.sessions[j].slot, r.sessions[j].key, r.sessions[j].attr) {
      assert HasFile(s, s.sessions[j].slot, s.sessions[j].key, s.sessions[j].attr);
    }
    forall j | IsAt(r, j, Building) ensures Builds(r, j) {
      assert IsAt(s, j, Building) && Builds(s, j);
    }
  }

  // init ends.
  lemma FinishSound(s: State, k: nat, ok: bool, r: State)
    requires Sound(s) && IsAt(s, k, Building) && Inv(r) && r == FinishStep(s, k, ok)
    ensures Sound(r)
  {
    var slot := s.sessions[k].slot;
    forall i | 0 <= i < MAX_ITEMS && r.table.objects[i].Some? && Unready(r.table.objects[i].value.status)
      ensures Builder(r, i)
    {
      var j :| IsAt(s, j, Building) && s.sessions[j].slot == i;
      assert IsAt(r, j, Building);
    }
    forall j | j in r.sessions ensures HasFile(r, r.sessions[j].slot, r.sessions[j].key, r.sessions[j].attr) {
      assert HasFile(s, s.sessions[j].slot, s.sessions[j].key, s.sessions[j].attr);
    }
    assert Builds(s, k);
    forall j | IsAt(r, j, Building) ensures Builds(r, j) {
      assert IsAt(s, j, Building) && Builds(s, j);
    }
  }

  // A session that is not building goes on.
  lemma MoveSound(s: State, k: nat, p: Place)
    requires Sound(s) && k in s.sessions && s.sessions[k].place != Building && p != Building && Inv(Move(s, k, p))
    ensures Sound(Move(s, k, p))
  {
    var r := Move(s, k, p);
    forall i | 0 <= i < MAX_ITEMS && r.table.objects[i].Some? && Unready(r.table.objects[i].value.status)
      ensures Builder(r, i)
    {
      var j :| IsAt(s, j, Building) && s.sessions[j].slot == i;
      assert IsAt(r, j, Building);
    }
    forall j | j in r.sessions ensures HasFile(r, r.sessions[j].slot, r.sessions[j].key, r.sessions[j].attr) {
      assert HasFile(s, s.sessions[j].slot, s.sessions[j].key, s.sessions[j].attr);
    }
    forall j | IsAt(r, j, Building) ensures Builds(r, j) {
      assert IsAt(s, j, Building) && Builds(s, j);
    }
  }

  lemma DropSound(s: State, k: nat, now: int)
    requires Sound(s) && s.entering == None && k in s.sessions && s.sessions[k].place != Building
    requires Inv(DropStep(s, k, now))
    ensures Sound(DropStep(s, k, now))
  {
    var r := DropStep(s, k, now);
    forall i | 0 <= i < MAX_ITEMS && r.table.objects[i].Some? && Unready(r.table.objects[i].value.status)
      ensures Builder(r, i)
    {
      var j :| IsAt(s, j, Building) && s.sessions[j].slot == i;
      assert IsAt(r, j, Building);
    }
    forall j | j in r.sessions ensures HasFile(r, r.sessions[j].slot, r.sessions[j].key, r.sessions[j].attr) {
      assert HasFile(s, s.sessions[j].slot, s.sessions[j].key, s.sessions[j].attr);
    }
    forall j | IsAt(r, j, Building) ensures Builds(r, j) {
      assert IsAt(s, j, Building) && Builds(s, j);
    }
  }

  // A deletion hits only objects without sessions.
  lemma DeletionSound(s: State, t: Table)
    requires Sound(s) && s.entering == None && Shaped(t) && Inv(s.(table := t))
    requires forall i | 0 <= i < MAX_ITEMS ::
               t.objects[i] == s.table.objects[i] || (t.objects[i].None? && s.table.refs[i] == 0)
    ensures Sound(s.(table := t))
  {
    var r := s.(table := t);
    forall k | k in s.sessions ensures t.objects[s.sessions[k].slot] == s.table.objects[s.sessions[k].slot] {
      Holds(s, k);
    }
    forall i | 0 <= i < MAX_ITEMS && r.table.objects[i].Some? && Unready(r.table.objects[i].value.status)
      ensures Builder(r, i)
    {
      var j :| IsAt(s, j, Building) && s.sessions[j].slot == i;
      assert IsAt(r, j, Building);
    }
    forall j | j in r.sessions ensures HasFile(r, r.sessions[j].slot, r.sessions[j].key, r.sessions[j].attr) {
      assert HasFile(s, s.sessions[j].slot, s.sessions[j].key, s.sessions[j].attr);
    }
    forall j | IsAt(r, j, Building) ensures Builds(r, j) {
      assert IsAt(s, j, Building) && Builds(s, j);
    }
  }

  lemma SearchSound(s: State, k: nat, key: nat, attr: nat, creatable: bool, r: State)
    requires Sound(s) && s.entering == None && Inv(r)
    requires r == s.(entering := Some(Entering(k, key, attr, creatable, FindSame(s.table.objects, key, 1))))
    ensures Sound(r)
  {
    forall i | 0 <= i < MAX_ITEMS && r.table.objects[i].Some? && Unready(r.table.objects[i].value.status)
      ensures Builder(r, i)
    {
      var j :| IsAt(s, j, Building) && s.sessions[j].slot == i;
      assert IsAt(r, j, Building);
    }
    forall j | j in r.sessions ensures HasFile(r, r.sessions[j].slot, r.sessions[j].key, r.sessions[j].attr) {
      assert HasFile(s, s.sessions[j].slot, s.sessions[j].key, s.sessions[j].attr);
    }
    forall j | IsAt(r, j, Building) ensures Builds(r, j) {
      assert IsAt(s, j, Building) && Builds(s, j);
    }
  }

  lemma StepSound(s: State, e: Event)
    requires Sound(s)
    ensures Sound(Step(s, e))
  {
    hide EnterStep, Inv, Built, AsAsked, ReleaseIn, Clear, FindSame;
    TableShaped(s);
    StepKeeps(s, e);
    if !(s.entering.Some? && NeedsLock(e)) {
      match e
      case Search(k, key, attr, creatable) =>
        if k !in s.sessions {
          SearchSound(s, k, key, attr, creatable, Step(s, e));
        }
      case Enter => if CanEnter(s) { EnterSound(s, s.entering.value); }
      case Mark(k, status) => if IsAt(s, k, Building) && status != Ready { MarkSound(s, k, status, Step(s, e)); }
      case Finish(k, ok) => if IsAt(s, k, Building) { FinishSound(s, k, ok, Step(s, e)); }
      case Attach(k) => if IsAt(s, k, Held) { MoveSound(s, k, Attached); }
      case Lock(k) => if IsAt(s, k, Attached) { MoveSound(s, k, Reading); }
      case Unlock(k) => if IsAt(s, k, Reading) { MoveSound(s, k, Unlocked); }
      case Drop(k, now) =>
        if IsAt(s, k, Failed) || IsAt(s, k, Attached) || IsAt(s, k, Unlocked) {
          DropSound(s, k, now);
        }
      case DeleteZombies(now, lifetime) =>
        DeletionSound(s, Sweep(s.table, now, lifetime));
      case ClearAll =>
        NoNegatives(s);
        DeletionSound(s, Clear(s.table));
    }
  }

  lemma NoNegatives(s: State)
    requires Inv(s)
    ensures forall i | 0 <= i < MAX_ITEMS :: s.table.refs[i] >= 0
  {
  }

  lemma {:induction false} RunSound(s: State, es: seq<Event>)
    requires Sound(s)
    ensures Sound(Run(s, es))
    decreases |es|
  {
    hide Inv, Built, AsAsked, Step;
    TableShaped(s);
    if es != [] {
      StepSound(s, es[0]);
      RunSound(Step(s, es[0]), es[1..]);
    }
  }

  lemma StartSound()
    ensures Sound(START)
  {
    StartOk();
  }

  // Over every run: each session refers to an object of the file, and of the state of that file, that it asked for.
  lemma SessionsHaveTheirFile(es: seq<Event>, k: nat)
    requires k in Run(START, es).sessions
    ensures var s := Run(START, es); HasFile(s, s.sessions[k].slot, s.sessions[k].key, s.sessions[k].attr)
  {
    hide Run, Inv, Built;
    StartSound();
    RunSound(START, es);
  }

  // The wait in get_cache, with the write lock held, ends: the object is being built by exactly one session, which
  // can go on without the lock, and as soon as it is done get_cache can leave the section.
  lemma WaitEnds(es: seq<Event>, ok: bool) returns (k: nat)
    requires Waits(Run(START, es))
    ensures var s := Run(START, es);
            && IsAt(s, k, Building) && s.sessions[k].slot == s.entering.value.i
            && !Waits(Step(s, Finish(k, ok))) && CanEnter(Step(s, Finish(k, ok)))
            && Step(Step(s, Finish(k, ok)), Enter).entering == None
  {
    hide Run, Inv, GetFrom;
    StartSound();
    RunSound(START, es);
    var s := Run(START, es);
    k :| IsAt(s, k, Building) && s.sessions[k].slot == s.entering.value.i;
  }

  // What a session asks for is what its last search was for.
  lemma {:induction false} AskedInItsSearch(es: seq<Event>, k: nat)
    requires k in Run(START, es).sessions
    ensures var x := Run(START, es).sessions[k];
            exists i, creatable :: 0 <= i < |es| && es[i] == Search(k, x.key, x.attr, creatable)
  {
    hide Run;
    CameFromSearch(START, es, [], es);
  }

  ghost predicate Searched(past: seq<Event>, k: nat, key: nat, attr: nat) {
    exists i, creatable :: 0 <= i < |past| && past[i] == Search(k, key, attr, creatable)
  }

  ghost predicate AllSearched(s: State, past: seq<Event>) {
    && (forall k | k in s.sessions :: Searched(past, k, s.sessions[k].key, s.sessions[k].attr))
    && (s.entering.Some? ==> var e := s.entering.value; Searched(past, e.k, e.key, e.attr))
  }

  lemma SearchedBefore(past: seq<Event>, e: Event, k: nat, key: nat, attr: nat)
    requires Searched(past, k, key, attr)
    ensures Searched(past + [e], k, key, attr)
  {
    var i, creatable :| 0 <= i < |past| && past[i] == Search(k, key, attr, creatable);
    assert (past + [e])[i] == Search(k, key, attr, creatable);
  }

  // The session of a step is that of before, but for its place, or it comes out of the section.
  lemma SessionsAfter(s: State, e: Event, k: nat)
    requires Shaped(s.table) && k in Step(s, e).sessions
    ensures var x := Step(s, e).sessions[k];
            || (k in s.sessions && s.sessions[k].key == x.key && s.sessions[k].attr == x.attr)
            || (s.entering.Some? && var e := s.entering.value; e.k == k && e.key == x.key && e.attr == x.attr)
  {
    hide GetFrom, ReleaseIn, Sweep, Clear, FindSame;
  }

  lemma EnteringAfter(s: State, e: Event)
    requires Shaped(s.table)
    ensures var r := Step(s, e).entering;
            r == s.entering || r == None
            || (e.Search? && r.Some? && r.value.k == e.k && r.value.key == e.key && r.value.attr == e.attr)
  {
    hide GetFrom, ReleaseIn, Sweep, Clear, FindSame;
  }

  lemma SearchedStep(s: State, e: Event, past: seq<Event>)
    requires Shaped(s.table) && AllSearched(s, past)
    ensures AllSearched(Step(s, e), past + [e])
  {
    hide Step, Searched;
    var r := Step(s, e);
    forall k | k in r.sessions ensures Searched(past + [e], k, r.sessions[k].key, r.sessions[k].attr) {
      SessionsAfter(s, e, k);
      SearchedBefore(past, e, k, r.sessions[k].key, r.sessions[k].attr);
    }
    EnteringAfter(s, e);
    if r.entering.Some? {
      var n := r.entering.value;
      if r.entering == s.entering {
        SearchedBefore(past, e, n.k, n.key, n.attr);
      } else {
        SearchedNow(past, e);
      }
    }
  }

  lemma SearchedNow(past: seq<Event>, e: Event)
    requires e.Search?
    ensures Searched(past + [e], e.k, e.key, e.attr)
  {
    assert (past + [e])[|past|] == Search(e.k, e.key, e.attr, e.creatable);
  }

  lemma {:induction false} CameFromSearch(s: State, es: seq<Event>, past: seq<Event>, all: seq<Event>)
    requires Shaped(s.table) && AllSearched(s, past) && all == past + es
    ensures AllSearched(Run(s, es), all)
    decreases |es|
  {
    hide AllSearched, Step;
    if es == [] {
      assert all == past;
    } else {
      SearchedStep(s, es[0], past);
      assert all == past + [es[0]] + es[1..];
      CameFromSearch(Step(s, es[0]), es[1..], past + [es[0]], all);
    }
  }

  // ------------------------------------------------------------------------------------ the way of a session

  // The next places of a session.
  predicate Next(p: Place, q: Place) {
    match p
    case Building => q == Held || q == Failed
    case Held => q == Attached
    case Attached => q == Reading
    case Reading => q == Unlocked
    case Failed => false
    case Unlocked => false
  }

  predicate OwnEvent(e: Event, k: nat) {
    match e
    case Finish(j, _) => j == k
    case Attach(j) => j == k
    case Lock(j) => j == k
    case Unlock(j) => j == k
    case Drop(j, _) => j == k
    case _ => false
  }

  // A session goes its way by its own steps only, and gives its cache back only after a failure or an archive
  // that is closed.
  lemma GoesItsWay(s: State, e: Event, k: nat)
    requires Inv(s) && k in s.sessions
    ensures var r := Step(s, e);
            if k in r.sessions then
              && r.sessions[k] == s.sessions[k].(place := r.sessions[k].place)
              && (r.sessions[k].place == s.sessions[k].place
                  || (OwnEvent(e, k) && Next(s.sessions[k].place, r.sessions[k].place)))
            else OwnEvent(e, k) && e.Drop? && s.sessions[k].place in {Failed, Attached, Unlocked}
  {
    hide GetFrom, ReleaseIn, Sweep, Clear, FindSame;
  }

  // While an archive is read its cache is there, the same object, whatever the others do.
  lemma ReadingStays(past: seq<Event>, es: seq<Event>, k: nat)
    requires IsAt(Run(START, past), k, Reading) && forall e | e in es :: e != Unlock(k)
    ensures var s, r := Run(START, past), Run(Run(START, past), es);
            && IsAt(r, k, Reading) && r.sessions[k] == s.sessions[k] && IsSlot(s.sessions[k].slot)
            && r.table.objects[s.sessions[k].slot].Some?
            && r.table.objects[s.sessions[k].slot].value.id == s.sessions[k].id
  {
    hide Run, Built, AsAsked;
    StartSound();
    RunSound(START, past);
    ReadsOn(Run(START, past), es, k);
  }

  lemma {:induction false} ReadsOn(s: State, es: seq<Event>, k: nat)
    requires Sound(s) && IsAt(s, k, Reading) && forall e | e in es :: e != Unlock(k)
    ensures var r := Run(s, es);
            && Sound(r) && IsAt(r, k, Reading) && r.sessions[k] == s.sessions[k] && IsSlot(s.sessions[k].slot)
            && r.table.objects[s.sessions[k].slot].Some?
            && r.table.objects[s.sessions[k].slot].value.id == s.sessions[k].id
    decreases |es|
  {
    hide Step, Built, AsAsked;
    if es == [] {
      assert Alive(s, k);
    } else {
      assert es[0] in es && forall e | e in es[1..] :: e in es;
      StepSound(s, es[0]);
      OnlyUnlockEnds(s, es[0], k);
      ReadsOn(Step(s, es[0]), es[1..], k);
    }
  }

  lemma OnlyUnlockEnds(s: State, e: Event, k: nat)
    requires Inv(s) && IsAt(s, k, Reading) && e != Unlock(k)
    ensures k in Step(s, e).sessions && Step(s, e).sessions[k] == s.sessions[k]
  {
    hide GetFrom, ReleaseIn, Sweep, Clear, FindSame;
  }

  // A cache whose building has ended changes its status only to that of a zombie, and a zombie stays one; nobody
  // gets a cache that is not ready.
  lemma ZombiesStay(s: State, e: Event, i: nat)
    requires Sound(s) && IsSlot(i) && s.table.objects[i].Some? && !Builder(s, i)
    ensures var x, r := s.table.objects[i].value, Step(s, e).table.objects[i];
            r.Some? && r.value.id == x.id ==>
              r.value.status == x.status || (x.status == Ready && r.value.status == Zombie)
  {
    hide FindSame, FreeItem, Builder, Built, AsAsked, RefsOk;
    if (e.Mark? || e.Finish?) && IsAt(s, e.k, Building) {
      IsBuilder(s, e.k);
    }
  }

  lemma GetsReady(s: State, e: Entering)
    requires Sound(s) && CanEnter(s) && s.entering == Some(e)
    ensures var r := EnterStep(s, e);
            && r.entering == None
            && (IsAt(r, e.k, Held) ==>
                  && r.sessions[e.k].slot == e.i && s.table.objects[e.i].value.status == Ready
                  && s.table.objects[e.i].value.key == e.key && s.table.objects[e.i].value.attr == e.attr
                  && r.table.objects == s.table.objects)
            && (IsAt(r, e.k, Building) ==>
                  Free(s.table, r.sessions[e.k].slot) && r.table.objects[r.sessions[e.k].slot].Some?)
            && (e.k in r.sessions ==> IsAt(r, e.k, Held) || IsAt(r, e.k, Building))
            && (e.k !in r.sessions ==> !e.creatable || forall j | 1 <= j < 1024 :: !Free(s.table, j))
  {
    hide EnterStep, Inv, Built;
    KeyIsFree(s, e);
    TableShaped(s);
    var r, j := Outcomes(s, e);
    if !Shares(s, e) && j == 0 {
      NoFree(Before(s, e), 1);
      assert forall n | 1 <= n < 1024 :: Free(s.table, n) ==> Free(Before(s, e), n);
    }
  }

  lemma {:induction false} NoFree(t: Table, i: nat)
    requires Shaped(t) && 1 <= i <= MAX_ITEMS && FreeItem(t, i) == 0
    ensures forall j | i <= j < MAX_ITEMS :: !Free(t, j)
    decreases MAX_ITEMS - i
  {
    if i < MAX_ITEMS {
      NoFree(t, i + 1);
    }
  }

  // ------------------------------------------------------------------------------------ one cache for a file

  // A cache that is shared with everybody who opens the file now, or that will be.
  ghost predicate Active(s: State, i: nat, key: nat)
    requires Shaped(s.table)
  {
    && IsSlot(i) && s.table.objects[i].Some? && s.table.objects[i].value.key == key
    && (s.table.objects[i].value.status != Zombie || Builder(s, i))
  }

  ghost predicate OneActive(s: State)
    requires Shaped(s.table)
  {
    && (forall i, j, key | Active(s, i, key) && Active(s, j, key) :: i == j)
    && (s.entering.Some? ==> forall i | Active(s, i, s.entering.value.key) :: i == s.entering.value.i)
  }

  // No cache that is being built is a zombie at this moment.
  ghost predicate Quiet(s: State)
    requires Shaped(s.table)
  {
    forall i: nat | IsSlot(i) && Builder(s, i) && s.table.objects[i].Some? :: s.table.objects[i].value.status != Zombie
  }

  // Nobody searches, or leaves the section, at such a moment.
  ghost predicate QuietRun(s: State, es: seq<Event>)
    requires Shaped(s.table)
    decreases |es|
  {
    es != [] ==> (es[0].Search? || es[0].Enter? ==> Quiet(s)) && QuietRun(Step(s, es[0]), es[1..])
  }

  lemma SearchOne(s: State, key: nat, i: nat)
    requires Shaped(s.table) && OneActive(s) && Quiet(s) && Active(s, i, key)
    ensures FindSame(s.table.objects, key, 1) == i
  {
    var f := SomeFirst(s.table, key, 1);
    assert s.table.objects[i].value.status != Zombie;
    FoundFirst(s.table, key, f, 1);
    assert Active(s, f, key);
  }

  // Without a search or a way out of the section no cache becomes active.
  lemma OtherActive(s: State, e: Event, i: nat, key: nat)
    requires Sound(s) && !e.Search? && !e.Enter? && Active(Step(s, e), i, key)
    ensures Active(s, i, key)
  {
    hide FindSame, GetFrom, Builder;
    var r := Step(s, e);
    if Builder(r, i) {
      BuiltBefore(s, e, i);
    }
    if (e.Finish? || e.Mark?) && IsAt(s, e.k, Building) && s.sessions[e.k].slot == i {
      IsBuilder(s, e.k);
    }
  }

  lemma IsBuilder(s: State, k: nat)
    requires IsAt(s, k, Building)
    ensures Builder(s, s.sessions[k].slot)
  {
  }

  lemma BuiltBefore(s: State, e: Event, i: nat)
    requires Shaped(s.table) && !e.Enter? && Builder(Step(s, e), i)
    ensures Builder(s, i)
  {
    hide FindSame, GetFrom, ReleaseIn, Sweep, Clear;
    var r := Step(s, e);
    var k :| IsAt(r, k, Building) && r.sessions[k].slot == i;
    assert IsAt(s, k, Building) && s.sessions[k].slot == i;
  }

  // A cache that becomes active at the way out of the section is the new one, and no other of its file stays so.
  lemma EnterActive(s: State, i: nat, key: nat) returns (n: nat)
    requires Sound(s) && OneActive(s) && Quiet(s) && CanEnter(s) && Active(Step(s, Enter), i, key)
    ensures var r, e := Step(s, Enter), s.entering.value;
            && r.entering == None && n == FreeItem(Before(s, e), 1)
            && (!Active(s, i, key) ==> i == n && key == e.key && forall j | Active(s, j, key) :: !Active(r, j, key))
  {
    hide EnterStep, FreeItem, Inv, FindSame;
    var e := s.entering.value;
    KeyIsFree(s, e);
    TableShaped(s);
    var r;
    r, n := Outcomes(s, e);
    assert r == Step(s, Enter);
    if Builder(r, i) {
      var k :| IsAt(r, k, Building) && r.sessions[k].slot == i;
      assert k != e.k ==> IsAt(s, k, Building) && s.sessions[k].slot == i;
    }
    if !Shares(s, e) && n != 0 && e.creatable {
      forall j | Active(s, j, e.key) ensures !Active(r, j, e.key) {
        assert j == e.i;
        OldIsOver(s, e, r, n);
      }
    }
  }

  // The cache that the search found is not active any more once a new one takes its place.
  lemma OldIsOver(s: State, e: Entering, r: State, n: nat)
    requires Sound(s) && Quiet(s) && CanEnter(s) && s.entering == Some(e) && Active(s, e.i, e.key) && !Shares(s, e)
    requires Shaped(r.table) && IsSlot(n) && n != e.i
    requires r.table.objects == Before(s, e).objects[n := r.table.objects[n]]
    requires e.k in r.sessions && r.sessions == s.sessions[e.k := r.sessions[e.k]] && r.sessions[e.k].slot == n
    ensures !Active(r, e.i, e.key)
  {
    hide Inv, AsAsked;
    TableShaped(s);
    forall k | IsAt(s, k, Building) ensures s.sessions[k].slot != e.i {
      assert Builds(s, k) && Builder(s, s.sessions[k].slot);
    }
    forall k | IsAt(r, k, Building) ensures r.sessions[k].slot != e.i {
      if k != e.k {
        assert IsAt(s, k, Building);
      }
    }
  }

  lemma LeavesSection(s: State)
    requires Shaped(s.table) && CanEnter(s)
    ensures Step(s, Enter).entering == None
  {
  }

  lemma OneAfterEnter(s: State)
    requires Sound(s) && OneActive(s) && Quiet(s) && CanEnter(s)
    ensures OneActive(Step(s, Enter))
  {
    hide Inv, Built, AsAsked, Active, FreeItem, EnterStep, Before;
    TableShaped(s);
    var r := Step(s, Enter);
    forall i, j, key | Active(r, i, key) && Active(r, j, key) ensures i == j {
      var n := EnterActive(s, i, key);
      var m := EnterActive(s, j, key);
    }
    LeavesSection(s);
  }

  lemma OneAfterSearch(s: State, e: Event)
    requires Sound(s) && OneActive(s) && Quiet(s) && e.Search? && s.entering == None
    ensures OneActive(Step(s, e))
  {
    hide Inv, Built, AsAsked, FindSame;
    TableShaped(s);
    var r := Step(s, e);
    forall i, key | Active(r, i, key) ensures Active(s, i, key) {
      if Builder(r, i) {
        var k :| IsAt(r, k, Building) && r.sessions[k].slot == i;
        assert IsAt(s, k, Building);
      }
    }
    forall i | Active(s, i, e.key) ensures FindSame(s.table.objects, e.key, 1) == i {
      SearchOne(s, e.key, i);
    }
  }

  lemma StepOneActive(s: State, e: Event)
    requires Sound(s) && OneActive(s) && (e.Search? || e.Enter? ==> Quiet(s))
    ensures OneActive(Step(s, e))
  {
    hide Inv, Built, AsAsked, Active, FindSame, EnterStep;
    TableShaped(s);
    var r := Step(s, e);
    if e.Enter? {
      if CanEnter(s) {
        OneAfterEnter(s);
      }
    } else if e.Search? {
      if s.entering == None {
        OneAfterSearch(s, e);
      }
    } else {
      forall i, key | Active(r, i, key) ensures Active(s, i, key) {
        OtherActive(s, e, i, key);
      }
    }
  }

  lemma {:induction false} RunOneActive(s: State, es: seq<Event>)
    requires Sound(s) && OneActive(s) && QuietRun(s, es)
    ensures OneActive(Run(s, es))
    decreases |es|
  {
    hide Inv, Built, AsAsked, OneActive, Step;
    TableShaped(s);
    if es != [] {
      StepSound(s, es[0]);
      StepOneActive(s, es[0]);
      RunOneActive(Step(s, es[0]), es[1..]);
    }
  }

  // In every run in which nobody searches while a cache that is being built is a zombie for the moment, a file has
  // only one cache that is no zombie.
  lemma OneCachePerFile(es: seq<Event>, i: nat, j: nat)
    requires QuietRun(START, es) && 1 <= i < 1024 && 1 <= j < 1024
    ensures var objects := Run(START, es).table.objects;
            objects[i].Some? && objects[i].value.status != Zombie && objects[j].Some?
            && objects[j].value.status != Zombie && objects[i].value.key == objects[j].value.key
            ==> i == j
  {
    hide Run, Inv, Built, AsAsked, QuietRun;
    StartSound();
    RunOneActive(START, es);
    var s := Run(START, es);
    if s.table.objects[i].Some? && s.table.objects[j].Some? {
      var key := s.table.objects[i].value.key;
      assert s.table.objects[i].value.status != Zombie ==> Active(s, i, key);
      assert s.table.objects[j].value.status != Zombie && s.table.objects[j].value.key == key ==> Active(s, j, key);
    }
  }

  // init clears the cache first and makes it a zombie for a moment: whoever opens the same file just then gets a
  // second cache for it.
  lemma TwoCaches() returns (es: seq<Event>)
    ensures es == [Search(1, 7, 0, true), Enter, Mark(1, Zombie), Search(2, 7, 0, true), Enter, Mark(1, Init)]
    ensures var objects := Run(START, es).table.objects;
            && objects[1].Some? && objects[1].value.key == 7 && objects[1].value.status == Init
            && objects[2].Some? && objects[2].value.key == 7 && objects[2].value.status == Alloc
  {
    hide Step, Run;
    es := [Search(1, 7, 0, true), Enter, Mark(1, Zombie), Search(2, 7, 0, true), Enter, Mark(1, Init)];
    var s1 := NewCache(START, 1, 7, 0, 1);
    var s2 := MarkIs(s1, 1, Zombie);
    var s3 := NewCache(s2, 2, 7, 0, 2);
    var s4 := MarkIs(s3, 1, Init);
    ThreeSteps(START, es, s2);
    ThreeSteps(s2, es[3..], s4);
    NoSteps(s4, es[3..][3..]);
  }

  lemma NoSteps(s: State, es: seq<Event>)
    requires Shaped(s.table) && es == []
    ensures Run(s, es) == s
  {
  }

  lemma ThreeSteps(s: State, es: seq<Event>, r: State)
    requires Shaped(s.table) && |es| >= 3 && r == Step(Step(Step(s, es[0]), es[1]), es[2])
    ensures Run(s, es) == Run(r, es[3..])
  {
    hide Step;
    assert es[1..][1..] == es[2..] && es[2..][1..] == es[3..];
    assert Run(s, es) == Run(Step(s, es[0]), es[1..]);
    assert Run(Step(s, es[0]), es[1..]) == Run(Step(Step(s, es[0]), es[1]), es[2..]);
  }

  lemma MarkIs(s: State, k: nat, status: Status) returns (r: State)
    requires Shaped(s.table) && IsAt(s, k, Building) && IsSlot(s.sessions[k].slot) && status != Ready
    requires s.table.objects[s.sessions[k].slot].Some?
    ensures r == Step(s, Mark(k, status))
    ensures var i, t := s.sessions[k].slot, s.table;
            r == s.(table := t.(objects := t.objects[i := Some(t.objects[i].value.(status := status))]))
  {
    r := Step(s, Mark(k, status));
  }

  // A search for a file without a cache leads to a new one in the first free slot.
  lemma NewCache(s: State, k: nat, key: nat, attr: nat, i: nat) returns (r: State)
    requires Shaped(s.table) && s.entering == None && k !in s.sessions && NoneOf(s.table, key) && FirstFree(s.table, i)
    ensures r == Step(Step(s, Search(k, key, attr, true)), Enter)
    ensures r == State(Table(s.table.refs[i := 1], s.table.objects[i := Some(Object(s.nextId, key, attr, Alloc, 0))]),
                       s.sessions[k := Session(Building, i, s.nextId, key, attr)], s.nextId + 1, None)
  {
    hide FindSame, FreeItem;
    FoundNone(s.table, key, 1);
    FreeFirst(s.table, i, 1);
    r := Step(Step(s, Search(k, key, attr, true)), Enter);
  }
}
