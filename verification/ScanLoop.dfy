/**
 The loop that all three scanners share: a round at a position adds items and moves on, ends the scan
 or breaks it.
 */
module ScanLoop {
  import opened Bytes

  datatype Found<T> = Broken | End(end: nat) | More(items: seq<T>, next: nat)

  // The items from a position on and the end of the scan; None if a round fails.
  function Loop<T>(round: nat -> Found<T>, len: nat, pos: nat): Option<(seq<T>, nat)>
    requires pos <= len
    decreases len - pos
  {
    match round(pos)
    case Broken => None
    case End(end) => Some(([], end))
    case More(items, next) =>
      if !(pos < next <= len) then None
      else
        match Loop(round, len, next)
        case None => None
        case Some((rest, end)) => Some((items + rest, end))
  }

  lemma LoopMore<T>(round: nat -> Found<T>, len: nat, pos: nat, items: seq<T>, next: nat, rest: seq<T>, end: nat)
    requires pos < next <= len && round(pos) == More(items, next) && Loop(round, len, next) == Some((rest, end))
    ensures Loop(round, len, pos) == Some((items + rest, end))
  {
  }

  function Prefixed<T>(found: seq<T>, r: Option<(seq<T>, nat)>): Option<(seq<T>, nat)> {
    match r
    case None => None
    case Some((rest, end)) => Some((found + rest, end))
  }

  // One more round of an imperative loop that has found these items so far.
  lemma LoopStep<T>(round: nat -> Found<T>, len: nat, pos: nat, found: seq<T>, items: seq<T>, next: nat)
    requires pos < next <= len && round(pos) == More(items, next)
    ensures Prefixed(found, Loop(round, len, pos)) == Prefixed(found + items, Loop(round, len, next))
  {
    var rest := Loop(round, len, next);
    if rest.Some? {
      assert found + (items + rest.value.0) == found + items + rest.value.0;
    }
  }

  lemma PrefixedNothing<T>(r: Option<(seq<T>, nat)>)
    ensures Prefixed([], r) == r
  {
    if r.Some? {
      assert [] + r.value.0 == r.value.0;
    }
  }
}
