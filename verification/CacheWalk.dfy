/**
 The index as a whole: what was added, and only that, comes out again in the same order, however many
 blocks it takes.
 */
module CacheWalk {
  import opened Bytes
  import opened CacheItem
  import opened CacheStore

  function Map<A, B>(f: A -> B, s: seq<A>): (r: seq<B>)
    ensures |r| == |s|
  {
    if s == [] then [] else Map(f, s[..|s| - 1]) + [f(s[|s| - 1])]
  }

  lemma {:induction false} MapAt<A, B>(f: A -> B, s: seq<A>, k: nat)
    requires k < |s|
    ensures Map(f, s)[k] == f(s[k])
  {
    var n := |s| - 1;
    if k < n {
      MapAt(f, s[..n], k);
    }
  }

  lemma {:induction false} MapAppend<A, B>(f: A -> B, s: seq<A>, t: seq<A>)
    ensures Map(f, s + t) == Map(f, s) + Map(f, t)
  {
    if t == [] {
      assert s + t == s;
    } else {
      assert (s + t)[..|s + t| - 1] == s + t[..|t| - 1];
      MapAppend(f, s, t[..|t| - 1]);
    }
  }

  // The records of these items.
  function Imaged(items: seq<Item>): (rs: seq<seq<byte>>)
    ensures |rs| == |items|
  {
    Map((i: Item) => Image(i), items)
  }

  lemma ImagedAppend(s: seq<Item>, t: seq<Item>)
    ensures Imaged(s + t) == Imaged(s) + Imaged(t)
  {
    MapAppend((i: Item) => Image(i), s, t);
  }

  lemma ImagedAt(items: seq<Item>, k: nat)
    requires k < |items|
    ensures Imaged(items)[k] == Image(items[k])
  {
    MapAt((i: Item) => Image(i), items, k);
  }

  lemma ImagedOne(i: Item)
    ensures Imaged([i]) == [Image(i)]
  {
    assert [i][..0] == [];
  }

  predicate AllOk(items: seq<Item>) {
    forall i | i in items :: ItemOk(i)
  }

  // The next record of the list rs, behind the first k.
  method Next(c: Cache, ce: CacheEnum, ghost rs: seq<seq<byte>>, ghost k: nat) returns (item: Option<seq<byte>>)
    requires c.Valid() && c.CursorOk(ce) && rs == c.Records() && c.Seen(ce) == k <= |rs|
    modifies ce
    ensures c.CursorOk(ce) && c.Seen(ce) == if k < |rs| then k + 1 else k
    ensures item == if k < |rs| then Some(rs[k]) else None
  {
    item := c.GetNextFile(ce);
  }

  lemma TakeMore<T>(s: seq<T>, n: nat)
    requires n < |s|
    ensures s[..n + 1] == s[..n] + [s[n]]
  {
  }

  // Walking over the whole index, record by record.
  method ListFiles(c: Cache) returns (listed: seq<seq<byte>>)
    requires c.Valid()
    ensures listed == c.Records()
  {
    hide Cache.Valid;
    var ce := new CacheEnum();
    listed := [];
    ghost var rs, k := c.Records(), 0;
    assert rs[..0] == [] && rs[..|rs|] == rs;
    var item := Next(c, ce, rs, 0);
    while item.Some?
      modifies ce
      invariant c.CursorOk(ce) && c.Seen(ce) <= |rs|
      invariant k <= |rs| && listed == rs[..k]
      invariant item == if k < |rs| then Some(rs[k]) else None
      invariant k < |rs| ==> c.Seen(ce) == k + 1
      decreases |rs| - k
    {
      TakeMore(rs, k);
      listed := listed + [item.value];
      k := k + 1;
      item := Next(c, ce, rs, k);
    }
  }

  // Adding items one by one fills one block after the other.
  method Fill(items: seq<Item>) returns (c: Cache)
    requires AllOk(items)
    ensures fresh(c) && fresh(c.repr) && c.Valid() && c.Records() == Imaged(items)
    ensures c.lists == Filling(Imaged(items)) && c.blockCount == |Filling(Imaged(items))|
  {
    hide Cache.Valid, Appended;
    c := new Cache();
    var k := 0;
    while k < |items|
      invariant 0 <= k <= |items|
      invariant c.Valid() && c.Records() == Imaged(items[..k]) && fresh(c) && fresh(c.repr)
      invariant c.lists == Filling(Imaged(items[..k])) && c.blockCount == |c.lists|
    {
      assert items[k] in items;
      assert items[..k + 1] == items[..k] + [items[k]];
      ImagedAppend(items[..k], [items[k]]);
      ImagedOne(items[k]);
      FillingMore(Imaged(items[..k]), Image(items[k]));
      c.AddItem(items[k]);
      k := k + 1;
    }
    assert items[..k] == items;
  }

  lemma FillingMore(rs: seq<seq<byte>>, r: seq<byte>)
    ensures Filling(rs + [r]) == Appended(Filling(rs), r)
  {
    assert (rs + [r])[..|rs|] == rs;
  }

  method FillAndList(items: seq<Item>) returns (listed: seq<seq<byte>>)
    requires AllOk(items)
    ensures |listed| == |items|
    ensures forall k | 0 <= k < |items| :: |listed[k]| == ItemSize(items[k]) && ReadItem(listed[k]) == items[k]
  {
    hide Cache.Valid;
    var c := Fill(items);
    listed := ListFiles(c);
    forall k | 0 <= k < |items| ensures |listed[k]| == ItemSize(items[k]) && ReadItem(listed[k]) == items[k] {
      ImagedAt(items, k);
      assert items[k] in items;
      ItemBack(items[k]);
    }
  }
}
