/** A complete all_paginated walk with writers between its pages. */
module StoreWalk {
  import opened Wrappers
  import opened Keyset
  import opened StoreModel

  /** Writes by anyone, then one page request. */
  datatype Round = Round(ops: seq<Op>, limit: int)

  datatype Outcome = Outcome(items: seq<Item>, done: bool)

  function Follow(t: Table, rounds: seq<Round>, cursor: Option<string>): Outcome
    decreases |rounds|
  {
    if rounds == [] then Outcome([], false)
    else
      var u := Run(t, rounds[0].ops);
      var page := AllPage(u, rounds[0].limit, cursor);
      if page.None? then Outcome([], false)
      else if page.value.next.None? then Outcome(page.value.items, true)
      else
        var rest := Follow(u, rounds[1..], page.value.next);
        Outcome(page.value.items + rest.items, rest.done)
  }

  /** The table each page request sees. */
  function Tables(t: Table, rounds: seq<Round>): seq<Table>
    decreases |rounds|
  {
    if rounds == [] then []
    else
      var u := Run(t, rounds[0].ops);
      [u] + Tables(u, rounds[1..])
  }

  function Visits(t: Table, rounds: seq<Round>): (v: seq<Visit<Pair>>)
    ensures |v| == |rounds| && forall x | x in v :: x.limit >= 1
    decreases |rounds|
  {
    if rounds == [] then []
    else
      var u := Run(t, rounds[0].ops);
      [Visit(CreationKeys(u), Max(1, rounds[0].limit))] + Visits(u, rounds[1..])
  }

  function KeyOf(item: Item): Pair {
    Pair(item.created, item.id)
  }

  function Keys(items: seq<Item>): seq<Pair> {
    seq(|items|, i requires 0 <= i < |items| => KeyOf(items[i]))
  }

  ghost predicate OpsOk(rounds: seq<Round>) {
    forall r | r in rounds :: forall op | op in r.ops :: OpOk(op)
  }

  /** The cursor of a page resumes right after its last key. */
  lemma NextResumes(t: Table, after: Option<Pair>, limit: int)
    requires WellFormed(t)
    ensures var page := AllKeys(t, after, limit);
      if page.more then
        NextCursor(page).Some? && Resume(NextCursor(page)) == Some(Some(page.items[|page.items| - 1]))
      else NextCursor(page) == None
  {
    hide AllKeys, CursorAt, Resume;
    var page := AllKeys(t, after, limit);
    if page.more {
      var last := page.items[|page.items| - 1];
      assert last in page.items;
      ResumeAt(last);
    }
  }

  lemma ItemKeys(t: Table, keys: seq<Pair>)
    requires forall k | k in keys :: k in CreationKeys(t) && k.minor in t
    ensures Keys(Items(t, keys)) == keys
  {
    forall i | 0 <= i < |keys| ensures KeyOf(Items(t, keys)[i]) == keys[i] {
      assert keys[i] in keys;
    }
  }

  /** The walk of items with cursor strings is the abstract walk of keys. */
  lemma {:induction false} FollowIsWalk(t: Table, rounds: seq<Round>, cursor: Option<string>, after: Option<Pair>)
    requires WellFormed(t) && OpsOk(rounds) && Resume(cursor) == Some(after)
    requires StrictTotal(PairLess)
    ensures Keys(Follow(t, rounds, cursor).items) == Walk(PairLess, Visits(t, rounds), after).out
    ensures Follow(t, rounds, cursor).done == Walk(PairLess, Visits(t, rounds), after).done
    decreases |rounds|
  {
    hide Resume, PairLess, Run, Items, NextCursor, PageOf;
    if rounds != [] {
      assert rounds[0] in rounds;
      RunEvolves(t, rounds[0].ops);
      var u := Run(t, rounds[0].ops);
      var page := AllKeys(u, after, rounds[0].limit);
      NextResumes(u, after, rounds[0].limit);
      ItemKeys(u, page.items);
      var v := Visits(t, rounds);
      assert page == PageOf(PairLess, v[0].live, after, v[0].limit);
      if page.more {
        FollowIsWalk(u, rounds[1..], NextCursor(page), Some(page.items[|page.items| - 1]));
        assert v[1..] == Visits(u, rounds[1..]);
        var rest := Follow(u, rounds[1..], NextCursor(page)).items;
        assert Keys(Items(u, page.items) + rest) == Keys(Items(u, page.items)) + Keys(rest);
      }
    }
  }

  lemma {:induction false} TablesEvolve(t: Table, rounds: seq<Round>)
    requires WellFormed(t) && OpsOk(rounds)
    ensures |Tables(t, rounds)| == |rounds|
    ensures forall i | 0 <= i < |rounds| ::
              WellFormed(Tables(t, rounds)[i]) && Evolves(t, Tables(t, rounds)[i])
    ensures forall i, j | 0 <= i <= j < |rounds| :: Evolves(Tables(t, rounds)[i], Tables(t, rounds)[j])
    ensures forall i | 0 <= i < |rounds| ::
              Visits(t, rounds)[i].live == CreationKeys(Tables(t, rounds)[i])
    decreases |rounds|
  {
    hide Run, CreationKeys;
    if rounds != [] {
      assert rounds[0] in rounds;
      RunEvolves(t, rounds[0].ops);
      var u := Run(t, rounds[0].ops);
      TablesEvolve(u, rounds[1..]);
    }
  }

  ghost predicate Once(items: seq<Item>, id: string) {
    exists i :: 0 <= i < |items| && items[i].id == id && forall j | 0 <= j < |items| && items[j].id == id :: j == i
  }

  /** Whatever puts, updates, deletes and purges run between the pages, a finished walk returns no
      record twice, and returns exactly once every record that was live when the first page was read
      and still is when the last round is over. */
  lemma EveryRecordOnce(t: Table, rounds: seq<Round>)
    requires WellFormed(t) && OpsOk(rounds) && Follow(t, rounds, None).done
    ensures rounds != [] && |Tables(t, rounds)| == |rounds|
    ensures forall i, j | 0 <= i < j < |Follow(t, rounds, None).items| ::
              Follow(t, rounds, None).items[i].id != Follow(t, rounds, None).items[j].id
    ensures forall id | IsLive(Tables(t, rounds)[0], id) && IsLive(Tables(t, rounds)[|rounds| - 1], id) ::
              Once(Follow(t, rounds, None).items, id)
  {
    hide Follow, Run, PairLess, Visits, Tables, Walk;
    FollowNonempty(t, rounds, None);
    PairTotal();
    FollowIsWalk(t, rounds, None, None);
    TablesEvolve(t, rounds);
    var visits := Visits(t, rounds);
    WalkSound(PairLess, visits, None);
    var items := Follow(t, rounds, None).items;
    var out := Walk(PairLess, visits, None).out;
    assert forall i | 0 <= i < |items| :: out[i] == KeyOf(items[i]);
    forall i, j | 0 <= i < j < |items| ensures items[i].id != items[j].id {
      assert out[i] in out && out[j] in out && PairLess(out[i], out[j]) && !PairLess(out[i], out[i]);
      if items[i].id == items[j].id {
        SameStamp(t, rounds, out[i], out[j]);
      }
    }
    forall id | IsLive(Tables(t, rounds)[0], id) && IsLive(Tables(t, rounds)[|rounds| - 1], id)
      ensures Once(items, id)
    {
      var key := Pair(Tables(t, rounds)[0][id].created, id);
      forall v | v in visits ensures key in v.live {
        var i :| 0 <= i < |visits| && visits[i] == v;
        assert Evolves(Tables(t, rounds)[0], Tables(t, rounds)[i]);
        assert Evolves(Tables(t, rounds)[i], Tables(t, rounds)[|rounds| - 1]);
      }
      WalkComplete(PairLess, visits, None, key);
      var i :| 0 <= i < |out| && out[i] == key;
      assert items[i].id == id;
    }
  }

  lemma FollowNonempty(t: Table, rounds: seq<Round>, cursor: Option<string>)
    requires Follow(t, rounds, cursor).done
    ensures rounds != []
  {
  }

  /** The creation time of an id is the same wherever the walk met it. */
  lemma SameStamp(t: Table, rounds: seq<Round>, a: Pair, b: Pair)
    requires WellFormed(t) && OpsOk(rounds)
    requires exists v :: v in Visits(t, rounds) && a in v.live
    requires exists v :: v in Visits(t, rounds) && b in v.live
    requires a.minor == b.minor
    ensures a == b
  {
    hide Run, Visits, Tables;
    TablesEvolve(t, rounds);
    var v :| v in Visits(t, rounds) && a in v.live;
    var w :| w in Visits(t, rounds) && b in w.live;
    var i :| 0 <= i < |rounds| && Visits(t, rounds)[i] == v;
    var j :| 0 <= j < |rounds| && Visits(t, rounds)[j] == w;
    assert if i <= j then Evolves(Tables(t, rounds)[i], Tables(t, rounds)[j])
           else Evolves(Tables(t, rounds)[j], Tables(t, rounds)[i]);
  }

  /** What all() returns: every live row once, by creation time; SQLite may order equal stamps as it
      likes. */
  ghost predicate IsAll(t: Table, items: seq<Item>) {
    && (forall i | 0 <= i < |items| :: IsLive(t, items[i].id) && items[i] == ItemOf(t, items[i].id))
    && (forall id | id in LiveIds(t) :: Once(items, id))
    && (forall i, j | 0 <= i < j < |items| :: !TextOrder.Less(items[j].created, items[i].created))
  }

  ghost predicate DistinctStamps(t: Table) {
    forall a, b | a in LiveIds(t) && b in LiveIds(t) && a != b :: t[a].created != t[b].created
  }

  ghost predicate NoWrites(rounds: seq<Round>) {
    forall r | r in rounds :: r.ops == []
  }

  lemma PageItems(t: Table, keys: seq<Pair>, x: Item)
    requires forall k | k in keys :: k in CreationKeys(t) && k.minor in t
    requires x in Items(t, keys)
    ensures IsLive(t, x.id) && x == ItemOf(t, x.id)
  {
    var i :| 0 <= i < |keys| && x == ItemOf(t, keys[i].minor);
    assert keys[i] in keys;
  }

  /** Every item handed out is the row as the page saw it. */
  lemma {:induction false} FollowItems(t: Table, rounds: seq<Round>, cursor: Option<string>)
    requires NoWrites(rounds)
    ensures forall x | x in Follow(t, rounds, cursor).items :: IsLive(t, x.id) && x == ItemOf(t, x.id)
    decreases |rounds|
  {
    hide Resume, PairLess, NextCursor, Items, PageOf;
    if rounds != [] {
      assert rounds[0] in rounds;
      assert Run(t, rounds[0].ops) == t;
      var page := AllPage(t, rounds[0].limit, cursor);
      if page.Some? {
        var keys := AllKeys(t, Resume(cursor).value, rounds[0].limit).items;
        forall x | x in Items(t, keys) ensures IsLive(t, x.id) && x == ItemOf(t, x.id) {
          PageItems(t, keys, x);
        }
        FollowItems(t, rounds[1..], page.value.next);
      }
    }
  }

  lemma {:induction false} FixedVisits(t: Table, rounds: seq<Round>)
    requires NoWrites(rounds)
    ensures forall v | v in Visits(t, rounds) :: v.live == CreationKeys(t)
    decreases |rounds|
  {
    if rounds != [] {
      assert rounds[0] in rounds;
      FixedVisits(t, rounds[1..]);
    }
  }

  /** Two listings of one table that agree on keys agree. */
  lemma SameKeysSameItems(t: Table, a: seq<Item>, b: seq<Item>)
    requires forall x | x in a :: x.id in t && x == ItemOf(t, x.id)
    requires forall x | x in b :: x.id in t && x == ItemOf(t, x.id)
    requires Keys(a) == Keys(b)
    ensures a == b
  {
    assert |a| == |Keys(a)| == |b|;
    forall i | 0 <= i < |a| ensures a[i] == b[i] {
      assert Keys(a)[i] == Keys(b)[i];
      assert a[i] in a && b[i] in b;
    }
  }

  /** As many pages as there are live rows, and at least one, finish the walk. */
  lemma WalkFinishesAll(t: Table, rounds: seq<Round>)
    requires WellFormed(t) && NoWrites(rounds) && rounds != [] && |rounds| >= |CreationKeys(t)|
    ensures Follow(t, rounds, None).done
  {
    hide Follow, Visits, Walk, CreationKeys;
    PairTotal();
    FixedVisits(t, rounds);
    FollowIsWalk(t, rounds, None, None);
    assert Beyond(PairLess, CreationKeys(t), None) == CreationKeys(t);
    WalkFinishes(PairLess, Visits(t, rounds), None, CreationKeys(t));
  }

  /** On a table nobody writes to, the finished walk is one of the results all() may give, and the
      only one when no two live rows share a creation time. */
  lemma WalkAgreesWithAll(t: Table, rounds: seq<Round>)
    requires WellFormed(t) && NoWrites(rounds) && Follow(t, rounds, None).done
    ensures IsAll(t, Follow(t, rounds, None).items)
    ensures DistinctStamps(t) ==> forall other | IsAll(t, other) :: other == Follow(t, rounds, None).items
  {
    hide Follow, Visits, Walk;
    var items := Follow(t, rounds, None).items;
    FollowItems(t, rounds, None);
    PairTotal();
    FixedVisits(t, rounds);
    FollowIsWalk(t, rounds, None, None);
    WalkFixed(PairLess, Visits(t, rounds), None, CreationKeys(t));
    assert Beyond(PairLess, CreationKeys(t), None) == CreationKeys(t);
    KeysAreAll(t, items);
    if DistinctStamps(t) {
      forall other | IsAll(t, other) ensures other == items {
        AllIsKeys(t, other);
        AscendingUnique(PairLess, Keys(other), Keys(items));
        SameKeysSameItems(t, other, items);
      }
    }
  }

  lemma KeyOnce(t: Table, items: seq<Item>, id: string)
    requires StrictTotal(PairLess) && Ascending(PairLess, Keys(items))
    requires forall x | x in items :: IsLive(t, x.id) && x == ItemOf(t, x.id)
    requires id in t && Pair(t[id].created, id) in Keys(items)
    ensures Once(items, id)
  {
    hide PairLess;
    var keys := Keys(items);
    AscendingDistinct(PairLess, keys);
    var i :| 0 <= i < |keys| && keys[i] == Pair(t[id].created, id);
    forall j | 0 <= j < |items| && items[j].id == id ensures j == i {
      assert items[j] in items && items[i] in items;
      assert keys[j] == keys[i];
    }
    assert items[i].id == id;
  }

  lemma KeysAreAll(t: Table, items: seq<Item>)
    requires StrictTotal(PairLess)
    requires forall x | x in items :: IsLive(t, x.id) && x == ItemOf(t, x.id)
    requires Keys(items) == Sort(PairLess, CreationKeys(t))
    ensures IsAll(t, items)
  {
    hide TextOrder.Less, Sort, Once;
    TextTotal();
    var keys := Keys(items);
    assert |items| == |keys|;
    forall id | id in LiveIds(t) ensures Once(items, id) {
      assert Pair(t[id].created, id) in CreationKeys(t);
      KeyOnce(t, items, id);
    }
    forall i | 0 <= i < |items| ensures IsLive(t, items[i].id) && items[i] == ItemOf(t, items[i].id) {
      assert items[i] in items;
    }
    forall i, j | 0 <= i < j < |items| ensures !TextOrder.Less(items[j].created, items[i].created) {
      assert PairLess(keys[i], keys[j]);
    }
  }

  lemma AllIsKeys(t: Table, items: seq<Item>)
    requires StrictTotal(PairLess) && IsAll(t, items) && DistinctStamps(t)
    ensures Ascending(PairLess, Keys(items))
    ensures forall k :: k in Keys(items) <==> k in Sort(PairLess, CreationKeys(t))
    ensures forall x | x in items :: x.id in t && x == ItemOf(t, x.id)
  {
    hide TextOrder.Less;
    TextTotal();
    var keys := Keys(items);
    assert |items| == |keys|;
    forall i, j | 0 <= i < j < |items| ensures PairLess(keys[i], keys[j]) {
      assert Once(items, items[i].id);
    }
    forall k | k in CreationKeys(t) ensures k in keys {
      assert Once(items, k.minor);
      var i :| 0 <= i < |items| && items[i].id == k.minor;
      assert keys[i] == k;
    }
  }
}
