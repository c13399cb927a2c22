/** The Store class of src/willow_mcp/db.py. Each method is one critical section under the store's
    lock; the SQLite tables are the field `tables`. */
module StoreClass {
  import opened Wrappers
  import opened Keyset
  import opened StoreModel
  import opened StoreWalk
  import opened SearchModel
  import Q = QueryModel
  import TextOrder
  import Cursor

  datatype Failure = InvalidCollection | BadCursor | InvalidField | NoSort

  /** Connecting creates the collection's table when it is not there yet. */
  function Opened(tables: Tables, c: string): Tables {
    if c in tables then tables else tables[c := map[]]
  }

  /** How a list of sort values travels inside a cursor. */
  datatype Codec = Codec(dump: seq<Val> -> string, load: string -> Option<seq<Val>>)

  /** The outer None is the exception of a cursor that does not decode to one value per sort field. */
  function QueryCursor(codec: Codec, cursor: Option<string>, fields: nat): (r: Option<Option<seq<Val>>>)
    ensures r.Some? && r.value.Some? ==> |r.value.value| >= fields
  {
    if cursor.None? || cursor.value == "" then Some(None)
    else
      var text := Cursor.Decode(cursor.value);
      if text.None? then None
      else
        var vals := codec.load(text.value);
        if vals.None? || |vals.value| < fields then None else Some(vals)
  }

  /** A cursor the store hands out is read back as the values it carries. */
  lemma CursorTravels(codec: Codec, vals: seq<Val>, fields: nat)
    requires codec.load(codec.dump(vals)) == Some(vals) && codec.dump(vals) != "" && |vals| >= fields
    ensures QueryCursor(codec, Some(Cursor.Encode(codec.dump(vals))), fields) == Some(Some(vals))
  {
    hide Cursor.Encode, Cursor.Decode;
    Cursor.RoundTrip(codec.dump(vals));
  }

  /** The sort values of the rows a walk can stop at travel through the codec unchanged. */
  ghost predicate Faithful(codec: Codec, asks: seq<Ask<Table>>, sort: seq<Q.SortField>) {
    forall i, id | 0 <= i < |asks| && id in asks[i].at ::
      var vals := Q.CursorKey(asks[i].at, id, sort);
      codec.load(codec.dump(vals)) == Some(vals) && codec.dump(vals) != ""
  }

  /** A caller's walk: each call gets the cursor string the call before it returned. */
  function FollowCursors(asks: seq<Ask<Table>>, codec: Codec, filters: map<string, Val>, sort: seq<Q.SortField>,
                         cursor: Option<string>): Q.Outcome
    decreases |asks|
  {
    var cur := QueryCursor(codec, cursor, |sort|);
    if asks == [] || cur.None? then Q.Outcome([], false)
    else
      var page := QueryListing(asks[0].at, codec, filters, sort, asks[0].limit, cur.value);
      var ids := seq(|page.items|, i requires 0 <= i < |page.items| => page.items[i].id);
      if page.next.None? then Q.Outcome(ids, true)
      else
        var rest := FollowCursors(asks[1..], codec, filters, sort, page.next);
        Q.Outcome(ids + rest.ids, rest.done)
  }

  /** The walk by cursor strings is the walk by cursor values. */
  lemma {:induction false} CursorWalk(asks: seq<Ask<Table>>, codec: Codec, filters: map<string, Val>,
                                      sort: seq<Q.SortField>,
                                      cur: Option<seq<Val>>, cursor: Option<string>)
    requires Faithful(codec, asks, sort) && QueryCursor(codec, cursor, |sort|) == Some(cur)
    ensures cur.Some? ==> |cur.value| >= |sort|
    ensures FollowCursors(asks, codec, filters, sort, cursor) == Q.FollowAsks(asks, filters, sort, cur)
    decreases |asks|
  {
    hide Cursor.Encode, QueryCursor, Q.RunQuery, Q.CursorKey;
    if asks != [] {
      var t, limit := asks[0].at, asks[0].limit;
      var page := Q.RunQuery(t, filters, sort, limit, cur);
      var listing := QueryListing(t, codec, filters, sort, limit, cur);
      QueryIdsPresent(t, filters, sort, limit, cur);
      assert seq(|listing.items|, i requires 0 <= i < |listing.items| => listing.items[i].id) == page.ids;
      if page.next.Some? {
        var id := NextRow(t, filters, sort, limit, cur);
        assert asks[0].at == t && id in asks[0].at;
        CursorTravels(codec, page.next.value, |sort|);
        assert forall k | 0 <= k < |asks[1..]| :: asks[1..][k] == asks[k + 1];
        CursorWalk(asks[1..], codec, filters, sort, page.next, listing.next);
      }
    }
  }

  lemma NextRow(t: Table, filters: map<string, Val>, sort: seq<Q.SortField>, limit: int, cur: Option<seq<Val>>)
    returns (id: string)
    requires (cur.Some? ==> |cur.value| >= |sort|) && Q.RunQuery(t, filters, sort, limit, cur).next.Some?
    ensures id in t && Q.RunQuery(t, filters, sort, limit, cur).next == Some(Q.CursorKey(t, id, sort))
  {
    hide Q.Ordered, Q.CursorKey;
    var rows := Q.Ordered(t, filters, sort, cur);
    assert rows[Max(1, limit) - 1] in rows;
    id := Q.IdOf(rows[Max(1, limit) - 1]);
  }

  /** Followed by their strings, the pages on one table concatenate to the whole filtered set in order,
      for every choice of limits, exactly when the sort list separates its rows. */
  lemma CursorPagesIff(t: Table, codec: Codec, filters: map<string, Val>, sort: seq<Q.SortField>)
    requires Faithful(codec, [Ask(t, 1)], sort) && Q.Unshadowed(t, filters, sort)
    ensures (forall limits: seq<int> | FollowCursors(On(t, limits), codec, filters, sort, None).done ::
               FollowCursors(On(t, limits), codec, filters, sort, None).ids ==
                   Q.PageIds(Q.Ordered(t, filters, sort, None)))
            <==> Q.Separated(t, filters, sort)
  {
    hide Q.Follow, Q.FollowAsks, Q.Ordered, Q.PageIds, Q.Separated, Q.Unshadowed, Q.CursorKey, FollowCursors;
    assert forall id | id in t :: [Ask(t, 1)][0].at == t;
    Q.WalksExactlyIfSeparated(t, filters, sort);
    forall limits: seq<int>
      ensures FollowCursors(On(t, limits), codec, filters, sort, None) == Q.Follow(t, filters, sort, limits, None)
    {
      FaithfulOn(t, codec, sort, limits);
      CursorWalk(On(t, limits), codec, filters, sort, None, None);
      FollowOn(t, filters, sort, limits);
    }
  }

  lemma FollowOn(t: Table, filters: map<string, Val>, sort: seq<Q.SortField>, limits: seq<int>)
    ensures Q.Follow(t, filters, sort, limits, None) == Q.FollowAsks(On(t, limits), filters, sort, None)
  {
  }

  lemma FaithfulOn(t: Table, codec: Codec, sort: seq<Q.SortField>, limits: seq<int>)
    requires Faithful(codec, [Ask(t, 1)], sort)
    ensures Faithful(codec, On(t, limits), sort)
  {
    hide Q.CursorKey;
    var one := [Ask(t, 1)];
    assert one[0].at == t;
    forall id | id in t
      ensures var vals := Q.CursorKey(t, id, sort); codec.load(codec.dump(vals)) == Some(vals) && codec.dump(vals) != ""
    {
      assert id in one[0].at;
    }
  }

  lemma AllKeysCut(t: Table, after: Option<Pair>, limit: int)
    requires StrictTotal(PairLess)
    ensures var fetched := Take(Max(1, limit) + 1, Sort(PairLess, Beyond(PairLess, CreationKeys(t), after)));
      AllKeys(t, after, limit) == Page(Take(Max(1, limit), fetched), |fetched| > Max(1, limit))
  {
    hide PairLess, Sort, Beyond;
    FetchIsPage(Sort(PairLess, Beyond(PairLess, CreationKeys(t), after)), Max(1, limit));
  }

  method BuildItems(t: Table, rows: seq<Pair>) returns (results: seq<Item>)
    requires forall k | k in rows :: k.minor in t
    ensures results == Items(t, rows)
  {
    results := [];
    for i := 0 to |rows|
      invariant results == Items(t, rows)[..i]
    {
      results := results + [ItemOf(t, rows[i].minor)];
    }
  }

  /** Reading one row more than the page and building one item per row kept. */
  method ReadAll(t: Table, after: Option<Pair>, limit: int) returns (page: Listing<Item>)
    ensures var keys := AllKeys(t, after, limit); page == Listing(Items(t, keys.items), NextCursor(keys))
  {
    hide PairLess, Cursor.Encode, Sort, Beyond, AllKeys, Take;
    var n := Max(1, limit);
    PairTotal();
    AllKeysCut(t, after, limit);
    ghost var expected := AllKeys(t, after, limit);
    var rows := Take(n + 1, Sort(PairLess, Beyond(PairLess, CreationKeys(t), after)));
    var hasMore := |rows| > n;
    rows := Take(n, rows);
    assert rows == expected.items && hasMore == expected.more;
    var results := BuildItems(t, rows);
    var next := None;
    if hasMore && results != [] {
      var last := results[|results| - 1];
      assert rows[|rows| - 1] in expected.items;
      next := Some(Cursor.Encode(last.created + [NUL] + last.id));
    }
    page := Listing(results, next);
  }

  lemma SearchKeysCut(t: Table, like: Like, tokens: seq<string>, after: Option<string>, limit: int)
    requires StrictTotal(TextOrder.Less)
    ensures var fetched := Take(Max(1, limit) + 1, Sort(TextOrder.Less,
            Beyond(TextOrder.Less, Hits(t, like, tokens), after)));
      SearchKeys(t, like, tokens, after, limit) == Page(Take(Max(1, limit), fetched), |fetched| > Max(1, limit))
  {
    hide TextOrder.Less, Sort, Beyond, Hits;
    FetchIsPage(Sort(TextOrder.Less, Beyond(TextOrder.Less, Hits(t, like, tokens), after)), Max(1, limit));
  }

  method BuildFound(t: Table, ids: seq<string>) returns (results: seq<Found>)
    requires forall id | id in ids :: id in t
    ensures results == FoundList(t, ids)
  {
    results := [];
    for i := 0 to |ids|
      invariant results == FoundList(t, ids)[..i]
    {
      results := results + [FoundAt(t, ids[i])];
    }
  }

  method ReadFound(t: Table, like: Like, tokens: seq<string>, after: Option<string>,
                   limit: int) returns (page: Listing<Found>)
    ensures page == SearchPage(t, like, tokens, limit, after)
  {
    hide TextOrder.Less, Cursor.Encode, Hits, Sort, Beyond, SearchKeys, Take;
    var n := Max(1, limit);
    TextTotal();
    SearchKeysCut(t, like, tokens, after, limit);
    ghost var expected := SearchKeys(t, like, tokens, after, limit);
    var rows := Take(n + 1, Sort(TextOrder.Less, Beyond(TextOrder.Less, Hits(t, like, tokens), after)));
    var hasMore := |rows| > n;
    rows := Take(n, rows);
    assert rows == expected.items && hasMore == expected.more;
    var results := BuildFound(t, rows);
    var next := None;
    if hasMore && results != [] {
      next := Some(Cursor.Encode(results[|results| - 1].id));
    }
    page := Listing(results, next);
  }

  /** The inner loop of search_all_paginated: it stops once the page is over its limit. */
  method AppendHits(col: string, items: seq<Found>, results: seq<Hit>, n: nat) returns (out: seq<Hit>)
    requires |results| <= n && |items| <= n - |results| + 1
    ensures out == results + HitsOf(col, items)
  {
    out := results;
    for k := 0 to |items|
      invariant out == results + HitsOf(col, items)[..k] && |out| <= n
    {
      out := out + [Hit(col, items[k])];
      if |out| > n {
        break;
      }
    }
  }

  lemma SearchPageItems(t: Table, like: Like, tokens: seq<string>, limit: int, after: Option<string>)
    ensures SearchPage(t, like, tokens, limit, after).items ==
            FoundList(t, SearchKeys(t, like, tokens, after, limit).items)
  {
    hide TextOrder.Less, Cursor.Encode;
  }

  lemma NoTokensNoHits(t: Table, like: Like, tokens: seq<string>, after: Option<string>, m: int)
    requires m >= 1
    ensures |SearchKeys(t, like, tokens, after, m).items| <= m
    ensures tokens == [] ==> SearchKeys(t, like, tokens, after, m).items == []
  {
    hide TextOrder.Less;
    TextTotal();
    SearchIsTake(t, like, tokens, after, m);
  }

  /** The enumeration loop: invalid names and names out of scope are passed over. */
  method FilterNames(found: seq<string>, scope: Option<seq<string>>) returns (names: seq<string>)
    requires Ascending(TextOrder.Less, found)
    ensures Ascending(TextOrder.Less, names)
    ensures forall c :: c in names <==> c in found && ValidCollection(c) && InScope(c, scope)
  {
    hide TextOrder.Less, ValidCollection, InScope;
    names := [];
    for i := 0 to |found|
      invariant Ascending(TextOrder.Less, names)
      invariant forall c :: c in names <==> c in found[..i] && ValidCollection(c) && InScope(c, scope)
    {
      assert found[..i + 1] == found[..i] + [found[i]];
      if ValidCollection(found[i]) && InScope(found[i], scope) {
        AppendAscending(names, found, i);
        names := names + [found[i]];
      }
    }
    assert found[..|found|] == found;
  }

  function QueryItems(t: Table, ids: seq<string>): (items: seq<Item>)
    requires forall id | id in ids :: id in t
    ensures |items| == |ids|
  {
    seq(|ids|, i requires 0 <= i < |ids| => ItemOf(t, ids[i]))
  }

  lemma QueryIdsPresent(t: Table, filters: map<string, Val>, sort: seq<Q.SortField>, limit: int, cur: Option<seq<Val>>)
    requires cur.Some? ==> |cur.value| >= |sort|
    ensures forall id | id in Q.RunQuery(t, filters, sort, limit, cur).ids :: id in t
  {
    hide Q.Ordered;
    var all := Q.Ordered(t, filters, sort, cur);
    var page := Q.RunQuery(t, filters, sort, limit, cur);
    forall id | id in page.ids ensures id in t {
      var i :| 0 <= i < |page.ids| && page.ids[i] == id;
      assert all[i] in all;
    }
  }

  function QueryListing(t: Table, codec: Codec, filters: map<string, Val>, sort: seq<Q.SortField>, limit: int,
                        cur: Option<seq<Val>>): Listing<Item>
    requires cur.Some? ==> |cur.value| >= |sort|
  {
    var page := Q.RunQuery(t, filters, sort, limit, cur);
    QueryIdsPresent(t, filters, sort, limit, cur);
    Listing(QueryItems(t, page.ids), if page.next.None? then None else Some(Cursor.Encode(codec.dump(page.next.value))))
  }

  method ReadQuery(t: Table, codec: Codec, filters: map<string, Val>, sort: seq<Q.SortField>, limit: int,
                   cur: Option<seq<Val>>) returns (page: Listing<Item>)
    requires cur.Some? ==> |cur.value| >= |sort|
    ensures page == QueryListing(t, codec, filters, sort, limit, cur)
  {
    hide Cursor.Encode, Q.KeyLess, Q.Column, Q.Matches, Q.AnyHolds, Q.FullKey, Q.SortKey;
    var n := Max(1, limit);
    var clauses: Option<seq<seq<Q.Test>>> := None;
    if cur.Some? {
      var built := Q.BuildCursorCondition(Q.Directions(sort), cur.value);
      clauses := Some(built);
    }
    var selected := set id | id in t && !t[id].deleted && Q.Matches(t, id, filters) &&
      (clauses.None? || Q.AnyHolds(clauses.value, Q.SortKey(t, id, sort)));
    assert selected == Q.Selected(t, filters, sort, cur);
    Q.OrderTotal(Q.Directions(sort));
    var all := Sort(Q.Order(Q.Directions(sort)), Q.FullKeys(t, sort, selected));
    assert all == Q.Ordered(t, filters, sort, cur);
    page := CutQuery(t, codec, filters, sort, limit, cur, all);
  }

  method CutQuery(t: Table, codec: Codec, filters: map<string, Val>, sort: seq<Q.SortField>, limit: int,
                  cur: Option<seq<Val>>, all: seq<seq<Val>>) returns (page: Listing<Item>)
    requires cur.Some? ==> |cur.value| >= |sort|
    requires all == Q.Ordered(t, filters, sort, cur)
    ensures page == QueryListing(t, codec, filters, sort, limit, cur)
  {
    hide Cursor.Encode, Q.Ordered, Q.IdOf;
    var n := Max(1, limit);
    ghost var expected := Q.RunQuery(t, filters, sort, limit, cur);
    QueryIdsPresent(t, filters, sort, limit, cur);
    FetchIsPage(all, n);
    var rows := Take(n + 1, all);
    var hasMore := |rows| > n;
    var ids := Q.PageIds(Take(n, rows));
    assert ids == expected.ids;
    var results := BuildQueryItems(t, ids);
    var next := None;
    if hasMore && results != [] {
      assert all[n - 1] in all;
      var vals := RecordedValues(t, results[|results| - 1].id, sort);
      next := Some(Cursor.Encode(codec.dump(vals)));
    }
    page := Listing(results, next);
  }

  method BuildQueryItems(t: Table, ids: seq<string>) returns (results: seq<Item>)
    requires forall id | id in ids :: id in t
    ensures results == QueryItems(t, ids)
  {
    results := [];
    for i := 0 to |ids|
      invariant results == QueryItems(t, ids)[..i]
    {
      results := results + [ItemOf(t, ids[i])];
    }
  }

  method RecordedValues(t: Table, id: string, sort: seq<Q.SortField>) returns (vals: seq<Val>)
    requires id in t
    ensures vals == Q.CursorKey(t, id, sort)
  {
    vals := [];
    for i := 0 to |sort|
      invariant vals == Q.CursorKey(t, id, sort)[..i]
    {
      vals := vals + [Q.Recorded(t, id, sort[i].field)];
    }
  }

  predicate FieldsOk(filters: map<string, Val>, sort: seq<Q.SortField>) {
    (forall f | f in sort :: Q.ValidField(f.field)) && (forall f | f in filters :: Q.ValidField(f))
  }

  class Store {
    var tables: Tables

    ghost predicate Valid()
      reads this
    {
      forall c | c in tables :: WellFormed(tables[c])
    }

    constructor ()
      ensures Valid() && tables == map[]
    {
      tables := map[];
    }

    method Connect(c: string) returns (ok: bool)
      requires Valid()
      modifies this
      ensures Valid() && ok == ValidCollection(c)
      ensures tables == if ok then Opened(old(tables), c) else old(tables)
    {
      ok := ValidCollection(c);
      if ok && c !in tables {
        tables := tables[c := map[]];
      }
    }

    /** `generated` is the id the uuid generator would supply and `now` the clock's stamp. */
    method Put(c: string, id: string, data: Record, deviation: real, generated: string, now: string)
      returns (r: Result<(string, Action), Failure>)
      requires Valid() && generated != "" && NUL !in now
      modifies this
      ensures Valid()
      ensures r.Ok? <==> ValidCollection(c)
      ensures r.Ok? ==> r.value == (if id == "" then generated else id, ActionFor(deviation))
      ensures r.Ok? ==> var before := Opened(old(tables), c);
        tables == before[c := Step(before[c], Op.Put(r.value.0, data, now, deviation))]
      ensures r.Err? ==> tables == old(tables)
    {
      var rid := if id == "" then generated else id;
      var action := ActionFor(deviation);
      var ok := Connect(c);
      if !ok {
        return Err(InvalidCollection);
      }
      var t := tables[c];
      if rid in t {
        t := t[rid := t[rid].(data := data, updated := now, deviation := deviation, action := action)];
      } else {
        t := t[rid := Row(data, now, now, deviation, action, false)];
      }
      tables := tables[c := t];
      r := Ok((rid, action));
    }

    method Get(c: string, id: string) returns (r: Result<Option<Item>, Failure>)
      requires Valid()
      modifies this
      ensures Valid()
      ensures r.Ok? <==> ValidCollection(c)
      ensures r.Ok? ==> tables == Opened(old(tables), c) &&
                        r.value == if IsLive(tables[c], id) then Some(ItemOf(tables[c], id)) else None
    {
      var ok := Connect(c);
      if !ok {
        return Err(InvalidCollection);
      }
      r := Ok(if IsLive(tables[c], id) then Some(ItemOf(tables[c], id)) else None);
    }

    method Update(c: string, id: string, data: Record, deviation: real, now: string)
      returns (r: Result<Option<string>, Failure>)
      requires Valid()
      modifies this
      ensures Valid()
      ensures r.Ok? <==> ValidCollection(c)
      ensures r.Ok? ==> var before := Opened(old(tables), c);
        && r.value == (if IsLive(before[c], id) then Some(id) else None)
        && tables == before[c := Step(before[c], Op.Update(id, data, now, deviation))]
    {
      var ok := Connect(c);
      if !ok {
        return Err(InvalidCollection);
      }
      var t := tables[c];
      var found := id in t && !t[id].deleted;
      if found {
        t := t[id := t[id].(data := data, updated := now, deviation := deviation, action := ActionFor(deviation))];
      }
      tables := tables[c := t];
      r := Ok(if found then Some(id) else None);
    }

    method Delete(c: string, id: string, now: string) returns (r: Result<bool, Failure>)
      requires Valid()
      modifies this
      ensures Valid()
      ensures r.Ok? <==> ValidCollection(c)
      ensures r.Ok? ==> var before := Opened(old(tables), c);
        && r.value == IsLive(before[c], id)
        && tables == before[c := Step(before[c], Op.Delete(id, now))]
    {
      var ok := Connect(c);
      if !ok {
        return Err(InvalidCollection);
      }
      var t := tables[c];
      var found := id in t && !t[id].deleted;
      if found {
        t := t[id := t[id].(deleted := true, updated := now)];
      }
      tables := tables[c := t];
      r := Ok(found);
    }

    method PurgeCollection(c: string, now: string) returns (r: Result<nat, Failure>)
      requires Valid()
      modifies this
      ensures Valid()
      ensures r.Ok? <==> ValidCollection(c)
      ensures r.Ok? ==> var before := Opened(old(tables), c);
        && r.value == |LiveIds(before[c])|
        && tables == before[c := Step(before[c], Op.Purge(now))]
        && LiveIds(tables[c]) == {}
    {
      var ok := Connect(c);
      if !ok {
        return Err(InvalidCollection);
      }
      var t := tables[c];
      r := Ok(|LiveIds(t)|);
      tables := tables[c := map id | id in t ::
        if t[id].deleted then t[id] else t[id].(deleted := true, updated := now)];
    }

    method AllPaginated(c: string, limit: int, cursor: Option<string>) returns (r: Result<Listing<Item>, Failure>)
      requires Valid()
      modifies this
      ensures Valid()
      ensures tables == if ValidCollection(c) then Opened(old(tables), c) else old(tables)
      ensures r == if !ValidCollection(c) then Err(InvalidCollection)
                   else if AllPage(tables[c], limit, cursor).None? then Err(BadCursor)
                   else Ok(AllPage(tables[c], limit, cursor).value)
    {
      hide AllKeys, Cursor.Decode, NextCursor, Before, After, ValidCollection;
      var ok := Connect(c);
      if !ok {
        return Err(InvalidCollection);
      }
      var after: Option<Pair> := None;
      if cursor.Some? && cursor.value != "" {
        var text := Cursor.Decode(cursor.value);
        if text.None? {
          return Err(BadCursor);
        }
        after := Some(Pair(Before(text.value), After(text.value)));
      }
      var page := ReadAll(tables[c], after, limit);
      r := Ok(page);
    }

    /** An empty sort list is an SQL error, raised once the collection has been opened. */
    method QueryPaginated(c: string, codec: Codec, filters: map<string, Val>, sort: seq<Q.SortField>, limit: int,
                          cursor: Option<string>) returns (r: Result<Listing<Item>, Failure>)
      requires Valid()
      modifies this
      ensures Valid()
      ensures r.Ok? <==>
                FieldsOk(filters, sort) && QueryCursor(codec, cursor, |sort|).Some? && ValidCollection(c) && sort != []
      ensures r.Err? ==> r.error == if !FieldsOk(filters, sort) then InvalidField
                                    else if QueryCursor(codec, cursor, |sort|).None? then BadCursor
                                    else if !ValidCollection(c) then InvalidCollection else NoSort
      ensures r.Err? ==> tables == if r.error == NoSort then Opened(old(tables), c) else old(tables)
      ensures r.Ok? ==> tables == Opened(old(tables), c) &&
                        r.value == QueryListing(tables[c], codec, filters, sort, limit,
                            QueryCursor(codec, cursor, |sort|).value)
    {
      hide FieldsOk, QueryListing, QueryCursor, ValidCollection;
      if !FieldsOk(filters, sort) {
        return Err(InvalidField);
      }
      var cur := QueryCursor(codec, cursor, |sort|);
      if cur.None? {
        return Err(BadCursor);
      }
      var ok := Connect(c);
      if !ok {
        return Err(InvalidCollection);
      }
      if sort == [] {
        return Err(NoSort);
      }
      var page := ReadQuery(tables[c], codec, filters, sort, limit, cur.value);
      r := Ok(page);
    }

    /** all(): every live row, by creation time. */
    method All(c: string) returns (r: Result<seq<Item>, Failure>)
      requires Valid()
      modifies this
      ensures Valid()
      ensures r.Ok? <==> ValidCollection(c)
      ensures r.Ok? ==> tables == Opened(old(tables), c) && IsAll(tables[c], r.value)
    {
      hide PairLess, IsAll, Keys, ValidCollection;
      var ok := Connect(c);
      if !ok {
        return Err(InvalidCollection);
      }
      var t := tables[c];
      PairTotal();
      var rows := Sort(PairLess, CreationKeys(t));
      var results := BuildItems(t, rows);
      ItemKeys(t, rows);
      ItemsLive(t, rows);
      KeysAreAll(t, results);
      r := Ok(results);
    }

    method ListCollections(scope: Option<seq<string>>) returns (names: seq<string>)
      ensures names == Collections(tables, scope)
    {
      hide TextOrder.Less, Sort, ValidCollection, InScope, Ascending;
      TextTotal();
      var found := Sort(TextOrder.Less, tables.Keys);
      names := FilterNames(found, scope);
      AscendingUnique(TextOrder.Less, names, Collections(tables, scope));
    }

    method SearchPaginated(c: string, like: Like, tokens: seq<string>, limit: int, cursor: Option<string>)
      returns (r: Result<Listing<Found>, Failure>)
      requires Valid()
      modifies this
      ensures Valid()
      ensures if tokens == [] then r == Ok(Listing([], None)) && tables == old(tables)
              else if ResumeId(cursor).None? then r == Err(BadCursor) && tables == old(tables)
              else if !ValidCollection(c) then r == Err(InvalidCollection) && tables == old(tables)
              else tables == Opened(old(tables), c) &&
                   r == Ok(SearchPage(tables[c], like, tokens, limit, ResumeId(cursor).value))
    {
      hide Cursor.Decode, SearchPage, ValidCollection;
      if tokens == [] {
        return Ok(Listing([], None));
      }
      var after: Option<string> := None;
      if cursor.Some? && cursor.value != "" {
        after := Cursor.Decode(cursor.value);
        if after.None? {
          return Err(BadCursor);
        }
      }
      var ok := Connect(c);
      if !ok {
        return Err(InvalidCollection);
      }
      var page := ReadFound(tables[c], like, tokens, after, limit);
      r := Ok(page);
    }

    /** search(): every matching live row, in whatever order the table yields them. */
    method Search(c: string, like: Like, tokens: seq<string>) returns (r: Result<seq<Found>, Failure>)
      requires Valid()
      modifies this
      ensures Valid()
      ensures tokens == [] ==> r == Ok([]) && tables == old(tables)
      ensures tokens != [] ==> (r.Ok? <==> ValidCollection(c))
      ensures tokens != [] && r.Ok? ==> tables == Opened(old(tables), c) && IsSearch(tables[c], like, tokens, r.value)
    {
      hide Hits, ValidCollection, TextOrder.Less;
      if tokens == [] {
        return Ok([]);
      }
      var ok := Connect(c);
      if !ok {
        return Err(InvalidCollection);
      }
      TextTotal();
      HitsLive(tables[c], like, tokens);
      var ids := Sort(TextOrder.Less, Hits(tables[c], like, tokens));
      var results := BuildFound(tables[c], ids);
      AscendingDistinct(TextOrder.Less, ids);
      FoundIsSearch(tables[c], like, tokens, ids);
      r := Ok(results);
    }

    /** search_all(): one collection after the other, in name order. */
    method SearchAll(like: Like, tokens: seq<string>, scope: Option<seq<string>>) returns (results: seq<Hit>)
      requires Valid()
      modifies this
      ensures Valid() && tables == old(tables)
      ensures IsSearchAll(tables, like, tokens, scope, results)
    {
      hide Hits, ValidCollection, TextOrder.Less, IsSearch, Visible, Collections, HitsOf;
      results := [];
      EveryCollectionListed(tables, like, tokens, scope, None);
      var cols := ListCollections(scope);
      NamesDistinct(cols);
      for i := 0 to |cols|
        invariant Valid() && tables == old(tables)
        invariant IsSearchOver(tables, like, tokens, cols[..i], results)
      {
        assert cols[i] in cols;
        var found := Search(cols[i], like, tokens);
        NoTokensSearch(tables[cols[i]], like, tokens);
        SearchOverStep(tables, like, tokens, cols, i, results, found.value);
        results := results + HitsOf(cols[i], found.value);
      }
      assert cols[..|cols|] == cols;
      SearchOverAll(tables, like, tokens, scope, results);
    }

    /** One collection's share of the page: its hits after the cursor, at most `room` of them. */
    method SearchCollection(col: string, like: Like, tokens: seq<string>, room: nat, from: Option<string>)
      returns (items: seq<Found>)
      requires Valid() && col in tables && ValidCollection(col) && room >= 1
      requires from.Some? ==> from.value != ""
      modifies this
      ensures Valid() && tables == old(tables)
      ensures items == FoundList(tables[col], SearchKeys(tables[col], like, tokens, from, room).items)
      ensures |items| <= room
    {
      hide TextOrder.Less, Cursor.Encode, Cursor.Decode, ValidCollection, SearchKeys, FoundList, Hits;
      var cursor := if from.Some? then Some(Cursor.Encode(from.value)) else None;
      if from.Some? {
        Cursor.RoundTrip(from.value);
      }
      var page := SearchPaginated(col, like, tokens, room, cursor);
      NoTokensNoHits(tables[col], like, tokens, from, room);
      SearchPageItems(tables[col], like, tokens, room, from);
      items := page.value.items;
    }

    method SearchAllPaginated(like: Like, tokens: seq<string>, scope: Option<seq<string>>, limit: int,
                              cursor: Option<string>)
      returns (r: Result<Listing<Hit>, Failure>)
      requires Valid()
      modifies this
      ensures Valid() && tables == old(tables)
      ensures r == if Resume(cursor).None? then Err(BadCursor)
                   else Ok(SearchAllPage(tables, like, tokens, scope, limit, Resume(cursor).value))
    {
      hide Cursor.Encode, Cursor.Decode, Before, After, SearchAllPage;
      var afterCol, afterId := "", "";
      if cursor.Some? && cursor.value != "" {
        var decoded := Cursor.Decode(cursor.value);
        if decoded.None? {
          return Err(BadCursor);
        }
        afterCol, afterId := Before(decoded.value), After(decoded.value);
      }
      var page := GatherPage(like, tokens, scope, limit, afterCol, afterId, Resume(cursor).value);
      r := Ok(page);
    }

    method GatherPage(like: Like, tokens: seq<string>, scope: Option<seq<string>>, limit: int,
                      afterCol: string, startId: string, ghost after: Option<Pair>) returns (page: Listing<Hit>)
      requires Valid()
      requires if after.None? then afterCol == "" && startId == "" else after.value == Pair(afterCol, startId)
      modifies this
      ensures Valid() && tables == old(tables)
      ensures page == SearchAllPage(tables, like, tokens, scope, limit, after)
    {
      hide TextOrder.Less, Hits, Collections, Gathered, SearchKeys, SearchAllPage, HitCursor, HitsAt, HitsOf,
          FoundList, Names, ValidCollection, Visible;
      var n := Max(1, limit);
      var afterId := startId;
      EveryCollectionListed(tables, like, tokens, scope, after);
      NothingGathered(tables, like, tokens, scope, after);
      var results: seq<Hit> := [];
      var cols := ListCollections(scope);
      NamesDistinct(cols);
      ghost var rows: seq<Pair> := [];
      ghost var turns := 0;
      NoHits(tables);
      for i := 0 to |cols|
        invariant Valid() && tables == old(tables) && turns == i
        invariant |rows| <= n && rows == Gathered(tables, like, tokens, scope, after, i)
        invariant Names(tables, rows) && results == HitsAt(tables, rows)
        invariant forall j | i <= j < |cols| && cols[j] == afterCol :: afterId == startId
      {
        var col := cols[i];
        assert col in cols;
        NothingPrecedesEmpty(col);
        Turn(tables, like, tokens, scope, after, i, n);
        turns := i + 1;
        rows := Take(n + 1, Gathered(tables, like, tokens, scope, after, i + 1));
        if afterCol != "" && TextOrder.Less(col, afterCol) {
          assert results + [] == results;
          continue;
        }
        var items := SearchCollection(col, like, tokens, n - |results| + 1,
                                      if col == afterCol && afterId != "" then Some(afterId) else None);
        results := AppendHits(col, items, results, n);
        if col == afterCol {
          afterId := "";
        }
        if |results| > n {
          break;
        }
      }
      Complete(tables, like, tokens, scope, after, turns, limit);
      var hasMore := |results| > n;
      var next := None;
      if hasMore {
        next := Some(HitCursor(results[n - 1]));
      }
      page := Listing(Take(n, results), next);
    }
  }

  lemma AppendAscending(names: seq<string>, found: seq<string>, i: nat)
    requires Ascending(TextOrder.Less, names) && Ascending(TextOrder.Less, found) && i < |found|
    requires forall c | c in names :: c in found[..i]
    ensures Ascending(TextOrder.Less, names + [found[i]])
  {
    hide TextOrder.Less;
    forall j | 0 <= j < |names| ensures TextOrder.Less(names[j], found[i]) {
      assert names[j] in found[..i];
      var k :| 0 <= k < i && found[..i][k] == names[j];
      assert found[k] == names[j];
    }
  }

  lemma ItemsLive(t: Table, rows: seq<Pair>)
    requires forall k | k in rows :: k in CreationKeys(t) && k.minor in t
    ensures forall x | x in Items(t, rows) :: IsLive(t, x.id) && x == ItemOf(t, x.id)
  {
    forall x | x in Items(t, rows) ensures IsLive(t, x.id) && x == ItemOf(t, x.id) {
      PageItems(t, rows, x);
    }
  }

  lemma NamesDistinct(cols: seq<string>)
    requires Ascending(TextOrder.Less, cols)
    ensures forall i, j | 0 <= i < j < |cols| :: cols[i] != cols[j]
  {
    hide TextOrder.Less;
    TextTotal();
    AscendingDistinct(TextOrder.Less, cols);
  }

  lemma NoHits(tables: Tables)
    ensures Names(tables, []) && HitsAt(tables, []) == []
  {
  }
}
