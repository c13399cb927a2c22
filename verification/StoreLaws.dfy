/** What a caller of the store sees, in the fields of the records and nothing else. */
module StoreLaws {
  import opened Wrappers
  import opened Keyset
  import opened StoreModel
  import opened StoreClass
  import opened SearchModel
  import Q = QueryModel
  import StoreWalk
  import TextOrder
  import Cursor

  // ---- Reading what was written ------------------------------------------------------------------

  /** The row of an id, tombstones included. */
  function RowAt(tables: Tables, c: string, id: string): Option<Row> {
    if c in tables && id in tables[c] then Some(tables[c][id]) else None
  }

  /** A put is read back, except under a tombstone: the creation stamp is the first one, everything else is
      what was given, and no other record changes. */
  method PutThenGet(s: Store, c: string, id: string, data: Record, deviation: real, generated: string, now: string)
    returns (rid: string, got: Option<Item>)
    requires s.Valid() && ValidCollection(c) && generated != "" && NUL !in now
    modifies s
    ensures rid == if id == "" then generated else id
    ensures var before := old(RowAt(s.tables, c, rid));
      && (got.None? <==> before.Some? && before.value.deleted)
      && (got.Some? ==>
            && got.value.id == rid && got.value.data == data && got.value.deviation == deviation
            && got.value.updated == now
            && got.value.created == (if before.Some? then before.value.created else now)
            && (got.value.action == Stop <==> deviation >= 1.571)
            && (got.value.action == Flag <==> 0.785 <= deviation < 1.571))
    ensures forall k, x :: k != c || x != rid ==> RowAt(s.tables, k, x) == old(RowAt(s.tables, k, x))
  {
    var put := s.Put(c, id, data, deviation, generated, now);
    rid := put.value.0;
    var read := s.Get(c, rid);
    got := read.value;
  }

  /** An update of a live record is read back and says so; of any other it changes nothing. */
  method UpdateThenGet(s: Store, c: string, id: string, data: Record, deviation: real, now: string)
    returns (done: Option<string>, got: Option<Item>)
    requires s.Valid() && ValidCollection(c)
    modifies s
    ensures var before := old(RowAt(s.tables, c, id));
      if before.Some? && !before.value.deleted then
        && done == Some(id) && got.Some?
        && got.value.id == id && got.value.data == data && got.value.deviation == deviation
        && got.value.updated == now && got.value.created == before.value.created
        && (got.value.action == Stop <==> deviation >= 1.571)
        && (got.value.action == Flag <==> 0.785 <= deviation < 1.571)
      else done == None && got == None && RowAt(s.tables, c, id) == before
    ensures forall k, x :: k != c || x != id ==> RowAt(s.tables, k, x) == old(RowAt(s.tables, k, x))
  {
    var update := s.Update(c, id, data, deviation, now);
    done := update.value;
    var read := s.Get(c, id);
    got := read.value;
  }

  /** A delete marks a live row and stamps it, says so, and touches nothing else. */
  method DeleteLeaves(s: Store, c: string, id: string, now: string) returns (was: bool)
    requires s.Valid() && ValidCollection(c)
    modifies s
    ensures s.Valid()
    ensures var before := old(RowAt(s.tables, c, id));
      && (was <==> before.Some? && !before.value.deleted)
      && RowAt(s.tables, c, id) == if was then Some(Marked(before.value, now)) else before
    ensures forall k, x :: k != c || x != id ==> RowAt(s.tables, k, x) == old(RowAt(s.tables, k, x))
  {
    var gone := s.Delete(c, id, now);
    was := gone.value;
  }

  function Marked(r: Row, now: string): Row { Row(r.data, r.created, now, r.deviation, r.action, true) }

  /** A deleted record is gone and stays gone under a later put; only its own row changes. */
  method DeleteThenPut(s: Store, c: string, id: string, data: Record, deviation: real, generated: string, now: string)
    returns (was: bool, got: Option<Item>, after: Option<Item>)
    requires s.Valid() && ValidCollection(c) && id != "" && generated != "" && NUL !in now
    modifies s
    ensures var before := old(RowAt(s.tables, c, id));
      && (was <==> before.Some? && !before.value.deleted)
      && got == None
      && (after.None? <==> before.Some?)
    ensures forall k, x :: k != c || x != id ==> RowAt(s.tables, k, x) == old(RowAt(s.tables, k, x))
  {
    was := DeleteLeaves(s, c, id, now);
    var read := s.Get(c, id);
    got := read.value;
    var rid;
    rid, after := PutThenGet(s, c, id, data, deviation, generated, now);
  }

  /** After a purge nothing of the collection is read, and no other collection has changed. */
  method PurgeThenGet(s: Store, c: string, id: string, now: string) returns (count: nat, got: Option<Item>)
    requires s.Valid() && ValidCollection(c)
    modifies s
    ensures count == |set x | c in old(s.tables) && x in old(s.tables[c]) && !old(s.tables[c][x].deleted)|
    ensures got == None
    ensures forall k, x :: k != c ==> RowAt(s.tables, k, x) == old(RowAt(s.tables, k, x))
    ensures forall x ::
              var row := old(RowAt(s.tables, c, x));
              RowAt(s.tables, c, x) ==
              if row.None? || row.value.deleted then row else Some(Marked(row.value, now))
  {
    ghost var before := Opened(s.tables, c)[c];
    assert LiveIds(before) == set x | c in s.tables && x in s.tables[c] && !s.tables[c][x].deleted;
    var purge := s.PurgeCollection(c, now);
    count := purge.value;
    var read := s.Get(c, id);
    got := read.value;
  }

  // ---- Query pages -------------------------------------------------------------------------------

  /** The value of a sort or filter field in a returned record. */
  function ValueIn(x: Item, field: string): Val {
    if field == "_id" then Text(x.id)
    else if field == "_created" then Text(x.created)
    else if field == "_updated" then Text(x.updated)
    else if field in x.data then x.data[field] else Null
  }

  /** NULL before numbers before text; numbers by size, text by code point. */
  predicate Smaller(a: Val, b: Val) {
    || (a == Null && b != Null)
    || (a.Num? && b.Num? && a.n < b.n)
    || (a.Num? && b.Text?)
    || (a.Text? && b.Text? && TextOrder.Less(a.s, b.s))
  }

  /** At the first sort column on which they differ, an ASC column has the smaller value first, a DESC
      column the larger. */
  predicate InColumnOrder(sort: seq<Q.SortField>, a: Item, b: Item) {
    forall k | 0 <= k < |sort| && ValueIn(a, sort[k].field) != ValueIn(b, sort[k].field)
               && (forall c | 0 <= c < k :: ValueIn(a, sort[c].field) == ValueIn(b, sort[c].field)) ::
      if sort[k].direction == Q.Asc then Smaller(ValueIn(a, sort[k].field), ValueIn(b, sort[k].field))
      else Smaller(ValueIn(b, sort[k].field), ValueIn(a, sort[k].field))
  }

  /** The record is the live row of its id. */
  predicate IsRow(t: Table, x: Item) {
    && x.id in t && !t[x.id].deleted
    && x.data == t[x.id].data && x.created == t[x.id].created && x.updated == t[x.id].updated
    && x.deviation == t[x.id].deviation && x.action == t[x.id].action
  }

  predicate Passes(x: Item, filters: map<string, Val>) {
    forall f | f in filters :: filters[f] != Null && ValueIn(x, f) == filters[f]
  }

  lemma ItemValues(t: Table, id: string, field: string)
    requires id in t
    ensures ValueIn(ItemOf(t, id), field) == Q.Column(t, id, field)
  {
  }

  lemma SmallerIsLess(a: Val, b: Val)
    ensures Smaller(a, b) <==> Q.ValLess(a, b)
  {
    hide TextOrder.Less;
  }

  /** Two rows in key order are in column order. */
  lemma KeysInColumnOrder(t: Table, sort: seq<Q.SortField>, a: string, b: string)
    requires a in t && b in t && Q.Follows(t, sort, a, b)
    ensures InColumnOrder(sort, ItemOf(t, a), ItemOf(t, b))
  {
    hide Q.KeyLess, Q.Column, ItemOf, ValueIn, Smaller, Q.ValLess;
    var dirs, x, y := Q.Directions(sort), Q.SortKey(t, a, sort), Q.SortKey(t, b, sort);
    forall k | 0 <= k < |sort|
      ensures ValueIn(ItemOf(t, a), sort[k].field) == x[k] && ValueIn(ItemOf(t, b), sort[k].field) == y[k]
      ensures Smaller(x[k], y[k]) <==> Q.ValLess(x[k], y[k])
      ensures Smaller(y[k], x[k]) <==> Q.ValLess(y[k], x[k])
    {
      ItemValues(t, a, sort[k].field);
      ItemValues(t, b, sort[k].field);
      SmallerIsLess(x[k], y[k]);
      SmallerIsLess(y[k], x[k]);
    }
    if x != y {
      Q.KeyLessExtend(dirs, x, y, Text(a), Text(b));
      Q.KeyLessAtDifference(dirs, x, y);
      var i := Q.FirstDifference(x, y);
      forall k | 0 <= k < |sort| && x[k] != y[k] && (forall c | 0 <= c < k :: x[c] == y[c]) ensures k == i {
        assert k <= i;
      }
    }
  }

  /** The matching rows of a table. */
  ghost function Matching(t: Table, filters: map<string, Val>): set<string> {
    set id | id in t && !t[id].deleted && Passes(ItemOf(t, id), filters)
  }

  lemma MatchingIsFiltered(t: Table, filters: map<string, Val>)
    ensures Matching(t, filters) == Q.Filtered(t, filters)
  {
    hide ValueIn, Q.Column, ItemOf;
    forall id | id in t ensures Passes(ItemOf(t, id), filters) <==> Q.Matches(t, id, filters) {
      forall f | f in filters ensures ValueIn(ItemOf(t, id), f) == Q.Column(t, id, f) { ItemValues(t, id, f); }
    }
  }

  /** Any page of query_paginated: live rows as stored, all passing the filters, in the order the sort list
      asks for, at most the limit and exactly the limit when there is more. */
  lemma QueryPageMeaning(t: Table, codec: Codec, filters: map<string, Val>, sort: seq<Q.SortField>, limit: int,
                         cur: Option<seq<Val>>)
    requires cur.Some? ==> |cur.value| >= |sort|
    ensures var page := QueryListing(t, codec, filters, sort, limit, cur);
      && (forall i | 0 <= i < |page.items| :: IsRow(t, page.items[i]) && Passes(page.items[i], filters))
      && (forall i, j | 0 <= i < j < |page.items| :: InColumnOrder(sort, page.items[i], page.items[j]))
      && |page.items| <= (if limit < 1 then 1 else limit)
      && (page.next.Some? ==> |page.items| == if limit < 1 then 1 else limit)
  {
    hide Q.KeyLess, Q.Column, Q.Matches, Q.FullKey, Q.SortKey, Q.Ordered, Passes, InColumnOrder,
        Cursor.Encode, Q.AnyHolds;
    var rows := Q.Ordered(t, filters, sort, cur);
    var ids := Q.RunQuery(t, filters, sort, limit, cur).ids;
    var page := QueryListing(t, codec, filters, sort, limit, cur);
    QueryIdsPresent(t, filters, sort, limit, cur);
    Q.RowsAscend(t, filters, sort, cur);
    MatchingIsFiltered(t, filters);
    forall i | 0 <= i < |ids|
      ensures ids[i] in Matching(t, filters) && rows[i] == Q.FullKey(t, sort, ids[i])
    {
      assert rows[i] in rows;
      Q.OrderedRow(t, filters, sort, cur, rows[i]);
    }
    forall i, j | 0 <= i < j < |ids| ensures InColumnOrder(sort, page.items[i], page.items[j]) {
      KeysInColumnOrder(t, sort, ids[i], ids[j]);
    }
  }

  /** The first page returns as many matching rows as there are, up to the limit, and promises more exactly
      when there are more. */
  lemma FirstQueryPage(t: Table, codec: Codec, filters: map<string, Val>, sort: seq<Q.SortField>, limit: int)
    ensures var page := QueryListing(t, codec, filters, sort, limit, None);
      var n, all := if limit < 1 then 1 else limit, |Matching(t, filters)|;
      && |page.items| == (if all < n then all else n)
      && (page.next.Some? <==> all > n)
      && (all <= n ==>
            forall id | id in Matching(t, filters) :: exists i :: 0 <= i < |page.items| && page.items[i].id == id)
  {
    hide Q.KeyLess, Q.Column, Q.Matches, Q.SortKey, Cursor.Encode, Q.AnyHolds, Passes;
    MatchingIsFiltered(t, filters);
    var rows := Q.Ordered(t, filters, sort, None);
    var page := QueryListing(t, codec, filters, sort, limit, None);
    QueryIdsPresent(t, filters, sort, limit, None);
    assert Q.Selected(t, filters, sort, None) == Matching(t, filters);
    KeyCount(t, sort, Matching(t, filters));
    hide Q.Ordered;
    if |rows| <= Max(1, limit) {
      forall id | id in Matching(t, filters) ensures exists i :: 0 <= i < |page.items| && page.items[i].id == id {
        var i := Q.RowPresent(t, filters, sort, None, id);
        assert page.items[i].id == id;
      }
    }
  }

  lemma {:induction false} KeyCount(t: Table, sort: seq<Q.SortField>, ids: set<string>)
    requires forall id | id in ids :: id in t
    ensures |Q.FullKeys(t, sort, ids)| == |ids|
  {
    hide Q.FullKey;
    if ids != {} {
      var id :| id in ids;
      KeyCount(t, sort, ids - {id});
      var rest := Q.FullKeys(t, sort, ids - {id});
      forall x | x in ids - {id} ensures Q.FullKey(t, sort, x) != Q.FullKey(t, sort, id) {
        Q.FullKeyId(t, sort, x);
        Q.FullKeyId(t, sort, id);
      }
      assert Q.FullKeys(t, sort, ids) == rest + {Q.FullKey(t, sort, id)};
    }
  }

  // ---- The other pages ---------------------------------------------------------------------------

  /** Any page of all_paginated: live rows as stored, older creation first and then by id, page size as asked. */
  lemma AllPageMeaning(t: Table, limit: int, cursor: Option<string>)
    ensures AllPage(t, limit, cursor).Some? ==>
      var page := AllPage(t, limit, cursor).value;
      && (forall i | 0 <= i < |page.items| :: IsRow(t, page.items[i]))
      && (forall i, j | 0 <= i < j < |page.items| ::
            || TextOrder.Less(page.items[i].created, page.items[j].created)
            || (page.items[i].created == page.items[j].created && TextOrder.Less(page.items[i].id, page.items[j].id)))
      && |page.items| <= (if limit < 1 then 1 else limit)
      && (page.next.Some? ==> |page.items| == if limit < 1 then 1 else limit)
  {
    hide Resume, CursorAt, TextOrder.Less, AllKeys;
    if AllPage(t, limit, cursor).Some? {
      var keys := AllKeys(t, Resume(cursor).value, limit);
      KeysMeaning(t, Resume(cursor).value, limit);
      var page := AllPage(t, limit, cursor).value;
      forall i | 0 <= i < |page.items|
        ensures IsRow(t, page.items[i])
        ensures page.items[i].created == keys.items[i].major && page.items[i].id == keys.items[i].minor
      {
        assert keys.items[i] in keys.items;
      }
    }
  }

  lemma KeysMeaning(t: Table, after: Option<Pair>, limit: int)
    ensures var keys := AllKeys(t, after, limit);
      && (forall k | k in keys.items :: k.minor in t && !t[k.minor].deleted && t[k.minor].created == k.major)
      && (forall i, j | 0 <= i < j < |keys.items| :: PairLess(keys.items[i], keys.items[j]))
      && |keys.items| <= Max(1, limit)
      && (keys.more ==> |keys.items| == Max(1, limit))
  {
    hide PairLess;
    PairTotal();
    PageSound(PairLess, CreationKeys(t), after, Max(1, limit));
  }

  /** The live rows whose data matches every token, and a query without tokens matches nothing. */
  predicate IsHit(t: Table, like: Like, tokens: seq<string>, x: Found) {
    && tokens != [] && x.id in t && !t[x.id].deleted
    && x.data == t[x.id].data && x.deviation == t[x.id].deviation && x.action == t[x.id].action
    && forall i | 0 <= i < |tokens| :: like(tokens[i], t[x.id].data)
  }

  /** Any page of search_paginated. */
  lemma SearchPageMeaning(t: Table, like: Like, tokens: seq<string>, limit: int, after: Option<string>)
    ensures var page := SearchPage(t, like, tokens, limit, after);
      && (forall i | 0 <= i < |page.items| :: IsHit(t, like, tokens, page.items[i]))
      && (forall i, j | 0 <= i < j < |page.items| :: TextOrder.Less(page.items[i].id, page.items[j].id))
      && |page.items| <= (if limit < 1 then 1 else limit)
      && (page.next.Some? ==> |page.items| == if limit < 1 then 1 else limit)
      && (page.next.None? ==>
            forall id | && id in t && !t[id].deleted && tokens != []
                        && (forall i | 0 <= i < |tokens| :: like(tokens[i], t[id].data))
                        && (after.Some? ==> TextOrder.Less(after.value, id)) ::
              exists i :: 0 <= i < |page.items| && page.items[i].id == id)
  {
    hide TextOrder.Less, Cursor.Encode, SearchKeys;
    var keys := SearchKeys(t, like, tokens, after, limit);
    var page := SearchPage(t, like, tokens, limit, after);
    FoundMeaning(t, like, tokens, limit, after);
    forall i | 0 <= i < |page.items| ensures IsHit(t, like, tokens, page.items[i]) {
      assert keys.items[i] in keys.items;
    }
    forall id | id in keys.items ensures exists i :: 0 <= i < |page.items| && page.items[i].id == id {
      var i :| 0 <= i < |keys.items| && keys.items[i] == id;
      assert page.items[i].id == id;
    }
  }

  lemma FoundMeaning(t: Table, like: Like, tokens: seq<string>, limit: int, after: Option<string>)
    ensures var keys := SearchKeys(t, like, tokens, after, limit);
      && (forall id | id in keys.items ::
            && tokens != [] && id in t && !t[id].deleted && forall i | 0 <= i < |tokens| :: like(tokens[i], t[id].data))
      && (forall i, j | 0 <= i < j < |keys.items| :: TextOrder.Less(keys.items[i], keys.items[j]))
      && |keys.items| <= Max(1, limit)
      && (keys.more ==> |keys.items| == Max(1, limit))
      && (!keys.more ==>
            forall id | && id in t && !t[id].deleted && tokens != []
                        && (forall i | 0 <= i < |tokens| :: like(tokens[i], t[id].data))
                        && (after.Some? ==> TextOrder.Less(after.value, id)) :: id in keys.items)
  {
    hide TextOrder.Less, Hits;
    TextTotal();
    PageSound(TextOrder.Less, Hits(t, like, tokens), after, Max(1, limit));
    forall id ensures id in Hits(t, like, tokens) <==>
      && id in t && !t[id].deleted && tokens != [] && forall i | 0 <= i < |tokens| :: like(tokens[i], t[id].data)
    {
      HitMeaning(t, like, tokens, id);
    }
  }

  lemma HitMeaning(t: Table, like: Like, tokens: seq<string>, id: string)
    ensures id in Hits(t, like, tokens) <==>
      && id in t && !t[id].deleted && tokens != [] && forall i | 0 <= i < |tokens| :: like(tokens[i], t[id].data)
  {
    assert forall i | 0 <= i < |tokens| :: tokens[i] in tokens;
  }

  /** What a scope pattern lets through: a name itself, or with a final star every name it starts. */
  ghost predicate Covered(scope: Option<seq<string>>, c: string) {
    || scope.None?
    || (exists i :: 0 <= i < |scope.value| && scope.value[i] == c && !EndsInStar(c))
    || (exists i, stem: string :: 0 <= i < |scope.value| && scope.value[i] == stem + "*" && stem <= c)
  }

  predicate EndsInStar(c: string) { c != "" && c[|c| - 1] == '*' }

  /** A collection name: one to 128 of these characters, and the pattern's `$` lets one line feed follow. */
  predicate IsName(c: string) {
    || Named(c)
    || (c != "" && c[|c| - 1] == '\n' && Named(c[..|c| - 1]))
  }

  predicate IsLetter(c: char) { 'A' <= c <= 'Z' || 'a' <= c <= 'z' }

  predicate Named(core: string) {
    1 <= |core| <= 128 &&
    forall i | 0 <= i < |core| :: IsLetter(core[i]) || '0' <= core[i] <= '9' || core[i] == '_' || core[i] == '-'
  }

  lemma NamedChars(core: string)
    ensures Named(core) <==> 1 <= |core| <= 128 && forall x | x in core :: IsNameChar(x)
  {
    assert forall i | 0 <= i < |core| :: core[i] in core;
    forall x | x in core && Named(core) ensures IsNameChar(x) {
      var i :| 0 <= i < |core| && core[i] == x;
    }
  }

  lemma NamesMeaning(c: string)
    ensures ValidCollection(c) <==> IsName(c)
  {
    NamedChars(c);
    if c != "" && c[|c| - 1] == '\n' {
      NamedChars(c[..|c| - 1]);
      assert c[|c| - 1] in c;
    }
    hide Named;
  }

  lemma ScopeMeaning(c: string, scope: Option<seq<string>>)
    ensures InScope(c, scope) <==> Covered(scope, c)
  {
    if scope.Some? {
      if InScope(c, scope) {
        var p :| p in scope.value && PatternCovers(p, c);
        var i :| 0 <= i < |scope.value| && scope.value[i] == p;
        if EndsInStar(p) {
          var stem := p[..|p| - 1];
          assert p == stem + "*";
          assert scope.value[i] == stem + "*" && stem <= c;
        } else {
          assert scope.value[i] == c;
        }
      }
      if i: int, stem: string :| 0 <= i < |scope.value| && scope.value[i] == stem + "*" && stem <= c {
        var p := scope.value[i];
        assert p[..|p| - 1] == stem;
        assert PatternCovers(p, c);
      } else if i :| 0 <= i < |scope.value| && scope.value[i] == c && !EndsInStar(c) {
        assert PatternCovers(scope.value[i], c);
      }
    }
  }

  /** The hits of search_all are those of the stored collections with a proper name that the scope covers. */
  lemma AllHitsMeaning(tables: Tables, like: Like, tokens: seq<string>, scope: Option<seq<string>>, k: Pair)
    ensures k in AllHits(tables, like, tokens, scope) <==>
      && k.major in tables && IsName(k.major) && Covered(scope, k.major)
      && k.minor in tables[k.major] && !tables[k.major][k.minor].deleted
      && tokens != [] && forall i | 0 <= i < |tokens| :: like(tokens[i], tables[k.major][k.minor].data)
  {
    hide ValidCollection, InScope, Covered, IsName;
    NamesMeaning(k.major);
    ScopeMeaning(k.major, scope);
    assert forall i | 0 <= i < |tokens| :: tokens[i] in tokens;
  }

  /** Any page of search_all_paginated: hits as stored, by collection and then id, page size as asked. */
  lemma SearchAllPageMeaning(tables: Tables, like: Like, tokens: seq<string>, scope: Option<seq<string>>, limit: int,
                             after: Option<Pair>)
    ensures var page := SearchAllPage(tables, like, tokens, scope, limit, after);
      && (forall i | 0 <= i < |page.items| ::
            && page.items[i].collection in tables
            && IsName(page.items[i].collection) && Covered(scope, page.items[i].collection)
            && IsHit(tables[page.items[i].collection], like, tokens, page.items[i].found))
      && (forall i, j | 0 <= i < j < |page.items| ::
            || TextOrder.Less(page.items[i].collection, page.items[j].collection)
            || (page.items[i].collection == page.items[j].collection &&
                TextOrder.Less(page.items[i].found.id, page.items[j].found.id)))
      && |page.items| <= (if limit < 1 then 1 else limit)
      && (page.next.Some? ==> |page.items| == if limit < 1 then 1 else limit)
  {
    hide SearchAllPage, TextOrder.Less, IsName, Covered, IsHit, AllHits;
    AllKeysMeaning(tables, like, tokens, scope, limit, after);
    ItemsOfKeys(tables, like, tokens, scope, limit, after);
    var keys := SearchAllKeys(tables, like, tokens, scope, after, limit).items;
    var page := SearchAllPage(tables, like, tokens, scope, limit, after);
    forall i, j | 0 <= i < j < |page.items|
      ensures || TextOrder.Less(page.items[i].collection, page.items[j].collection)
              || (page.items[i].collection == page.items[j].collection &&
                  TextOrder.Less(page.items[i].found.id, page.items[j].found.id))
    {
      assert PairLess(keys[i], keys[j]);
    }
  }

  /** The keys behind the page. */
  lemma AllKeysMeaning(tables: Tables, like: Like, tokens: seq<string>, scope: Option<seq<string>>, limit: int,
                       after: Option<Pair>)
    ensures var keys := SearchAllKeys(tables, like, tokens, scope, after, limit);
      && (forall i | 0 <= i < |keys.items| :: keys.items[i] in AllHits(tables, like, tokens, scope))
      && (forall i, j | 0 <= i < j < |keys.items| :: PairLess(keys.items[i], keys.items[j]))
      && |keys.items| <= Max(1, limit)
      && (keys.more ==> |keys.items| == Max(1, limit))
  {
    hide PairLess, AllHits;
    PairTotal();
    PageSound(PairLess, AllHits(tables, like, tokens, scope), after, Max(1, limit));
    var keys := SearchAllKeys(tables, like, tokens, scope, after, limit);
    forall i | 0 <= i < |keys.items| ensures keys.items[i] in AllHits(tables, like, tokens, scope) {
      assert keys.items[i] in keys.items;
    }
  }

  /** Each item of the page is the hit of its key. */
  lemma ItemsOfKeys(tables: Tables, like: Like, tokens: seq<string>, scope: Option<seq<string>>, limit: int,
                    after: Option<Pair>)
    requires var keys := SearchAllKeys(tables, like, tokens, scope, after, limit).items;
             forall i | 0 <= i < |keys| :: keys[i] in AllHits(tables, like, tokens, scope)
    ensures var keys := SearchAllKeys(tables, like, tokens, scope, after, limit);
      var page := SearchAllPage(tables, like, tokens, scope, limit, after);
      && |page.items| == |keys.items| && (page.next.Some? <==> keys.more)
      && forall i | 0 <= i < |page.items| ::
           && page.items[i].collection == keys.items[i].major && page.items[i].found.id == keys.items[i].minor
           && page.items[i].collection in tables
           && IsName(page.items[i].collection) && Covered(scope, page.items[i].collection)
           && IsHit(tables[page.items[i].collection], like, tokens, page.items[i].found)
  {
    hide CursorAt, IsName, Covered, AllHits, SearchAllKeys;
    var keys := SearchAllKeys(tables, like, tokens, scope, after, limit);
    var page := SearchAllPage(tables, like, tokens, scope, limit, after);
    forall i | 0 <= i < |page.items|
      ensures page.items[i].collection == keys.items[i].major && page.items[i].found.id == keys.items[i].minor
      ensures page.items[i].collection in tables
      ensures IsName(page.items[i].collection) && Covered(scope, page.items[i].collection)
      ensures IsHit(tables[page.items[i].collection], like, tokens, page.items[i].found)
    {
      AllHitsMeaning(tables, like, tokens, scope, keys.items[i]);
    }
  }

  // ---- Whole results -----------------------------------------------------------------------------

  /** all() lists every live row once, as stored, by creation stamp. */
  method Everything(s: Store, c: string) returns (items: seq<Item>)
    requires s.Valid() && ValidCollection(c)
    modifies s
    ensures c in s.tables
    ensures forall i | 0 <= i < |items| :: IsRow(s.tables[c], items[i])
    ensures forall i, j | 0 <= i < j < |items| :: items[i].id != items[j].id
    ensures forall i, j | 0 <= i < j < |items| :: !TextOrder.Less(items[j].created, items[i].created)
    ensures forall id | id in s.tables[c] && !s.tables[c][id].deleted ::
              exists i :: 0 <= i < |items| && items[i].id == id
  {
    hide TextOrder.Less, StoreWalk.IsAll, IsRow;
    var all := s.All(c);
    items := all.value;
    AllMeaning(s.tables[c], items);
  }

  lemma AllMeaning(t: Table, items: seq<Item>)
    requires StoreWalk.IsAll(t, items)
    ensures forall i | 0 <= i < |items| :: IsRow(t, items[i])
    ensures forall i, j | 0 <= i < j < |items| :: items[i].id != items[j].id
    ensures forall i, j | 0 <= i < j < |items| :: !TextOrder.Less(items[j].created, items[i].created)
    ensures forall id | id in t && !t[id].deleted :: exists i :: 0 <= i < |items| && items[i].id == id
  {
    hide TextOrder.Less;
    forall i, j | 0 <= i < j < |items| ensures items[i].id != items[j].id {
      assert StoreWalk.Once(items, items[i].id);
    }
    forall id | id in t && !t[id].deleted ensures exists i :: 0 <= i < |items| && items[i].id == id {
      assert StoreWalk.Once(items, id);
    }
  }

  /** search() lists every matching live row once, as stored. */
  method MatchingOf(s: Store, c: string, like: Like, tokens: seq<string>) returns (found: seq<Found>)
    requires s.Valid() && ValidCollection(c) && tokens != []
    modifies s
    ensures c in s.tables
    ensures forall i | 0 <= i < |found| :: IsHit(s.tables[c], like, tokens, found[i])
    ensures forall i, j | 0 <= i < j < |found| :: found[i].id != found[j].id
    ensures forall id | && id in s.tables[c] && !s.tables[c][id].deleted
                        && (forall i | 0 <= i < |tokens| :: like(tokens[i], s.tables[c][id].data)) ::
              exists i :: 0 <= i < |found| && found[i].id == id
  {
    var search := s.Search(c, like, tokens);
    found := search.value;
    ghost var t := s.tables[c];
    forall id ensures id in Hits(t, like, tokens) <==>
        id in t && !t[id].deleted && forall i | 0 <= i < |tokens| :: like(tokens[i], t[id].data)
    {
      HitMeaning(t, like, tokens, id);
    }
    hide Hits;
  }

  /** search_all() lists every hit of every collection of proper name in scope once. */
  method MatchingAll(s: Store, like: Like, tokens: seq<string>, scope: Option<seq<string>>) returns (found: seq<Hit>)
    requires s.Valid()
    modifies s
    ensures forall i | 0 <= i < |found| ::
              && found[i].collection in s.tables
              && IsName(found[i].collection) && Covered(scope, found[i].collection)
              && IsHit(s.tables[found[i].collection], like, tokens, found[i].found)
    ensures forall i, j | 0 <= i < j < |found| ::
              found[i].collection != found[j].collection || found[i].found.id != found[j].found.id
    ensures forall c, id | && c in s.tables && IsName(c) && Covered(scope, c) && id in s.tables[c]
                           && !s.tables[c][id].deleted && tokens != []
                           && (forall i | 0 <= i < |tokens| :: like(tokens[i], s.tables[c][id].data)) ::
              exists i :: 0 <= i < |found| && found[i].collection == c && found[i].found.id == id
  {
    hide IsName, Covered, AllHits;
    found := s.SearchAll(like, tokens, scope);
    forall i | 0 <= i < |found|
      ensures found[i].collection in s.tables
      ensures IsName(found[i].collection) && Covered(scope, found[i].collection)
      ensures IsHit(s.tables[found[i].collection], like, tokens, found[i].found)
    {
      AllHitsMeaning(s.tables, like, tokens, scope, KeyOfHit(found[i]));
    }
    forall c, id | && c in s.tables && IsName(c) && Covered(scope, c) && id in s.tables[c]
                   && !s.tables[c][id].deleted && tokens != []
                   && (forall i | 0 <= i < |tokens| :: like(tokens[i], s.tables[c][id].data))
      ensures exists i :: 0 <= i < |found| && found[i].collection == c && found[i].found.id == id
    {
      AllHitsMeaning(s.tables, like, tokens, scope, Pair(c, id));
      var i :| 0 <= i < |found| && KeyOfHit(found[i]) == Pair(c, id);
    }
  }

  /** What a cursor records of a row: its own columns under their names, the action in words, and otherwise the
      field of the record, NULL when it has none. */
  lemma RecordedMeaning(t: Table, id: string, field: string)
    requires id in t
    ensures Q.Recorded(t, id, "_id") == Text(id)
    ensures Q.Recorded(t, id, "_created") == Text(t[id].created) && Q.Recorded(t, id, "_updated") == Text(t[id].updated)
    ensures Q.Recorded(t, id, "_deviation") == Num(t[id].deviation)
    ensures t[id].action == Stop ==> Q.Recorded(t, id, "_action") == Text("stop")
    ensures t[id].action == Flag ==> Q.Recorded(t, id, "_action") == Text("flag")
    ensures t[id].action == WorkQuiet ==> Q.Recorded(t, id, "_action") == Text("work_quiet")
    ensures field !in {"_id", "_created", "_updated", "_deviation", "_action"} ==>
              Q.Recorded(t, id, field) == if field in t[id].data then t[id].data[field] else Null
  {
  }

  // ---- Field names and cursors -------------------------------------------------------------------

  predicate IsField(f: string) {
    || f in {"_id", "_created", "_updated"}
    || (&& 1 <= |f| <= 64
        && (IsLetter(f[0]) || f[0] == '_')
        && forall i | 0 <= i < |f| :: IsLetter(f[i]) || '0' <= f[i] <= '9' || f[i] == '_')
  }

  /** A field name outside the three columns is one to 64 letters, digits and underscores, no digit first: no
      quote, dollar or dot reaches the SQL text. */
  lemma FieldNamesMeaning(f: string)
    ensures Q.ValidField(f) <==> IsField(f)
  {
    assert forall i | 0 <= i < |f| :: f[i] in f;
  }

  /** A query is refused for its fields exactly when some filter or sort column has no such name. */
  lemma FieldsMeaning(filters: map<string, Val>, sort: seq<Q.SortField>)
    ensures FieldsOk(filters, sort) <==>
            (forall f | f in filters :: IsField(f)) && (forall i | 0 <= i < |sort| :: IsField(sort[i].field))
  {
    hide IsField, Q.ValidField;
    forall f ensures Q.ValidField(f) <==> IsField(f) {
      FieldNamesMeaning(f);
    }
  }
}
