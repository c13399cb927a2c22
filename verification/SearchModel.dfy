/** Keyword search over one collection and over every collection in scope. */
module SearchModel {
  import opened Wrappers
  import opened Keyset
  import opened StoreModel
  import TextOrder
  import Cursor

  /** data LIKE '%token%', as SQLite decides it. */
  type Like = (string, Record) -> bool

  type Tables = map<string, Table>

  datatype Found = Found(id: string, data: Record, deviation: real, action: Action)

  datatype Hit = Hit(collection: string, found: Found)

  function FoundAt(t: Table, id: string): Found
    requires id in t
  {
    Found(id, t[id].data, t[id].deviation, t[id].action)
  }

  /** The live rows whose data matches every token; a query without tokens matches nothing. */
  function Hits(t: Table, like: Like, tokens: seq<string>): set<string> {
    set id | id in t && !t[id].deleted && tokens != [] && forall token | token in tokens :: like(token, t[id].data)
  }

  predicate IsNameChar(c: char) {
    'A' <= c <= 'Z' || 'a' <= c <= 'z' || '0' <= c <= '9' || c == '_' || c == '-'
  }

  /** The pattern ends in "$", which also accepts one trailing newline. */
  predicate ValidCollection(c: string) {
    var core := if c != "" && c[|c| - 1] == '\n' then c[..|c| - 1] else c;
    1 <= |core| <= 128 && forall x | x in core :: IsNameChar(x)
  }

  predicate InScope(c: string, scope: Option<seq<string>>) {
    scope.None? || exists p | p in scope.value :: PatternCovers(p, c)
  }

  predicate PatternCovers(p: string, c: string) {
    if p != "" && p[|p| - 1] == '*' then p[..|p| - 1] <= c else c == p
  }

  function Visible(tables: Tables, scope: Option<seq<string>>): set<string> {
    set c | c in tables && ValidCollection(c) && InScope(c, scope)
  }

  /** list_collections: every valid collection in scope, sorted by name. */
  function Collections(tables: Tables, scope: Option<seq<string>>): seq<string> {
    TextTotal();
    Sort(TextOrder.Less, Visible(tables, scope))
  }

  /** Every hit of search_all, as (collection, id). */
  function AllHits(tables: Tables, like: Like, tokens: seq<string>, scope: Option<seq<string>>): set<Pair> {
    set c, id | c in tables && c in Visible(tables, scope) && id in tables[c] && id in Hits(tables[c], like, tokens) ::
      Pair(c, id)
  }

  function HitAt(tables: Tables, p: Pair): Hit
    requires p.major in tables && p.minor in tables[p.major]
  {
    Hit(p.major, FoundAt(tables[p.major], p.minor))
  }

  predicate Names(tables: Tables, keys: seq<Pair>) {
    forall p | p in keys :: p.major in tables && p.minor in tables[p.major]
  }

  function HitsAt(tables: Tables, keys: seq<Pair>): (hits: seq<Hit>)
    requires Names(tables, keys)
    ensures |hits| == |keys|
  {
    seq(|keys|, i requires 0 <= i < |keys| => assert keys[i] in keys; HitAt(tables, keys[i]))
  }

  /** Strictly beyond a single-column cursor; a missing or empty cursor starts from the beginning. */
  function ResumeId(cursor: Option<string>): Option<Option<string>> {
    if cursor.None? || cursor.value == "" then Some(None)
    else
      var id := Cursor.Decode(cursor.value);
      if id.None? then None else Some(id)
  }

  function SearchKeys(t: Table, like: Like, tokens: seq<string>, after: Option<string>,
                      limit: int): (page: Page<string>)
    ensures forall id | id in page.items :: id in t
    ensures page.more ==> page.items != []
  {
    TextTotal();
    var found := Beyond(TextOrder.Less, Hits(t, like, tokens), after);
    assert forall id | id in Sort(TextOrder.Less, found) :: id in t;
    var page := PageOf(TextOrder.Less, Hits(t, like, tokens), after, Max(1, limit));
    page
  }

  function FoundList(t: Table, ids: seq<string>): (items: seq<Found>)
    requires forall id | id in ids :: id in t
    ensures |items| == |ids|
  {
    seq(|ids|, i requires 0 <= i < |ids| => FoundAt(t, ids[i]))
  }

  function SearchPage(t: Table, like: Like, tokens: seq<string>, limit: int, after: Option<string>): Listing<Found> {
    var page := SearchKeys(t, like, tokens, after, limit);
    Listing(FoundList(t, page.items),
            if page.more then Some(Cursor.Encode(page.items[|page.items| - 1])) else None)
  }

  function SearchAllKeys(tables: Tables, like: Like, tokens: seq<string>, scope: Option<seq<string>>,
                         after: Option<Pair>, limit: int): (page: Page<Pair>)
    ensures Names(tables, page.items)
    ensures page.more ==> page.items != []
  {
    PairTotal();
    var all := AllHits(tables, like, tokens, scope);
    assert Names(tables, Sort(PairLess, Beyond(PairLess, all, after)));
    PageOf(PairLess, all, after, Max(1, limit))
  }

  function SearchAllPage(tables: Tables, like: Like, tokens: seq<string>, scope: Option<seq<string>>,
                         limit: int, after: Option<Pair>): Listing<Hit> {
    var page := SearchAllKeys(tables, like, tokens, scope, after, limit);
    Listing(HitsAt(tables, page.items), NextCursor(page))
  }

  // The nested loops of search_all_paginated.

  /** The hits beyond the cursor whose collection is one of the first i. */
  function Part(s: set<Pair>, cols: seq<string>): set<Pair> {
    set p | p in s && p.major in cols
  }

  function Ids(s: set<Pair>, c: string): set<string> {
    set p | p in s && p.major == c :: p.minor
  }

  function InCollection(c: string, ids: seq<string>): (keys: seq<Pair>)
    ensures |keys| == |ids|
  {
    seq(|ids|, i requires 0 <= i < |ids| => Pair(c, ids[i]))
  }

  /** If everything in a comes before everything in b, sorting the union sorts a and then b. */
  lemma SortSplit<K(!new)>(less: (K, K) -> bool, a: set<K>, b: set<K>)
    requires StrictTotal(less) && forall x, y | x in a && y in b :: less(x, y)
    ensures Sort(less, a + b) == Sort(less, a) + Sort(less, b)
  {
    var left, right := Sort(less, a), Sort(less, b);
    forall i, j | 0 <= i < j < |left + right| ensures less((left + right)[i], (left + right)[j]) {
      if i < |left| <= j {
        assert left[i] in left && right[j - |left|] in right;
      }
    }
    AscendingUnique(less, Sort(less, a + b), left + right);
  }

  /** Sorting the ids of one collection sorts its pairs. */
  lemma SortCollection(s: set<Pair>, c: string)
    requires StrictTotal(PairLess) && StrictTotal(TextOrder.Less)
    ensures Sort(PairLess, set p | p in s && p.major == c) == InCollection(c, Sort(TextOrder.Less, Ids(s, c)))
  {
    hide TextOrder.Less;
    var pairs := set p | p in s && p.major == c;
    var ids := Sort(TextOrder.Less, Ids(s, c));
    var keys := InCollection(c, ids);
    forall k ensures k in keys <==> k in pairs {
      if k in keys {
        var i :| 0 <= i < |ids| && keys[i] == k;
        assert ids[i] in ids;
        var p :| p in s && p.major == c && p.minor == ids[i];
        assert p == k;
      }
      if k in pairs {
        assert k.minor in Ids(s, c);
        var i :| 0 <= i < |ids| && ids[i] == k.minor;
        assert keys[i] == k;
      }
    }
    AscendingUnique(PairLess, Sort(PairLess, pairs), keys);
  }

  /** One more collection extends the sorted prefix by that collection's sorted ids. */
  lemma PartStep(s: set<Pair>, cols: seq<string>, i: nat)
    requires StrictTotal(PairLess) && StrictTotal(TextOrder.Less)
    requires Ascending(TextOrder.Less, cols) && i < |cols|
    ensures Sort(PairLess, Part(s, cols[..i + 1])) ==
            Sort(PairLess, Part(s, cols[..i])) + InCollection(cols[i], Sort(TextOrder.Less, Ids(s, cols[i])))
  {
    hide TextOrder.Less;
    var a, b := Part(s, cols[..i]), set p | p in s && p.major == cols[i];
    assert cols[..i + 1] == cols[..i] + [cols[i]];
    assert Part(s, cols[..i + 1]) == a + b;
    forall x, y | x in a && y in b ensures PairLess(x, y) {
      var j :| 0 <= j < i && cols[j] == x.major;
      assert TextOrder.Less(cols[j], cols[i]);
    }
    SortSplit(PairLess, a, b);
    SortCollection(s, cols[i]);
  }

  lemma EarlierName(cols: seq<string>, i: nat, x: string, y: string)
    requires Ascending(TextOrder.Less, cols) && i <= |cols|
    requires x in cols[..i] && y in cols && y !in cols[..i]
    ensures TextOrder.Less(x, y)
  {
    hide TextOrder.Less;
    var j :| 0 <= j < i && cols[..i][j] == x;
    var k :| 0 <= k < |cols| && cols[k] == y;
    assert forall m | 0 <= m < i :: cols[..i][m] == cols[m];
    assert cols[j] == x;
  }

  /** The first collections' hits are a prefix of all the hits. */
  lemma PartPrefix(s: set<Pair>, cols: seq<string>, i: nat)
    requires StrictTotal(PairLess) && StrictTotal(TextOrder.Less)
    requires Ascending(TextOrder.Less, cols) && i <= |cols|
    requires forall p | p in s :: p.major in cols
    ensures Sort(PairLess, Part(s, cols[..i])) <= Sort(PairLess, s)
  {
    hide TextOrder.Less, Sort;
    var a := Part(s, cols[..i]);
    var b := s - a;
    forall x, y | x in a && y in b ensures PairLess(x, y) {
      EarlierName(cols, i, x.major, y.major);
    }
    assert a + b == s;
    SortSplit(PairLess, a, b);
  }

  /** The ids of one collection that lie beyond the cursor are what search_paginated is asked for. */
  lemma CollectionBeyond(tables: Tables, like: Like, tokens: seq<string>, scope: Option<seq<string>>,
                         after: Option<Pair>, c: string)
    requires c in Visible(tables, scope) && WellFormed(tables[c])
    ensures Ids(Beyond(PairLess, AllHits(tables, like, tokens, scope), after), c) ==
            if after.Some? && TextOrder.Less(c, after.value.major) then {}
            else Beyond(TextOrder.Less, Hits(tables[c], like, tokens),
                        if after.Some? && c == after.value.major && after.value.minor != ""
                        then Some(after.value.minor) else None)
  {
    hide TextOrder.Less;
    TextTotal();
    var s := Beyond(PairLess, AllHits(tables, like, tokens, scope), after);
    forall id ensures id in Ids(s, c) <==> Pair(c, id) in s {
      if id in Ids(s, c) {
        var p :| p in s && p.major == c && p.minor == id;
        assert p == Pair(c, id);
      }
    }
    forall id ensures Pair(c, id) in AllHits(tables, like, tokens, scope) <==> id in Hits(tables[c], like, tokens) {
    }
    forall id | id in Hits(tables[c], like, tokens) ensures TextOrder.Less("", id) {
      EmptyFirst(id);
    }
  }

  lemma EmptyFirst(id: string)
    ensures id != "" ==> TextOrder.Less("", id)
  {
  }

  /** A page of one collection's ids, cut to what the page still has room for, extends the page. */
  lemma ExtendTake(s: set<Pair>, cols: seq<string>, i: nat, n: nat)
    requires StrictTotal(PairLess) && StrictTotal(TextOrder.Less)
    requires Ascending(TextOrder.Less, cols) && i < |cols|
    requires |Sort(PairLess, Part(s, cols[..i]))| <= n
    ensures var keys := Sort(PairLess, Part(s, cols[..i]));
      keys + InCollection(cols[i], Take(n - |keys| + 1, Sort(TextOrder.Less, Ids(s, cols[i])))) ==
        Take(n + 1, Sort(PairLess, Part(s, cols[..i + 1])))
  {
    hide *;
    var keys := Sort(PairLess, Part(s, cols[..i]));
    var ids := Sort(TextOrder.Less, Ids(s, cols[i]));
    PartStep(s, cols, i);
    TakeConcat(keys, InCollection(cols[i], ids), n);
    TakeInCollection(cols[i], ids, n - |keys| + 1);
  }

  lemma TakeInCollection(c: string, ids: seq<string>, n: nat)
    ensures InCollection(c, Take(n, ids)) == Take(n, InCollection(c, ids))
  {
  }

  lemma TakeConcat<T>(a: seq<T>, b: seq<T>, n: nat)
    requires |a| <= n
    ensures Take(n + 1, a + b) == a + Take(n - |a| + 1, b)
  {
  }

  /** A full page over the first collections is the page over all of them. */
  lemma FullTake(s: set<Pair>, cols: seq<string>, i: nat, n: nat)
    requires StrictTotal(PairLess) && StrictTotal(TextOrder.Less)
    requires Ascending(TextOrder.Less, cols) && i <= |cols|
    requires forall p | p in s :: p.major in cols
    requires |Sort(PairLess, Part(s, cols[..i]))| > n || i == |cols|
    ensures Take(n + 1, Sort(PairLess, Part(s, cols[..i]))) == Take(n + 1, Sort(PairLess, s))
  {
    hide TextOrder.Less, PairLess, Sort;
    PartPrefix(s, cols, i);
    if i == |cols| {
      assert cols[..i] == cols;
      assert Part(s, cols[..i]) == s;
    }
  }

  lemma SearchIsTake(t: Table, like: Like, tokens: seq<string>, after: Option<string>, m: int)
    requires m >= 1 && StrictTotal(TextOrder.Less)
    ensures SearchKeys(t, like, tokens, after, m).items ==
            Take(m, Sort(TextOrder.Less, Beyond(TextOrder.Less, Hits(t, like, tokens), after)))
    ensures tokens == [] ==> SearchKeys(t, like, tokens, after, m).items == []
  {
    hide TextOrder.Less;
  }

  lemma NothingPrecedesEmpty(c: string)
    ensures !TextOrder.Less(c, "")
  {
  }

  lemma EveryCollectionListed(tables: Tables, like: Like, tokens: seq<string>, scope: Option<seq<string>>,
                              after: Option<Pair>)
    ensures forall p | p in Beyond(PairLess, AllHits(tables, like, tokens, scope), after) ::
            p.major in Collections(tables, scope)
    ensures forall c | c in Collections(tables, scope) ::
            c in Visible(tables, scope) && c in tables && ValidCollection(c)
    ensures Ascending(TextOrder.Less, Collections(tables, scope))
  {
    hide TextOrder.Less;
    TextTotal();
  }

  /** What search_paginated is asked of a collection: the ids after the cursor when the cursor stands
      in this very collection, all of them otherwise. */
  function Within(after: Option<Pair>, c: string): Option<string> {
    if after.Some? && c == after.value.major && after.value.minor != "" then Some(after.value.minor) else None
  }

  predicate Skipped(after: Option<Pair>, c: string) {
    after.Some? && TextOrder.Less(c, after.value.major)
  }

  function Beyonds(tables: Tables, like: Like, tokens: seq<string>, scope: Option<seq<string>>,
                   after: Option<Pair>): set<Pair> {
    Beyond(PairLess, AllHits(tables, like, tokens, scope), after)
  }

  /** The page as it stands after the first i collections. */
  function Gathered(tables: Tables, like: Like, tokens: seq<string>, scope: Option<seq<string>>, after: Option<Pair>,
                    i: nat): (keys: seq<Pair>)
    requires i <= |Collections(tables, scope)|
    ensures Names(tables, keys)
  {
    PairTotal();
    Sort(PairLess, Part(Beyonds(tables, like, tokens, scope, after), Collections(tables, scope)[..i]))
  }

  function HitsOf(c: string, items: seq<Found>): seq<Hit> {
    seq(|items|, k requires 0 <= k < |items| => Hit(c, items[k]))
  }

  lemma TurnKeys(tables: Tables, like: Like, tokens: seq<string>, scope: Option<seq<string>>, after: Option<Pair>,
                 i: nat, n: nat)
    requires i < |Collections(tables, scope)|
    requires Collections(tables, scope)[i] in tables && WellFormed(tables[Collections(tables, scope)[i]])
    requires |Gathered(tables, like, tokens, scope, after, i)| <= n
    ensures var c := Collections(tables, scope)[i];
      var keys := Gathered(tables, like, tokens, scope, after, i);
      var next := Take(n + 1, Gathered(tables, like, tokens, scope, after, i + 1));
      var ids := SearchKeys(tables[c], like, tokens, Within(after, c), n - |keys| + 1).items;
      next == keys + if Skipped(after, c) then [] else InCollection(c, ids)
  {
    hide TextOrder.Less, PairLess, Sort, SearchKeys, Hits, AllHits, Beyond, Visible, Part, Ids, Collections, Take;
    hide StrictTotal, InCollection, ValidCollection, Ascending, WellFormed, Names;
    var cols := Collections(tables, scope);
    var c := cols[i];
    assert c in cols;
    PairTotal();
    TextTotal();
    EveryCollectionListed(tables, like, tokens, scope, after);
    var s := Beyonds(tables, like, tokens, scope, after);
    CollectionBeyond(tables, like, tokens, scope, after, c);
    ExtendTake(s, cols, i, n);
    var keys := Gathered(tables, like, tokens, scope, after, i);
    if Skipped(after, c) {
      NoIds(c, n - |keys| + 1);
    } else {
      SearchIsTake(tables[c], like, tokens, Within(after, c), n - |keys| + 1);
    }
  }

  lemma NoIds(c: string, n: nat)
    requires StrictTotal(TextOrder.Less)
    ensures InCollection(c, Take(n, Sort(TextOrder.Less, {}))) == []
  {
  }

  /** One turn of the outer loop, over one collection. */
  lemma Turn(tables: Tables, like: Like, tokens: seq<string>, scope: Option<seq<string>>, after: Option<Pair>, i: nat,
             n: nat)
    requires i < |Collections(tables, scope)|
    requires Collections(tables, scope)[i] in tables && WellFormed(tables[Collections(tables, scope)[i]])
    requires |Gathered(tables, like, tokens, scope, after, i)| <= n
    ensures var c := Collections(tables, scope)[i];
      var keys := Gathered(tables, like, tokens, scope, after, i);
      var next := Take(n + 1, Gathered(tables, like, tokens, scope, after, i + 1));
      var ids := SearchKeys(tables[c], like, tokens, Within(after, c), n - |keys| + 1).items;
      && Names(tables, next)
      && |next| == |keys| + (if Skipped(after, c) then 0 else |ids|)
      && HitsAt(tables, next) == HitsAt(tables, keys) +
          if Skipped(after, c) then [] else HitsOf(c, FoundList(tables[c], ids))
  {
    hide TextOrder.Less, SearchKeys, Collections, Gathered, HitsAt, InCollection, FoundList, HitsOf, Names;
    var c := Collections(tables, scope)[i];
    var keys := Gathered(tables, like, tokens, scope, after, i);
    TurnKeys(tables, like, tokens, scope, after, i, n);
    if Skipped(after, c) {
      assert keys + [] == keys;
    } else {
      HitsAppend(tables, keys, c, SearchKeys(tables[c], like, tokens, Within(after, c), n - |keys| + 1).items);
    }
  }

  lemma HitsAppend(tables: Tables, keys: seq<Pair>, c: string, ids: seq<string>)
    requires Names(tables, keys) && c in tables && forall id | id in ids :: id in tables[c]
    ensures Names(tables, keys + InCollection(c, ids))
    ensures HitsAt(tables, keys + InCollection(c, ids)) == HitsAt(tables, keys) + HitsOf(c, FoundList(tables[c], ids))
  {
    var more := InCollection(c, ids);
    forall p | p in more ensures p.major in tables && p.minor in tables[p.major] {
      var i :| 0 <= i < |ids| && more[i] == p;
      assert ids[i] in ids;
    }
  }

  lemma NothingGathered(tables: Tables, like: Like, tokens: seq<string>, scope: Option<seq<string>>,
                        after: Option<Pair>)
    ensures Gathered(tables, like, tokens, scope, after, 0) == []
  {
    hide AllHits, Beyond, PairLess, Visible;
    assert Part(Beyonds(tables, like, tokens, scope, after), Collections(tables, scope)[..0]) == {};
  }

  /** Stopping early with a row to spare, or after the last collection, the page is complete. */
  lemma CompleteKeys(tables: Tables, like: Like, tokens: seq<string>, scope: Option<seq<string>>, after: Option<Pair>,
                     i: nat, limit: int)
    requires i <= |Collections(tables, scope)|
    requires |Gathered(tables, like, tokens, scope, after, i)| > Max(1, limit) || i == |Collections(tables, scope)|
    ensures var rows := Take(Max(1, limit) + 1, Gathered(tables, like, tokens, scope, after, i));
      SearchAllKeys(tables, like, tokens, scope, after, limit) ==
          Page(Take(Max(1, limit), rows), |rows| > Max(1, limit))
  {
    hide TextOrder.Less, PairLess, Sort, AllHits, Beyond, Visible;
    PairTotal();
    TextTotal();
    var cols := Collections(tables, scope);
    var s := Beyonds(tables, like, tokens, scope, after);
    EveryCollectionListed(tables, like, tokens, scope, after);
    FullTake(s, cols, i, Max(1, limit));
    FetchIsPage(Sort(PairLess, s), Max(1, limit));
  }

  function HitCursor(hit: Hit): string {
    CursorAt(Pair(hit.collection, hit.found.id))
  }

  /** Cutting the gathered hits to the limit and taking the cursor from the last one kept. */
  lemma Complete(tables: Tables, like: Like, tokens: seq<string>, scope: Option<seq<string>>, after: Option<Pair>,
                 i: nat, limit: int)
    requires i <= |Collections(tables, scope)|
    requires |Gathered(tables, like, tokens, scope, after, i)| > Max(1, limit) || i == |Collections(tables, scope)|
    ensures var rows := Take(Max(1, limit) + 1, Gathered(tables, like, tokens, scope, after, i));
      Names(tables, rows) &&
      var hits := HitsAt(tables, rows);
      SearchAllPage(tables, like, tokens, scope, limit, after) ==
        Listing(Take(Max(1, limit), hits),
                if |hits| > Max(1, limit) then Some(HitCursor(hits[Max(1, limit) - 1])) else None)
  {
    hide Gathered, Collections, SearchAllKeys, CursorAt;
    var rows := Take(Max(1, limit) + 1, Gathered(tables, like, tokens, scope, after, i));
    CompleteKeys(tables, like, tokens, scope, after, i, limit);
    assert Names(tables, rows);
    assert HitsAt(tables, Take(Max(1, limit), rows)) == Take(Max(1, limit), HitsAt(tables, rows));
  }

  /** A correct result of search(): the matching rows, each exactly once, in any order. */
  ghost predicate IsSearch(t: Table, like: Like, tokens: seq<string>, results: seq<Found>) {
    && (forall i | 0 <= i < |results| ::
          results[i].id in Hits(t, like, tokens) && results[i].id in t && results[i] == FoundAt(t, results[i].id))
    && (forall i, j | 0 <= i < j < |results| :: results[i].id != results[j].id)
    && (forall id | id in Hits(t, like, tokens) :: exists i :: 0 <= i < |results| && results[i].id == id)
  }

  function KeyOfHit(hit: Hit): Pair {
    Pair(hit.collection, hit.found.id)
  }

  /** Every hit in the named collections exactly once. */
  ghost predicate IsSearchOver(tables: Tables, like: Like, tokens: seq<string>, cols: seq<string>, results: seq<Hit>) {
    && (forall i | 0 <= i < |results| ::
          var k := KeyOfHit(results[i]);
          k.major in cols && k.major in tables && k.minor in Hits(tables[k.major], like, tokens) &&
          k.minor in tables[k.major] && results[i] == HitAt(tables, k))
    && (forall i, j | 0 <= i < j < |results| :: KeyOfHit(results[i]) != KeyOfHit(results[j]))
    && (forall c, id | c in cols && c in tables && id in Hits(tables[c], like, tokens) ::
          exists i :: 0 <= i < |results| && KeyOfHit(results[i]) == Pair(c, id))
  }

  /** A correct result of search_all(): every hit in scope exactly once. */
  ghost predicate IsSearchAll(tables: Tables, like: Like, tokens: seq<string>, scope: Option<seq<string>>,
                              results: seq<Hit>) {
    && (forall i | 0 <= i < |results| ::
          var k := KeyOfHit(results[i]);
          k in AllHits(tables, like, tokens, scope) && k.major in tables && k.minor in tables[k.major] &&
              results[i] == HitAt(tables, k))
    && (forall i, j | 0 <= i < j < |results| :: KeyOfHit(results[i]) != KeyOfHit(results[j]))
    && (forall k | k in AllHits(tables, like, tokens, scope) ::
          exists i :: 0 <= i < |results| && KeyOfHit(results[i]) == k)
  }

  lemma HitsLive(t: Table, like: Like, tokens: seq<string>)
    ensures forall id | id in Hits(t, like, tokens) :: id in t
  {
  }

  lemma NoTokensSearch(t: Table, like: Like, tokens: seq<string>)
    ensures tokens == [] ==> IsSearch(t, like, tokens, [])
  {
  }

  lemma FoundIsSearch(t: Table, like: Like, tokens: seq<string>, ids: seq<string>)
    requires forall id :: id in ids <==> id in Hits(t, like, tokens)
    requires forall id | id in ids :: id in t
    requires forall i, j | 0 <= i < |ids| && 0 <= j < |ids| && ids[i] == ids[j] :: i == j
    ensures IsSearch(t, like, tokens, FoundList(t, ids))
  {
    hide Hits;
    var results := FoundList(t, ids);
    assert forall i | 0 <= i < |results| :: results[i].id == ids[i] && ids[i] in ids;
    forall id | id in Hits(t, like, tokens) ensures exists i :: 0 <= i < |results| && results[i].id == id {
      assert id in ids;
      var i :| 0 <= i < |ids| && ids[i] == id;
      assert results[i].id == id;
    }
  }

  lemma SearchOverStep(tables: Tables, like: Like, tokens: seq<string>, cols: seq<string>, i: nat,
                       results: seq<Hit>, found: seq<Found>)
    requires i < |cols| && cols[i] in tables && forall j | 0 <= j < i :: cols[j] != cols[i]
    requires IsSearchOver(tables, like, tokens, cols[..i], results)
    requires IsSearch(tables[cols[i]], like, tokens, found)
    ensures IsSearchOver(tables, like, tokens, cols[..i + 1], results + HitsOf(cols[i], found))
  {
    hide Hits, FoundAt;
    var c := cols[i];
    assert cols[..i + 1] == cols[..i] + [c];
    assert c !in cols[..i];
    var more := HitsOf(c, found);
    var all := results + more;
    assert forall k | 0 <= k < |more| :: all[|results| + k] == Hit(c, found[k]);
    assert forall k | 0 <= k < |results| :: all[k] == results[k];
    forall c', id | c' in cols[..i + 1] && c' in tables && id in Hits(tables[c'], like, tokens)
      ensures exists k :: 0 <= k < |all| && KeyOfHit(all[k]) == Pair(c', id)
    {
      SearchOverFinds(tables, like, tokens, cols[..i], c, results, found, c', id);
    }
    forall j, k | 0 <= j < k < |all| ensures KeyOfHit(all[j]) != KeyOfHit(all[k]) {
      if j < |results| <= k {
        assert KeyOfHit(results[j]).major in cols[..i];
      } else if |results| <= j {
        assert all[j] == Hit(c, found[j - |results|]) && all[k] == Hit(c, found[k - |results|]);
      }
    }
  }

  lemma SearchOverFinds(tables: Tables, like: Like, tokens: seq<string>, cols: seq<string>, c: string,
                        results: seq<Hit>, found: seq<Found>, c': string, id: string)
    requires c in tables && IsSearchOver(tables, like, tokens, cols, results) &&
             IsSearch(tables[c], like, tokens, found)
    requires (c' == c || c' in cols) && c' in tables && id in Hits(tables[c'], like, tokens)
    ensures var all := results + HitsOf(c, found);
            exists k :: 0 <= k < |all| && KeyOfHit(all[k]) == Pair(c', id)
  {
    hide Hits, FoundAt, HitAt;
    var all := results + HitsOf(c, found);
    if c' == c {
      var k :| 0 <= k < |found| && found[k].id == id;
      assert KeyOfHit(all[|results| + k]) == Pair(c, id);
    } else {
      var k :| 0 <= k < |results| && KeyOfHit(results[k]) == Pair(c', id);
      assert KeyOfHit(all[k]) == Pair(c', id);
    }
  }

  lemma SearchOverAll(tables: Tables, like: Like, tokens: seq<string>, scope: Option<seq<string>>, results: seq<Hit>)
    requires IsSearchOver(tables, like, tokens, Collections(tables, scope), results)
    ensures IsSearchAll(tables, like, tokens, scope, results)
  {
    hide TextOrder.Less;
    TextTotal();
  }

  // Walking search_all_paginated to its end.

  datatype Outcome = Outcome(hits: seq<Hit>, done: bool)

  function FollowAsks(asks: seq<Ask<Tables>>, like: Like, tokens: seq<string>, scope: Option<seq<string>>,
                      cursor: Option<string>): Outcome
    decreases |asks|
  {
    if asks == [] || Resume(cursor).None? then Outcome([], false)
    else
      var page := SearchAllPage(asks[0].at, like, tokens, scope, asks[0].limit, Resume(cursor).value);
      if page.next.None? then Outcome(page.items, true)
      else
        var rest := FollowAsks(asks[1..], like, tokens, scope, page.next);
        Outcome(page.items + rest.hits, rest.done)
  }

  /** The same on a store nobody writes to. */
  function Follow(tables: Tables, like: Like, tokens: seq<string>, scope: Option<seq<string>>, limits: seq<int>,
                  cursor: Option<string>): Outcome
  {
    FollowAsks(On(tables, limits), like, tokens, scope, cursor)
  }

  function SearchVisits(asks: seq<Ask<Tables>>, like: Like, tokens: seq<string>,
                        scope: Option<seq<string>>): (v: seq<Visit<Pair>>)
    ensures |v| == |asks|
    ensures forall i | 0 <= i < |v| :: v[i] == Visit(AllHits(asks[i].at, like, tokens, scope),
            Max(1, asks[i].limit))
    ensures forall x | x in v :: x.limit >= 1
  {
    seq(|asks|, i requires 0 <= i < |asks| => Visit(AllHits(asks[i].at, like, tokens, scope),
        Max(1, asks[i].limit)))
  }

  function HitKeys(hits: seq<Hit>): seq<Pair> {
    seq(|hits|, i requires 0 <= i < |hits| => KeyOfHit(hits[i]))
  }

  lemma HitKeysAt(tables: Tables, keys: seq<Pair>)
    requires Names(tables, keys)
    ensures HitKeys(HitsAt(tables, keys)) == keys
  {
    forall i | 0 <= i < |keys| ensures KeyOfHit(HitsAt(tables, keys)[i]) == keys[i] {
      assert keys[i] in keys;
    }
  }

  lemma SearchAllKeysListed(tables: Tables, like: Like, tokens: seq<string>, scope: Option<seq<string>>,
                            after: Option<Pair>, limit: int)
    ensures forall k | k in SearchAllKeys(tables, like, tokens, scope, after, limit).items :: ValidCollection(k.major)
  {
    hide PairLess, Hits, ValidCollection, InScope;
    PairTotal();
    PageSound(PairLess, AllHits(tables, like, tokens, scope), after, Max(1, limit));
  }

  lemma NextResumes(tables: Tables, like: Like, tokens: seq<string>, scope: Option<seq<string>>, after: Option<Pair>,
                    limit: int)
    ensures var page := SearchAllKeys(tables, like, tokens, scope, after, limit);
      && HitKeys(HitsAt(tables, page.items)) == page.items
      && (NextCursor(page).Some? <==> page.more)
      && (page.more ==> Resume(NextCursor(page)) == Some(Some(page.items[|page.items| - 1])))
  {
    hide SearchAllKeys, Resume, CursorAt, ValidCollection, HitKeys, HitsAt, Names;
    var page := SearchAllKeys(tables, like, tokens, scope, after, limit);
    SearchAllKeysListed(tables, like, tokens, scope, after, limit);
    HitKeysAt(tables, page.items);
    if page.more {
      var last := page.items[|page.items| - 1];
      assert last in page.items;
      NamesHaveNoNul(last.major);
      ResumeAt(last);
    }
  }

  lemma NamesHaveNoNul(c: string)
    requires ValidCollection(c)
    ensures NUL !in c
  {
    var core := if c != "" && c[|c| - 1] == '\n' then c[..|c| - 1] else c;
    forall i | 0 <= i < |c| ensures c[i] != NUL {
      assert NUL as int == 0 && '\n' as int == 10;
      if i < |core| {
        assert core[i] == c[i] && IsNameChar(core[i]);
      }
    }
  }

  lemma {:induction false} FollowIsWalk(asks: seq<Ask<Tables>>, like: Like, tokens: seq<string>,
                                        scope: Option<seq<string>>,
                                        cursor: Option<string>, after: Option<Pair>)
    requires StrictTotal(PairLess) && Resume(cursor) == Some(after)
    ensures var walk := Walk(PairLess, SearchVisits(asks, like, tokens, scope), after);
      HitKeys(FollowAsks(asks, like, tokens, scope, cursor).hits) == walk.out &&
      FollowAsks(asks, like, tokens, scope, cursor).done == walk.done
    decreases |asks|
  {
    hide PairLess, Resume, AllHits, HitsAt, NextCursor, PageOf;
    if asks != [] {
      var tables, limit := asks[0].at, asks[0].limit;
      var visits := SearchVisits(asks, like, tokens, scope);
      NextResumes(tables, like, tokens, scope, after, limit);
      var page := SearchAllKeys(tables, like, tokens, scope, after, limit);
      assert page == PageOf(PairLess, visits[0].live, after, visits[0].limit);
      if page.more {
        FollowIsWalk(asks[1..], like, tokens, scope, NextCursor(page), Some(page.items[|page.items| - 1]));
        assert visits[1..] == SearchVisits(asks[1..], like, tokens, scope);
        var first, rest := HitsAt(tables, page.items),
            FollowAsks(asks[1..], like, tokens, scope, NextCursor(page)).hits;
        assert HitKeys(first + rest) == HitKeys(first) + HitKeys(rest);
      }
    }
  }

  lemma {:induction false} FollowHits(tables: Tables, like: Like, tokens: seq<string>, scope: Option<seq<string>>,
                                      limits: seq<int>, cursor: Option<string>)
    ensures forall x | x in Follow(tables, like, tokens, scope, limits, cursor).hits ::
              var k := KeyOfHit(x); k.major in tables && k.minor in tables[k.major] && x == HitAt(tables, k)
    decreases |limits|
  {
    hide Resume, SearchAllKeys, NextCursor;
    if limits != [] && Resume(cursor).Some? {
      var page := SearchAllPage(tables, like, tokens, scope, limits[0], Resume(cursor).value);
      var keys := SearchAllKeys(tables, like, tokens, scope, Resume(cursor).value, limits[0]).items;
      forall x | x in page.items
        ensures var k := KeyOfHit(x); k.major in tables && k.minor in tables[k.major] && x == HitAt(tables, k)
      {
        var i :| 0 <= i < |page.items| && page.items[i] == x;
        assert keys[i] in keys;
      }
      assert On(tables, limits)[1..] == On(tables, limits[1..]);
      FollowHits(tables, like, tokens, scope, limits[1..], page.next);
    }
  }

  /** For every choice of limits, pages straddling collections included, the finished walk is one of
      the results search_all() may give, ordered by collection and then id. */
  lemma WalkAgreesWithSearchAll(tables: Tables, like: Like, tokens: seq<string>, scope: Option<seq<string>>,
                                limits: seq<int>)
    requires Follow(tables, like, tokens, scope, limits, None).done
    ensures IsSearchAll(tables, like, tokens, scope, Follow(tables, like, tokens, scope, limits, None).hits)
    ensures Ascending(PairLess, HitKeys(Follow(tables, like, tokens, scope, limits, None).hits))
  {
    hide PairLess, AllHits, FollowAsks, Walk;
    PairTotal();
    var all := AllHits(tables, like, tokens, scope);
    var hits := Follow(tables, like, tokens, scope, limits, None).hits;
    FollowIsWalk(On(tables, limits), like, tokens, scope, None, None);
    FollowHits(tables, like, tokens, scope, limits, None);
    WalkFixed(PairLess, SearchVisits(On(tables, limits), like, tokens, scope), None, all);
    assert Beyond(PairLess, all, None) == all;
    SortedIsSearchAll(tables, like, tokens, scope, hits);
  }

  lemma SortedIsSearchAll(tables: Tables, like: Like, tokens: seq<string>, scope: Option<seq<string>>, hits: seq<Hit>)
    requires StrictTotal(PairLess) && HitKeys(hits) == Sort(PairLess, AllHits(tables, like, tokens, scope))
    requires forall x | x in hits ::
               var k := KeyOfHit(x); k.major in tables && k.minor in tables[k.major] && x == HitAt(tables, k)
    ensures IsSearchAll(tables, like, tokens, scope, hits)
  {
    hide PairLess, AllHits, HitAt;
    var keys := HitKeys(hits);
    AscendingDistinct(PairLess, keys);
    KeysToHits(tables, hits, AllHits(tables, like, tokens, scope));
  }

  lemma KeysToHits(tables: Tables, hits: seq<Hit>, all: set<Pair>)
    requires forall k :: k in HitKeys(hits) <==> k in all
    ensures forall k | k in all :: exists i :: 0 <= i < |hits| && KeyOfHit(hits[i]) == k
    ensures forall i | 0 <= i < |hits| ::
              KeyOfHit(hits[i]) in all && KeyOfHit(hits[i]) == HitKeys(hits)[i] && hits[i] in hits
  {
    var keys := HitKeys(hits);
    forall i | 0 <= i < |hits| ensures KeyOfHit(hits[i]) in all && KeyOfHit(hits[i]) == keys[i] {
      assert keys[i] in keys;
    }
    forall k | k in all ensures exists i :: 0 <= i < |hits| && KeyOfHit(hits[i]) == k {
      assert k in keys;
      var i :| 0 <= i < |keys| && keys[i] == k;
      assert KeyOfHit(hits[i]) == k;
    }
  }

  /** As many pages as there are hits, and at least one, always finish the walk. */
  lemma WalkFinishesSearch(tables: Tables, like: Like, tokens: seq<string>, scope: Option<seq<string>>,
                           limits: seq<int>)
    requires limits != [] && |limits| >= |AllHits(tables, like, tokens, scope)|
    ensures Follow(tables, like, tokens, scope, limits, None).done
  {
    hide PairLess, AllHits, Walk, FollowAsks;
    PairTotal();
    var all := AllHits(tables, like, tokens, scope);
    assert Beyond(PairLess, all, None) == all;
    FollowIsWalk(On(tables, limits), like, tokens, scope, None, None);
    WalkFinishes(PairLess, SearchVisits(On(tables, limits), like, tokens, scope), None, all);
  }

  // ---- With writers between the pages -------------------------------------------------------------

  /** Whatever is written between the pages, a finished search_all_paginated walk comes in order, returns
      no hit twice, and returns every key that is a hit at each page. */
  lemma SearchAllSurvivesWrites(asks: seq<Ask<Tables>>, like: Like, tokens: seq<string>, scope: Option<seq<string>>)
    requires FollowAsks(asks, like, tokens, scope, None).done
    ensures var keys := HitKeys(FollowAsks(asks, like, tokens, scope, None).hits);
      && Ascending(PairLess, keys)
      && (forall i, j | 0 <= i < j < |keys| :: keys[i] != keys[j])
      && (forall k: Pair | (forall i | 0 <= i < |asks| :: k in AllHits(asks[i].at, like, tokens, scope)) ::
          k in keys)
  {
    hide PairLess, AllHits, FollowAsks, Walk;
    PairTotal();
    FollowIsWalk(asks, like, tokens, scope, None, None);
    var visits := SearchVisits(asks, like, tokens, scope);
    WalkSound(PairLess, visits, None);
    var keys := HitKeys(FollowAsks(asks, like, tokens, scope, None).hits);
    AscendingDistinct(PairLess, keys);
    forall k: Pair | forall i | 0 <= i < |asks| :: k in AllHits(asks[i].at, like, tokens, scope)
      ensures k in keys
    {
      forall v | v in visits ensures k in v.live {
        var i :| 0 <= i < |visits| && visits[i] == v;
      }
      WalkComplete(PairLess, visits, None, k);
    }
  }

  datatype IdOutcome = IdOutcome(ids: seq<string>, done: bool)

  /** Follow the cursors of search_paginated while the table changes between the pages. */
  function FollowIds(asks: seq<Ask<Table>>, like: Like, tokens: seq<string>, cursor: Option<string>): IdOutcome
    decreases |asks|
  {
    if asks == [] || ResumeId(cursor).None? then IdOutcome([], false)
    else
      var page := SearchPage(asks[0].at, like, tokens, asks[0].limit, ResumeId(cursor).value);
      if page.next.None? then IdOutcome(IdsOf(page.items), true)
      else
        var rest := FollowIds(asks[1..], like, tokens, page.next);
        IdOutcome(IdsOf(page.items) + rest.ids, rest.done)
  }

  function IdsOf(found: seq<Found>): seq<string> {
    seq(|found|, i requires 0 <= i < |found| => found[i].id)
  }

  function IdVisits(asks: seq<Ask<Table>>, like: Like, tokens: seq<string>): (v: seq<Visit<string>>)
    ensures |v| == |asks|
    ensures forall i | 0 <= i < |v| :: v[i] == Visit(Hits(asks[i].at, like, tokens), Max(1, asks[i].limit))
    ensures forall x | x in v :: x.limit >= 1
  {
    seq(|asks|, i requires 0 <= i < |asks| => Visit(Hits(asks[i].at, like, tokens), Max(1, asks[i].limit)))
  }

  lemma IdResumes(t: Table, like: Like, tokens: seq<string>, limit: int, after: Option<string>)
    requires WellFormed(t)
    ensures var keys := SearchKeys(t, like, tokens, after, limit);
      var page := SearchPage(t, like, tokens, limit, after);
      && IdsOf(page.items) == keys.items && (page.next.Some? <==> keys.more)
      && (keys.more ==> keys.items != [] && ResumeId(page.next) == Some(Some(keys.items[|keys.items| - 1])))
  {
    hide SearchKeys, Cursor.Encode, Cursor.Decode;
    var keys := SearchKeys(t, like, tokens, after, limit);
    SearchMore(t, like, tokens, limit, after);
    if keys.more {
      var last := keys.items[|keys.items| - 1];
      assert last in keys.items;
      Cursor.RoundTrip(last);
    }
  }

  lemma SearchMore(t: Table, like: Like, tokens: seq<string>, limit: int, after: Option<string>)
    ensures var keys := SearchKeys(t, like, tokens, after, limit); keys.more ==> keys.items != []
  {
    hide TextOrder.Less, Hits;
  }

  lemma {:induction false} IdsAreWalk(asks: seq<Ask<Table>>, like: Like, tokens: seq<string>,
                                      cursor: Option<string>, after: Option<string>)
    requires StrictTotal(TextOrder.Less) && ResumeId(cursor) == Some(after)
    requires tokens != [] && forall i | 0 <= i < |asks| :: WellFormed(asks[i].at)
    ensures var walk := Walk(TextOrder.Less, IdVisits(asks, like, tokens), after);
      FollowIds(asks, like, tokens, cursor) == IdOutcome(walk.out, walk.done)
    decreases |asks|
  {
    hide TextOrder.Less, ResumeId, Hits, SearchPage, PageOf, WellFormed;
    if asks != [] {
      var t, limit := asks[0].at, asks[0].limit;
      var visits := IdVisits(asks, like, tokens);
      IdResumes(t, like, tokens, limit, after);
      var keys := SearchKeys(t, like, tokens, after, limit);
      assert keys == PageOf(TextOrder.Less, visits[0].live, after, visits[0].limit);
      if keys.more {
        var page := SearchPage(t, like, tokens, limit, after);
        IdsAreWalk(asks[1..], like, tokens, page.next, Some(keys.items[|keys.items| - 1]));
        assert visits[1..] == IdVisits(asks[1..], like, tokens);
      }
    }
  }

  /** The same for search_paginated: ids in order, none twice, every id that matches at each page. */
  lemma SearchSurvivesWrites(asks: seq<Ask<Table>>, like: Like, tokens: seq<string>)
    requires tokens != [] && forall i | 0 <= i < |asks| :: WellFormed(asks[i].at)
    requires FollowIds(asks, like, tokens, None).done
    ensures var ids := FollowIds(asks, like, tokens, None).ids;
      && Ascending(TextOrder.Less, ids)
      && (forall i, j | 0 <= i < j < |ids| :: ids[i] != ids[j])
      && (forall id: string | (forall i | 0 <= i < |asks| :: id in Hits(asks[i].at, like, tokens)) :: id in ids)
  {
    hide TextOrder.Less, Hits, FollowIds, Walk, WellFormed;
    TextTotal();
    IdsAreWalk(asks, like, tokens, None, None);
    var visits := IdVisits(asks, like, tokens);
    WalkSound(TextOrder.Less, visits, None);
    var ids := FollowIds(asks, like, tokens, None).ids;
    AscendingDistinct(TextOrder.Less, ids);
    forall id: string | forall i | 0 <= i < |asks| :: id in Hits(asks[i].at, like, tokens) ensures id in ids {
      forall v | v in visits ensures id in v.live {
        var i :| 0 <= i < |visits| && visits[i] == v;
      }
      WalkComplete(TextOrder.Less, visits, None, id);
    }
  }
}
