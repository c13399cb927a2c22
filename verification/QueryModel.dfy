/** The mixed ASC/DESC ordering of query_paginated and the OR-of-ANDs cursor condition it builds. */
module QueryModel {
  import opened Wrappers
  import opened Keyset
  import opened StoreModel
  import TextOrder

  datatype Direction = Asc | Desc

  datatype SortField = SortField(field: string, direction: Direction)

  /** SQLite's order across storage classes: NULL, then numbers, then text. */
  predicate ValLess(a: Val, b: Val) {
    match (a, b)
    case (Null, _) => b != Null
    case (Num(x), Num(y)) => x < y
    case (Num(_), Text(_)) => true
    case (Text(x), Text(y)) => TextOrder.Less(x, y)
    case _ => false
  }

  lemma ValTotal()
    ensures StrictTotal(ValLess)
  {
    hide TextOrder.Less;
    TextTotal();
  }

  predicate ColumnLess(d: Direction, a: Val, b: Val) {
    if d == Asc then ValLess(a, b) else ValLess(b, a)
  }

  /** ORDER BY a list of columns; columns past the list, and a proper prefix, come in ascending order. */
  predicate KeyLess(dirs: seq<Direction>, a: seq<Val>, b: seq<Val>)
    decreases |b|
  {
    if b == [] then false
    else if a == [] then true
    else if a[0] == b[0] then KeyLess(Rest(dirs), a[1..], b[1..])
    else ColumnLess(First(dirs), a[0], b[0])
  }

  function First(dirs: seq<Direction>): Direction {
    if dirs == [] then Asc else dirs[0]
  }

  function Rest(dirs: seq<Direction>): seq<Direction> {
    if dirs == [] then [] else dirs[1..]
  }

  lemma {:induction false} KeyIrreflexive(dirs: seq<Direction>, a: seq<Val>)
    ensures !KeyLess(dirs, a, a)
    decreases |a|
  {
    if a != [] {
      KeyIrreflexive(Rest(dirs), a[1..]);
    }
  }

  lemma {:induction false} KeyTransitive(dirs: seq<Direction>, a: seq<Val>, b: seq<Val>, c: seq<Val>)
    requires KeyLess(dirs, a, b) && KeyLess(dirs, b, c)
    ensures KeyLess(dirs, a, c)
    decreases |a|
  {
    if a != [] {
      ValTotal();
      if a[0] == b[0] == c[0] {
        KeyTransitive(Rest(dirs), a[1..], b[1..], c[1..]);
      }
    }
  }

  lemma {:induction false} KeyConnected(dirs: seq<Direction>, a: seq<Val>, b: seq<Val>)
    ensures a == b || KeyLess(dirs, a, b) || KeyLess(dirs, b, a)
    decreases |a|
  {
    if a != [] && b != [] {
      ValTotal();
      if a[0] == b[0] {
        KeyConnected(Rest(dirs), a[1..], b[1..]);
        assert a == [a[0]] + a[1..] && b == [b[0]] + b[1..];
      }
    }
  }

  function Order(dirs: seq<Direction>): (seq<Val>, seq<Val>) -> bool {
    (a: seq<Val>, b: seq<Val>) => KeyLess(dirs, a, b)
  }

  lemma OrderTotal(dirs: seq<Direction>)
    ensures StrictTotal(Order(dirs))
  {
    hide KeyLess;
    forall a ensures !Order(dirs)(a, a) { KeyIrreflexive(dirs, a); }
    forall a, b, c | Order(dirs)(a, b) && Order(dirs)(b, c) ensures Order(dirs)(a, c) {
      KeyTransitive(dirs, a, b, c);
    }
    forall a, b ensures a == b || Order(dirs)(a, b) || Order(dirs)(b, a) { KeyConnected(dirs, a, b); }
  }

  /** One comparison of the condition: column `index` against a bound parameter. */
  datatype Operator = Eq | Lt | Gt

  datatype Test = Test(index: nat, op: Operator, value: Val)

  /** Whether SQL finds the comparison true. A comparison with NULL is unknown, never true. */
  predicate Holds(test: Test, key: seq<Val>)
    requires test.index < |key|
  {
    var v := key[test.index];
    v != Null && test.value != Null &&
    match test.op
    case Eq => v == test.value
    case Lt => ValLess(v, test.value)
    case Gt => ValLess(test.value, v)
  }

  predicate AllHold(tests: seq<Test>, key: seq<Val>) {
    forall t | t in tests :: t.index < |key| && Holds(t, key)
  }

  predicate AnyHolds(clauses: seq<seq<Test>>, key: seq<Val>) {
    exists c | c in clauses :: AllHold(c, key)
  }

  function OpFor(d: Direction): Operator {
    if d == Desc then Lt else Gt
  }

  /** Equal on the first i columns and beyond the cursor on column i. */
  function Clause(dirs: seq<Direction>, cur: seq<Val>, i: nat): seq<Test>
    requires i < |dirs| && i < |cur|
  {
    seq(i, j requires 0 <= j < i => Test(j, Eq, cur[j])) + [Test(i, OpFor(dirs[i]), cur[i])]
  }

  function Clauses(dirs: seq<Direction>, cur: seq<Val>): seq<seq<Test>>
    requires |dirs| <= |cur|
  {
    seq(|dirs|, i requires 0 <= i < |dirs| => Clause(dirs, cur, i))
  }

  /** The loops of query_paginated: one AND-clause per sort column, one equality per earlier column. */
  method BuildCursorCondition(dirs: seq<Direction>, cur: seq<Val>) returns (clauses: seq<seq<Test>>)
    requires |dirs| <= |cur|
    ensures clauses == Clauses(dirs, cur)
    ensures forall key | |key| == |dirs| == |cur| && Null !in key && Null !in cur ::
              AnyHolds(clauses, key) <==> KeyLess(dirs, cur, key)
  {
    clauses := [];
    for i := 0 to |dirs|
      invariant clauses == Clauses(dirs, cur)[..i]
    {
      var parts: seq<Test> := [];
      for j := 0 to i
        invariant parts == seq(j, k requires 0 <= k < j => Test(k, Eq, cur[k]))
      {
        parts := parts + [Test(j, Eq, cur[j])];
      }
      var op := if dirs[i] == Desc then Lt else Gt;
      parts := parts + [Test(i, op, cur[i])];
      clauses := clauses + [parts];
    }
    forall key | |key| == |dirs| == |cur| && Null !in key && Null !in cur
      ensures AnyHolds(clauses, key) <==> KeyLess(dirs, cur, key)
    {
      CursorConditionNonNull(dirs, cur, key);
    }
  }

  /** The first column on which two keys differ. */
  function FirstDifference(a: seq<Val>, b: seq<Val>): (i: nat)
    requires |a| == |b|
    ensures i <= |a| && (forall j | 0 <= j < i :: a[j] == b[j])
    ensures i < |a| ==> a[i] != b[i]
  {
    if a == [] || a[0] != b[0] then 0 else 1 + FirstDifference(a[1..], b[1..])
  }

  lemma {:induction false} KeyLessAtDifference(dirs: seq<Direction>, a: seq<Val>, b: seq<Val>)
    requires |dirs| == |a| == |b|
    ensures var i := FirstDifference(a, b);
      KeyLess(dirs, a, b) <==> i < |a| && ColumnLess(dirs[i], a[i], b[i])
    decreases |a|
  {
    if a != [] && a[0] == b[0] {
      KeyLessAtDifference(dirs[1..], a[1..], b[1..]);
    }
  }

  /** The clause that holds: equal before its column, and beyond the cursor on it. */
  lemma ClauseHolds(dirs: seq<Direction>, cur: seq<Val>, key: seq<Val>, k: nat)
    requires |dirs| == |cur| == |key| && k < |dirs| && AllHold(Clause(dirs, cur, k), key)
    ensures forall j | 0 <= j < k :: cur[j] == key[j] && cur[j] != Null
    ensures cur[k] != Null && key[k] != Null && ColumnLess(dirs[k], cur[k], key[k])
  {
    hide TextOrder.Less, ValLess;
    var c := Clause(dirs, cur, k);
    forall j | 0 <= j < k ensures cur[j] == key[j] && cur[j] != Null {
      assert c[j] == Test(j, Eq, cur[j]) && c[j] in c;
    }
    assert c[k] == Test(k, OpFor(dirs[k]), cur[k]) && c[k] in c;
  }

  lemma ConditionSound(dirs: seq<Direction>, cur: seq<Val>, key: seq<Val>)
    requires |dirs| == |cur| == |key| && AnyHolds(Clauses(dirs, cur), key)
    ensures var i := FirstDifference(cur, key);
      i < |dirs| && ColumnLess(dirs[i], cur[i], key[i]) && forall j | 0 <= j <= i :: cur[j] != Null && key[j] != Null
  {
    hide TextOrder.Less, ValLess, KeyLess, AllHold;
    ValTotal();
    var clauses := Clauses(dirs, cur);
    var c :| c in clauses && AllHold(c, key);
    var k :| 0 <= k < |dirs| && clauses[k] == c;
    ClauseHolds(dirs, cur, key, k);
    assert cur[k] != key[k] by { ValNotLess(dirs[k], cur[k], key[k]); }
    hide ColumnLess;
    assert FirstDifference(cur, key) == k;
  }

  lemma ValNotLess(d: Direction, a: Val, b: Val)
    requires ColumnLess(d, a, b)
    ensures a != b
  {
    ValTotal();
  }

  lemma ConditionComplete(dirs: seq<Direction>, cur: seq<Val>, key: seq<Val>)
    requires |dirs| == |cur| == |key|
    requires var i := FirstDifference(cur, key);
      i < |dirs| && ColumnLess(dirs[i], cur[i], key[i]) && forall j | 0 <= j <= i :: cur[j] != Null && key[j] != Null
    ensures AnyHolds(Clauses(dirs, cur), key)
  {
    hide TextOrder.Less;
    var i := FirstDifference(cur, key);
    var clauses := Clauses(dirs, cur);
    assert clauses[i] in clauses;
    assert AllHold(clauses[i], key);
  }

  /** For every sort list, cursor and row: the condition holds exactly when the row is strictly after
      the cursor in the ORDER BY order and no NULL occurs up to the column that decides. */
  lemma CursorConditionExact(dirs: seq<Direction>, cur: seq<Val>, key: seq<Val>)
    requires |dirs| == |cur| == |key|
    ensures var i := FirstDifference(cur, key);
      AnyHolds(Clauses(dirs, cur), key) <==>
      KeyLess(dirs, cur, key) && forall j | 0 <= j <= i && j < |key| :: cur[j] != Null && key[j] != Null
  {
    hide KeyLess, AnyHolds, Clauses, ColumnLess;
    KeyLessAtDifference(dirs, cur, key);
    if AnyHolds(Clauses(dirs, cur), key) {
      ConditionSound(dirs, cur, key);
    }
    var i := FirstDifference(cur, key);
    if i < |dirs| && ColumnLess(dirs[i], cur[i], key[i]) && forall j | 0 <= j <= i :: cur[j] != Null && key[j] != Null {
      ConditionComplete(dirs, cur, key);
    }
  }

  lemma CursorConditionNonNull(dirs: seq<Direction>, cur: seq<Val>, key: seq<Val>)
    requires |dirs| == |cur| == |key| && Null !in key && Null !in cur
    ensures AnyHolds(Clauses(dirs, cur), key) <==> KeyLess(dirs, cur, key)
  {
    hide KeyLess, AnyHolds;
    CursorConditionExact(dirs, cur, key);
    assert forall j | 0 <= j < |key| :: key[j] in key && cur[j] in cur;
  }

  /** The SQL expression of a sort or filter field. */
  function Column(t: Table, id: string, field: string): Val
    requires id in t
  {
    if field == "_id" then Text(id)
    else if field == "_created" then Text(t[id].created)
    else if field == "_updated" then Text(t[id].updated)
    else if field in t[id].data then t[id].data[field] else Null
  }

  /** What the cursor records for a field: the value in the returned record, over which the page
      writes its own _deviation and _action. */
  function Recorded(t: Table, id: string, field: string): Val
    requires id in t
  {
    if field == "_deviation" then Num(t[id].deviation)
    else if field == "_action" then
      Text(match t[id].action case Stop => "stop" case Flag => "flag" case WorkQuiet => "work_quiet")
    else Column(t, id, field)
  }

  predicate ValidField(field: string) {
    field in {"_id", "_created", "_updated"} ||
    (0 < |field| <= 64 && !('0' <= field[0] <= '9') && forall c | c in field :: IsWord(c))
  }

  predicate IsWord(c: char) {
    'A' <= c <= 'Z' || 'a' <= c <= 'z' || '0' <= c <= '9' || c == '_'
  }

  function Directions(sort: seq<SortField>): seq<Direction> {
    seq(|sort|, i requires 0 <= i < |sort| => sort[i].direction)
  }

  function SortKey(t: Table, id: string, sort: seq<SortField>): (key: seq<Val>)
    requires id in t
    ensures |key| == |sort|
  {
    seq(|sort|, i requires 0 <= i < |sort| => Column(t, id, sort[i].field))
  }

  function CursorKey(t: Table, id: string, sort: seq<SortField>): (key: seq<Val>)
    requires id in t
    ensures |key| == |sort|
  {
    seq(|sort|, i requires 0 <= i < |sort| => Recorded(t, id, sort[i].field))
  }

  /** Equality filters: a NULL on either side never matches. */
  predicate Matches(t: Table, id: string, filters: map<string, Val>)
    requires id in t
  {
    forall f | f in filters :: filters[f] != Null && Column(t, id, f) == filters[f]
  }

  function Filtered(t: Table, filters: map<string, Val>): (ids: set<string>)
    ensures forall id | id in ids :: id in t
  {
    set id | id in t && !t[id].deleted && Matches(t, id, filters)
  }

  /** Rows that tie on every sort column come in id order here. */
  function FullKey(t: Table, sort: seq<SortField>, id: string): seq<Val>
    requires id in t
  {
    SortKey(t, id, sort) + [Text(id)]
  }

  function FullKeys(t: Table, sort: seq<SortField>, ids: set<string>): set<seq<Val>>
    requires forall id | id in ids :: id in t
  {
    set id | id in ids :: FullKey(t, sort, id)
  }

  /** The rows a page request selects: live, filtered, and beyond the cursor. */
  function Selected(t: Table, filters: map<string, Val>, sort: seq<SortField>,
                    cur: Option<seq<Val>>): (ids: set<string>)
    requires cur.Some? ==> |cur.value| >= |sort|
    ensures forall id | id in ids :: id in t
  {
    set id | id in Filtered(t, filters) &&
      (cur.None? || AnyHolds(Clauses(Directions(sort), cur.value), SortKey(t, id, sort)))
  }

  /** The selected keys in order. */
  function Ordered(t: Table, filters: map<string, Val>, sort: seq<SortField>,
                   cur: Option<seq<Val>>): (rows: seq<seq<Val>>)
    requires cur.Some? ==> |cur.value| >= |sort|
    ensures forall k | k in rows :: IdOf(k) in t
  {
    OrderTotal(Directions(sort));
    Sort(Order(Directions(sort)), FullKeys(t, sort, Selected(t, filters, sort, cur)))
  }

  function IdOf(key: seq<Val>): string {
    if key != [] && key[|key| - 1].Text? then key[|key| - 1].s else ""
  }

  /** One page, as keys, and the sort values its cursor will carry. */
  datatype QueryPage = QueryPage(ids: seq<string>, next: Option<seq<Val>>)

  function PageIds(keys: seq<seq<Val>>): (ids: seq<string>)
    ensures |ids| == |keys|
  {
    seq(|keys|, i requires 0 <= i < |keys| => IdOf(keys[i]))
  }

  function RunQuery(t: Table, filters: map<string, Val>, sort: seq<SortField>, limit: int,
                    cur: Option<seq<Val>>): QueryPage
    requires cur.Some? ==> |cur.value| >= |sort|
  {
    var rows := Ordered(t, filters, sort, cur);
    var n := Max(1, limit);
    assert |rows| > n ==> rows[n - 1] in rows;
    QueryPage(PageIds(Take(n, rows)), if |rows| > n then Some(CursorKey(t, IdOf(rows[n - 1]), sort)) else None)
  }

  lemma FullKeyId(t: Table, sort: seq<SortField>, id: string)
    requires id in t
    ensures IdOf(FullKey(t, sort, id)) == id && |FullKey(t, sort, id)| == |sort| + 1
    ensures FullKey(t, sort, id)[..|sort|] == SortKey(t, id, sort)
  {
  }

  /** Comparing keys that differ is comparing them with anything behind them. */
  lemma {:induction false} KeyLessExtend(dirs: seq<Direction>, a: seq<Val>, b: seq<Val>, x: Val, y: Val)
    requires |a| == |b| == |dirs| && a != b
    ensures KeyLess(dirs, a, b) <==> KeyLess(dirs, a + [x], b + [y])
    decreases |a|
  {
    if a == [] {
    } else {
      assert (a + [x])[1..] == a[1..] + [x] && (b + [y])[1..] == b[1..] + [y];
      if a[0] == b[0] {
        assert a == [a[0]] + a[1..] && b == [b[0]] + b[1..];
        KeyLessExtend(dirs[1..], a[1..], b[1..], x, y);
      }
    }
  }

  // ---- Walking ---------------------------------------------------------------------------------

  datatype Outcome = Outcome(ids: seq<string>, done: bool)

  /** Follow the cursors of query_paginated while the table changes between the pages. */
  function FollowAsks(asks: seq<Ask<Table>>, filters: map<string, Val>, sort: seq<SortField>,
                       cur: Option<seq<Val>>): Outcome
    requires cur.Some? ==> |cur.value| >= |sort|
    decreases |asks|
  {
    if asks == [] then Outcome([], false)
    else
      var page := RunQuery(asks[0].at, filters, sort, asks[0].limit, cur);
      if page.next.None? then Outcome(page.ids, true)
      else
        var rest := FollowAsks(asks[1..], filters, sort, page.next);
        Outcome(page.ids + rest.ids, rest.done)
  }

  /** The same on one table nobody writes to. */
  function Follow(t: Table, filters: map<string, Val>, sort: seq<SortField>, limits: seq<int>,
                  cur: Option<seq<Val>>): Outcome
    requires cur.Some? ==> |cur.value| >= |sort|
  {
    FollowAsks(On(t, limits), filters, sort, cur)
  }

  function QueryVisits(asks: seq<Ask<Table>>, filters: map<string, Val>,
                       sort: seq<SortField>): (v: seq<Visit<seq<Val>>>)
    ensures |v| == |asks|
    ensures forall i | 0 <= i < |v| ::
              v[i] == Visit(FullKeys(asks[i].at, sort, Filtered(asks[i].at, filters)), Max(1, asks[i].limit))
    ensures forall x | x in v :: x.limit >= 1
  {
    seq(|asks|, i requires 0 <= i < |asks| =>
      Visit(FullKeys(asks[i].at, sort, Filtered(asks[i].at, filters)), Max(1, asks[i].limit)))
  }

  /** Row `b` comes after row `a` in the requested order. */
  predicate Follows(t: Table, sort: seq<SortField>, a: string, b: string)
    requires a in t && b in t
  {
    KeyLess(Directions(sort), FullKey(t, sort, a), FullKey(t, sort, b))
  }

  /** The cursor condition made at row `a` is true of row `b`. */
  predicate Selects(t: Table, sort: seq<SortField>, a: string, b: string)
    requires a in t && b in t
  {
    AnyHolds(Clauses(Directions(sort), CursorKey(t, a, sort)), SortKey(t, b, sort))
  }

  ghost predicate MoreAfter(t: Table, filters: map<string, Val>, sort: seq<SortField>, a: string)
    requires a in t
  {
    exists c :: c in Filtered(t, filters) && Follows(t, sort, a, c)
  }

  /** These cursor values select exactly the rows beyond this full key. */
  ghost predicate Exact(t: Table, filters: map<string, Val>, sort: seq<SortField>, cur: seq<Val>, key: seq<Val>) {
    && |cur| >= |sort|
    && FullKeys(t, sort, Selected(t, filters, sort, Some(cur))) ==
       Beyond(Order(Directions(sort)), FullKeys(t, sort, Filtered(t, filters)), Some(key))
  }

  /** Wherever a page can end, its cursor selects exactly the rest at every later page. */
  ghost predicate Steady(asks: seq<Ask<Table>>, filters: map<string, Val>, sort: seq<SortField>) {
    forall i, j, id | 0 <= i < j < |asks| && id in Filtered(asks[i].at, filters)
                      && MoreAfter(asks[i].at, filters, sort, id) ::
      Exact(asks[j].at, filters, sort, CursorKey(asks[i].at, id, sort), FullKey(asks[i].at, sort, id))
  }

  /** Where the walk stands: at the start, or at a key its cursor is exact for from here on. */
  ghost predicate StandsAt(asks: seq<Ask<Table>>, filters: map<string, Val>, sort: seq<SortField>,
                           cur: Option<seq<Val>>, at: Option<seq<Val>>) {
    if at.None? then cur.None?
    else cur.Some? && forall j | 0 <= j < |asks| :: Exact(asks[j].at, filters, sort, cur.value, at.value)
  }

  lemma StandsLong(asks: seq<Ask<Table>>, filters: map<string, Val>, sort: seq<SortField>,
                   cur: Option<seq<Val>>, at: Option<seq<Val>>)
    requires StandsAt(asks, filters, sort, cur, at) && asks != []
    ensures cur.Some? ==> |cur.value| >= |sort|
    ensures FullKeys(asks[0].at, sort, Selected(asks[0].at, filters, sort, cur)) ==
            Beyond(Order(Directions(sort)), FullKeys(asks[0].at, sort, Filtered(asks[0].at, filters)), at)
  {
    hide KeyLess, AnyHolds, Clauses, Column, Matches, FullKey, SortKey;
    if at.None? {
      assert Selected(asks[0].at, filters, sort, cur) == Filtered(asks[0].at, filters);
    } else {
      assert Exact(asks[0].at, filters, sort, cur.value, at.value);
    }
  }

  /** A row of any page is a filtered row's full key. */
  lemma OrderedRow(t: Table, filters: map<string, Val>, sort: seq<SortField>, cur: Option<seq<Val>>, row: seq<Val>)
    requires cur.Some? ==> |cur.value| >= |sort|
    requires row in Ordered(t, filters, sort, cur)
    ensures IdOf(row) in Filtered(t, filters) && IdOf(row) in Selected(t, filters, sort, cur)
    ensures row == FullKey(t, sort, IdOf(row))
  {
    hide Matches, AnyHolds, Clauses, KeyLess, SortKey;
    var id :| id in Selected(t, filters, sort, cur) && row == FullKey(t, sort, id);
    FullKeyId(t, sort, id);
  }

  lemma RowPresent(t: Table, filters: map<string, Val>, sort: seq<SortField>, cur: Option<seq<Val>>, id: string)
    returns (i: nat)
    requires cur.Some? ==> |cur.value| >= |sort|
    requires id in Selected(t, filters, sort, cur)
    ensures i < |Ordered(t, filters, sort, cur)| && Ordered(t, filters, sort, cur)[i] == FullKey(t, sort, id)
    ensures PageIds(Ordered(t, filters, sort, cur))[i] == id
  {
    hide Matches, AnyHolds, Clauses, KeyLess, SortKey, Selected;
    var rows := Ordered(t, filters, sort, cur);
    assert FullKey(t, sort, id) in rows;
    i :| 0 <= i < |rows| && rows[i] == FullKey(t, sort, id);
    FullKeyId(t, sort, id);
  }

  lemma RowsAscend(t: Table, filters: map<string, Val>, sort: seq<SortField>, cur: Option<seq<Val>>)
    requires cur.Some? ==> |cur.value| >= |sort|
    ensures var rows := Ordered(t, filters, sort, cur);
      forall i, j | 0 <= i < j < |rows| :: KeyLess(Directions(sort), rows[i], rows[j])
  {
    hide KeyLess, Selected, FullKeys;
    OrderTotal(Directions(sort));
    var rows := Ordered(t, filters, sort, cur);
    forall i, j | 0 <= i < j < |rows| ensures KeyLess(Directions(sort), rows[i], rows[j]) {
      assert Order(Directions(sort))(rows[i], rows[j]);
    }
  }

  /** A page that says there is more ends at a row with another one after it. */
  lemma LastRow(t: Table, filters: map<string, Val>, sort: seq<SortField>, cur: Option<seq<Val>>, n: nat)
    requires (cur.Some? ==> |cur.value| >= |sort|) && n >= 1 && |Ordered(t, filters, sort, cur)| > n
    ensures var last := Ordered(t, filters, sort, cur)[n - 1];
      && IdOf(last) in Filtered(t, filters) && last == FullKey(t, sort, IdOf(last))
      && MoreAfter(t, filters, sort, IdOf(last))
  {
    hide Matches, AnyHolds, Clauses, KeyLess, SortKey, FullKey, Selected, Ordered;
    var rows := Ordered(t, filters, sort, cur);
    OrderedRow(t, filters, sort, cur, rows[n - 1]);
    OrderedRow(t, filters, sort, cur, rows[n]);
    RowsAscend(t, filters, sort, cur);
    assert Follows(t, sort, IdOf(rows[n - 1]), IdOf(rows[n]));
  }

  /** One query page is one abstract page. */
  lemma QueryIsPage(t: Table, filters: map<string, Val>, sort: seq<SortField>, limit: int,
                    cur: Option<seq<Val>>, at: Option<seq<Val>>)
    requires cur.Some? ==> |cur.value| >= |sort|
    requires StrictTotal(Order(Directions(sort)))
    requires FullKeys(t, sort, Selected(t, filters, sort, cur)) ==
             Beyond(Order(Directions(sort)), FullKeys(t, sort, Filtered(t, filters)), at)
    ensures var page := PageOf(Order(Directions(sort)), FullKeys(t, sort, Filtered(t, filters)), at, Max(1, limit));
      var query := RunQuery(t, filters, sort, limit, cur);
      && query.ids == PageIds(page.items)
      && (query.next.Some? <==> page.more)
      && (page.more ==>
            && page.items != []
            && page.items[|page.items| - 1] == Ordered(t, filters, sort, cur)[Max(1, limit) - 1]
            && |Ordered(t, filters, sort, cur)| > Max(1, limit))
  {
    hide Matches, Selected, FullKeys, Order, CursorKey, Column, KeyLess, Beyond, Sort, FullKey, StrictTotal;
  }

  /** The walk by cursor values is the abstract walk over full keys. */
  lemma {:induction false} FollowIsWalk(asks: seq<Ask<Table>>, filters: map<string, Val>, sort: seq<SortField>,
                                        cur: Option<seq<Val>>, at: Option<seq<Val>>)
    requires Steady(asks, filters, sort) && StandsAt(asks, filters, sort, cur, at)
    requires StrictTotal(Order(Directions(sort)))
    requires cur.Some? ==> |cur.value| >= |sort|
    ensures var walk := Walk(Order(Directions(sort)), QueryVisits(asks, filters, sort), at);
      FollowAsks(asks, filters, sort, cur) == Outcome(PageIds(walk.out), walk.done)
    decreases |asks|
  {
    hide Matches, Filtered, FullKeys, Order, CursorKey, Column, RunQuery, PageOf, FullKey, SortKey, KeyLess, Exact,
         Ordered, MoreAfter;
    if asks != [] {
      var less := Order(Directions(sort));
      var visits := QueryVisits(asks, filters, sort);
      var t := asks[0].at;
      StandsLong(asks, filters, sort, cur, at);
      QueryIsPage(t, filters, sort, asks[0].limit, cur, at);
      var page := PageOf(less, visits[0].live, at, visits[0].limit);
      if page.more {
        var last := page.items[|page.items| - 1];
        LastRow(t, filters, sort, cur, Max(1, asks[0].limit));
        var next := NextOf(t, filters, sort, asks[0].limit, cur);
        StandsNext(asks, filters, sort, IdOf(last));
        FollowIsWalk(asks[1..], filters, sort, Some(next), Some(last));
        assert visits[1..] == QueryVisits(asks[1..], filters, sort);
        var rest := Walk(less, visits[1..], Some(last)).out;
        assert PageIds(page.items + rest) == PageIds(page.items) + PageIds(rest);
      }
    }
  }

  lemma NextOf(t: Table, filters: map<string, Val>, sort: seq<SortField>, limit: int, cur: Option<seq<Val>>)
    returns (next: seq<Val>)
    requires (cur.Some? ==> |cur.value| >= |sort|) && |Ordered(t, filters, sort, cur)| > Max(1, limit)
    ensures IdOf(Ordered(t, filters, sort, cur)[Max(1, limit) - 1]) in t
    ensures next == CursorKey(t, IdOf(Ordered(t, filters, sort, cur)[Max(1, limit) - 1]), sort)
    ensures RunQuery(t, filters, sort, limit, cur).next == Some(next) && |next| == |sort|
  {
    hide Ordered, Recorded;
    var rows := Ordered(t, filters, sort, cur);
    assert rows[Max(1, limit) - 1] in rows;
    next := CursorKey(t, IdOf(rows[Max(1, limit) - 1]), sort);
  }

  lemma StandsNext(asks: seq<Ask<Table>>, filters: map<string, Val>, sort: seq<SortField>, id: string)
    requires Steady(asks, filters, sort) && asks != []
    requires id in Filtered(asks[0].at, filters) && MoreAfter(asks[0].at, filters, sort, id)
    ensures Steady(asks[1..], filters, sort)
    ensures StandsAt(asks[1..], filters, sort, Some(CursorKey(asks[0].at, id, sort)),
            Some(FullKey(asks[0].at, sort, id)))
  {
    hide Matches, Filtered, FullKeys, CursorKey, FullKey, MoreAfter, Exact;
    var rest := asks[1..];
    forall j | 0 <= j < |rest|
      ensures Exact(rest[j].at, filters, sort, CursorKey(asks[0].at, id, sort), FullKey(asks[0].at, sort, id))
    {
      assert rest[j] == asks[j + 1];
    }
    forall i, j, x | 0 <= i < j < |rest| && x in Filtered(rest[i].at, filters) &&
        MoreAfter(rest[i].at, filters, sort, x)
      ensures Exact(rest[j].at, filters, sort, CursorKey(rest[i].at, x, sort), FullKey(rest[i].at, sort, x))
    {
      assert rest[i] == asks[i + 1] && rest[j] == asks[j + 1];
    }
  }

  // ---- On one table: exactly when the pages concatenate -------------------------------------------

  /** Whenever the walk can stand at a row, that row's cursor condition is true of exactly the rows after it. */
  ghost predicate Fits(t: Table, filters: map<string, Val>, sort: seq<SortField>) {
    forall a, b | a in Filtered(t, filters) && b in Filtered(t, filters) && MoreAfter(t, filters, sort, a) ::
      Selects(t, sort, a, b) <==> Follows(t, sort, a, b)
  }

  lemma FitsExact(t: Table, filters: map<string, Val>, sort: seq<SortField>, a: string)
    requires a in Filtered(t, filters)
    requires forall b | b in Filtered(t, filters) :: Selects(t, sort, a, b) <==> Follows(t, sort, a, b)
    ensures Exact(t, filters, sort, CursorKey(t, a, sort), FullKey(t, sort, a))
  {
    hide KeyLess, AnyHolds, Clauses, Column, Matches, SortKey, FullKey, Recorded;
  }

  lemma FitsSteady(t: Table, filters: map<string, Val>, sort: seq<SortField>, limits: seq<int>)
    requires Fits(t, filters, sort)
    ensures Steady(On(t, limits), filters, sort)
  {
    hide Filtered, MoreAfter, Selects, Follows, Exact;
    forall id | id in Filtered(t, filters) && MoreAfter(t, filters, sort, id)
      ensures Exact(t, filters, sort, CursorKey(t, id, sort), FullKey(t, sort, id))
    {
      FitsExact(t, filters, sort, id);
    }
  }

  lemma FitsConcatenates(t: Table, filters: map<string, Val>, sort: seq<SortField>, limits: seq<int>)
    requires Fits(t, filters, sort) && Follow(t, filters, sort, limits, None).done
    ensures Follow(t, filters, sort, limits, None).ids == PageIds(Ordered(t, filters, sort, None))
  {
    hide Fits, Steady, FollowAsks, Walk, FullKeys, Order, PageIds, Matches;
    var less, asks := Order(Directions(sort)), On(t, limits);
    OrderTotal(Directions(sort));
    FitsSteady(t, filters, sort, limits);
    FollowIsWalk(asks, filters, sort, None, None);
    var all := FullKeys(t, sort, Filtered(t, filters));
    WalkFixed(less, QueryVisits(asks, filters, sort), None, all);
    assert Beyond(less, all, None) == all;
    assert Selected(t, filters, sort, None) == Filtered(t, filters);
  }

  /** As many pages as there are rows, and at least one, finish the walk. */
  lemma QueryWalkFinishes(t: Table, filters: map<string, Val>, sort: seq<SortField>, limits: seq<int>)
    requires Fits(t, filters, sort) && limits != [] && |limits| >= |FullKeys(t, sort, Filtered(t, filters))|
    ensures Follow(t, filters, sort, limits, None).done
  {
    hide Fits, Steady, FollowAsks, Walk, FullKeys, Order, PageIds, Matches;
    var less, asks := Order(Directions(sort)), On(t, limits);
    OrderTotal(Directions(sort));
    FitsSteady(t, filters, sort, limits);
    FollowIsWalk(asks, filters, sort, None, None);
    var all := FullKeys(t, sort, Filtered(t, filters));
    assert Beyond(less, all, None) == all;
    WalkFinishes(less, QueryVisits(asks, filters, sort), None, all);
  }

  /** A first page that ends at row `p`, then one page for everything the cursor selects. */
  lemma TwoPages(t: Table, filters: map<string, Val>, sort: seq<SortField>, p: nat)
    requires p + 1 < |Ordered(t, filters, sort, None)|
    ensures IdOf(Ordered(t, filters, sort, None)[p]) in t
    ensures var rows := Ordered(t, filters, sort, None);
      var cur := CursorKey(t, IdOf(rows[p]), sort);
      var rest := Ordered(t, filters, sort, Some(cur));
      Follow(t, filters, sort, [p + 1, |rest|], None) == Outcome(PageIds(rows[..p + 1]) + PageIds(rest), true)
  {
    hide Ordered, Recorded;
    var rows := Ordered(t, filters, sort, None);
    var cur := NextOf(t, filters, sort, p + 1, None);
    var rest := Ordered(t, filters, sort, Some(cur));
    var asks := On(t, [p + 1, |rest|]);
    assert asks[1..] == [Ask(t, |rest|)];
    assert Take(Max(1, |rest|), rest) == rest;
    LastAsk(asks[1], filters, sort, cur);
  }

  lemma LastAsk(ask: Ask<Table>, filters: map<string, Val>, sort: seq<SortField>, cur: seq<Val>)
    requires |cur| >= |sort| && RunQuery(ask.at, filters, sort, ask.limit, Some(cur)).next.None?
    ensures FollowAsks([ask], filters, sort, Some(cur)) ==
            Outcome(RunQuery(ask.at, filters, sort, ask.limit, Some(cur)).ids, true)
  {
    hide RunQuery;
  }

  /** The rows after position `p` are those that follow its row. */
  lemma AfterPosition(t: Table, filters: map<string, Val>, sort: seq<SortField>, p: nat, b: string)
    requires p < |Ordered(t, filters, sort, None)| && b in Filtered(t, filters)
    ensures IdOf(Ordered(t, filters, sort, None)[p]) in t
    ensures b in PageIds(Ordered(t, filters, sort, None)[p + 1..]) <==>
            Follows(t, sort, IdOf(Ordered(t, filters, sort, None)[p]), b)
  {
    hide Matches, Ordered, KeyLess, FullKey, SortKey, AnyHolds;
    var rows := Ordered(t, filters, sort, None);
    OrderedRow(t, filters, sort, None, rows[p]);
    RowsAscend(t, filters, sort, None);
    assert b in Selected(t, filters, sort, None);
    var i := RowPresent(t, filters, sort, None, b);
    if i > p {
      assert PageIds(rows[p + 1..])[i - p - 1] == b;
    } else {
      KeyIrreflexive(Directions(sort), rows[p]);
      if i < p && Follows(t, sort, IdOf(rows[p]), b) {
        KeyTransitive(Directions(sort), rows[i], rows[p], rows[i]);
        KeyIrreflexive(Directions(sort), rows[i]);
      }
      forall k | p < k < |rows| ensures IdOf(rows[k]) != b {
        OrderedRow(t, filters, sort, None, rows[k]);
        KeyIrreflexive(Directions(sort), rows[k]);
      }
    }
  }

  lemma SelectedPresent(t: Table, filters: map<string, Val>, sort: seq<SortField>, a: string, b: string)
    requires a in t && b in Filtered(t, filters)
    ensures b in PageIds(Ordered(t, filters, sort, Some(CursorKey(t, a, sort)))) <==> Selects(t, sort, a, b)
  {
    hide Matches, Ordered, KeyLess, FullKey, SortKey, AnyHolds, Recorded;
    var cur := Some(CursorKey(t, a, sort));
    var rows := Ordered(t, filters, sort, cur);
    if Selects(t, sort, a, b) {
      var i := RowPresent(t, filters, sort, cur, b);
    }
    if b in PageIds(rows) {
      var i :| 0 <= i < |rows| && PageIds(rows)[i] == b;
      OrderedRow(t, filters, sort, cur, rows[i]);
    }
  }

  lemma ConcatenatesFits(t: Table, filters: map<string, Val>, sort: seq<SortField>, a: string, b: string)
    requires forall limits: seq<int> | Follow(t, filters, sort, limits, None).done ::
               Follow(t, filters, sort, limits, None).ids == PageIds(Ordered(t, filters, sort, None))
    requires a in Filtered(t, filters) && b in Filtered(t, filters) && MoreAfter(t, filters, sort, a)
    ensures Selects(t, sort, a, b) <==> Follows(t, sort, a, b)
  {
    hide Matches, Ordered, KeyLess, FullKey, SortKey, AnyHolds, Recorded, Follow, Selects, Follows, CursorKey;
    var rows := Ordered(t, filters, sort, None);
    assert a in Selected(t, filters, sort, None);
    var p := RowPresent(t, filters, sort, None, a);
    var c :| c in Filtered(t, filters) && Follows(t, sort, a, c);
    AfterPosition(t, filters, sort, p, c);
    TwoPages(t, filters, sort, p);
    var rest := Ordered(t, filters, sort, Some(CursorKey(t, a, sort)));
    var limits := [p + 1, |rest|];
    assert Follow(t, filters, sort, limits, None).done;
    assert PageIds(rows) == PageIds(rows[..p + 1]) + PageIds(rows[p + 1..]);
    var ids := PageIds(rows);
    assert ids[p + 1..] == PageIds(rest);
    assert ids[p + 1..] == PageIds(rows[p + 1..]);
    AfterPosition(t, filters, sort, p, b);
    SelectedPresent(t, filters, sort, a, b);
  }

  /** For every sort list: all finished walks return the whole filtered set in order, each row once,
      exactly when every cursor a walk can hand out selects exactly the rows after its row. */
  lemma PagesConcatenateIff(t: Table, filters: map<string, Val>, sort: seq<SortField>)
    ensures (forall limits: seq<int> | Follow(t, filters, sort, limits, None).done ::
               Follow(t, filters, sort, limits, None).ids == PageIds(Ordered(t, filters, sort, None)))
            <==> Fits(t, filters, sort)
  {
    hide Follow, Ordered, PageIds, MoreAfter, Selects, Follows, Filtered;
    if Fits(t, filters, sort) {
      forall limits: seq<int> | Follow(t, filters, sort, limits, None).done
        ensures Follow(t, filters, sort, limits, None).ids == PageIds(Ordered(t, filters, sort, None))
      {
        FitsConcatenates(t, filters, sort, limits);
      }
    }
    if forall limits: seq<int> | Follow(t, filters, sort, limits, None).done ::
         Follow(t, filters, sort, limits, None).ids == PageIds(Ordered(t, filters, sort, None)) {
      forall a, b | a in Filtered(t, filters) && b in Filtered(t, filters) && MoreAfter(t, filters, sort, a)
        ensures Selects(t, sort, a, b) <==> Follows(t, sort, a, b)
      {
        ConcatenatesFits(t, filters, sort, a, b);
      }
    }
  }

  /** Two keys differ, and neither has a NULL up to where they do. */
  predicate Apart(a: seq<Val>, b: seq<Val>)
    requires |a| == |b|
  {
    var i := FirstDifference(a, b);
    i < |a| && forall j | 0 <= j <= i :: a[j] != Null && b[j] != Null
  }

  /** The sort list tells any two filtered rows apart before it meets a NULL. */
  ghost predicate Separated(t: Table, filters: map<string, Val>, sort: seq<SortField>) {
    forall a, b | a in Filtered(t, filters) && b in Filtered(t, filters) && a != b ::
      Apart(SortKey(t, a, sort), SortKey(t, b, sort))
  }

  /** The two fields the page overwrites with row columns after SQL has read them from the data. */
  predicate Overwritten(field: string) { field == "_deviation" || field == "_action" }

  /** No filtered record holds, as a field of its own, an overwritten field the list sorts on. */
  ghost predicate Unshadowed(t: Table, filters: map<string, Val>, sort: seq<SortField>) {
    forall id, i | id in Filtered(t, filters) && 0 <= i < |sort| && Overwritten(sort[i].field) ::
      SortKey(t, id, sort)[i] == Null
  }

  /** Where the row's own value is NULL, the cursor's value does not matter. */
  lemma NullsMaskCursor(dirs: seq<Direction>, cur: seq<Val>, other: seq<Val>, key: seq<Val>)
    requires |dirs| == |cur| == |other| == |key|
    requires forall i | 0 <= i < |key| :: cur[i] == other[i] || key[i] == Null
    requires AnyHolds(Clauses(dirs, cur), key)
    ensures AnyHolds(Clauses(dirs, other), key)
  {
    var clauses := Clauses(dirs, cur);
    var c :| c in clauses && AllHold(c, key);
    var k :| 0 <= k < |dirs| && clauses[k] == c;
    forall j | 0 <= j <= k ensures key[j] != Null && cur[j] == other[j] {
      var test: Test := c[j];
      assert test in c && test.index == j;
    }
    assert Clauses(dirs, other)[k] == c;
    assert c in Clauses(dirs, other);
  }

  /** The cursor of a row is as good as its sort key. */
  lemma SelectsBySortKey(t: Table, filters: map<string, Val>, sort: seq<SortField>, a: string, b: string)
    requires a in Filtered(t, filters) && b in Filtered(t, filters) && Unshadowed(t, filters, sort)
    ensures Selects(t, sort, a, b) <==> AnyHolds(Clauses(Directions(sort), SortKey(t, a, sort)), SortKey(t, b, sort))
  {
    hide Matches, AnyHolds, Clauses;
    var dirs, cur, own, key := Directions(sort), CursorKey(t, a, sort), SortKey(t, a, sort), SortKey(t, b, sort);
    forall i | 0 <= i < |sort| ensures cur[i] == own[i] || key[i] == Null {
      if !Overwritten(sort[i].field) { assert cur[i] == own[i]; }
    }
    if AnyHolds(Clauses(dirs, cur), key) { NullsMaskCursor(dirs, cur, own, key); }
    if AnyHolds(Clauses(dirs, own), key) { NullsMaskCursor(dirs, own, cur, key); }
  }

  lemma {:induction false} ApartSymmetric(a: seq<Val>, b: seq<Val>)
    requires |a| == |b|
    ensures Apart(a, b) <==> Apart(b, a)
    decreases |a|
  {
    var i, j := FirstDifference(a, b), FirstDifference(b, a);
    assert i == j;
  }

  /** For one pair: the condition made at `a` finds `b` exactly when `b` comes later and lies apart. */
  lemma SelectsIff(t: Table, filters: map<string, Val>, sort: seq<SortField>, a: string, b: string)
    requires a in Filtered(t, filters) && b in Filtered(t, filters) && Unshadowed(t, filters, sort)
    ensures Selects(t, sort, a, b) <==> Follows(t, sort, a, b) && Apart(SortKey(t, a, sort), SortKey(t, b, sort))
  {
    hide Matches, AnyHolds, Clauses, KeyLess, Column, Selects;
    SelectsBySortKey(t, filters, sort, a, b);
    var dirs, x, y := Directions(sort), SortKey(t, a, sort), SortKey(t, b, sort);
    CursorConditionExact(dirs, x, y);
    if x == y {
      KeyIrreflexive(dirs, x);
      assert FirstDifference(x, y) == |x|;
    } else {
      KeyLessExtend(dirs, x, y, Text(a), Text(b));
      assert FirstDifference(x, y) < |x|;
    }
  }

  lemma FitsIffSeparated(t: Table, filters: map<string, Val>, sort: seq<SortField>)
    requires Unshadowed(t, filters, sort)
    ensures Fits(t, filters, sort) <==> Separated(t, filters, sort)
  {
    hide Matches, Filtered, Unshadowed, Selects, Apart, KeyLess, SortKey, FullKey;
    if Fits(t, filters, sort) {
      forall a, b | a in Filtered(t, filters) && b in Filtered(t, filters) && a != b
        ensures Apart(SortKey(t, a, sort), SortKey(t, b, sort))
      {
        OneFollows(t, sort, a, b);
        ApartSymmetric(SortKey(t, a, sort), SortKey(t, b, sort));
        SelectsIff(t, filters, sort, a, b);
        SelectsIff(t, filters, sort, b, a);
      }
    }
    if Separated(t, filters, sort) {
      forall a, b | a in Filtered(t, filters) && b in Filtered(t, filters)
        ensures Selects(t, sort, a, b) <==> Follows(t, sort, a, b)
      {
        SelectsIff(t, filters, sort, a, b);
        if a == b { KeyIrreflexive(Directions(sort), FullKey(t, sort, a)); }
      }
    }
  }

  lemma OneFollows(t: Table, sort: seq<SortField>, a: string, b: string)
    requires a in t && b in t && a != b
    ensures Follows(t, sort, a, b) || Follows(t, sort, b, a)
  {
    hide KeyLess, SortKey;
    FullKeyId(t, sort, a);
    FullKeyId(t, sort, b);
    KeyConnected(Directions(sort), FullKey(t, sort, a), FullKey(t, sort, b));
  }

  /** Every finished walk returns the whole filtered set in order, each row once, exactly when the sort
      list tells any two rows apart before it meets a NULL. */
  lemma WalksExactlyIfSeparated(t: Table, filters: map<string, Val>, sort: seq<SortField>)
    requires Unshadowed(t, filters, sort)
    ensures (forall limits: seq<int> | Follow(t, filters, sort, limits, None).done ::
               Follow(t, filters, sort, limits, None).ids == PageIds(Ordered(t, filters, sort, None)))
            <==> Separated(t, filters, sort)
  {
    hide Follow, Ordered, PageIds, Fits, Separated, Unshadowed;
    PagesConcatenateIff(t, filters, sort);
    FitsIffSeparated(t, filters, sort);
  }

  /** What the whole ordered set is: every filtered row, later rows beyond earlier ones. */
  lemma OrderedContents(t: Table, filters: map<string, Val>, sort: seq<SortField>)
    ensures forall id :: id in PageIds(Ordered(t, filters, sort, None)) <==> id in Filtered(t, filters)
    ensures var ids := PageIds(Ordered(t, filters, sort, None));
      forall i, j | 0 <= i < j < |ids| :: ids[i] in t && ids[j] in t && ids[i] != ids[j] &&
          Follows(t, sort, ids[i], ids[j])
  {
    hide Column, Matches, KeyLess, SortKey, FullKey, Ordered;
    var rows := Ordered(t, filters, sort, None);
    var ids := PageIds(rows);
    RowsAscend(t, filters, sort, None);
    forall i | 0 <= i < |rows| ensures ids[i] in Filtered(t, filters) && rows[i] == FullKey(t, sort, ids[i]) {
      OrderedRow(t, filters, sort, None, rows[i]);
    }
    forall id | id in Filtered(t, filters) ensures id in ids {
      assert id in Selected(t, filters, sort, None);
      var i := RowPresent(t, filters, sort, None, id);
    }
    forall i, j | 0 <= i < j < |ids| ensures ids[i] != ids[j] && Follows(t, sort, ids[i], ids[j]) {
      KeyIrreflexive(Directions(sort), rows[i]);
    }
  }

  /** A list that holds the id and meets no NULL separates every table. */
  ghost predicate Walkable(t: Table, filters: map<string, Val>, sort: seq<SortField>) {
    && (exists i :: 0 <= i < |sort| && sort[i].field == "_id")
    && (forall i | 0 <= i < |sort| :: !Overwritten(sort[i].field))
    && (forall id, i | id in Filtered(t, filters) && 0 <= i < |sort| :: SortKey(t, id, sort)[i] != Null)
  }

  lemma WalkableIsSeparated(t: Table, filters: map<string, Val>, sort: seq<SortField>)
    requires Walkable(t, filters, sort)
    ensures Separated(t, filters, sort) && Unshadowed(t, filters, sort)
  {
    hide Matches, Filtered, Overwritten;
    var k :| 0 <= k < |sort| && sort[k].field == "_id";
    forall a, b | a in Filtered(t, filters) && b in Filtered(t, filters) && a != b
      ensures Apart(SortKey(t, a, sort), SortKey(t, b, sort))
    {
      assert SortKey(t, a, sort)[k] == Text(a) && SortKey(t, b, sort)[k] == Text(b);
    }
  }

  // ---- With writers between the pages -------------------------------------------------------------

  lemma WalkableExact(t: Table, u: Table, filters: map<string, Val>, sort: seq<SortField>, id: string)
    requires Walkable(t, filters, sort) && Walkable(u, filters, sort) && id in Filtered(t, filters)
    ensures Exact(u, filters, sort, CursorKey(t, id, sort), FullKey(t, sort, id))
  {
    hide Matches, Filtered, KeyLess, AnyHolds, Clauses, Recorded;
    var dirs, cur := Directions(sort), SortKey(t, id, sort);
    assert CursorKey(t, id, sort) == cur by { PlainCursor(t, id, sort); }
    forall b | b in Filtered(u, filters)
      ensures AnyHolds(Clauses(dirs, cur), SortKey(u, b, sort)) <==>
              KeyLess(dirs, FullKey(t, sort, id), FullKey(u, sort, b))
    {
      var key := SortKey(u, b, sort);
      NonNull(t, filters, sort, id);
      NonNull(u, filters, sort, b);
      CursorConditionNonNull(dirs, cur, key);
      if cur == key {
        SameId(t, u, sort, id, b);
        KeyIrreflexive(dirs, cur);
        KeyIrreflexive(dirs, FullKey(t, sort, id));
      } else {
        KeyLessExtend(dirs, cur, key, Text(id), Text(b));
      }
    }
    hide SortKey, FullKey, Walkable;
    assert forall b | b in Filtered(u, filters) ::
        b in Selected(u, filters, sort, Some(cur)) <==> Order(dirs)(FullKey(t, sort, id), FullKey(u, sort, b));
  }

  lemma NonNull(t: Table, filters: map<string, Val>, sort: seq<SortField>, id: string)
    requires Walkable(t, filters, sort) && id in Filtered(t, filters)
    ensures Null !in SortKey(t, id, sort)
  {
    hide Filtered, Column;
  }

  lemma PlainCursor(t: Table, id: string, sort: seq<SortField>)
    requires id in t && forall i | 0 <= i < |sort| :: !Overwritten(sort[i].field)
    ensures CursorKey(t, id, sort) == SortKey(t, id, sort)
  {
  }

  /** Equal sort keys that hold the id belong to one row. */
  lemma SameId(t: Table, u: Table, sort: seq<SortField>, a: string, b: string)
    requires a in t && b in u && SortKey(t, a, sort) == SortKey(u, b, sort)
    requires exists i :: 0 <= i < |sort| && sort[i].field == "_id"
    ensures a == b
  {
    var i :| 0 <= i < |sort| && sort[i].field == "_id";
    assert SortKey(t, a, sort)[i] == Text(a) && SortKey(u, b, sort)[i] == Text(b);
  }

  lemma WalkableSteady(asks: seq<Ask<Table>>, filters: map<string, Val>, sort: seq<SortField>)
    requires forall i | 0 <= i < |asks| :: Walkable(asks[i].at, filters, sort)
    ensures Steady(asks, filters, sort)
  {
    hide Walkable, Filtered, MoreAfter, Exact;
    forall i, j, id | 0 <= i < j < |asks| && id in Filtered(asks[i].at, filters)
      ensures Exact(asks[j].at, filters, sort, CursorKey(asks[i].at, id, sort), FullKey(asks[i].at, sort, id))
    {
      WalkableExact(asks[i].at, asks[j].at, filters, sort, id);
    }
  }

  /** A row that matches the filters at every page and keeps its sort key. */
  ghost predicate Settled(asks: seq<Ask<Table>>, filters: map<string, Val>, sort: seq<SortField>, id: string,
                          key: seq<Val>) {
    forall i | 0 <= i < |asks| ::
      id in Filtered(asks[i].at, filters) && FullKey(asks[i].at, sort, id) == key
  }

  /** Whatever is written between the pages, a finished walk over a list that holds the id and meets no
      NULL returns a row that keeps its sort key and its match throughout exactly once. */
  lemma SettledRowOnce(asks: seq<Ask<Table>>, filters: map<string, Val>, sort: seq<SortField>, id: string,
                       key: seq<Val>)
    requires forall i | 0 <= i < |asks| :: Walkable(asks[i].at, filters, sort)
    requires FollowAsks(asks, filters, sort, None).done && Settled(asks, filters, sort, id, key)
    ensures var ids := FollowAsks(asks, filters, sort, None).ids;
      exists i :: 0 <= i < |ids| && ids[i] == id && forall j | 0 <= j < |ids| && ids[j] == id :: j == i
  {
    hide FollowAsks, Walk, Walkable, Matches, Filtered, FullKey, FullKeys, Order, SortKey, Steady;
    var less, visits := Order(Directions(sort)), QueryVisits(asks, filters, sort);
    OrderTotal(Directions(sort));
    WalkableSteady(asks, filters, sort);
    FollowIsWalk(asks, filters, sort, None, None);
    var out := Walk(less, visits, None).out;
    SomeAsk(asks, filters, sort);
    forall v | v in visits ensures key in v.live { SettledLive(asks, filters, sort, id, key, v); }
    WalkComplete(less, visits, None, key);
    WalkSound(less, visits, None);
    FullKeyId(asks[0].at, sort, id);
    var i :| 0 <= i < |out| && out[i] == key;
    forall j | 0 <= j < |out| && PageIds(out)[j] == id ensures j == i {
      assert out[j] in out;
      var v :| v in visits && out[j] in v.live;
      SettledKey(asks, filters, sort, id, key, v, out[j]);
      AscendingDistinct(less, out);
    }
    assert PageIds(out)[i] == id;
  }

  lemma SomeAsk(asks: seq<Ask<Table>>, filters: map<string, Val>, sort: seq<SortField>)
    requires FollowAsks(asks, filters, sort, None).done
    ensures asks != []
  {
  }

  lemma SettledLive(asks: seq<Ask<Table>>, filters: map<string, Val>, sort: seq<SortField>, id: string, key: seq<Val>,
                    v: Visit<seq<Val>>)
    requires Settled(asks, filters, sort, id, key) && v in QueryVisits(asks, filters, sort)
    ensures key in v.live
  {
    hide Filtered, FullKey;
    var visits := QueryVisits(asks, filters, sort);
    var i :| 0 <= i < |visits| && visits[i] == v;
    assert id in Filtered(asks[i].at, filters);
  }

  /** A key with this row's id, found at any page, is the row's key. */
  lemma SettledKey(asks: seq<Ask<Table>>, filters: map<string, Val>, sort: seq<SortField>, id: string, key: seq<Val>,
                   v: Visit<seq<Val>>, other: seq<Val>)
    requires Settled(asks, filters, sort, id, key) && v in QueryVisits(asks, filters, sort)
    requires other in v.live && IdOf(other) == id
    ensures other == key
  {
    hide Filtered, FullKey;
    var visits := QueryVisits(asks, filters, sort);
    var i :| 0 <= i < |visits| && visits[i] == v;
    var x :| x in Filtered(asks[i].at, filters) && other == FullKey(asks[i].at, sort, x);
    FullKeyId(asks[i].at, sort, x);
  }

  // ---- Three walks that lose a row -----------------------------------------------------------------

  /** Two live records without fields, written at the same time. */
  function Twins(): Table {
    var row := Row(map[], "2026-01-01", "2026-01-01", 0.0, WorkQuiet, false);
    map["a" := row, "b" := row]
  }

  /** If nothing is selected after a cursor, two pages of one row return one row of two. */
  lemma OneOfTwo(sort: seq<SortField>)
    requires forall a, b | a in Twins() && b in Twins() :: !Selects(Twins(), sort, a, b)
    ensures Filtered(Twins(), map[]) == {"a", "b"}
    ensures |Follow(Twins(), map[], sort, [1, 0], None).ids| == 1 && Follow(Twins(), map[], sort, [1, 0], None).done
  {
    hide KeyLess, SortKey, FullKey, Selects;
    var t := Twins();
    assert Filtered(t, map[]) == {"a", "b"};
    var x, y := FullKey(t, sort, "a"), FullKey(t, sort, "b");
    FullKeyId(t, sort, "a");
    FullKeyId(t, sort, "b");
    assert Selected(t, map[], sort, None) == {"a", "b"};
    assert FullKeys(t, sort, {"a", "b"}) == {x, y};
    var rows := Ordered(t, map[], sort, None);
    assert |rows| == 2;
    TwoPages(t, map[], sort, 0);
    OrderedRow(t, map[], sort, None, rows[0]);
    NothingOrdered(IdOf(rows[0]), sort);
  }

  lemma NothingOrdered(a: string, sort: seq<SortField>)
    requires a in Twins() && forall b | b in Twins() :: !Selects(Twins(), sort, a, b)
    ensures Ordered(Twins(), map[], sort, Some(CursorKey(Twins(), a, sort))) == []
  {
    hide KeyLess, FullKey;
    var cur := Some(CursorKey(Twins(), a, sort));
    forall b ensures b !in Selected(Twins(), map[], sort, cur) {
      assert b in Twins() ==> !Selects(Twins(), sort, a, b);
    }
    assert FullKeys(Twins(), sort, Selected(Twins(), map[], sort, cur)) == {};
  }

  /** A missing field: the cursor's NULL is never passed. */
  lemma NullLosesRow()
    ensures var sort := [SortField("priority", Asc), SortField("_id", Asc)];
      && Filtered(Twins(), map[]) == {"a", "b"}
      && |Follow(Twins(), map[], sort, [1, 0], None).ids| == 1 && Follow(Twins(), map[], sort, [1, 0], None).done
  {
    NullFirst("priority");
  }

  /** A tie: the second of two rows with one creation time is never after the first. */
  lemma TieLosesRow()
    ensures var sort := [SortField("_created", Asc)];
      && Filtered(Twins(), map[]) == {"a", "b"}
      && |Follow(Twins(), map[], sort, [1, 0], None).ids| == 1 && Follow(Twins(), map[], sort, [1, 0], None).done
  {
    var sort := [SortField("_created", Asc)];
    forall a, b | a in Twins() && b in Twins() ensures !Selects(Twins(), sort, a, b) {
      var cur, key := CursorKey(Twins(), a, sort), SortKey(Twins(), b, sort);
      assert cur == key;
      hide KeyLess, AnyHolds, Clauses;
      CursorConditionExact(Directions(sort), cur, key);
      KeyIrreflexive(Directions(sort), cur);
    }
    OneOfTwo(sort);
  }

  /** A row column: the cursor carries the deviation, the condition compares the record's own field. */
  lemma RowColumnLosesRow()
    ensures var sort := [SortField("_deviation", Asc), SortField("_id", Asc)];
      && Filtered(Twins(), map[]) == {"a", "b"}
      && |Follow(Twins(), map[], sort, [1, 0], None).ids| == 1 && Follow(Twins(), map[], sort, [1, 0], None).done
  {
    NullFirst("_deviation");
  }

  lemma NullFirst(field: string)
    requires field != "_id" && field != "_created" && field != "_updated"
    ensures var sort := [SortField(field, Asc), SortField("_id", Asc)];
      && Filtered(Twins(), map[]) == {"a", "b"}
      && |Follow(Twins(), map[], sort, [1, 0], None).ids| == 1 && Follow(Twins(), map[], sort, [1, 0], None).done
  {
    var sort := [SortField(field, Asc), SortField("_id", Asc)];
    forall a, b | a in Twins() && b in Twins() ensures !Selects(Twins(), sort, a, b) {
      var cur, key := CursorKey(Twins(), a, sort), SortKey(Twins(), b, sort);
      assert key[0] == Null;
      hide KeyLess, AnyHolds, Clauses;
      CursorConditionExact(Directions(sort), cur, key);
    }
    OneOfTwo(sort);
  }
}
