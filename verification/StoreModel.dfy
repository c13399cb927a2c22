/** The rows of one collection of src/willow_mcp/db.py and what each statement does to them. */
module StoreModel {
  import opened Wrappers
  import opened Keyset
  import TextOrder
  import Cursor

  /** A JSON scalar as SQLite sees it through json_extract. Booleans are the numbers 1 and 0. */
  datatype Val = Null | Num(n: real) | Text(s: string)

  /** A stored record: its top-level scalar fields. */
  type Record = map<string, Val>

  datatype Action = WorkQuiet | Flag | Stop

  datatype Row = Row(data: Record, created: string, updated: string, deviation: real, action: Action, deleted: bool)

  /** One records table, keyed by its primary key. */
  type Table = map<string, Row>

  datatype Item = Item(id: string, data: Record, created: string, updated: string, deviation: real, action: Action)

  function ActionFor(deviation: real): Action {
    if deviation >= 1.571 then Stop else if deviation >= 0.785 then Flag else WorkQuiet
  }

  /** INSERT ... ON CONFLICT DO UPDATE: an existing row keeps its creation time and its tombstone. */
  function PutRow(t: Table, id: string, data: Record, now: string, deviation: real): Table {
    var action := ActionFor(deviation);
    if id in t then
      t[id := t[id].(data := data, updated := now, deviation := deviation, action := action)]
    else
      t[id := Row(data, now, now, deviation, action, false)]
  }

  predicate IsLive(t: Table, id: string) {
    id in t && !t[id].deleted
  }

  function UpdateRow(t: Table, id: string, data: Record, now: string, deviation: real): Table {
    if IsLive(t, id) then
      t[id := t[id].(data := data, updated := now, deviation := deviation, action := ActionFor(deviation))]
    else t
  }

  function DeleteRow(t: Table, id: string, now: string): Table {
    if IsLive(t, id) then t[id := t[id].(deleted := true, updated := now)] else t
  }

  function PurgeRows(t: Table, now: string): Table {
    map id | id in t :: if t[id].deleted then t[id] else t[id].(deleted := true, updated := now)
  }

  function LiveIds(t: Table): set<string> {
    set id | id in t && !t[id].deleted
  }

  function ItemOf(t: Table, id: string): Item
    requires id in t
  {
    Item(id, t[id].data, t[id].created, t[id].updated, t[id].deviation, t[id].action)
  }

  /** One write by any process. */
  datatype Op =
    | Put(id: string, data: Record, now: string, deviation: real)
    | Update(id: string, data: Record, now: string, deviation: real)
    | Delete(id: string, now: string)
    | Purge(now: string)

  function Step(t: Table, op: Op): Table {
    match op
    case Put(id, data, now, deviation) => PutRow(t, id, data, now, deviation)
    case Update(id, data, now, deviation) => UpdateRow(t, id, data, now, deviation)
    case Delete(id, now) => DeleteRow(t, id, now)
    case Purge(now) => PurgeRows(t, now)
  }

  function Run(t: Table, ops: seq<Op>): Table
    decreases |ops|
  {
    if ops == [] then t else Run(Step(t, ops[0]), ops[1..])
  }

  const NUL: char := 0 as char

  /** Generated ids are not empty and isoformat stamps hold no NUL. */
  predicate OpOk(op: Op) {
    NUL !in op.now && (op.Put? ==> op.id != "")
  }

  ghost predicate WellFormed(t: Table) {
    forall id | id in t :: id != "" && NUL !in t[id].created
  }

  /** What no write ever undoes: a row stays, keeps its creation time, and keeps its tombstone. */
  ghost predicate Evolves(t: Table, u: Table) {
    forall id | id in t ::
      id in u && u[id].created == t[id].created && (t[id].deleted ==> u[id].deleted)
  }

  lemma StepEvolves(t: Table, op: Op)
    requires WellFormed(t) && OpOk(op)
    ensures WellFormed(Step(t, op)) && Evolves(t, Step(t, op))
  {
  }

  lemma {:induction false} RunEvolves(t: Table, ops: seq<Op>)
    requires WellFormed(t) && forall op | op in ops :: OpOk(op)
    ensures WellFormed(Run(t, ops)) && Evolves(t, Run(t, ops))
    decreases |ops|
  {
    if ops != [] {
      assert ops[0] in ops;
      StepEvolves(t, ops[0]);
      RunEvolves(Step(t, ops[0]), ops[1..]);
    }
  }

  /** Two-column keys: (creation time, id) within a collection, (collection, id) across them. */
  datatype Pair = Pair(major: string, minor: string)

  predicate PairLess(a: Pair, b: Pair) {
    TextOrder.Less(a.major, b.major) || (a.major == b.major && TextOrder.Less(a.minor, b.minor))
  }

  lemma TextTotal()
    ensures StrictTotal(TextOrder.Less)
  {
    forall a ensures !TextOrder.Less(a, a) { TextOrder.Irreflexive(a); }
    forall a, b, c | TextOrder.Less(a, b) && TextOrder.Less(b, c) ensures TextOrder.Less(a, c) {
      TextOrder.Transitive(a, b, c);
    }
    forall a, b ensures a == b || TextOrder.Less(a, b) || TextOrder.Less(b, a) { TextOrder.Total(a, b); }
  }

  lemma PairTotal()
    ensures StrictTotal(PairLess)
  {
    hide TextOrder.Less;
    TextTotal();
  }

  /** Splitting a cursor at its first NUL. */
  function Before(s: string): string {
    if s == "" || s[0] == NUL then "" else [s[0]] + Before(s[1..])
  }

  function After(s: string): string {
    if s == "" then "" else if s[0] == NUL then s[1..] else After(s[1..])
  }

  lemma {:induction false} SplitJoined(a: string, b: string)
    requires NUL !in a
    ensures Before(a + [NUL] + b) == a && After(a + [NUL] + b) == b
  {
    var s := a + [NUL] + b;
    if a == "" {
      assert s[1..] == b;
    } else {
      assert s[1..] == a[1..] + [NUL] + b;
      SplitJoined(a[1..], b);
    }
  }

  /** Where a two-column cursor says to resume. The outer None is the decoder's exception; a missing
      or empty cursor starts from the beginning. */
  function Resume(cursor: Option<string>): Option<Option<Pair>> {
    if cursor.None? || cursor.value == "" then Some(None)
    else
      var text := Cursor.Decode(cursor.value);
      if text.None? then None else Some(Some(Pair(Before(text.value), After(text.value))))
  }

  function CursorAt(key: Pair): string {
    Cursor.Encode(key.major + [NUL] + key.minor)
  }

  lemma ResumeAt(key: Pair)
    requires NUL !in key.major
    ensures Resume(Some(CursorAt(key))) == Some(Some(key))
  {
    hide Cursor.Encode, Cursor.Decode;
    Cursor.RoundTrip(key.major + [NUL] + key.minor);
    SplitJoined(key.major, key.minor);
  }

  function Max(a: int, b: int): int {
    if a > b then a else b
  }

  datatype Listing<T> = Listing(items: seq<T>, next: Option<string>)

  /** The cursor handed out after a page: none when the page was the last. */
  function NextCursor(page: Page<Pair>): Option<string> {
    if page.more && page.items != [] then Some(CursorAt(page.items[|page.items| - 1])) else None
  }

  function CreationKeys(t: Table): set<Pair> {
    set id | id in t && !t[id].deleted :: Pair(t[id].created, id)
  }

  function AllKeys(t: Table, after: Option<Pair>, limit: int): (page: Page<Pair>)
    ensures forall k | k in page.items :: k in CreationKeys(t) && k.minor in t
    ensures page.more ==> page.items != []
  {
    PairTotal();
    var page := PageOf(PairLess, CreationKeys(t), after, Max(1, limit));
    assert forall k | k in page.items :: k in Sort(PairLess, Beyond(PairLess, CreationKeys(t), after));
    page
  }

  function Items(t: Table, keys: seq<Pair>): (items: seq<Item>)
    requires forall k | k in keys :: k.minor in t
    ensures |items| == |keys|
  {
    seq(|keys|, i requires 0 <= i < |keys| => ItemOf(t, keys[i].minor))
  }

  /** The page all_paginated returns; None when the cursor does not decode. */
  function AllPage(t: Table, limit: int, cursor: Option<string>): Option<Listing<Item>> {
    var after := Resume(cursor);
    if after.None? then None
    else
      var page := AllKeys(t, after.value, limit);
      Some(Listing(Items(t, page.items), NextCursor(page)))
  }
}
