/** What the evaluation of the syscall table answers, said of the records, seals and rows themselves. */
module SyncLaws {
  import opened Wrappers
  import opened AmendLine
  import opened TableSync
  import TableBoots
  import Decimal
  import TextLines

  // ---- Rows ------------------------------------------------------------------------------------

  /** The entry at `i` is the last one of its id. */
  predicate IsLast(verbs: seq<Entry>, i: nat, id: int) {
    && i < |verbs| && verbs[i].Good? && verbs[i].row.id == id
    && forall j :: i < j < |verbs| && verbs[j].Good? ==> verbs[j].row.id != id
  }

  predicate IsRowOf(entry: Entry, id: int) { entry.Good? && entry.row.id == id }

  /** The table maps an id to its last row, and has no other ids. */
  lemma LastRowWins(d: Doc, id: int)
    ensures id in Rows(d) <==> exists i: nat :: IsLast(d.verbs, i, id)
    ensures forall i: nat :: IsLast(d.verbs, i, id) ==> id in Rows(d) && Rows(d)[id] == d.verbs[i].row
  {
    forall i: nat | IsLast(d.verbs, i, id)
      ensures id in Rows(d) && Rows(d)[id] == d.verbs[i].row
    {
      LastOf(d.verbs, i, id);
    }
    if id in Rows(d) {
      var i := FindLast(d.verbs, id);
    }
  }

  lemma {:induction false} LastOf(verbs: seq<Entry>, i: nat, id: int)
    requires IsLast(verbs, i, id)
    ensures id in RowsById(verbs) && RowsById(verbs)[id] == verbs[i].row
    decreases |verbs|
  {
    var n := |verbs| - 1;
    if i < n {
      assert IsLast(verbs[..n], i, id);
      LastOf(verbs[..n], i, id);
    }
  }

  lemma {:induction false} FindLast(verbs: seq<Entry>, id: int) returns (i: nat)
    requires id in RowsById(verbs)
    ensures IsLast(verbs, i, id)
    decreases |verbs|
  {
    var n := |verbs| - 1;
    if IsRowOf(verbs[n], id) {
      i := n;
    } else {
      i := FindLast(verbs[..n], id);
      assert verbs[..n][i] == verbs[i];
      forall j | i < j < |verbs| && verbs[j].Good? ensures verbs[j].row.id != id {
        if j < n { assert verbs[..n][j] == verbs[j]; }
      }
    }
  }

  /** The fields an amend line covers, compared one by one. */
  predicate DiffersAt(rows: map<int, Row>, shipped: map<int, Row>, id: int) {
    id in rows && id in shipped && (rows[id].verb != shipped[id].verb || rows[id].grant != shipped[id].grant)
  }

  /** The line that names this change. */
  function EdgeOf(hash: Structure -> string, live: Row, bundle: Row): Amend
    requires live.id >= 0
  {
    Amend(live.id, live.verb, hash(Structure(live.id, live.verb, live.grant)),
          hash(Structure(bundle.id, bundle.verb, bundle.grant)))
  }

  /** The text is sealed for a loaded ring and its only amend line is this change. */
  predicate SealedFor(hash: Structure -> string, t: Trust, body: Body, live: Row, bundle: Row) {
    t.ring && t.verify(body) && live.id >= 0 && FindAll(body.target) == [EdgeOf(hash, live, bundle)]
  }

  /** The record points at such a text and says nothing else than its line. */
  predicate Speaks(hash: Structure -> string, t: Trust, rec: Record, ledger: map<string, Body>, live: Row,
                   bundle: Row) {
    && rec.kind == "syscall_row_amend" && rec.pair != "" && rec.pair in ledger
    && SealedFor(hash, t, ledger[rec.pair], live, bundle)
    && (rec.id == NoId || SoilNumber(rec.id) == Some(live.id))
    && (rec.verb == None || rec.verb == Some(live.verb))
    && (rec.from == None || rec.from == Some(hash(Structure(live.id, live.verb, live.grant))))
    && (rec.to == None || rec.to == Some(hash(Structure(bundle.id, bundle.verb, bundle.grant))))
  }

  lemma SpeaksIsConfirmed(hash: Structure -> string, t: Trust, rec: Record, ledger: map<string, Body>, live: Row,
                          bundle: Row)
    ensures Speaks(hash, t, rec, ledger, live, bundle) <==> Confirm(hash, t, ledger, rec, live, bundle).Ok?
  {
    ConfirmIff(hash, t, ledger, rec, live, bundle);
    hide FindAll, SoilNumber, Confirm;
  }

  // ---- The tally -------------------------------------------------------------------------------

  lemma {:induction false} KindKept(records: seq<Record>, rec: Record)
    ensures rec in OfKind(records) <==> rec in records && rec.kind == "syscall_row_amend"
    decreases |records|
  {
    if records != [] {
      KindKept(records[1..], rec);
      assert records == [records[0]] + records[1..];
    }
  }

  lemma {:induction false} FoundIff(hash: Structure -> string, t: Trust, pairs: map<string, Body>,
                                    cands: seq<Record>, live: Row, bundle: Row)
    ensures FirstConfirmed(hash, t, pairs, cands, live, bundle).Some? <==>
            exists rec :: rec in cands && Speaks(hash, t, rec, pairs, live, bundle)
    decreases |cands|
  {
    hide Speaks, Confirm;
    if cands != [] {
      SpeaksIsConfirmed(hash, t, cands[0], pairs, live, bundle);
      FoundIff(hash, t, pairs, cands[1..], live, bundle);
      assert cands == [cands[0]] + cands[1..];
    }
  }

  lemma {:induction false} AllFoundIff(hash: Structure -> string, t: Trust, pairs: map<string, Body>,
                                       cands: seq<Record>, live: map<int, Row>, bundle: map<int, Row>, ids: seq<int>)
    requires InBoth(ids, live, bundle)
    ensures TallyOf(hash, t, pairs, cands, live, bundle, ids).unauthorised == [] <==>
            forall i :: 0 <= i < |ids| ==>
              exists rec :: rec in cands && Speaks(hash, t, rec, pairs, live[ids[i]], bundle[ids[i]])
    decreases |ids|
  {
    hide Speaks, FirstConfirmed;
    if ids != [] {
      var n := |ids| - 1;
      AllFoundIff(hash, t, pairs, cands, live, bundle, ids[..n]);
      FoundIff(hash, t, pairs, cands, live[ids[n]], bundle[ids[n]]);
      assert forall i :: 0 <= i < n ==> ids[..n][i] == ids[i];
    }
  }

  lemma ChangedDiffer(rows: map<int, Row>, shipped: map<int, Row>, id: int)
    requires WellKeyed(rows) && WellKeyed(shipped)
    ensures id in Changed(rows, shipped) <==> DiffersAt(rows, shipped, id)
  {
    assert id in Changed(rows, shipped) <==> id in ChangedIds(rows, shipped);
  }

  /** Some candidate speaks for every row that differs. */
  ghost predicate AllSpokenFor(hash: Structure -> string, t: Trust, cands: seq<Record>, pairs: map<string, Body>,
                               rows: map<int, Row>, shipped: map<int, Row>) {
    forall id | DiffersAt(rows, shipped, id) ::
      exists rec :: rec in cands && Speaks(hash, t, rec, pairs, rows[id], shipped[id])
  }

  lemma TallyIff(hash: Structure -> string, t: Trust, pairs: map<string, Body>, cands: seq<Record>,
                 rows: map<int, Row>, shipped: map<int, Row>)
    requires WellKeyed(rows) && WellKeyed(shipped)
    ensures TallyOf(hash, t, pairs, cands, rows, shipped, Changed(rows, shipped)).unauthorised == [] <==>
            AllSpokenFor(hash, t, cands, pairs, rows, shipped)
  {
    hide TallyOf, Speaks, Changed, WellKeyed, DiffersAt;
    var ids := Changed(rows, shipped);
    AllFoundIff(hash, t, pairs, cands, rows, shipped, ids);
    forall id ensures id in ids <==> DiffersAt(rows, shipped, id) {
      ChangedDiffer(rows, shipped, id);
    }
    if TallyOf(hash, t, pairs, cands, rows, shipped, ids).unauthorised == [] {
      forall id | DiffersAt(rows, shipped, id)
        ensures id in rows && id in shipped
        ensures exists rec :: rec in cands && Speaks(hash, t, rec, pairs, rows[id], shipped[id])
      {
        var i :| 0 <= i < |ids| && ids[i] == id;
      }
    }
    if AllSpokenFor(hash, t, cands, pairs, rows, shipped) {
      forall i | 0 <= i < |ids|
        ensures exists rec :: rec in cands && Speaks(hash, t, rec, pairs, rows[ids[i]], shipped[ids[i]])
      {
        assert ids[i] in ids;
        assert DiffersAt(rows, shipped, ids[i]);
      }
    }
  }

  // ---- The decision ----------------------------------------------------------------------------

  ghost predicate Loses(rows: map<int, Row>, shipped: map<int, Row>) { exists id :: id in rows && id !in shipped }

  ghost predicate Changes(rows: map<int, Row>, shipped: map<int, Row>) {
    exists id :: DiffersAt(rows, shipped, id)
  }

  ghost predicate Adds(rows: map<int, Row>, shipped: map<int, Row>) { exists id :: id in shipped && id !in rows }

  lemma KeysSubset(rows: map<int, Row>, shipped: map<int, Row>)
    ensures Loses(rows, shipped) <==> !(rows.Keys <= shipped.Keys)
  {
    if !Loses(rows, shipped) {
      forall id | id in rows.Keys ensures id in shipped.Keys {
        assert id in rows;
      }
    }
  }

  lemma NothingAdded(rows: map<int, Row>, shipped: map<int, Row>)
    ensures Adds(rows, shipped) <==> Sorted(shipped.Keys - rows.Keys) != []
  {
    var added := Sorted(shipped.Keys - rows.Keys);
    if added != [] {
      assert added[0] in added;
      assert added[0] in shipped.Keys - rows.Keys;
      var id := added[0];
      assert id in shipped && id !in rows;
      assert Adds(rows, shipped);
    }
    if Adds(rows, shipped) {
      var id :| id in shipped && id !in rows;
      assert id in shipped.Keys - rows.Keys;
      assert id in added;
    }
  }

  lemma NothingChanged(rows: map<int, Row>, shipped: map<int, Row>)
    requires WellKeyed(rows) && WellKeyed(shipped)
    ensures Changes(rows, shipped) <==> Changed(rows, shipped) != []
  {
    hide WellKeyed, DiffersAt, Changed;
    var ids := Changed(rows, shipped);
    if ids != [] { ChangedDiffer(rows, shipped, ids[0]); assert ids[0] in ids; }
    if Changes(rows, shipped) {
      var id :| DiffersAt(rows, shipped, id);
      ChangedDiffer(rows, shipped, id);
    }
  }

  /** Every changed row has somebody to speak for it. */
  ghost predicate Spoken(hash: Structure -> string, t: Trust, src: Source, rows: map<int, Row>,
                         shipped: map<int, Row>) {
    Candidates(src).Some? && AllSpokenFor(hash, t, Candidates(src).value, Pairs(src), rows, shipped)
  }

  /** The tally is clean exactly when every changed row is spoken for, and then it amends them all. */
  lemma TallyClean(hash: Structure -> string, t: Trust, src: Source, rows: map<int, Row>, shipped: map<int, Row>)
    requires WellKeyed(rows) && WellKeyed(shipped) && Candidates(src).Some?
    ensures var ids := Changed(rows, shipped);
      var tally := TallyOf(hash, t, Pairs(src), Candidates(src).value, rows, shipped, ids);
      && (tally.unauthorised == [] <==> Spoken(hash, t, src, rows, shipped))
      && (tally.unauthorised == [] ==> |tally.amended| == |ids|)
  {
    TallyIff(hash, t, Pairs(src), Candidates(src).value, rows, shipped);
    TallyCounts(hash, t, Pairs(src), Candidates(src).value, rows, shipped, Changed(rows, shipped));
    hide TallyOf, AllSpokenFor, Changed, Pairs, Candidates;
  }

  /** Whoever supplies the candidates: refused exactly when a row would be lost or a changed row has nobody
      to speak for it; otherwise applied exactly when something is new or changed. */
  lemma Decides(hash: Structure -> string, t: Trust, src: Source, d: Doc, bundle: Doc, stale: bool)
    ensures var rows, shipped := Rows(d), Rows(bundle);
      var plan := Evaluate(hash, t, src, Table(d), Table(bundle), stale);
      && (plan.Refused? <==>
           Loses(rows, shipped) || (Changes(rows, shipped) && !Spoken(hash, t, src, rows, shipped)))
      && (plan.Apply? <==> !plan.Refused? && (Changes(rows, shipped) || Adds(rows, shipped)))
      && (plan.Apply? ==> plan.doc == bundle)
      && (plan.Resign? <==> !plan.Refused? && !plan.Apply? && stale)
      && (plan.UpToDate? <==> !plan.Refused? && !plan.Apply? && !stale)
  {
    hide TallyOf, Rows, Changed, Sorted, Loses, Changes, Adds, Spoken, Candidates, Pairs, WellKeyed;
    var rows, shipped := Rows(d), Rows(bundle);
    RowsKeyed(d);
    RowsKeyed(bundle);
    KeysSubset(rows, shipped);
    NothingAdded(rows, shipped);
    NothingChanged(rows, shipped);
    if Candidates(src).Some? {
      TallyClean(hash, t, src, rows, shipped);
    } else {
      NotSpoken(hash, t, src, rows, shipped);
    }
  }

  lemma NotSpoken(hash: Structure -> string, t: Trust, src: Source, rows: map<int, Row>, shipped: map<int, Row>)
    requires Candidates(src).None?
    ensures !Spoken(hash, t, src, rows, shipped)
  {
  }

  /** Over a governance store: refused exactly when a live row is missing from the bundle, or a row differs and
      the store cannot be read or holds no amendment record that speaks for the row. */
  lemma StoreDecides(hash: Structure -> string, t: Trust, records: Option<seq<Record>>, ledger: map<string, Body>,
                     d: Doc, bundle: Doc, stale: bool)
    ensures var rows, shipped := Rows(d), Rows(bundle);
      var plan := Evaluate(hash, t, Store(records, ledger), Table(d), Table(bundle), stale);
      && (plan.Refused? <==>
           || (exists id :: id in rows && id !in shipped)
           || (exists id :: DiffersAt(rows, shipped, id) &&
                (records == None ||
                 !exists rec :: rec in records.value && Speaks(hash, t, rec, ledger, rows[id], shipped[id]))))
      && (plan.Apply? <==>
           && !plan.Refused?
           && ((exists id :: DiffersAt(rows, shipped, id)) || (exists id :: id in shipped && id !in rows)))
      && (plan.Apply? ==> plan.doc == bundle)
      && (plan.Resign? <==> !plan.Refused? && !plan.Apply? && stale)
      && (plan.UpToDate? <==> !plan.Refused? && !plan.Apply? && !stale)
  {
    hide Evaluate, Rows, Speaks, DiffersAt, OfKind;
    Decides(hash, t, Store(records, ledger), d, bundle, stale);
    if records.Some? {
      var rows, shipped := Rows(d), Rows(bundle);
      KindStays(hash, t, records.value, ledger, rows, shipped);
    }
  }

  lemma KindStays(hash: Structure -> string, t: Trust, records: seq<Record>, ledger: map<string, Body>,
                  rows: map<int, Row>, shipped: map<int, Row>)
    ensures AllSpokenFor(hash, t, OfKind(records), ledger, rows, shipped) <==>
            AllSpokenFor(hash, t, records, ledger, rows, shipped)
  {
    hide OfKind, DiffersAt;
    forall rec: Record, live: Row, bundle: Row
      ensures rec in OfKind(records) && Speaks(hash, t, rec, ledger, live, bundle) <==>
              rec in records && Speaks(hash, t, rec, ledger, live, bundle)
    {
      KindKept(records, rec);
    }
    hide Speaks;
    forall id | DiffersAt(rows, shipped, id)
      ensures id in rows && id in shipped
      ensures (exists rec :: rec in records && Speaks(hash, t, rec, ledger, rows[id], shipped[id])) <==>
              (exists rec :: rec in OfKind(records) && Speaks(hash, t, rec, ledger, rows[id], shipped[id]))
    {
      DifferIsBoth(rows, shipped, id);
    }
  }

  lemma DifferIsBoth(rows: map<int, Row>, shipped: map<int, Row>, id: int)
    requires DiffersAt(rows, shipped, id)
    ensures id in rows && id in shipped
  {
  }

  /** A plan carried to the trust owner is judged by the same rule, over the last row of each pair id. */
  predicate IsLastSeal(seals: seq<Seal>, i: nat) {
    && i < |seals| && seals[i].pair != ""
    && forall j :: i < j < |seals| ==> seals[j].pair != seals[i].pair
  }

  lemma {:induction false} CarriedRow(seals: seq<Seal>, i: nat)
    requires IsLastSeal(seals, i)
    ensures seals[i].pair in CarriedIds(seals)
    ensures seals[i].pair in CarriedMap(seals) && CarriedMap(seals)[seals[i].pair] == seals[i].body
    decreases |seals|
  {
    var n := |seals| - 1;
    if i < n {
      assert IsLastSeal(seals[..n], i);
      CarriedRow(seals[..n], i);
    }
  }

  lemma {:induction false} CarriedFrom(seals: seq<Seal>, pair: string) returns (i: nat)
    requires pair in CarriedIds(seals)
    ensures IsLastSeal(seals, i) && seals[i].pair == pair
    decreases |seals|
  {
    var n := |seals| - 1;
    if seals[n].pair == pair {
      i := n;
      CarriedNamed(seals, pair);
    } else {
      i := CarriedFrom(seals[..n], pair);
      forall j | i < j < |seals| ensures seals[j].pair != pair {
        if j < n { assert seals[..n][j] == seals[j]; }
      }
    }
  }

  lemma {:induction false} CarriedNamed(seals: seq<Seal>, pair: string)
    requires pair in CarriedIds(seals)
    ensures pair != ""
    decreases |seals|
  {
    var n := |seals| - 1;
    if pair == "" { CarriedNamed(seals[..n], pair); }
  }

  /** Some carried row seals this change and is the last one of its pair id. */
  ghost predicate Carries(hash: Structure -> string, t: Trust, seals: seq<Seal>, live: Row, bundle: Row) {
    exists i: nat :: IsLastSeal(seals, i) && SealedFor(hash, t, seals[i].body, live, bundle)
  }

  /** A carried row speaks for a change by its seal alone. */
  lemma CarriedSpeaks(hash: Structure -> string, t: Trust, seals: seq<Seal>, live: Row, bundle: Row)
    ensures (exists rec :: rec in PlainAll(CarriedIds(seals)) && Speaks(hash, t, rec, CarriedMap(seals), live, bundle))
            <==> Carries(hash, t, seals, live, bundle)
  {
    hide SealedFor, CarriedIds, CarriedMap, SoilNumber;
    var cands := PlainAll(CarriedIds(seals));
    if i: nat :| IsLastSeal(seals, i) && SealedFor(hash, t, seals[i].body, live, bundle) {
      CarriedRow(seals, i);
      var k :| 0 <= k < |CarriedIds(seals)| && CarriedIds(seals)[k] == seals[i].pair;
      assert cands[k] == Plain(seals[i].pair);
      SealedIsNatural(hash, t, seals[i].body, live, bundle);
      assert Speaks(hash, t, cands[k], CarriedMap(seals), live, bundle);
    }
    if rec :| rec in cands && Speaks(hash, t, rec, CarriedMap(seals), live, bundle) {
      var k :| 0 <= k < |cands| && cands[k] == rec;
      var i := CarriedFrom(seals, CarriedIds(seals)[k]);
      CarriedRow(seals, i);
    }
  }

  lemma SealedIsNatural(hash: Structure -> string, t: Trust, body: Body, live: Row, bundle: Row)
    requires SealedFor(hash, t, body, live, bundle)
    ensures live.id >= 0
  {
  }

  /** Over carried rows: refused exactly when a live row is missing from the bundle, or a row differs and no
      carried row seals that change. */
  lemma CarriedDecides(hash: Structure -> string, t: Trust, seals: seq<Seal>, d: Doc, bundle: Doc, stale: bool)
    ensures var rows, shipped := Rows(d), Rows(bundle);
      Evaluate(hash, t, Carried(seals), Table(d), Table(bundle), stale).Refused? <==>
        || (exists id :: id in rows && id !in shipped)
        || (exists id :: DiffersAt(rows, shipped, id) && !Carries(hash, t, seals, rows[id], shipped[id]))
  {
    hide Evaluate, Rows, Speaks, PlainAll, CarriedIds, CarriedMap, Carries;
    Decides(hash, t, Carried(seals), d, bundle, stale);
    var rows, shipped := Rows(d), Rows(bundle);
    forall id | DiffersAt(rows, shipped, id)
      ensures id in rows && id in shipped
      ensures (exists rec :: rec in PlainAll(CarriedIds(seals)) &&
                 Speaks(hash, t, rec, CarriedMap(seals), rows[id], shipped[id])) <==>
              Carries(hash, t, seals, rows[id], shipped[id])
    {
      DifferIsBoth(rows, shipped, id);
      CarriedSpeaks(hash, t, seals, rows[id], shipped[id]);
    }
  }

  // ---- What the plan holds ---------------------------------------------------------------------

  predicate AmendsRow(hash: Structure -> string, t: Trust, pairs: map<string, Body>, rows: map<int, Row>,
                      shipped: map<int, Row>, a: Amended, seal: Seal) {
    && DiffersAt(rows, shipped, a.id)
    && a.verb == rows[a.id].verb
    && a.from == hash(Structure(a.id, rows[a.id].verb, rows[a.id].grant))
    && a.to == hash(Structure(a.id, shipped[a.id].verb, shipped[a.id].grant))
    && a.pair == seal.pair && a.pair in pairs && seal.body == pairs[a.pair]
    && SealedFor(hash, t, seal.body, rows[a.id], shipped[a.id])
  }

  /** An applied plan names the new ids, and the differing ones with their old and new digests, each under a seal
      for that change, both in ascending order. */
  lemma AppliedPlan(hash: Structure -> string, t: Trust, src: Source, d: Doc, bundle: Doc, stale: bool)
    requires Evaluate(hash, t, src, Table(d), Table(bundle), stale).Apply?
    ensures var rows, shipped := Rows(d), Rows(bundle);
      var plan := Evaluate(hash, t, src, Table(d), Table(bundle), stale);
      && (forall id :: id in plan.added <==> id in shipped && id !in rows)
      && (forall i, j :: 0 <= i < j < |plan.added| ==> plan.added[i] < plan.added[j])
      && (forall i, j :: 0 <= i < j < |plan.amended| ==> plan.amended[i].id < plan.amended[j].id)
      && (forall id :: DiffersAt(rows, shipped, id) ==> exists i :: 0 <= i < |plan.amended| && plan.amended[i].id == id)
      && |plan.seals| == |plan.amended|
      && forall i :: 0 <= i < |plan.amended| ==>
           AmendsRow(hash, t, Pairs(src), rows, shipped, plan.amended[i], plan.seals[i])
  {
    PlanTally(hash, t, src, Table(d), Table(bundle), stale);
    PlanMeaning(hash, t, src, Table(d), Table(bundle), stale);
    RowsKeyed(d);
    RowsKeyed(bundle);
    var plan := Evaluate(hash, t, src, Table(d), Table(bundle), stale);
    PlanAdded(hash, t, src, d, bundle, stale);
    AmendedRows(hash, t, Pairs(src), Rows(d), Rows(bundle), plan.seals, plan.amended);
    hide *;
  }

  lemma PlanAdded(hash: Structure -> string, t: Trust, src: Source, d: Doc, bundle: Doc, stale: bool)
    requires Evaluate(hash, t, src, Table(d), Table(bundle), stale).Apply?
    ensures var added := Evaluate(hash, t, src, Table(d), Table(bundle), stale).added;
      forall i, j :: 0 <= i < j < |added| ==> added[i] < added[j]
  {
    hide TallyOf, Rows, Changed, Candidates, Pairs;
    var added := Evaluate(hash, t, src, Table(d), Table(bundle), stale).added;
    forall i, j | 0 <= i < j < |added| ensures added[i] < added[j] {
      assert IntLess(added[i], added[j]);
    }
  }

  lemma AmendedRows(hash: Structure -> string, t: Trust, pairs: map<string, Body>, rows: map<int, Row>,
                    shipped: map<int, Row>, seals: seq<Seal>, amended: seq<Amended>)
    requires WellKeyed(rows) && WellKeyed(shipped)
    requires OneSealEach(hash, t, pairs, rows, shipped, Changed(rows, shipped), seals, amended)
    ensures |seals| == |amended|
    ensures forall i, j :: 0 <= i < j < |amended| ==> amended[i].id < amended[j].id
    ensures forall id :: DiffersAt(rows, shipped, id) ==> exists i :: 0 <= i < |amended| && amended[i].id == id
    ensures forall i :: 0 <= i < |amended| ==> AmendsRow(hash, t, pairs, rows, shipped, amended[i], seals[i])
  {
    hide Changed, Authorises, SealedFor, DiffersAt;
    var ids := Changed(rows, shipped);
    forall i | 0 <= i < |amended|
      ensures amended[i].id == ids[i] && AmendsRow(hash, t, pairs, rows, shipped, amended[i], seals[i])
    {
      assert ids[i] in ids;
      ChangedDiffer(rows, shipped, ids[i]);
      DifferIsBoth(rows, shipped, ids[i]);
      assert RowSealed(hash, t, pairs, rows[ids[i]], shipped[ids[i]], seals[i], amended[i]);
      AuthorisesIsSealed(hash, t, seals[i].body, rows[ids[i]], shipped[ids[i]]);
    }
    forall id | DiffersAt(rows, shipped, id) ensures exists i :: 0 <= i < |amended| && amended[i].id == id {
      ChangedDiffer(rows, shipped, id);
      var i :| 0 <= i < |ids| && ids[i] == id;
      assert amended[i].id == id;
    }
  }

  lemma AuthorisesIsSealed(hash: Structure -> string, t: Trust, body: Body, live: Row, bundle: Row)
    ensures Authorises(hash, t, body, live, bundle) <==> SealedFor(hash, t, body, live, bundle)
  {
    hide FindAll;
  }

  /** A refusal names every row it is about, in ascending order. */
  lemma RefusalNames(hash: Structure -> string, t: Trust, src: Source, d: Doc, bundle: Doc, stale: bool)
    requires Evaluate(hash, t, src, Table(d), Table(bundle), stale).Refused?
    ensures var rows, shipped := Rows(d), Rows(bundle);
      var cause := Evaluate(hash, t, src, Table(d), Table(bundle), stale).cause;
      && (cause.RowsMissing? || cause.DecisionsUnreadable? || cause.Unauthorised?)
      && (cause.RowsMissing? <==> exists id :: id in rows && id !in shipped)
      && (cause.DecisionsUnreadable? <==> !cause.RowsMissing? && src.Store? && src.records == None)
      && (forall i, j :: 0 <= i < j < |cause.ids| ==> cause.ids[i] < cause.ids[j])
      && (forall id :: id in cause.ids <==>
            if cause.RowsMissing? then id in rows && id !in shipped else DiffersAt(rows, shipped, id))
  {
    hide TallyOf, Rows, Changed, WellKeyed, Pairs, OfKind, PlainAll, Sorted;
    var rows, shipped := Rows(d), Rows(bundle);
    var cause := Evaluate(hash, t, src, Table(d), Table(bundle), stale).cause;
    RowsKeyed(d);
    RowsKeyed(bundle);
    KeysSubset(rows, shipped);
    if cause.RowsMissing? {
      SortedInts(rows.Keys - shipped.Keys);
    } else {
      forall id ensures id in cause.ids <==> DiffersAt(rows, shipped, id) {
        ChangedDiffer(rows, shipped, id);
      }
    }
  }

  lemma SortedInts(ids: set<int>)
    ensures forall i, j :: 0 <= i < j < |Sorted(ids)| ==> Sorted(ids)[i] < Sorted(ids)[j]
    ensures forall id :: id in Sorted(ids) <==> id in ids
  {
    forall i, j | 0 <= i < j < |Sorted(ids)| ensures Sorted(ids)[i] < Sorted(ids)[j] {
      assert IntLess(Sorted(ids)[i], Sorted(ids)[j]);
    }
  }

  /** A boot that is not refused and whose write goes through leaves the live table with the bundle's ids, verbs
      and grants. */
  lemma BootLands(hash: Structure -> string, d: Doc, b: TableBoots.Boot)
    requires b.live && b.written && b.bundle.Table?
    requires !Evaluate(hash, b.trust, b.src, Table(d), b.bundle, b.stale).Refused?
    ensures var now, shipped := Rows(TableBoots.AfterBoot(hash, d, b)), Rows(b.bundle.doc);
      && (forall id :: id in now <==> id in shipped)
      && (forall id | id in now :: now[id].verb == shipped[id].verb && now[id].grant == shipped[id].grant)
  {
    hide Evaluate, Rows;
    Decides(hash, b.trust, b.src, d, b.bundle.doc, b.stale);
    var rows, shipped := Rows(d), Rows(b.bundle.doc);
    if !Evaluate(hash, b.trust, b.src, Table(d), b.bundle, b.stale).Apply? {
      forall id | id in shipped ensures id in rows {
        assert !Adds(rows, shipped);
      }
      forall id | id in rows
        ensures id in shipped && rows[id].verb == shipped[id].verb && rows[id].grant == shipped[id].grant
      {
        assert !Loses(rows, shipped) && !Changes(rows, shipped);
        assert id in shipped;
        assert !DiffersAt(rows, shipped, id);
      }
    }
  }

  // ---- Ids of records --------------------------------------------------------------------------

  lemma {:induction false} StripBoth(before: string, s: string, after: string)
    requires TextLines.Blank(before) && TextLines.Blank(after)
    requires s != "" && !TextLines.IsSpace(s[0]) && !TextLines.IsSpace(s[|s| - 1])
    ensures TextLines.Strip(before + s + after) == s
    decreases |before| + |after|
  {
    var all := before + s + after;
    if before != "" {
      assert all[0] == before[0] && all[1..] == before[1..] + s + after;
      StripBoth(before[1..], s, after);
    } else if after != "" {
      assert all[0] == s[0] && all[|all| - 1] == after[|after| - 1];
      assert all[..|all| - 1] == before + s + after[..|after| - 1];
      StripBoth(before, s, after[..|after| - 1]);
    } else {
      assert all == s;
    }
  }

  /** A record's id may be the number or its decimal text between blanks, and nothing else. */
  lemma SoilReads(n: int, before: string, after: string)
    requires TextLines.Blank(before) && TextLines.Blank(after)
    ensures SoilNumber(Number(n)) == Some(n)
    ensures SoilNumber(Text(before + Decimal.OfInt(n) + after)) == Some(n)
    ensures SoilNumber(NoId) == None && SoilNumber(OtherId) == None
  {
    var text := Decimal.OfInt(n);
    var digits := Decimal.OfNat(if n < 0 then -n else n);
    assert digits[0] in digits && digits[|digits| - 1] in digits;
    assert n < 0 ==> text[1..] == digits && text[|text| - 1] == digits[|digits| - 1] && text[0] in text;
    StripBoth(before, text, after);
    Decimal.RoundTrip(if n < 0 then -n else n);
    hide Decimal.OfNat, Decimal.ToNat, TextLines.Strip;
  }

  /** Whatever text stands for an id is, blanks aside, decimal digits with perhaps one minus in front. */
  lemma OnlyNumbers(text: string)
    ensures SoilNumber(Text(text)).Some? ==>
              var s := TextLines.Strip(text);
              var digits := if s != "" && s[0] == '-' then s[1..] else s;
              digits != "" && forall i :: 0 <= i < |digits| ==> '0' <= digits[i] <= '9'
  {
    var s := TextLines.Strip(text);
    hide TextLines.Strip, Decimal.ToNat;
    if s != "" && s[0] == '-' {
      assert s[0] in s;
    }
    assert forall i :: 0 <= i < |s| ==> s[i] in s;
    assert |s| > 1 ==> forall i :: 0 <= i < |s[1..]| ==> s[1..][i] in s[1..];
  }

  /** A text that is no decimal number stands for no id. */
  lemma OtherTexts()
    ensures SoilNumber(Text("")) == None && SoilNumber(Text("x")) == None && SoilNumber(Text("1x")) == None
    ensures SoilNumber(Text("-")) == None
  {
    assert 'x' in "x" && 'x' in "1x" && '-' in "-";
    assert TextLines.Strip("x") == "x" && TextLines.Strip("1x") == "1x" && TextLines.Strip("-") == "-";
  }
}
