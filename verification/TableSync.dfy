/** The syscall table: what one evaluation of a bundle against the live table decides. */
module TableSync {
  import opened Wrappers
  import opened AmendLine
  import Decimal
  import TextLines
  import Keyset

  /** `grant` stands for bounds, enforcement, enforced_by and min_ring; `prose` for note and summary. */
  datatype Row = Row(id: int, verb: string, grant: string, prose: string)

  datatype Structure = Structure(id: int, verb: string, grant: string)

  function Structural(r: Row): Structure { Structure(r.id, r.verb, r.grant) }

  /** An entry of the verbs list; Junk is anything that is not an object with an integer id. */
  datatype Entry = Good(row: Row) | Junk

  datatype Doc = Doc(verbs: seq<Entry>, rest: string)

  /** A later row with the same id wins. */
  function RowsById(verbs: seq<Entry>): (rows: map<int, Row>)
    ensures forall id | id in rows :: rows[id].id == id && Good(rows[id]) in verbs
    decreases |verbs|
  {
    if verbs == [] then map[]
    else
      var rows := RowsById(verbs[..|verbs| - 1]);
      match verbs[|verbs| - 1]
      case Good(row) => rows[row.id := row]
      case Junk => rows
  }

  function Rows(d: Doc): map<int, Row> { RowsById(d.verbs) }

  /** A table file: absent, refused or unreadable, or read. */
  datatype File = Missing | Unreadable | Table(doc: Doc)

  /** The sealed bytes of a pair. */
  datatype Body = Body(source: string, target: string, verifier: string, sig: string, created: string)

  datatype Seal = Seal(pair: string, body: Body)

  datatype SoilId = NoId | Number(n: int) | Text(text: string) | OtherId

  /** A governance decision; only `pair` points at authority. */
  datatype Record = Record(kind: string, pair: string, id: SoilId, verb: Option<string>, from: Option<string>,
      to: Option<string>)

  const AMENDMENT_KIND := "syscall_row_amend"

  /** Where sealed pairs come from: the governance store and the pair ledger, or the request itself. */
  datatype Source =
    | Store(records: Option<seq<Record>>, ledger: map<string, Body>)
    | Carried(seals: seq<Seal>)

  /** The keyring of the process that checks: whether it loads, and what it verifies. */
  datatype Trust = Trust(ring: bool, verify: Body -> bool)

  datatype Refusal =
    | WrongKind | NoPair | NotSealed | NoRing | BadSeal | LineCount(n: nat)
    | WrongRow | WrongFrom | WrongTo | BadId | SideFieldDisagrees

  /** The carried rows by pair id: the last row of an id is kept, at the place of the first. */
  function CarriedMap(seals: seq<Seal>): map<string, Body>
    decreases |seals|
  {
    if seals == [] then map[]
    else
      var last := seals[|seals| - 1];
      var rest := CarriedMap(seals[..|seals| - 1]);
      if last.pair == "" then rest else rest[last.pair := last.body]
  }

  function CarriedIds(seals: seq<Seal>): seq<string>
    decreases |seals|
  {
    if seals == [] then []
    else
      var last := seals[|seals| - 1];
      var rest := CarriedIds(seals[..|seals| - 1]);
      if last.pair == "" || last.pair in rest then rest else rest + [last.pair]
  }

  function Pairs(src: Source): map<string, Body> {
    if src.Store? then src.ledger else CarriedMap(src.seals)
  }

  function Plain(pair: string): Record { Record(AMENDMENT_KIND, pair, NoId, None, None, None) }

  function OfKind(records: seq<Record>): seq<Record>
    decreases |records|
  {
    if records == [] then []
    else (if records[0].kind == AMENDMENT_KIND then [records[0]] else []) + OfKind(records[1..])
  }

  function PlainAll(ids: seq<string>): (records: seq<Record>)
    ensures |records| == |ids|
    ensures forall i | 0 <= i < |ids| :: records[i] == Plain(ids[i])
  {
    seq(|ids|, i requires 0 <= i < |ids| => Plain(ids[i]))
  }

  /** None when the governance store cannot be read. */
  function Candidates(src: Source): Option<seq<Record>> {
    match src
    case Store(records, _) => if records.None? then None else Some(OfKind(records.value))
    case Carried(seals) => Some(PlainAll(CarriedIds(seals)))
  }

  /** The integers a text id can stand for. */
  function ReadInt(text: string): Option<int> {
    var s := TextLines.Strip(text);
    if s != "" && Decimal.AllDigits(s) then Some(Decimal.ToNat(s))
    else if |s| > 1 && s[0] == '-' && Decimal.AllDigits(s[1..]) then
      var n: int := Decimal.ToNat(s[1..]);
      Some(-n)
    else None
  }

  function SoilNumber(id: SoilId): Option<int> {
    match id
    case Number(n) => Some(n)
    case Text(text) => ReadInt(text)
    case _ => None
  }

  /** What the one line of a sealed text has to say for this change. */
  function Needed(hash: Structure -> string, live: Row, bundle: Row): Option<Amend> {
    if live.id < 0 then None
    else Some(Amend(live.id, live.verb, hash(Structural(live)), hash(Structural(bundle))))
  }

  /** Every guard in turn; the sealed row on success. */
  function Confirm(hash: Structure -> string, t: Trust, pairs: map<string, Body>, rec: Record, live: Row,
                   bundle: Row): Result<Body, Refusal> {
    if rec.kind != AMENDMENT_KIND then Err(WrongKind)
    else if rec.pair == "" then Err(NoPair)
    else if rec.pair !in pairs then Err(NotSealed)
    else if !t.ring then Err(NoRing)
    else if !t.verify(pairs[rec.pair]) then Err(BadSeal)
    else
      var lines := FindAll(pairs[rec.pair].target);
      if |lines| != 1 then Err(LineCount(|lines|))
      else
        var line := lines[0];
        if line.id != live.id || line.verb != live.verb then Err(WrongRow)
        else if line.from != hash(Structural(live)) then Err(WrongFrom)
        else if line.to != hash(Structural(bundle)) then Err(WrongTo)
        else if rec.id != NoId && SoilNumber(rec.id) == None then Err(BadId)
        else if rec.id != NoId && SoilNumber(rec.id) != Some(line.id) then Err(SideFieldDisagrees)
        else if rec.verb.Some? && rec.verb.value != line.verb then Err(SideFieldDisagrees)
        else if rec.from.Some? && rec.from.value != line.from then Err(SideFieldDisagrees)
        else if rec.to.Some? && rec.to.value != line.to then Err(SideFieldDisagrees)
        else Ok(pairs[rec.pair])
  }

  /** The record's own fields say nothing else than its sealed line. */
  predicate SideFieldsAgree(rec: Record, line: Amend) {
    && (rec.id == NoId || SoilNumber(rec.id) == Some(line.id))
    && (rec.verb.Some? ==> rec.verb.value == line.verb)
    && (rec.from.Some? ==> rec.from.value == line.from)
    && (rec.to.Some? ==> rec.to.value == line.to)
  }

  /** A sealed text, verified against the ring, whose only amend line is this change. */
  predicate Authorises(hash: Structure -> string, t: Trust, body: Body, live: Row, bundle: Row) {
    && t.ring && t.verify(body)
    && Needed(hash, live, bundle).Some?
    && FindAll(body.target) == [Needed(hash, live, bundle).value]
  }

  /** A record is confirmed exactly when its pair is sealed, authorises the change, and it does not
      contradict its own pair. */
  lemma ConfirmIff(hash: Structure -> string, t: Trust, pairs: map<string, Body>, rec: Record, live: Row, bundle: Row)
    ensures Confirm(hash, t, pairs, rec, live, bundle).Ok? <==>
      && rec.kind == AMENDMENT_KIND && rec.pair != "" && rec.pair in pairs
      && Authorises(hash, t, pairs[rec.pair], live, bundle)
      && SideFieldsAgree(rec, Needed(hash, live, bundle).value)
    ensures Confirm(hash, t, pairs, rec, live, bundle).Ok? ==>
            Confirm(hash, t, pairs, rec, live, bundle).value == pairs[rec.pair]
  {
    hide FindAll, SoilNumber;
  }

  /** One sealed text authorises at most one change of one row. */
  lemma OneTextOneChange(hash: Structure -> string, t: Trust, body: Body, live: Row, bundle: Row, live': Row,
                         bundle': Row)
    requires Authorises(hash, t, body, live, bundle) && Authorises(hash, t, body, live', bundle')
    requires forall a, b :: hash(a) == hash(b) ==> a == b
    ensures Structural(live) == Structural(live') && Structural(bundle) == Structural(bundle')
  {
    hide FindAll;
  }

  /** The line printed for a change, sealed among other text, authorises that change exactly when the
      pattern can express its id and verb. */
  lemma PrintedLineAuthorises(hash: Structure -> string, t: Trust, body: Body, live: Row, bundle: Row, before: string,
                              after: string)
    requires t.ring && t.verify(body)
    requires IsDigest(hash(Structural(live))) && IsDigest(hash(Structural(bundle)))
    requires FindAll(before) == [] && FindAll(after) == []
    requires body.target == before + "\n" + Print(live.id, live.verb, hash(Structural(live)),
             hash(Structural(bundle))) + "\n" + after
    ensures Authorises(hash, t, body, live, bundle) <==> live.id >= 0 && live.verb != "" && All(IsInk, live.verb)
  {
    var printed := Print(live.id, live.verb, hash(Structural(live)), hash(Structural(bundle)));
    assert body.target == (before + "\n" + printed) + "\n" + after;
    FindAllJoin(before + "\n" + printed, after);
    FindAllJoin(before, printed);
    PrintFindIff(live.id, live.verb, hash(Structural(live)), hash(Structural(bundle)));
    hide FindAll, Print, IsDigest, All;
    assert FindAll(body.target) == FindAll(printed);
  }

  // ---- The plan --------------------------------------------------------------------------------

  function FirstConfirmed(hash: Structure -> string, t: Trust, pairs: map<string, Body>, cands: seq<Record>, live: Row,
                          bundle: Row): Option<Seal>
    decreases |cands|
  {
    if cands == [] then None
    else
      var first := Confirm(hash, t, pairs, cands[0], live, bundle);
      if first.Ok? then Some(Seal(cands[0].pair, first.value))
      else FirstConfirmed(hash, t, pairs, cands[1..], live, bundle)
  }

  datatype Amended = Amended(id: int, verb: string, from: string, to: string, pair: string)

  datatype Tally = Tally(amended: seq<Amended>, seals: seq<Seal>, unauthorised: seq<int>)

  function AmendedRow(hash: Structure -> string, live: Row, bundle: Row, pair: string): Amended {
    Amended(live.id, live.verb, hash(Structural(live)), hash(Structural(bundle)), pair)
  }

  predicate HasPair(seals: seq<Seal>, pair: string) { exists i :: 0 <= i < |seals| && seals[i].pair == pair }

  predicate InBoth(ids: seq<int>, live: map<int, Row>, bundle: map<int, Row>) {
    forall i :: 0 <= i < |ids| ==> ids[i] in live && ids[i] in bundle
  }

  /** The changed rows in order: each takes the first candidate that confirms it. */
  function TallyOf(hash: Structure -> string, t: Trust, pairs: map<string, Body>, cands: seq<Record>,
                   live: map<int, Row>, bundle: map<int, Row>, ids: seq<int>): Tally
    requires InBoth(ids, live, bundle)
    decreases |ids|
  {
    if ids == [] then Tally([], [], [])
    else
      var before := TallyOf(hash, t, pairs, cands, live, bundle, ids[..|ids| - 1]);
      AddRow(before, hash, live[ids[|ids| - 1]], bundle[ids[|ids| - 1]],
             FirstConfirmed(hash, t, pairs, cands, live[ids[|ids| - 1]], bundle[ids[|ids| - 1]]))
  }

  function AddRow(before: Tally, hash: Structure -> string, live: Row, bundle: Row, found: Option<Seal>): Tally {
    if found.None? then before.(unauthorised := before.unauthorised + [live.id])
    else
      Tally(before.amended + [AmendedRow(hash, live, bundle, found.value.pair)],
            if HasPair(before.seals, found.value.pair) then before.seals else before.seals + [found.value],
            before.unauthorised)
  }

  /** One tally entry for each changed row, found or not. */
  lemma {:induction false} TallyCounts(hash: Structure -> string, t: Trust, pairs: map<string, Body>,
                                       cands: seq<Record>,
                                       live: map<int, Row>, bundle: map<int, Row>, ids: seq<int>)
    requires InBoth(ids, live, bundle)
    ensures var tally := TallyOf(hash, t, pairs, cands, live, bundle, ids);
            |tally.amended| + |tally.unauthorised| == |ids|
    decreases |ids|
  {
    hide FirstConfirmed;
    if ids != [] { TallyCounts(hash, t, pairs, cands, live, bundle, ids[..|ids| - 1]); }
  }

  predicate IntLess(a: int, b: int) { a < b }

  lemma IntTotal()
    ensures Keyset.StrictTotal(IntLess)
  {
  }

  function Sorted(ids: set<int>): (s: seq<int>)
    ensures |s| == |ids|
    ensures forall id :: id in s <==> id in ids
    ensures Keyset.Ascending(IntLess, s)
  {
    IntTotal();
    Keyset.Sort(IntLess, ids)
  }

  function ChangedIds(live: map<int, Row>, bundle: map<int, Row>): set<int> {
    set id | id in live && id in bundle && Structural(live[id]) != Structural(bundle[id])
  }

  /** The changed rows in ascending order. */
  function Changed(live: map<int, Row>, bundle: map<int, Row>): (ids: seq<int>)
    ensures InBoth(ids, live, bundle)
    ensures forall i, j :: 0 <= i < j < |ids| ==> ids[i] < ids[j]
    ensures forall id :: id in ids <==> id in ChangedIds(live, bundle)
    ensures |ids| == |ChangedIds(live, bundle)|
  {
    var ids := Sorted(ChangedIds(live, bundle));
    ChangedInBoth(ids, live, bundle);
    ids
  }

  lemma ChangedInBoth(ids: seq<int>, live: map<int, Row>, bundle: map<int, Row>)
    requires forall id :: id in ids <==> id in ChangedIds(live, bundle)
    requires Keyset.Ascending(IntLess, ids)
    ensures InBoth(ids, live, bundle)
    ensures forall i, j :: 0 <= i < j < |ids| ==> ids[i] < ids[j]
  {
    forall i | 0 <= i < |ids| ensures ids[i] in live && ids[i] in bundle {
      assert ids[i] in ids;
    }
    forall i, j | 0 <= i < j < |ids| ensures ids[i] < ids[j] {
      assert IntLess(ids[i], ids[j]);
    }
  }

  datatype Cause = BundleMissing | LiveUnreadable | BundleUnreadable | RowsMissing(ids: seq<int>)
                 | DecisionsUnreadable(ids: seq<int>) | Unauthorised(ids: seq<int>)

  datatype Plan =
    | NoTable
    | Refused(cause: Cause)
    | UpToDate
    | Resign
    | Apply(added: seq<int>, amended: seq<Amended>, seals: seq<Seal>, doc: Doc)

  /** `stale` says that signatures are on and the live table's does not verify. */
  function Evaluate(hash: Structure -> string, t: Trust, src: Source, live: File, bundle: File, stale: bool): Plan {
    if live == Missing then NoTable
    else if bundle == Missing then Refused(BundleMissing)
    else if live == Unreadable then Refused(LiveUnreadable)
    else if bundle == Unreadable then Refused(BundleUnreadable)
    else
      var rows, shipped := Rows(live.doc), Rows(bundle.doc);
      if !(rows.Keys <= shipped.Keys) then Refused(RowsMissing(Sorted(rows.Keys - shipped.Keys)))
      else
        var changed := Changed(rows, shipped);
        if changed != [] && Candidates(src).None? then Refused(DecisionsUnreadable(changed))
        else
          var tally := if changed == [] then Tally([], [], [])
                       else TallyOf(hash, t, Pairs(src), Candidates(src).value, rows, shipped, changed);
          if tally.unauthorised != [] then Refused(Unauthorised(changed))
          else
            var added := Sorted(shipped.Keys - rows.Keys);
            if added == [] && tally.amended == [] then (if stale then Resign else UpToDate)
            else Apply(added, tally.amended, tally.seals, bundle.doc)
  }

  // ---- What an applied plan means --------------------------------------------------------------

  lemma {:induction false} FirstIsConfirmed(hash: Structure -> string, t: Trust, pairs: map<string, Body>,
                                            cands: seq<Record>, live: Row, bundle: Row)
    ensures var found := FirstConfirmed(hash, t, pairs, cands, live, bundle);
      found.Some? ==>
        && found.value.pair != "" && found.value.pair in pairs && pairs[found.value.pair] == found.value.body
        && Authorises(hash, t, found.value.body, live, bundle)
    decreases |cands|
  {
    hide Confirm, Authorises, SideFieldsAgree;
    if cands != [] {
      ConfirmIff(hash, t, pairs, cands[0], live, bundle);
      FirstIsConfirmed(hash, t, pairs, cands[1..], live, bundle);
    }
  }

  /** The seals of a tally with nothing unauthorised: one per row, in order, no pair twice. */
  ghost predicate OneSealEach(hash: Structure -> string, t: Trust, pairs: map<string, Body>,
                              live: map<int, Row>, bundle: map<int, Row>, ids: seq<int>, seals: seq<Seal>,
                                  amended: seq<Amended>) {
    && InBoth(ids, live, bundle)
    && |seals| == |amended| == |ids|
    && (forall i :: 0 <= i < |ids| ==> RowSealed(hash, t, pairs, live[ids[i]], bundle[ids[i]], seals[i], amended[i]))
    && (forall i, j :: 0 <= i < j < |seals| ==> seals[i].pair != seals[j].pair)
  }

  predicate RowSealed(hash: Structure -> string, t: Trust, pairs: map<string, Body>, live: Row, bundle: Row,
                      seal: Seal, amended: Amended) {
    && seal.pair != "" && seal.pair in pairs && pairs[seal.pair] == seal.body
    && Authorises(hash, t, seal.body, live, bundle)
    && amended == AmendedRow(hash, live, bundle, seal.pair)
  }

  ghost predicate WellKeyed(rows: map<int, Row>) { forall id | id in rows :: rows[id].id == id }

  /** One more row, under a seal of its own. */
  lemma SealAdded(hash: Structure -> string, t: Trust, pairs: map<string, Body>, live: map<int, Row>,
                  bundle: map<int, Row>, ids: seq<int>, before: Tally, found: Seal)
    requires ids != [] && InBoth(ids, live, bundle)
    requires WellKeyed(live) && (forall i, j :: 0 <= i < j < |ids| ==> ids[i] != ids[j])
    requires OneSealEach(hash, t, pairs, live, bundle, ids[..|ids| - 1], before.seals, before.amended)
    requires found.pair != "" && found.pair in pairs && pairs[found.pair] == found.body
    requires Authorises(hash, t, found.body, live[ids[|ids| - 1]], bundle[ids[|ids| - 1]])
    ensures var after := AddRow(before, hash, live[ids[|ids| - 1]], bundle[ids[|ids| - 1]], Some(found));
      OneSealEach(hash, t, pairs, live, bundle, ids, after.seals, after.amended)
  {
    hide Authorises;
    var n := |ids| - 1;
    forall i | 0 <= i < n
      ensures before.seals[i].pair != found.pair
      ensures RowSealed(hash, t, pairs, live[ids[i]], bundle[ids[i]], before.seals[i], before.amended[i])
    {
      assert ids[..n][i] == ids[i];
      assert RowSealed(hash, t, pairs, live[ids[..n][i]], bundle[ids[..n][i]], before.seals[i], before.amended[i]);
      PairNamesRow(hash, t, before.seals[i].body, live[ids[i]], bundle[ids[i]], found.body, live[ids[n]],
          bundle[ids[n]]);
    }
    assert !HasPair(before.seals, found.pair);
  }

  lemma {:induction false} TallySealed(hash: Structure -> string, t: Trust, pairs: map<string, Body>,
                                       cands: seq<Record>,
                                       live: map<int, Row>, bundle: map<int, Row>, ids: seq<int>)
    requires InBoth(ids, live, bundle)
    requires WellKeyed(live) && (forall i, j :: 0 <= i < j < |ids| ==> ids[i] != ids[j])
    requires TallyOf(hash, t, pairs, cands, live, bundle, ids).unauthorised == []
    ensures var tally := TallyOf(hash, t, pairs, cands, live, bundle, ids);
      OneSealEach(hash, t, pairs, live, bundle, ids, tally.seals, tally.amended)
    decreases |ids|
  {
    hide FirstConfirmed, Authorises, WellKeyed;
    if ids != [] {
      hide OneSealEach;
      var n := |ids| - 1;
      TallySealed(hash, t, pairs, cands, live, bundle, ids[..n]);
      FirstIsConfirmed(hash, t, pairs, cands, live[ids[n]], bundle[ids[n]]);
      var before := TallyOf(hash, t, pairs, cands, live, bundle, ids[..n]);
      var found := FirstConfirmed(hash, t, pairs, cands, live[ids[n]], bundle[ids[n]]);
      SealAdded(hash, t, pairs, live, bundle, ids, before, found.value);
    }
  }

  lemma PairNamesRow(hash: Structure -> string, t: Trust, a: Body, live: Row, bundle: Row, b: Body, live': Row,
                     bundle': Row)
    requires Authorises(hash, t, a, live, bundle) && Authorises(hash, t, b, live', bundle')
    ensures a == b ==> live.id == live'.id
  {
    hide FindAll;
  }

  // ---- The two evaluations agree ---------------------------------------------------------------

  /** What the plan carries: the pair ids in order, each with its sealed row. */
  lemma {:induction false} CarriedDistinct(seals: seq<Seal>)
    requires forall i, j :: 0 <= i < j < |seals| ==> seals[i].pair != seals[j].pair
    requires forall i :: 0 <= i < |seals| ==> seals[i].pair != ""
    ensures |CarriedIds(seals)| == |seals|
    ensures forall i :: 0 <= i < |seals| ==> CarriedIds(seals)[i] == seals[i].pair
    ensures forall i :: 0 <= i < |seals| ==>
              seals[i].pair in CarriedMap(seals) && CarriedMap(seals)[seals[i].pair] == seals[i].body
    decreases |seals|
  {
    if seals != [] {
      var n := |seals| - 1;
      var rest := seals[..n];
      CarriedDistinct(rest);
      assert seals[n].pair !in CarriedIds(rest);
      forall i | 0 <= i < |seals|
        ensures CarriedIds(seals)[i] == seals[i].pair
        ensures seals[i].pair in CarriedMap(seals) && CarriedMap(seals)[seals[i].pair] == seals[i].body
      {
        if i < n { assert rest[i] == seals[i]; }
      }
    }
  }

  /** A carried pair confirms exactly the row it was carried for. */
  lemma CarriedConfirms(hash: Structure -> string, t: Trust, pairs: map<string, Body>, seals: seq<Seal>,
                        amended: seq<Amended>,
                        live: map<int, Row>, bundle: map<int, Row>, ids: seq<int>, row: nat, cand: nat)
    requires InBoth(ids, live, bundle) && WellKeyed(live)
    requires forall i, j :: 0 <= i < j < |ids| ==> ids[i] < ids[j]
    requires OneSealEach(hash, t, pairs, live, bundle, ids, seals, amended)
    requires row < |ids| && cand < |ids|
    ensures var c := Confirm(hash, t, CarriedMap(seals), Plain(seals[cand].pair), live[ids[row]], bundle[ids[row]]);
      && (c.Ok? <==> cand == row)
      && (c.Ok? ==> c.value == seals[cand].body)
  {
    hide Authorises, Confirm;
    assert RowSealed(hash, t, pairs, live[ids[cand]], bundle[ids[cand]], seals[cand], amended[cand]);
    assert forall i :: 0 <= i < |seals| ==> seals[i].pair != "" by {
      forall i | 0 <= i < |seals| ensures seals[i].pair != "" {
        assert RowSealed(hash, t, pairs, live[ids[i]], bundle[ids[i]], seals[i], amended[i]);
      }
    }
    CarriedDistinct(seals);
    ConfirmIff(hash, t, CarriedMap(seals), Plain(seals[cand].pair), live[ids[row]], bundle[ids[row]]);
    if cand != row {
      NamesOther(hash, t, seals[cand].body, live[ids[cand]], bundle[ids[cand]], live[ids[row]], bundle[ids[row]]);
    }
  }

  lemma NamesOther(hash: Structure -> string, t: Trust, body: Body, live: Row, bundle: Row, live': Row, bundle': Row)
    requires Authorises(hash, t, body, live, bundle) && live.id != live'.id
    ensures !Authorises(hash, t, body, live', bundle')
  {
    hide FindAll;
  }

  lemma {:induction false} FirstOf(hash: Structure -> string, t: Trust, pairs: map<string, Body>, cands: seq<Record>,
                                   live: Row, bundle: Row, own: nat, from: nat)
    requires from <= own < |cands|
    requires forall c :: 0 <= c < |cands| ==> (Confirm(hash, t, pairs, cands[c], live, bundle).Ok? <==> c == own)
    ensures FirstConfirmed(hash, t, pairs, cands[from..], live, bundle) ==
            Some(Seal(cands[own].pair, Confirm(hash, t, pairs, cands[own], live, bundle).value))
    decreases own - from
  {
    hide Confirm;
    assert cands[from..][0] == cands[from] && cands[from..][1..] == cands[from + 1..];
    if from < own {
      FirstOf(hash, t, pairs, cands, live, bundle, own, from + 1);
    }
  }

  /** So the first carried pair that confirms a row is its own. */
  lemma FirstCarried(hash: Structure -> string, t: Trust, pairs: map<string, Body>, seals: seq<Seal>,
                     amended: seq<Amended>,
                     live: map<int, Row>, bundle: map<int, Row>, ids: seq<int>, row: nat)
    requires InBoth(ids, live, bundle) && WellKeyed(live)
    requires forall i, j :: 0 <= i < j < |ids| ==> ids[i] < ids[j]
    requires OneSealEach(hash, t, pairs, live, bundle, ids, seals, amended)
    requires row < |ids|
    ensures |seals| == |ids|
    ensures FirstConfirmed(hash, t, CarriedMap(seals), PlainAll(CarriedIds(seals)), live[ids[row]],
            bundle[ids[row]]) == Some(seals[row])
  {
    hide Confirm, CarriedMap, CarriedIds, OneSealEach, WellKeyed, Authorises, FirstConfirmed;
    CarriedLength(hash, t, pairs, seals, amended, live, bundle, ids);
    var cands := PlainAll(CarriedIds(seals));
    forall c | 0 <= c < |cands|
      ensures var got := Confirm(hash, t, CarriedMap(seals), cands[c], live[ids[row]], bundle[ids[row]]);
        (got.Ok? <==> c == row) && (got.Ok? ==> got.value == seals[c].body)
    {
      CarriedConfirms(hash, t, pairs, seals, amended, live, bundle, ids, row, c);
    }
    FirstOf(hash, t, CarriedMap(seals), cands, live[ids[row]], bundle[ids[row]], row, 0);
    assert cands[0..] == cands;
  }

  lemma CarriedLength(hash: Structure -> string, t: Trust, pairs: map<string, Body>, seals: seq<Seal>,
                      amended: seq<Amended>,
                      live: map<int, Row>, bundle: map<int, Row>, ids: seq<int>)
    requires OneSealEach(hash, t, pairs, live, bundle, ids, seals, amended)
    ensures |seals| == |ids| && |CarriedIds(seals)| == |seals|
    ensures forall i :: 0 <= i < |seals| ==> seals[i].pair != ""
    ensures forall i :: 0 <= i < |seals| ==> CarriedIds(seals)[i] == seals[i].pair
  {
    hide Authorises, CarriedIds, CarriedMap;
    forall i | 0 <= i < |seals| ensures seals[i].pair != "" {
      assert RowSealed(hash, t, pairs, live[ids[i]], bundle[ids[i]], seals[i], amended[i]);
    }
    CarriedDistinct(seals);
  }

  /** Row by row, the evaluation over carried pairs builds the tally the store built. */
  lemma {:induction false} TallyCarried(hash: Structure -> string, t: Trust, pairs: map<string, Body>,
                                        seals: seq<Seal>, amended: seq<Amended>,
                                        live: map<int, Row>, bundle: map<int, Row>, ids: seq<int>, n: nat)
    requires InBoth(ids, live, bundle) && WellKeyed(live)
    requires forall i, j :: 0 <= i < j < |ids| ==> ids[i] < ids[j]
    requires OneSealEach(hash, t, pairs, live, bundle, ids, seals, amended)
    requires n <= |ids| == |seals| == |amended|
    ensures InBoth(ids[..n], live, bundle)
    ensures TallyOf(hash, t, CarriedMap(seals), PlainAll(CarriedIds(seals)), live, bundle, ids[..n]) ==
            Tally(amended[..n], seals[..n], [])
    decreases n
  {
    hide FirstConfirmed, CarriedMap, CarriedIds, PlainAll, OneSealEach, WellKeyed;
    if n > 0 {
      TallyCarried(hash, t, pairs, seals, amended, live, bundle, ids, n - 1);
      assert ids[..n][..n - 1] == ids[..n - 1];
      FirstCarried(hash, t, pairs, seals, amended, live, bundle, ids, n - 1);
      AmendedAt(hash, t, pairs, seals, amended, live, bundle, ids, n - 1);
      assert seals[..n - 1] + [seals[n - 1]] == seals[..n] && amended[..n - 1] + [amended[n - 1]] == amended[..n];
    }
  }

  lemma AmendedAt(hash: Structure -> string, t: Trust, pairs: map<string, Body>, seals: seq<Seal>,
                  amended: seq<Amended>,
                  live: map<int, Row>, bundle: map<int, Row>, ids: seq<int>, i: nat)
    requires OneSealEach(hash, t, pairs, live, bundle, ids, seals, amended) && i < |ids|
    ensures |seals| == |amended| == |ids| && !HasPair(seals[..i], seals[i].pair)
    ensures amended[i] == AmendedRow(hash, live[ids[i]], bundle[ids[i]], seals[i].pair)
  {
    assert RowSealed(hash, t, pairs, live[ids[i]], bundle[ids[i]], seals[i], amended[i]);
  }

  /** The rows of a table are keyed by their own ids. */
  lemma RowsKeyed(d: Doc)
    ensures WellKeyed(Rows(d))
  {
  }

  lemma PlanTally(hash: Structure -> string, t: Trust, src: Source, live: File, bundle: File, stale: bool)
    requires Evaluate(hash, t, src, live, bundle, stale).Apply?
    ensures live.Table? && bundle.Table?
    ensures var plan := Evaluate(hash, t, src, live, bundle, stale);
      OneSealEach(hash, t, Pairs(src), Rows(live.doc), Rows(bundle.doc), Changed(Rows(live.doc), Rows(bundle.doc)),
          plan.seals, plan.amended)
  {
    hide TallyOf, CarriedMap, CarriedIds, Rows, Sorted, ChangedIds, RowSealed;
    var rows, shipped := Rows(live.doc), Rows(bundle.doc);
    var ids := Changed(rows, shipped);
    RowsKeyed(live.doc);
    if ids != [] {
      hide OneSealEach;
      TallySealed(hash, t, Pairs(src), Candidates(src).value, rows, shipped, ids);
    }
  }

  /** The trust owner, given only the seals the plan carries, reaches the very same plan. */
  lemma CarriedAgrees(hash: Structure -> string, t: Trust, src: Source, live: File, bundle: File, stale: bool)
    requires Evaluate(hash, t, src, live, bundle, stale).Apply?
    ensures var plan := Evaluate(hash, t, src, live, bundle, stale);
      Evaluate(hash, t, Carried(plan.seals), live, bundle, stale) == plan
  {
    hide TallyOf, Sorted, CarriedMap, CarriedIds, Rows, ChangedIds, OneSealEach;
    var plan := Evaluate(hash, t, src, live, bundle, stale);
    var rows, shipped := Rows(live.doc), Rows(bundle.doc);
    var ids := Changed(rows, shipped);
    if ids != [] {
      RowsKeyed(live.doc);
      PlanTally(hash, t, src, live, bundle, stale);
      SealCount(hash, t, Pairs(src), rows, shipped, ids, plan.seals, plan.amended);
      TallyCarried(hash, t, Pairs(src), plan.seals, plan.amended, rows, shipped, ids, |ids|);
      assert ids[..|ids|] == ids;
      assert plan.seals[..|ids|] == plan.seals && plan.amended[..|ids|] == plan.amended;
    }
  }

  lemma SealCount(hash: Structure -> string, t: Trust, pairs: map<string, Body>, live: map<int, Row>,
                  bundle: map<int, Row>,
                  ids: seq<int>, seals: seq<Seal>, amended: seq<Amended>)
    requires OneSealEach(hash, t, pairs, live, bundle, ids, seals, amended)
    ensures |seals| == |amended| == |ids|
  {
  }

  /** What an applied plan holds: nothing live is missing from the bundle, the amended rows are exactly
      the changed ones, each under its own verified pair, and the added rows are exactly the new ones. */
  lemma PlanMeaning(hash: Structure -> string, t: Trust, src: Source, live: File, bundle: File, stale: bool)
    requires Evaluate(hash, t, src, live, bundle, stale).Apply?
    ensures var plan := Evaluate(hash, t, src, live, bundle, stale);
      && live.Table? && bundle.Table? && plan.doc == bundle.doc
      && (var rows, shipped := Rows(live.doc), Rows(bundle.doc);
          && rows.Keys <= shipped.Keys
          && (forall id :: id in plan.added <==> id in shipped && id !in rows)
          && OneSealEach(hash, t, Pairs(src), rows, shipped, Changed(rows, shipped), plan.seals, plan.amended))
  {
    hide TallyOf, CarriedMap, CarriedIds, Rows, OneSealEach, Changed, Candidates;
    PlanTally(hash, t, src, live, bundle, stale);
  }
}
