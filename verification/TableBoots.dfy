/** Evaluation as it runs, boots in a row, and the files the apply half writes. */
module TableBoots {
  import opened Wrappers
  import opened AmendLine
  import opened TableSync

  // ---- The evaluation loops --------------------------------------------------------------------

  /** The candidate loop for one row: it stops at the first that confirms. */
  method FindSeal(hash: Structure -> string, t: Trust, pairs: map<string, Body>, cands: seq<Record>, live: Row,
                  bundle: Row)
    returns (found: Option<Seal>)
    ensures found == FirstConfirmed(hash, t, pairs, cands, live, bundle)
  {
    hide Confirm;
    found := None;
    var i := 0;
    assert cands[0..] == cands;
    while i < |cands|
      invariant 0 <= i <= |cands| && found.None?
      invariant FirstConfirmed(hash, t, pairs, cands, live, bundle) ==
                FirstConfirmed(hash, t, pairs, cands[i..], live, bundle)
    {
      assert cands[i..][0] == cands[i] && cands[i..][1..] == cands[i + 1..];
      var checked := Confirm(hash, t, pairs, cands[i], live, bundle);
      if checked.Ok? { return Some(Seal(cands[i].pair, checked.value)); }
      i := i + 1;
    }
  }

  method Seen(seals: seq<Seal>, pair: string) returns (seen: bool)
    ensures seen == HasPair(seals, pair)
  {
    seen := false;
    for i := 0 to |seals|
      invariant seen == HasPair(seals[..i], pair)
    {
      if seals[i].pair == pair {
        assert seals[..i + 1][i] == seals[i];
        seen := true;
      } else {
        assert seals[..i + 1] == seals[..i] + [seals[i]];
        SeenMore(seals[..i], seals[i], pair);
      }
      if seen { StillSeen(seals, i, pair); }
    }
    assert seals[..|seals|] == seals;
  }

  lemma SeenMore(seals: seq<Seal>, next: Seal, pair: string)
    requires next.pair != pair
    ensures HasPair(seals + [next], pair) == HasPair(seals, pair)
  {
    if HasPair(seals, pair) {
      var i :| 0 <= i < |seals| && seals[i].pair == pair;
      assert (seals + [next])[i].pair == pair;
    }
  }

  lemma StillSeen(seals: seq<Seal>, i: nat, pair: string)
    requires i < |seals| && (HasPair(seals[..i], pair) || seals[i].pair == pair)
    ensures HasPair(seals[..i + 1], pair)
  {
    if HasPair(seals[..i], pair) {
      var k :| 0 <= k < i && seals[..i][k].pair == pair;
      assert seals[..i + 1][k].pair == pair;
    } else {
      assert seals[..i + 1][i].pair == pair;
    }
  }

  /** The loop over the changed rows. */
  method TallyRows(hash: Structure -> string, t: Trust, pairs: map<string, Body>, cands: seq<Record>,
                   live: map<int, Row>, bundle: map<int, Row>, ids: seq<int>) returns (tally: Tally)
    requires InBoth(ids, live, bundle)
    ensures tally == TallyOf(hash, t, pairs, cands, live, bundle, ids)
  {
    hide FirstConfirmed;
    var amended, seals, unauthorised := [], [], [];
    for i := 0 to |ids|
      invariant InBoth(ids[..i], live, bundle)
      invariant Tally(amended, seals, unauthorised) == TallyOf(hash, t, pairs, cands, live, bundle, ids[..i])
    {
      assert ids[..i + 1][..i] == ids[..i];
      var vid := ids[i];
      var found := FindSeal(hash, t, pairs, cands, live[vid], bundle[vid]);
      if found.None? {
        unauthorised := unauthorised + [live[vid].id];
      } else {
        var pair := found.value.pair;
        var seen := Seen(seals, pair);
        if !seen { seals := seals + [found.value]; }
        amended := amended + [AmendedRow(hash, live[vid], bundle[vid], pair)];
      }
    }
    assert ids[..|ids|] == ids;
    tally := Tally(amended, seals, unauthorised);
  }

  method EvaluateSync(hash: Structure -> string, t: Trust, src: Source, live: File, bundle: File,
                      stale: bool) returns (plan: Plan)
    ensures plan == Evaluate(hash, t, src, live, bundle, stale)
  {
    hide TallyOf, Sorted, ChangedIds, RowsById;
    if live == Missing { return NoTable; }
    if bundle == Missing { return Refused(BundleMissing); }
    if live == Unreadable { return Refused(LiveUnreadable); }
    if bundle == Unreadable { return Refused(BundleUnreadable); }
    var rows, shipped := Rows(live.doc), Rows(bundle.doc);
    if !(rows.Keys <= shipped.Keys) { return Refused(RowsMissing(Sorted(rows.Keys - shipped.Keys))); }
    var changed := Changed(rows, shipped);
    var tally := Tally([], [], []);
    if changed != [] {
      var cands := Candidates(src);
      if cands.None? { return Refused(DecisionsUnreadable(changed)); }
      tally := TallyRows(hash, t, Pairs(src), cands.value, rows, shipped, changed);
      if tally.unauthorised != [] { return Refused(Unauthorised(changed)); }
    }
    var added := Sorted(shipped.Keys - rows.Keys);
    if added == [] && tally.amended == [] {
      return if stale then Resign else UpToDate;
    }
    plan := Apply(added, tally.amended, tally.seals, bundle.doc);
  }

  // ---- Boots in a row --------------------------------------------------------------------------

  /** One boot: its keyring, its decisions, its bundle, and whether the write went through. */
  datatype Boot = Boot(trust: Trust, src: Source, live: bool, bundle: File, stale: bool, written: bool)

  /** Evaluation and apply as one step; `live` says that the live table could be read. */
  function AfterBoot(hash: Structure -> string, d: Doc, b: Boot): Doc {
    var plan := Evaluate(hash, b.trust, b.src, if b.live then Table(d) else Unreadable, b.bundle, b.stale);
    if plan.Apply? && b.written then plan.doc else d
  }

  function AfterBoots(hash: Structure -> string, d: Doc, boots: seq<Boot>): Doc
    decreases |boots|
  {
    if boots == [] then d else AfterBoots(hash, AfterBoot(hash, d, boots[0]), boots[1..])
  }

  /** A boot held a verified sealed text whose only amend line is this edge. */
  ghost predicate Sealed(b: Boot, edge: Amend) {
    && b.trust.ring
    && exists pair ::
         && pair in Pairs(b.src)
         && b.trust.verify(Pairs(b.src)[pair])
         && FindAll(Pairs(b.src)[pair].target) == [edge]
  }

  /** One boot keeps every live row, and changes one only along an edge sealed for its id and verb. */
  lemma BootMoves(hash: Structure -> string, d: Doc, b: Boot, id: int)
    requires id in Rows(d)
    ensures id in Rows(AfterBoot(hash, d, b))
    ensures var was, now := Rows(d)[id], Rows(AfterBoot(hash, d, b))[id];
      Structural(was) == Structural(now) ||
      (id >= 0 && Sealed(b, Amend(id, was.verb, hash(Structural(was)), hash(Structural(now)))))
  {
    hide FindAll, RowsById, Evaluate, Authorises;
    var file := if b.live then Table(d) else Unreadable;
    var plan := Evaluate(hash, b.trust, b.src, file, b.bundle, b.stale);
    if plan.Apply? && b.written {
      PlanMeaning(hash, b.trust, b.src, file, b.bundle, b.stale);
      assert file == Table(d);
      var rows, shipped := Rows(d), Rows(b.bundle.doc);
      var ids := Changed(rows, shipped);
      if Structural(rows[id]) != Structural(shipped[id]) {
        assert id in ids;
        var i :| 0 <= i < |ids| && ids[i] == id;
        SealAt(hash, b.trust, Pairs(b.src), rows, shipped, ids, plan.seals, plan.amended, i);
        RowsKeyed(d);
        SealIsEdge(hash, b, plan.seals[i], rows[id], shipped[id]);
      }
    }
  }

  lemma SealAt(hash: Structure -> string, t: Trust, pairs: map<string, Body>, live: map<int, Row>,
               bundle: map<int, Row>,
               ids: seq<int>, seals: seq<Seal>, amended: seq<Amended>, i: nat)
    requires OneSealEach(hash, t, pairs, live, bundle, ids, seals, amended) && i < |ids|
    ensures |seals| == |ids| && ids[i] in live && ids[i] in bundle
    ensures seals[i].pair in pairs && pairs[seals[i].pair] == seals[i].body
    ensures Authorises(hash, t, seals[i].body, live[ids[i]], bundle[ids[i]])
  {
    hide Authorises;
    assert ids[i] in ids;
    assert RowSealed(hash, t, pairs, live[ids[i]], bundle[ids[i]], seals[i], amended[i]);
  }

  lemma SealIsEdge(hash: Structure -> string, b: Boot, seal: Seal, live: Row, bundle: Row)
    requires seal.pair in Pairs(b.src) && Pairs(b.src)[seal.pair] == seal.body
    requires Authorises(hash, b.trust, seal.body, live, bundle)
    ensures live.id >= 0 && Sealed(b, Amend(live.id, live.verb, hash(Structural(live)), hash(Structural(bundle))))
  {
    hide FindAll, Pairs;
  }

  /** The row of an id before boot `k`. */
  function RowBefore(hash: Structure -> string, d: Doc, boots: seq<Boot>, id: int, k: nat): Option<Row>
    requires k <= |boots|
  {
    var rows := Rows(AfterBoots(hash, d, boots[..k]));
    if id in rows then Some(rows[id]) else None
  }

  /** The edge a boot took a row along: for this id and for the verb the row then had. */
  predicate MovedAt(hash: Structure -> string, d: Doc, boots: seq<Boot>, id: int, k: nat, edge: Amend)
    requires k < |boots|
  {
    var was, now := RowBefore(hash, d, boots, id, k), RowBefore(hash, d, boots, id, k + 1);
    && was.Some? && now.Some? && edge.id == id && edge.verb == was.value.verb
    && edge.from == hash(Structural(was.value)) && edge.to == hash(Structural(now.value))
  }

  /** The boots at which a row moved, in order, each with its sealed edge; at every other boot it stayed. */
  datatype Move = Move(boot: nat, edge: Amend)

  ghost predicate TrailTo(hash: Structure -> string, d: Doc, boots: seq<Boot>, id: int, n: nat, moves: seq<Move>) {
    && n <= |boots|
    && (forall i, j :: 0 <= i < j < |moves| ==> moves[i].boot < moves[j].boot)
    && (forall i :: 0 <= i < |moves| ==> moves[i].boot < n && IsMove(hash, d, boots, id, moves[i]))
    && (forall k: nat :: k < n ==> Stayed(hash, d, boots, id, k) || MovesAt(moves, k))
  }

  ghost predicate IsMove(hash: Structure -> string, d: Doc, boots: seq<Boot>, id: int, move: Move) {
    && move.boot < |boots|
    && Sealed(boots[move.boot], move.edge) && MovedAt(hash, d, boots, id, move.boot, move.edge)
  }

  predicate MovesAt(moves: seq<Move>, k: nat) { exists i :: 0 <= i < |moves| && moves[i].boot == k }

  /** The boot left the row's structure as it was. */
  predicate Stayed(hash: Structure -> string, d: Doc, boots: seq<Boot>, id: int, k: nat)
    requires k < |boots|
  {
    var was, now := RowBefore(hash, d, boots, id, k), RowBefore(hash, d, boots, id, k + 1);
    was.Some? && now.Some? && Structural(was.value) == Structural(now.value)
  }

  lemma {:induction false} AfterPrefix(hash: Structure -> string, d: Doc, boots: seq<Boot>, last: Boot)
    ensures AfterBoots(hash, d, boots + [last]) == AfterBoot(hash, AfterBoots(hash, d, boots), last)
    decreases |boots|
  {
    hide AfterBoot;
    if boots == [] {
      assert ([last])[1..] == [] && [] + [last] == [last];
    } else {
      assert (boots + [last])[1..] == boots[1..] + [last] && (boots + [last])[0] == boots[0];
      AfterPrefix(hash, AfterBoot(hash, d, boots[0]), boots[1..], last);
    }
  }

  /** One boot of a run: the row is still there, and stayed or moved along a sealed edge. */
  lemma StepOfRun(hash: Structure -> string, d: Doc, boots: seq<Boot>, id: int, k: nat) returns (edge: Amend)
    requires k < |boots| && RowBefore(hash, d, boots, id, k).Some?
    ensures RowBefore(hash, d, boots, id, k + 1).Some?
    ensures Stayed(hash, d, boots, id, k) || (Sealed(boots[k], edge) && MovedAt(hash, d, boots, id, k, edge))
  {
    hide Rows, AfterBoot, AfterBoots, Sealed;
    var before := AfterBoots(hash, d, boots[..k]);
    assert boots[..k + 1] == boots[..k] + [boots[k]];
    AfterPrefix(hash, d, boots[..k], boots[k]);
    BootMoves(hash, before, boots[k], id);
    var was, now := Rows(before)[id], Rows(AfterBoot(hash, before, boots[k]))[id];
    edge := Amend(if id >= 0 then id else 0, was.verb, hash(Structural(was)), hash(Structural(now)));
  }

  /** Over the first boots of any run the row is never lost, and moves only at the boots of its trail, each
      time along an edge that boot held sealed for exactly this id and the row's verb at that moment. */
  lemma {:induction false} PrefixMoves(hash: Structure -> string, d: Doc, boots: seq<Boot>, id: int, n: nat)
    returns (moves: seq<Move>)
    requires id in Rows(d) && n <= |boots|
    ensures RowBefore(hash, d, boots, id, n).Some?
    ensures TrailTo(hash, d, boots, id, n, moves)
  {
    hide Rows, AfterBoot, Sealed, Stayed, MovedAt;
    if n == 0 {
      moves := [];
      assert boots[..0] == [];
    } else {
      var shorter := PrefixMoves(hash, d, boots, id, n - 1);
      var edge := StepOfRun(hash, d, boots, id, n - 1);
      moves := Extended(hash, d, boots, id, n - 1, shorter, edge);
    }
  }

  lemma Extended(hash: Structure -> string, d: Doc, boots: seq<Boot>, id: int, n: nat, shorter: seq<Move>, edge: Amend)
    returns (moves: seq<Move>)
    requires n < |boots| && TrailTo(hash, d, boots, id, n, shorter)
    requires Stayed(hash, d, boots, id, n) || IsMove(hash, d, boots, id, Move(n, edge))
    ensures TrailTo(hash, d, boots, id, n + 1, moves)
  {
    hide IsMove, Stayed;
    moves := if Stayed(hash, d, boots, id, n) then shorter else shorter + [Move(n, edge)];
    forall k: nat | k < n + 1 ensures Stayed(hash, d, boots, id, k) || MovesAt(moves, k) {
      if k < n && MovesAt(shorter, k) {
        var i :| 0 <= i < |shorter| && shorter[i].boot == k;
        assert moves[i].boot == k;
      }
      if k == n && moves != shorter {
        assert moves[|shorter|].boot == k;
      }
    }
  }

  /** Over any run of boots no live row disappears, and each row moves only along sealed edges, in order. */
  lemma RunMoves(hash: Structure -> string, d: Doc, boots: seq<Boot>, id: int) returns (moves: seq<Move>)
    requires id in Rows(d)
    ensures id in Rows(AfterBoots(hash, d, boots))
    ensures TrailTo(hash, d, boots, id, |boots|, moves)
  {
    hide Rows, AfterBoots, TrailTo;
    moves := PrefixMoves(hash, d, boots, id, |boots|);
    assert boots[..|boots|] == boots;
  }

  /** A row for which no boot held a sealed edge keeps its structure for ever. */
  lemma UnsealedRowStays(hash: Structure -> string, d: Doc, boots: seq<Boot>, id: int)
    requires id in Rows(d)
    requires forall k, edge :: 0 <= k < |boots| && Sealed(boots[k], edge) ==> edge.id != id
    ensures id in Rows(AfterBoots(hash, d, boots))
    ensures Structural(Rows(AfterBoots(hash, d, boots))[id]) == Structural(Rows(d)[id])
  {
    hide Rows, AfterBoots, Sealed, RowBefore;
    var moves := RunMoves(hash, d, boots, id);
    forall k: nat | k < |boots| ensures Stayed(hash, d, boots, id, k) {
      hide Stayed;
      if MovesAt(moves, k) { SealedMove(hash, d, boots, id, moves, k); }
    }
    RowsAtEnds(hash, d, boots, id);
    StayedThroughout(hash, d, boots, id, |boots|);
  }

  lemma SealedMove(hash: Structure -> string, d: Doc, boots: seq<Boot>, id: int, moves: seq<Move>, k: nat)
    requires TrailTo(hash, d, boots, id, |boots|, moves) && MovesAt(moves, k)
    ensures k < |boots| && exists edge: Amend :: edge.id == id && Sealed(boots[k], edge)
  {
    hide Sealed, Stayed, RowBefore;
    var i :| 0 <= i < |moves| && moves[i].boot == k;
    assert IsMove(hash, d, boots, id, moves[i]);
  }

  lemma RowsAtEnds(hash: Structure -> string, d: Doc, boots: seq<Boot>, id: int)
    requires id in Rows(d) && id in Rows(AfterBoots(hash, d, boots))
    ensures RowBefore(hash, d, boots, id, 0) == Some(Rows(d)[id])
    ensures RowBefore(hash, d, boots, id, |boots|) == Some(Rows(AfterBoots(hash, d, boots))[id])
  {
    assert boots[..0] == [] && boots[..|boots|] == boots;
  }

  lemma {:induction false} StayedThroughout(hash: Structure -> string, d: Doc, boots: seq<Boot>, id: int, n: nat)
    requires n <= |boots| && RowBefore(hash, d, boots, id, 0).Some?
    requires forall k: nat :: k < n ==> Stayed(hash, d, boots, id, k)
    ensures RowBefore(hash, d, boots, id, n).Some?
    ensures Structural(RowBefore(hash, d, boots, id, n).value) == Structural(RowBefore(hash, d, boots, id, 0).value)
  {
    hide RowBefore;
    if n > 0 {
      StayedThroughout(hash, d, boots, id, n - 1);
      assert Stayed(hash, d, boots, id, n - 1);
    }
  }
}
