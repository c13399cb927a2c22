/** Publishing the live table: the signature is renamed into place before the content. */
module Publish {
  import opened Wrappers
  import Steps
  import opened TableSync
  import opened TableBoots

  /** The table, its detached signature, and the two candidates beside them. */
  datatype Disk = Disk(content: string, sig: Option<string>, tmp: Option<string>, tmpSig: Option<string>)

  datatype Write =
    | WriteTmp(bytes: string)
    | SignTmp(sig: string)
    | DropTmp
    | DropTmpSig
    | ReplaceSig
    | ReplaceContent

  /** A signature that verifies bytes verifies no other bytes. */
  datatype Signer = Signer(sign: string -> string, verify: (string, string) -> bool)

  ghost predicate Ideal(g: Signer) {
    && (forall m :: g.verify(m, g.sign(m)))
    && (forall m, n :: g.verify(n, g.sign(m)) ==> n == m)
  }

  /** How a table is written to bytes and read back. */
  datatype Codec = Codec(dump: Doc -> string, parse: string -> Option<Doc>)

  ghost predicate Faithful(c: Codec) { forall d :: c.parse(c.dump(d)) == Some(d) }

  function Put(d: Disk, w: Write): Disk {
    match w
    case WriteTmp(bytes) => d.(tmp := Some(bytes))
    case SignTmp(sig) => d.(tmpSig := Some(sig))
    case DropTmp => d.(tmp := None)
    case DropTmpSig => d.(tmpSig := None)
    case ReplaceSig => if d.tmpSig.None? then d else d.(sig := d.tmpSig, tmpSig := None)
    case ReplaceContent => if d.tmp.None? then d else d.(content := d.tmp.value, tmp := None)
  }

  function PutAll(d: Disk, writes: seq<Write>): Disk { Steps.All(Put, d, writes) }

  /** The writes of one publication; `bytes` is None when the live bytes are only signed again. */
  function Publication(g: Signer, content: string, bytes: Option<string>): seq<Write> {
    var wanted := if bytes.Some? then bytes.value else content;
    [WriteTmp(wanted), SignTmp(g.sign(wanted)), ReplaceSig] + [if bytes.Some? then ReplaceContent else DropTmp]
  }

  /** A signing that fails leaves only the candidates to remove. */
  function FailedPublication(content: string, bytes: Option<string>): seq<Write> {
    [WriteTmp(if bytes.Some? then bytes.value else content), DropTmp, DropTmpSig]
  }

  predicate Verifies(g: Signer, d: Disk) { d.sig.Some? && g.verify(d.content, d.sig.value) }

  lemma PutNone(d: Disk)
    ensures PutAll(d, []) == d
  {
  }

  /** At every crash point the table and its signature are the old pair untouched, the new pair, which
      verifies, or a pair that does not verify. */
  lemma CrashPoints(g: Signer, d: Disk, bytes: Option<string>, k: nat)
    requires Ideal(g) && k <= 4
    ensures var wanted := if bytes.Some? then bytes.value else d.content;
      var e := PutAll(d, Publication(g, d.content, bytes)[..k]);
      || (e.content == d.content && e.sig == d.sig && k <= 2)
      || (e.content == wanted && e.sig == Some(g.sign(wanted)) && Verifies(g, e) && k >= 3)
      || (e.content == d.content != wanted && e.sig == Some(g.sign(wanted)) && !Verifies(g, e) && k == 3)
    ensures k == 4 ==>
              PutAll(d, Publication(g, d.content, bytes)[..k]).content == if bytes.Some? then bytes.value else d.content
  {
    var wanted := if bytes.Some? then bytes.value else d.content;
    var last := if bytes.Some? then ReplaceContent else DropTmp;
    assert Publication(g, d.content, bytes) == [WriteTmp(wanted), SignTmp(g.sign(wanted)), ReplaceSig, last];
    Steps.PrefixOfFour(Put, d, WriteTmp(wanted), SignTmp(g.sign(wanted)), ReplaceSig, last, k);
  }

  /** A publication whose signing fails leaves the table and its signature as they were, throughout. */
  lemma FailedSigningIsHarmless(d: Disk, bytes: Option<string>, k: nat)
    requires k <= 3
    ensures var e := PutAll(d, FailedPublication(d.content, bytes)[..k]); e.content == d.content && e.sig == d.sig
  {
    var a := WriteTmp(if bytes.Some? then bytes.value else d.content);
    Steps.PrefixOfFour(Put, d, a, DropTmp, DropTmpSig, DropTmp, k);
    assert FailedPublication(d.content, bytes)[..k] == [a, DropTmp, DropTmpSig, DropTmp][..k];
  }

  // ---- Evaluate and apply on the disk ----------------------------------------------------------

  /** What an evaluation is made with; it stays the same while one publication is retried. */
  datatype Setup = Setup(hash: Structure -> string, trust: Trust, src: Source, bundle: Doc, codec: Codec,
      signer: Signer)

  function LiveFile(s: Setup, d: Disk): File {
    var doc := s.codec.parse(d.content);
    if doc.None? then Unreadable else Table(doc.value)
  }

  function PlanOn(s: Setup, d: Disk): Plan {
    Evaluate(s.hash, s.trust, s.src, LiveFile(s, d), Table(s.bundle), !Verifies(s.signer, d))
  }

  function WritesFor(s: Setup, d: Disk): seq<Write> {
    match PlanOn(s, d)
    case Apply(_, _, _, doc) => Publication(s.signer, d.content, Some(s.codec.dump(doc)))
    case Resign => Publication(s.signer, d.content, None)
    case _ => []
  }

  /** An evaluate and apply that stops after `k` writes. */
  function Attempt(s: Setup, d: Disk, k: nat): Disk {
    var writes := WritesFor(s, d);
    PutAll(d, if k < |writes| then writes[..k] else writes)
  }

  function Attempts(s: Setup, d: Disk, stops: seq<nat>): Disk
    decreases |stops|
  {
    if stops == [] then d else Attempts(s, Attempt(s, d, stops[0]), stops[1..])
  }

  /** The evaluation does not refuse. */
  predicate Admitted(s: Setup, d: Disk) {
    var plan := PlanOn(s, d);
    plan.Apply? || plan.Resign? || plan.UpToDate?
  }

  /** The rows are the bundle's, prose aside. */
  predicate SameRows(a: Doc, b: Doc) {
    && Rows(a).Keys == Rows(b).Keys
    && forall id | id in Rows(a) :: Structural(Rows(a)[id]) == Structural(Rows(b)[id])
  }

  predicate Synced(s: Setup, d: Disk) {
    && Verifies(s.signer, d)
    && LiveFile(s, d).Table?
    && SameRows(LiveFile(s, d).doc, s.bundle)
  }

  /** When the rows are already the bundle's, the signature alone decides. */
  lemma SamePlan(s: Setup, d: Disk)
    requires LiveFile(s, d).Table? && SameRows(LiveFile(s, d).doc, s.bundle)
    ensures PlanOn(s, d) == if Verifies(s.signer, d) then UpToDate else Resign
  {
    hide TallyOf, Rows, Verifies;
    var rows, shipped := Rows(LiveFile(s, d).doc), Rows(s.bundle);
    NoneChanged(rows, shipped);
    hide ChangedIds;
    assert shipped.Keys - rows.Keys == {};
  }

  lemma NoneChanged(rows: map<int, Row>, shipped: map<int, Row>)
    requires rows.Keys == shipped.Keys
    ensures Changed(rows, shipped) == [] <==> forall id | id in rows :: Structural(rows[id]) == Structural(shipped[id])
  {
    var changed := Changed(rows, shipped);
    if changed == [] {
      forall id | id in rows ensures Structural(rows[id]) == Structural(shipped[id]) {
        assert id !in ChangedIds(rows, shipped);
      }
    } else {
      var id := changed[0];
      assert id in changed;
      assert Structural(rows[id]) != Structural(shipped[id]);
    }
  }

  /** A plan without anything to apply found no row missing, changed or new. */
  lemma EmptyPlan(s: Setup, d: Disk)
    requires PlanOn(s, d).Resign? || PlanOn(s, d).UpToDate?
    ensures LiveFile(s, d).Table?
    ensures var rows, shipped := Rows(LiveFile(s, d).doc), Rows(s.bundle);
      rows.Keys <= shipped.Keys && Changed(rows, shipped) == [] && Sorted(shipped.Keys - rows.Keys) == []
    ensures PlanOn(s, d).UpToDate? <==> Verifies(s.signer, d)
  {
    hide Rows, Verifies, TallyOf, Candidates, Changed, Sorted, Pairs;
    var file := LiveFile(s, d);
    if file.Table? {
      var rows, shipped := Rows(file.doc), Rows(s.bundle);
      var changed := Changed(rows, shipped);
      if changed != [] && Candidates(s.src).Some? {
        TallyCounts(s.hash, s.trust, Pairs(s.src), Candidates(s.src).value, rows, shipped, changed);
      }
    }
  }

  lemma NothingNew(rows: map<int, Row>, shipped: map<int, Row>)
    requires rows.Keys <= shipped.Keys && Sorted(shipped.Keys - rows.Keys) == []
    ensures rows.Keys == shipped.Keys
  {
    assert |shipped.Keys - rows.Keys| == 0;
    assert shipped.Keys - rows.Keys == {};
  }

  /** When nothing is left to apply, the rows are the bundle's. */
  lemma NothingToApply(s: Setup, d: Disk)
    requires PlanOn(s, d).Resign? || PlanOn(s, d).UpToDate?
    ensures LiveFile(s, d).Table? && SameRows(LiveFile(s, d).doc, s.bundle)
    ensures PlanOn(s, d).UpToDate? <==> Verifies(s.signer, d)
  {
    hide Rows, Verifies, PlanOn, LiveFile, Changed, Sorted;
    EmptyPlan(s, d);
    var rows, shipped := Rows(LiveFile(s, d).doc), Rows(s.bundle);
    NothingNew(rows, shipped);
    NoneChanged(rows, shipped);
  }

  /** The plan to apply does not depend on the signature. */
  lemma ApplyIgnoresSignature(s: Setup, d: Disk, e: Disk)
    requires PlanOn(s, d).Apply? && e.content == d.content
    ensures PlanOn(s, e) == PlanOn(s, d) && PlanOn(s, d).doc == s.bundle
  {
    hide TallyOf, Rows, Candidates, Verifies, Changed;
  }

  lemma RowsAreThemselves(s: Setup, d: Disk)
    requires Faithful(s.codec) && d.content == s.codec.dump(s.bundle)
    ensures LiveFile(s, d) == Table(s.bundle) && SameRows(LiveFile(s, d).doc, s.bundle)
  {
  }

  /** Wherever an attempt stops, the evaluation still admits the disk; a completed one has synced it. */
  lemma AttemptKeepsAdmitted(s: Setup, d: Disk, k: nat)
    requires Ideal(s.signer) && Faithful(s.codec) && Admitted(s, d)
    ensures Admitted(s, Attempt(s, d, k))
    ensures k >= |WritesFor(s, d)| ==> Synced(s, Attempt(s, d, k))
  {
    hide Evaluate, SameRows, Rows, PutAll, Put;
    var plan := PlanOn(s, d);
    var e := Attempt(s, d, k);
    if plan.UpToDate? {
      PutNone(d);
      NothingToApply(s, d);
    } else {
      var bytes := if plan.Apply? then Some(s.codec.dump(plan.doc)) else None;
      var n := if k < 4 then k else 4;
      assert |WritesFor(s, d)| == 4;
      assert WritesFor(s, d) == Publication(s.signer, d.content, bytes);
      assert WritesFor(s, d)[..4] == WritesFor(s, d);
      assert e == PutAll(d, Publication(s.signer, d.content, bytes)[..n]);
      CrashPoints(s.signer, d, bytes, n);
      AfterCrash(s, d, e, n);
    }
  }

  /** The three shapes a publication leaves are all admitted, and the last one is synced. */
  lemma AfterCrash(s: Setup, d: Disk, e: Disk, k: nat)
    requires Ideal(s.signer) && Faithful(s.codec) && (PlanOn(s, d).Apply? || PlanOn(s, d).Resign?)
    requires var wanted := if PlanOn(s, d).Apply? then s.codec.dump(PlanOn(s, d).doc) else d.content;
      || (e.content == d.content && e.sig == d.sig && k <= 2)
      || (e.content == wanted && Verifies(s.signer, e) && k >= 3)
      || (e.content == d.content != wanted && !Verifies(s.signer, e) && k == 3)
    ensures Admitted(s, e)
    ensures k == 4 ==> Synced(s, e)
  {
    hide Evaluate, SameRows, Rows, Ideal;
    if PlanOn(s, d).Apply? {
      ApplyIgnoresSignature(s, d, d);
      if e.content == d.content {
        ApplyIgnoresSignature(s, d, e);
      }
      if e.content == s.codec.dump(s.bundle) {
        RowsAreThemselves(s, e);
        SamePlan(s, e);
      }
    } else {
      NothingToApply(s, d);
      SamePlan(s, e);
    }
  }

  /** After any number of evaluations and applies cut short at any write, one that runs to its end leaves
      the bundle's rows under a signature that verifies. */
  lemma {:induction false} PublishRecovers(s: Setup, d: Disk, stops: seq<nat>, k: nat)
    requires Ideal(s.signer) && Faithful(s.codec) && Admitted(s, d)
    requires k >= |WritesFor(s, Attempts(s, d, stops))|
    ensures Synced(s, Attempt(s, Attempts(s, d, stops), k))
    decreases |stops|
  {
    hide Admitted, Synced, Attempt, Ideal, Faithful, WritesFor;
    if stops == [] {
      AttemptKeepsAdmitted(s, d, k);
    } else {
      AttemptKeepsAdmitted(s, d, stops[0]);
      PublishRecovers(s, Attempt(s, d, stops[0]), stops[1..], k);
    }
  }

  /** A completed attempt leaves the bundle's own text exactly when the rows differed or that text was there
      already: a difference in prose alone is not published. */
  lemma BundleTextIff(s: Setup, d: Disk)
    requires Ideal(s.signer) && Faithful(s.codec) && Admitted(s, d)
    ensures LiveFile(s, d).Table?
    ensures Attempt(s, d, |WritesFor(s, d)|).content == s.codec.dump(s.bundle) <==>
            !SameRows(LiveFile(s, d).doc, s.bundle) || d.content == s.codec.dump(s.bundle)
  {
    hide Evaluate, SameRows, Rows, PutAll, Put;
    var plan := PlanOn(s, d);
    if plan.Apply? {
      AdmittedIsTable(s, d);
      if SameRows(LiveFile(s, d).doc, s.bundle) { SamePlan(s, d); }
      ApplyIgnoresSignature(s, d, d);
      CrashPoints(s.signer, d, Some(s.codec.dump(plan.doc)), 4);
      FullPublication(s.signer, d.content, Some(s.codec.dump(plan.doc)));
    } else {
      NothingToApply(s, d);
      if plan.UpToDate? {
        PutNone(d);
      } else {
        CrashPoints(s.signer, d, None, 4);
        FullPublication(s.signer, d.content, None);
      }
    }
  }

  lemma AdmittedIsTable(s: Setup, d: Disk)
    requires PlanOn(s, d).Apply?
    ensures LiveFile(s, d).Table?
  {
    hide TallyOf, Rows, Candidates, Verifies, Changed;
  }

  lemma FullPublication(g: Signer, content: string, bytes: Option<string>)
    ensures |Publication(g, content, bytes)| == 4 &&
            Publication(g, content, bytes)[..4] == Publication(g, content, bytes)
  {
  }

  /** Two tables that differ in one note: nothing to do, with any keyring and any decisions. */
  lemma ProseIsNotPublished(hash: Structure -> string, t: Trust, src: Source)
    ensures var live := Doc([Good(Row(1, "pr.update", "bounds", "old note"))], "");
      var bundle := Doc([Good(Row(1, "pr.update", "bounds", "new note"))], "");
      live != bundle && Evaluate(hash, t, src, Table(live), Table(bundle), false) == UpToDate
  {
    hide TallyOf;
    var a, b := Row(1, "pr.update", "bounds", "old note"), Row(1, "pr.update", "bounds", "new note");
    assert [Good(a)][..0] == [] && [Good(b)][..0] == [];
    assert RowsById([Good(a)]) == map[1 := a] && RowsById([Good(b)]) == map[1 := b];
    NoneChanged(map[1 := a], map[1 := b]);
    assert (map[1 := b]).Keys - (map[1 := a]).Keys == {};
  }

  // ---- The files themselves --------------------------------------------------------------------

  class LiveTable {
    var content: string
    var sig: Option<string>
    var tmp: Option<string>
    var tmpSig: Option<string>

    /** Every file change so far, in order. */
    ghost var trace: seq<Write>

    function OnDisk(): Disk
      reads this
    {
      Disk(content, sig, tmp, tmpSig)
    }

    /** `works` is whether the external signing succeeds. */
    method PublishSigned(g: Signer, bytes: Option<string>, works: bool) returns (ok: bool)
      modifies this
      ensures ok == works
      ensures var writes :=
                if works then Publication(g, old(content), bytes) else FailedPublication(old(content), bytes);
        OnDisk() == PutAll(old(OnDisk()), writes) && trace == old(trace) + writes
    {
      ghost var d := OnDisk();
      var wanted := content;
      if bytes.Some? { wanted := bytes.value; }
      ghost var last := if bytes.Some? then ReplaceContent else DropTmp;
      Steps.PrefixOfFour(Put, d, WriteTmp(wanted), SignTmp(g.sign(wanted)), ReplaceSig, last, 4);
      Steps.PrefixOfFour(Put, d, WriteTmp(wanted), DropTmp, DropTmpSig, DropTmp, 3);
      assert Publication(g, content, bytes) == [WriteTmp(wanted), SignTmp(g.sign(wanted)), ReplaceSig, last][..4];
      assert FailedPublication(content, bytes) == [WriteTmp(wanted), DropTmp, DropTmpSig, DropTmp][..3];
      hide PutAll, Publication, FailedPublication;
      tmp := Some(wanted);
      trace := trace + [WriteTmp(wanted)];
      if !works {
        tmp := None;
        tmpSig := None;
        trace := trace + [DropTmp, DropTmpSig];
        return false;
      }
      tmpSig := Some(g.sign(wanted));
      sig, tmpSig := tmpSig, None;
      trace := trace + [SignTmp(g.sign(wanted)), ReplaceSig];
      if bytes.Some? {
        content := wanted;
      }
      tmp := None;
      trace := trace + [last];
      ok := true;
    }

    /** One evaluate and apply that runs to its end. */
    method Sync(s: Setup)
      modifies this
      ensures OnDisk() == Attempt(s, old(OnDisk()), |WritesFor(s, old(OnDisk()))|)
      ensures trace == old(trace) + WritesFor(s, old(OnDisk()))
    {
      hide PutAll, Publication;
      var d := OnDisk();
      var plan := EvaluateSync(s.hash, s.trust, s.src, LiveFile(s, d), Table(s.bundle), !Verifies(s.signer, d));
      PutNone(d);
      hide Evaluate;
      if plan.Apply? {
        var ok := PublishSigned(s.signer, Some(s.codec.dump(plan.doc)), true);
      } else if plan.Resign? {
        var ok := PublishSigned(s.signer, None, true);
      }
    }
  }
}
