/** Publishing the table, said of its files. */
module PublishLaws {
  import opened Wrappers
  import opened TableSync
  import opened Publish
  import opened SyncLaws
  import Steps

  /** A publication leaves the wanted bytes under a signature of theirs; one whose signing fails leaves both files as
      they were. No candidate is left behind. */
  method Publishing(p: LiveTable, g: Signer, bytes: Option<string>, works: bool) returns (ok: bool)
    modifies p
    ensures ok == works && p.tmp == None && p.tmpSig == None
    ensures ok ==>
              && p.content == (if bytes.Some? then bytes.value else old(p.content))
              && p.sig == Some(g.sign(p.content))
    ensures !ok ==> p.content == old(p.content) && p.sig == old(p.sig)
  {
    ghost var d := p.OnDisk();
    FullLeaves(g, d, bytes);
    FailedLeaves(d, bytes);
    hide PutAll, Publication, FailedPublication;
    ok := p.PublishSigned(g, bytes, works);
  }

  lemma FullLeaves(g: Signer, d: Disk, bytes: Option<string>)
    ensures var wanted := if bytes.Some? then bytes.value else d.content;
      PutAll(d, Publication(g, d.content, bytes)) == Disk(wanted, Some(g.sign(wanted)), None, None)
  {
    var wanted := if bytes.Some? then bytes.value else d.content;
    var last := if bytes.Some? then ReplaceContent else DropTmp;
    assert Publication(g, d.content, bytes) == [WriteTmp(wanted), SignTmp(g.sign(wanted)), ReplaceSig, last][..4];
    Steps.PrefixOfFour(Put, d, WriteTmp(wanted), SignTmp(g.sign(wanted)), ReplaceSig, last, 4);
    hide Steps.All;
  }

  lemma FailedLeaves(d: Disk, bytes: Option<string>)
    ensures PutAll(d, FailedPublication(d.content, bytes)) == Disk(d.content, d.sig, None, None)
  {
    var a := WriteTmp(if bytes.Some? then bytes.value else d.content);
    assert FailedPublication(d.content, bytes) == [a, DropTmp, DropTmpSig, DropTmp][..3];
    Steps.PrefixOfFour(Put, d, a, DropTmp, DropTmpSig, DropTmp, 3);
    hide Steps.All;
  }

  /** The evaluation refuses: a row would be lost, or a changed row has nobody to speak for it. */
  ghost predicate Refuses(s: Setup, d: Doc) {
    || Loses(Rows(d), Rows(s.bundle))
    || (Changes(Rows(d), Rows(s.bundle)) && !Spoken(s.hash, s.trust, s.src, Rows(d), Rows(s.bundle)))
  }

  /** A sync that runs to its end: nothing for an unreadable or refused table, the bundle's text signed when
      something is new or changed, a new signature when the old one does not verify, and otherwise nothing. */
  method Syncing(p: LiveTable, s: Setup)
    modifies p
    ensures match s.codec.parse(old(p.content))
      case None => p.OnDisk() == old(p.OnDisk())
      case Some(d) =>
        if Refuses(s, d) then p.OnDisk() == old(p.OnDisk())
        else if Changes(Rows(d), Rows(s.bundle)) || Adds(Rows(d), Rows(s.bundle)) then
          p.OnDisk() == Disk(s.codec.dump(s.bundle), Some(s.signer.sign(s.codec.dump(s.bundle))), None, None)
        else if old(p.sig.Some? && s.signer.verify(p.content, p.sig.value)) then p.OnDisk() == old(p.OnDisk())
        else p.OnDisk() == Disk(old(p.content), Some(s.signer.sign(old(p.content))), None, None)
  {
    ghost var d := p.OnDisk();
    p.Sync(s);
    SyncLeaves(s, d);
    hide Attempt, WritesFor, Refuses, Changes, Adds, Rows;
  }

  lemma SyncLeaves(s: Setup, d: Disk)
    ensures var e := Attempt(s, d, |WritesFor(s, d)|);
      match s.codec.parse(d.content)
      case None => e == d
      case Some(doc) =>
        if Refuses(s, doc) then e == d
        else if Changes(Rows(doc), Rows(s.bundle)) || Adds(Rows(doc), Rows(s.bundle)) then
          e == Disk(s.codec.dump(s.bundle), Some(s.signer.sign(s.codec.dump(s.bundle))), None, None)
        else if d.sig.Some? && s.signer.verify(d.content, d.sig.value) then e == d
        else e == Disk(d.content, Some(s.signer.sign(d.content)), None, None)
  {
    PutNone(d);
    var parsed := s.codec.parse(d.content);
    hide Publication, PutAll, Loses, Changes, Adds, Spoken, Rows;
    if parsed.Some? {
      Decides(s.hash, s.trust, s.src, parsed.value, s.bundle, !Verifies(s.signer, d));
      FullLeaves(s.signer, d, Some(s.codec.dump(s.bundle)));
      FullLeaves(s.signer, d, None);
      hide Evaluate;
    } else {
      UnreadableStays(s, d);
    }
  }

  lemma UnreadableStays(s: Setup, d: Disk)
    requires s.codec.parse(d.content) == None
    ensures PlanOn(s, d).Refused?
  {
  }

  /** After any number of attempts cut short anywhere, one that runs to its end leaves a signature that verifies, over
      a table with the bundle's ids, verbs and grants. */
  lemma RecoveredFiles(s: Setup, d: Disk, stops: seq<nat>, k: nat)
    requires Ideal(s.signer) && Faithful(s.codec) && Admitted(s, d)
    requires k >= |WritesFor(s, Attempts(s, d, stops))|
    ensures var e := Attempt(s, Attempts(s, d, stops), k);
      && e.sig.Some? && s.signer.verify(e.content, e.sig.value) && s.codec.parse(e.content).Some?
      && (var now, shipped := Rows(s.codec.parse(e.content).value), Rows(s.bundle);
          && (forall id :: id in now <==> id in shipped)
          && (forall id | id in now :: now[id].verb == shipped[id].verb && now[id].grant == shipped[id].grant))
  {
    PublishRecovers(s, d, stops, k);
    hide Attempt, Attempts, Admitted, Ideal, Faithful, Rows, WritesFor;
    var now := Rows(s.codec.parse(Attempt(s, Attempts(s, d, stops), k).content).value);
    assert forall id :: id in now.Keys <==> id in Rows(s.bundle).Keys;
  }
}
