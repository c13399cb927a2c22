/** The reader and the writers as they run. */
module Consent {
  import opened Wrappers
  import Steps
  import opened ConsentModel

  /** The reader, which fills its check field by field. */
  method Resolve(d: Disk) returns (check: Check)
    ensures check == ReadConsent(d)
  {
    hide Read;
    check := Check(Nowhere, DenyAll(), {}, Warn);
    var canon, legacy := Read(Canonical(d)), Read(Mirror(d));
    if canon.Failed? {
      return check.(source := Canon, status := Fail);
    }
    if canon.Policied? {
      check := check.(source := Canon, policy := canon.policy);
    } else if legacy.Policied? {
      check := check.(source := Legacy, policy := legacy.policy);
    } else {
      return;
    }
    if canon.Policied? && legacy.Policied? {
      check := check.(disagreement := Differing(canon, legacy));
    }
    check := check.(status := Fine);
  }

  class Files {
    const digest: Policy -> string
    var disk: Disk

    method Change(c: ConsentModel.Change)
      modifies this
      ensures disk == Put(old(disk), c)
    {
      disk := Put(disk, c);
    }

    /** The critical section, from its own read to the committed entry. */
    method WriteLocked(p: Policy, action: string) returns (r: Result<Entry, Refusal>)
      requires p.Keys == KEYS
      modifies this
      ensures r == Err(Malformed) <==> ReadConsent(old(disk)).status == Fail
      ensures r.Err? ==> r.error == Malformed
      ensures disk == Attempt(digest, old(disk), action, p, 4)
      ensures r.Ok? ==> disk.audit != [] && r.value == disk.audit[|disk.audit| - 1]
    {
      hide ReadConsent, NewSettings, AsJson;
      var before := Resolve(disk);
      if before.status == Fail { return Err(Malformed); }
      ghost var d := disk;
      var e := Entry(true, action, digest(before.policy), digest(p), set k | k in KEYS && before.policy[k] != p[k],
          false);
      var canon := ReplaceCanonical(NewSettings(Canonical(disk), p));
      assert e == NewEntry(digest, d, action, p);
      Change(Append(e));
      Change(canon);
      Change(ReplaceMirror(AsJson(p)));
      var after := Resolve(disk);
      e := e.(intent := false, reconciled := after.disagreement == {});
      Change(Append(e));
      Completed(d, action, p);
      return Ok(e);
    }

    method WriteConsent(values: map<string, Json>, action: string) returns (r: Result<Entry, Refusal>)
      modifies this
      ensures r == Err(BadValues) <==> Accepted(values).None?
      ensures disk == AfterEvent(digest, old(disk), Write(action, values, 4))
    {
      hide Accepted, Attempt, ReadConsent;
      var accepted := Accepted(values);
      if accepted.None? { return Err(BadValues); }
      AcceptedKeys(values);
      r := WriteLocked(accepted.value, action);
    }

    method SetKey(key: string, value: bool) returns (r: Result<Entry, Refusal>)
      modifies this
      ensures r == Err(BadValues) <==> key !in KEYS
      ensures disk == AfterEvent(digest, old(disk), Event.SetKey(key, value, 4))
    {
      hide Attempt, ReadConsent;
      if key !in KEYS { return Err(BadValues); }
      var current := Resolve(disk);
      r := WriteLocked(current.policy[key := value], "set:" + key);
    }

    method Reconcile() returns (r: Result<Entry, Refusal>)
      modifies this
      ensures disk == AfterEvent(digest, old(disk), Event.Reconcile(4))
    {
      hide Attempt, ReadConsent;
      var current := Resolve(disk);
      if current.status == Fail { return Err(Malformed); }
      r := WriteLocked(current.policy, "reconcile");
    }

    lemma AcceptedKeys(values: map<string, Json>)
      ensures Accepted(values).Some? ==> Accepted(values).value.Keys == KEYS
    {
    }

    lemma Completed(d: Disk, action: string, p: Policy)
      requires p.Keys == KEYS
      ensures var cs := Changes(digest, d, action, p);
        PutAll(d, cs[..4]) == Put(Put(Put(Put(d, cs[0]), cs[1]), cs[2]), cs[3])
    {
      hide Put, Steps.All;
      var cs := Changes(digest, d, action, p);
      Steps.PrefixOfFour(Put, d, cs[0], cs[1], cs[2], cs[3], 4);
      assert cs == [cs[0], cs[1], cs[2], cs[3]];
    }
  }
}
