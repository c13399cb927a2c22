/** Standing consent: two files read as one policy, and the writer that keeps an audit trail. */
module ConsentModel {
  import opened Wrappers
  import Steps

  const KEYS := {"internet", "cloud_llm", "federation"}

  const RETIRED := {"lan"}

  /** A JSON value, as far as consent looks into it. */
  datatype Json = Bool(b: bool) | Obj(fields: map<string, Json>) | Other

  /** Absent, there but not readable as JSON, or parsed. */
  datatype File = Absent | Garbage | Doc(json: Json)

  type Policy = map<string, bool>

  function DenyAll(): Policy { map k | k in KEYS :: false }

  predicate IsTrue(fields: map<string, Json>, k: string) { k in fields && fields[k] == Bool(true) }

  /** Anything but a real `true` denies. */
  function StrictBools(fields: map<string, Json>): (p: Policy)
    ensures p.Keys == KEYS
  {
    map k | k in KEYS :: IsTrue(fields, k)
  }

  /** One file: nothing there, an error, or a policy with the keys the file names. */
  datatype Reading = Nothing | Failed | Policied(policy: Policy, declared: set<string>)

  function Read(f: File): (r: Reading)
    ensures r.Policied? ==> r.policy.Keys == KEYS && r.declared <= KEYS
  {
    match f
    case Absent => Nothing
    case Garbage => Failed
    case Doc(json) =>
      if !json.Obj? then Failed
      else if "consent" in json.fields && json.fields["consent"].Obj? then
        var block := json.fields["consent"].fields;
        Policied(StrictBools(block), KEYS * block.Keys)
      else if KEYS * json.fields.Keys != {} then
        Policied(StrictBools(json.fields), KEYS * json.fields.Keys)
      else Failed
  }

  datatype Entry = Entry(intent: bool, action: string, before: string, after: string, changed: set<string>,
      reconciled: bool)

  /** The canonical settings and the flat mirror, each under config/ or in the legacy place; an override
      names the settings file outright. */
  datatype Disk = Disk(over: Option<File>, config: File, root: File, mirrorConfig: File, mirrorRoot: File,
      audit: seq<Entry>)

  function Canonical(d: Disk): File {
    if d.over.Some? then d.over.value else if d.config != Absent then d.config else d.root
  }

  function Mirror(d: Disk): File {
    if d.mirrorConfig != Absent then d.mirrorConfig else d.mirrorRoot
  }

  datatype Source = Canon | Legacy | Nowhere

  datatype Status = Fine | Warn | Fail

  datatype Check = Check(source: Source, policy: Policy, disagreement: set<string>, status: Status)

  /** The shared keys on which two policies differ. */
  function Differing(a: Reading, b: Reading): set<string>
    requires a.Policied? && b.Policied?
    requires a.policy.Keys == KEYS && b.policy.Keys == KEYS && a.declared <= KEYS
  {
    set k | k in a.declared && k in b.declared && a.policy[k] != b.policy[k]
  }

  function ReadConsent(d: Disk): (c: Check)
    ensures c.policy.Keys == KEYS
  {
    var canon, legacy := Read(Canonical(d)), Read(Mirror(d));
    if canon.Failed? then Check(Canon, DenyAll(), {}, Fail)
    else if canon.Policied? then
      Check(Canon, canon.policy, if legacy.Policied? then Differing(canon, legacy) else {}, Fine)
    else if legacy.Policied? then Check(Legacy, legacy.policy, {}, Fine)
    else Check(Nowhere, DenyAll(), {}, Warn)
  }

  /** The policy every reader acts on. */
  function Effective(d: Disk): Policy { ReadConsent(d).policy }

  function Permitted(d: Disk, key: string): bool { key in KEYS && Effective(d)[key] }

  // ---- The writer ------------------------------------------------------------------------------

  datatype Change = Append(entry: Entry) | ReplaceCanonical(json: Json) | ReplaceMirror(mirror: Json)

  function Put(d: Disk, c: Change): Disk {
    match c
    case Append(e) => d.(audit := d.audit + [e])
    case ReplaceCanonical(json) =>
      if d.over.Some? then d.(over := Some(Doc(json)))
      else if d.config != Absent then d.(config := Doc(json))
      else d.(root := Doc(json))
    case ReplaceMirror(json) =>
      if d.mirrorConfig != Absent then d.(mirrorConfig := Doc(json)) else d.(mirrorRoot := Doc(json))
  }

  function PutAll(d: Disk, changes: seq<Change>): Disk { Steps.All(Put, d, changes) }

  datatype Refusal = BadValues | Malformed

  /** The retired keys are dropped; exactly the consent keys, each a boolean, must be left. */
  function Accepted(values: map<string, Json>): Option<Policy> {
    var kept := map k | k in values && k !in RETIRED :: values[k];
    if kept.Keys == KEYS && (forall k | k in kept :: kept[k].Bool?) then Some(map k | k in kept :: kept[k].b) else None
  }

  function AsJson(p: Policy): Json { Obj(map k | k in p :: Bool(p[k])) }

  /** The settings document with its consent block replaced; its other keys are kept. */
  function NewSettings(f: File, p: Policy): Json {
    Obj((if f.Doc? && f.json.Obj? then f.json.fields else map[])["consent" := AsJson(p)])
  }

  function NewEntry(digest: Policy -> string, d: Disk, action: string, p: Policy): Entry
    requires p.Keys == KEYS
  {
    var before := Effective(d);
    Entry(true, action, digest(before), digest(p), set k | k in KEYS && before[k] != p[k], false)
  }

  /** What write_consent does with accepted values, change by change. */
  function Changes(digest: Policy -> string, d: Disk, action: string, p: Policy): seq<Change>
    requires p.Keys == KEYS
  {
    var e := NewEntry(digest, d, action, p);
    var intent := Append(e);
    var canon := ReplaceCanonical(NewSettings(Canonical(d), p));
    var mirror := ReplaceMirror(AsJson(p));
    var after := Put(Put(Put(d, intent), canon), mirror);
    [intent, canon, mirror, Append(e.(intent := false, reconciled := ReadConsent(after).disagreement == {}))]
  }

  /** A write that stops, by a crash or a refused path, before its `k`-th change. */
  function Attempt(digest: Policy -> string, d: Disk, action: string, p: Policy, k: nat): Disk
    requires p.Keys == KEYS
  {
    if ReadConsent(d).status == Fail then d
    else PutAll(d, Changes(digest, d, action, p)[..if k < 4 then k else 4])
  }

  // ---- What the readers see --------------------------------------------------------------------

  lemma ReadBackPolicy(p: Policy)
    requires p.Keys == KEYS
    ensures Read(Doc(AsJson(p))) == Policied(p, KEYS)
    ensures forall f :: Read(Doc(NewSettings(f, p))) == Policied(p, KEYS)
  {
    var block := AsJson(p).fields;
    assert block.Keys == KEYS && KEYS * block.Keys == KEYS;
    assert "internet" in KEYS * block.Keys;
    assert StrictBools(block) == p;
    assert "consent" !in block;
  }

  /** Once the canonical file is replaced, it alone is the policy. */
  lemma CanonicalRules(d: Disk, f: File, p: Policy)
    requires p.Keys == KEYS
    ensures Effective(Put(d, ReplaceCanonical(NewSettings(f, p)))) == p
    ensures ReadConsent(Put(d, ReplaceCanonical(NewSettings(f, p)))).status == Fine
    ensures Canonical(Put(d, ReplaceCanonical(NewSettings(f, p)))) == Doc(NewSettings(f, p))
  {
    ReadBackPolicy(p);
    hide NewSettings, Read;
  }

  /** The mirror decides nothing while the canonical file is readable. */
  lemma MirrorIsSilent(d: Disk, p: Policy)
    requires Read(Canonical(d)).Policied?
    ensures var e := Put(d, ReplaceMirror(AsJson(p)));
      Canonical(e) == Canonical(d) && Effective(e) == Effective(d) && ReadConsent(e).status == Fine
  {
    hide Read, AsJson;
  }

  /** At every crash point the effective policy is wholly the old one or wholly the new one, and the
      switch is the canonical replacement; a completed write leaves the two files in agreement. */
  lemma WholeOldOrNew(digest: Policy -> string, d: Disk, action: string, p: Policy, k: nat)
    requires p.Keys == KEYS && ReadConsent(d).status != Fail
    ensures var e := Attempt(digest, d, action, p, k);
      && Effective(e) == (if k < 2 then Effective(d) else p)
      && ReadConsent(e).status != Fail
      && (k >= 3 ==> ReadConsent(e).disagreement == {})
  {
    var cs := Changes(digest, d, action, p);
    var n := if k < 4 then k else 4;
    assert cs == [cs[0], cs[1], cs[2], cs[3]];
    Steps.PrefixOfFour(Put, d, cs[0], cs[1], cs[2], cs[3], n);
    var d1 := Put(d, cs[0]);
    var d2 := Put(d1, cs[1]);
    var d3 := Put(d2, cs[2]);
    AuditIsSilent(d, cs[0].entry);
    CanonicalRules(d1, Canonical(d), p);
    ReadBackPolicy(p);
    hide NewSettings, Read, AsJson, PutAll;
    MirrorIsSilent(d2, p);
    AuditIsSilent(d3, cs[3].entry);
    hide ReadConsent;
    Agreed(d3, p);
  }

  lemma AuditIsSilent(d: Disk, e: Entry)
    ensures ReadConsent(Put(d, Append(e))) == ReadConsent(d)
  {
    hide Read;
  }

  lemma Agreed(d: Disk, p: Policy)
    requires Read(Canonical(d)) == Policied(p, KEYS) && Read(Mirror(d)) == Policied(p, KEYS) && p.Keys == KEYS
    ensures ReadConsent(d).disagreement == {}
  {
    hide Read;
  }

  // ---- The audit trail -------------------------------------------------------------------------

  /** The trail a write has left when it stops: nothing, the intent, or the intent and the commit. */
  lemma TrailOf(digest: Policy -> string, d: Disk, action: string, p: Policy, k: nat)
    requires p.Keys == KEYS && ReadConsent(d).status != Fail
    ensures var e := NewEntry(digest, d, action, p);
      Attempt(digest, d, action, p, k).audit ==
      d.audit + (if k == 0 then [] else if k < 4 then [e] else [e, e.(intent := false, reconciled := true)])
  {
    var cs := Changes(digest, d, action, p);
    var n := if k < 4 then k else 4;
    assert cs == [cs[0], cs[1], cs[2], cs[3]];
    Steps.PrefixOfFour(Put, d, cs[0], cs[1], cs[2], cs[3], n);
    WholeOldOrNew(digest, d, action, p, 3);
    Steps.PrefixOfFour(Put, d, cs[0], cs[1], cs[2], cs[3], 3);
    hide ReadConsent, NewSettings, AsJson, PutAll;
  }

  /** The entries of a trail, read in order, lead from one policy to another: every step is an intent
      that carries the digests of the policy before and after it. */
  ghost predicate Explains(digest: Policy -> string, trail: seq<Entry>, from: Policy, to: Policy)
    decreases |trail|
  {
    if trail == [] then from == to
    else
      || Explains(digest, trail[1..], from, to)
      || (trail[0].intent && trail[0].before == digest(from) &&
          exists v: Policy :: trail[0].after == digest(v) && Explains(digest, trail[1..], v, to))
  }

  lemma {:induction false} ExplainsNothing(digest: Policy -> string, trail: seq<Entry>, p: Policy)
    ensures Explains(digest, trail, p, p)
    decreases |trail|
  {
    if trail != [] { ExplainsNothing(digest, trail[1..], p); }
  }

  lemma {:induction false} ExplainsJoin(digest: Policy -> string, a: seq<Entry>, b: seq<Entry>, from: Policy,
                                        mid: Policy, to: Policy)
    requires Explains(digest, a, from, mid) && Explains(digest, b, mid, to)
    ensures Explains(digest, a + b, from, to)
    decreases |a|
  {
    if a == [] {
      assert a + b == b;
    } else {
      assert (a + b)[1..] == a[1..] + b && (a + b)[0] == a[0];
      if Explains(digest, a[1..], from, mid) {
        ExplainsJoin(digest, a[1..], b, from, mid, to);
      } else {
        var v: Policy :| a[0].after == digest(v) && Explains(digest, a[1..], v, mid);
        ExplainsJoin(digest, a[1..], b, v, mid, to);
        assert Explains(digest, (a + b)[1..], v, to);
      }
    }
  }

  /** One write, wherever it stops, is explained by what it added to the trail. */
  lemma AttemptExplained(digest: Policy -> string, d: Disk, action: string, p: Policy, k: nat)
    requires p.Keys == KEYS && ReadConsent(d).status != Fail
    ensures var e := Attempt(digest, d, action, p, k);
      && d.audit <= e.audit
      && Explains(digest, e.audit[|d.audit|..], Effective(d), Effective(e))
  {
    var e := Attempt(digest, d, action, p, k);
    TrailOf(digest, d, action, p, k);
    WholeOldOrNew(digest, d, action, p, k);
    hide Attempt, ReadConsent;
    var trail := e.audit[|d.audit|..];
    if k < 2 {
      ExplainsNothing(digest, trail, Effective(d));
    } else {
      assert trail != [] && trail[0] == NewEntry(digest, d, action, p);
      ExplainsNothing(digest, trail[1..], p);
    }
  }

  // ---- Runs ------------------------------------------------------------------------------------

  datatype Event =
    | Write(action: string, values: map<string, Json>, stop: nat)
    | SetKey(key: string, value: bool, stop: nat)
    | Reconcile(stop: nat)

  function AfterEvent(digest: Policy -> string, d: Disk, e: Event): Disk {
    match e
    case Write(action, values, stop) =>
      if Accepted(values).None? then d else Attempt(digest, d, action, Accepted(values).value, stop)
    case SetKey(key, value, stop) =>
      if key !in KEYS then d else Attempt(digest, d, "set:" + key, Effective(d)[key := value], stop)
    case Reconcile(stop) =>
      if ReadConsent(d).status == Fail then d else Attempt(digest, d, "reconcile", Effective(d), stop)
  }

  function AfterEvents(digest: Policy -> string, d: Disk, events: seq<Event>): Disk
    decreases |events|
  {
    if events == [] then d else AfterEvents(digest, AfterEvent(digest, d, events[0]), events[1..])
  }

  lemma EventExplained(digest: Policy -> string, d: Disk, e: Event)
    ensures var after := AfterEvent(digest, d, e);
      d.audit <= after.audit && Explains(digest, after.audit[|d.audit|..], Effective(d), Effective(after))
  {
    hide ReadConsent, Attempt, Explains;
    var after := AfterEvent(digest, d, e);
    if after == d || ReadConsent(d).status == Fail {
      assert after == d by { RefusedAttempt(digest, d, e); }
      ExplainsNothing(digest, after.audit[|d.audit|..], Effective(d));
    } else {
      match e
      case Write(action, values, stop) => AttemptExplained(digest, d, action, Accepted(values).value, stop);
      case SetKey(key, value, stop) => AttemptExplained(digest, d, "set:" + key, Effective(d)[key := value], stop);
      case Reconcile(stop) => AttemptExplained(digest, d, "reconcile", Effective(d), stop);
    }
  }

  lemma RefusedAttempt(digest: Policy -> string, d: Disk, e: Event)
    ensures ReadConsent(d).status == Fail ==> AfterEvent(digest, d, e) == d
  {
    hide ReadConsent, PutAll, Changes;
  }

  /** Over any run of writes cut short anywhere, the trail explains every change of the policy. */
  lemma {:induction false} RunExplained(digest: Policy -> string, d: Disk, events: seq<Event>)
    ensures var after := AfterEvents(digest, d, events);
      d.audit <= after.audit && Explains(digest, after.audit[|d.audit|..], Effective(d), Effective(after))
    decreases |events|
  {
    hide Explains, AfterEvent, ReadConsent;
    if events == [] {
      ExplainsNothing(digest, d.audit[|d.audit|..], Effective(d));
    } else {
      var next, after := AfterEvent(digest, d, events[0]), AfterEvents(digest, d, events);
      EventExplained(digest, d, events[0]);
      RunExplained(digest, next, events[1..]);
      var a, b := next.audit[|d.audit|..], after.audit[|next.audit|..];
      ExplainsJoin(digest, a, b, Effective(d), Effective(next), Effective(after));
      assert after.audit[|d.audit|..] == a + b;
    }
  }

  /** Reconciling never changes the effective policy, at no crash point; run to its end, it leaves no
      disagreement. */
  lemma ReconcileKeepsPolicy(digest: Policy -> string, d: Disk, stop: nat)
    ensures var after := AfterEvent(digest, d, Reconcile(stop));
      && Effective(after) == Effective(d)
      && (stop >= 3 && ReadConsent(d).status != Fail ==> ReadConsent(after).disagreement == {})
  {
    if ReadConsent(d).status != Fail {
      WholeOldOrNew(digest, d, "reconcile", Effective(d), stop);
      hide Attempt, ReadConsent;
    }
  }

  /** In particular from wherever a write stopped. */
  lemma ReconcileRecovers(digest: Policy -> string, d: Disk, action: string, p: Policy, k: nat)
    requires p.Keys == KEYS && ReadConsent(d).status != Fail
    ensures var torn := Attempt(digest, d, action, p, k); var after := AfterEvent(digest, torn, Reconcile(4));
      && Effective(after) == Effective(torn) && ReadConsent(after).disagreement == {}
  {
    WholeOldOrNew(digest, d, action, p, k);
    hide Attempt, ReadConsent;
    ReconcileKeepsPolicy(digest, Attempt(digest, d, action, p, k), 4);
  }

  /** A key set on its own changes that key and no other. */
  lemma SetKeySetsOne(digest: Policy -> string, d: Disk, key: string, value: bool)
    requires key in KEYS && ReadConsent(d).status != Fail
    ensures Effective(AfterEvent(digest, d, SetKey(key, value, 4))) == Effective(d)[key := value]
  {
    WholeOldOrNew(digest, d, "set:" + key, Effective(d)[key := value], 4);
    hide Attempt, ReadConsent;
  }

  /** Two set_key calls that both read before either takes the lock, one after the other. */
  function StalePair(digest: Policy -> string, d: Disk, first: string, value1: bool, second: string, value2: bool): Disk
    requires first in KEYS && second in KEYS
  {
    var read := Effective(d);
    Attempt(digest, Attempt(digest, d, "set:" + first, read[first := value1], 4), "set:" + second,
        read[second := value2], 4)
  }

  /** Both keys end up as asked exactly when the first call asked for what was there already. */
  lemma StalePairKeepsBothIff(digest: Policy -> string, d: Disk, first: string, value1: bool, second: string,
                              value2: bool)
    requires first in KEYS && second in KEYS && first != second && ReadConsent(d).status != Fail
    ensures var after := Effective(StalePair(digest, d, first, value1, second, value2));
      && after == Effective(d)[second := value2]
      && (after[first] == value1 && after[second] == value2 <==> Effective(d)[first] == value1)
  {
    var read := Effective(d);
    WholeOldOrNew(digest, d, "set:" + first, read[first := value1], 4);
    hide Attempt, ReadConsent;
    WholeOldOrNew(digest, Attempt(digest, d, "set:" + first, read[first := value1], 4), "set:" + second,
        read[second := value2], 4);
  }

  /** From nothing at all: internet and federation are switched on at once, and internet stays off. */
  lemma StaleSetKeyLosesUpdate(digest: Policy -> string)
    ensures var empty := Disk(None, Absent, Absent, Absent, Absent, []);
      var after := Effective(StalePair(digest, empty, "internet", true, "federation", true));
      after["federation"] && !after["internet"]
  {
    var empty := Disk(None, Absent, Absent, Absent, Absent, []);
    assert ReadConsent(empty) == Check(Nowhere, DenyAll(), {}, Warn);
    hide StalePair, ReadConsent;
    StalePairKeepsBothIff(digest, empty, "internet", true, "federation", true);
  }

  /** A canonical file that cannot be read denies everything, whatever the mirror says, and no write
      replaces it. */
  lemma MalformedDenies(digest: Policy -> string, d: Disk, e: Event)
    requires Read(Canonical(d)).Failed?
    ensures forall key :: !Permitted(d, key)
    ensures AfterEvent(digest, d, e) == d
  {
    assert ReadConsent(d).status == Fail;
    RefusedAttempt(digest, d, e);
  }
}
