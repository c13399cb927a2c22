/** What standing consent comes to, said of the JSON on disk. */
module ConsentLaws {
  import opened Wrappers
  import opened ConsentModel
  import Steps

  predicate IsKey(key: string) { key == "internet" || key == "cloud_llm" || key == "federation" }

  /** The object of a file that states consent: the one under "consent", or else the top level when it has one of
      the keys. */
  predicate States(f: File, block: map<string, Json>) {
    && f.Doc? && f.json.Obj?
    && (var top := f.json.fields;
        if "consent" in top && top["consent"].Obj? then block == top["consent"].fields
        else block == top && ("internet" in top || "cloud_llm" in top || "federation" in top))
  }

  /** The settings file read: the override's, or the one under config/ when it is there, or the one at the root. */
  predicate IsSettings(d: Disk, f: File) {
    if d.over.Some? then d.over == Some(f)
    else (d.config != Absent && f == d.config) || (d.config == Absent && f == d.root)
  }

  predicate IsMirror(d: Disk, f: File) {
    (d.mirrorConfig != Absent && f == d.mirrorConfig) || (d.mirrorConfig == Absent && f == d.mirrorRoot)
  }

  predicate Grants(block: map<string, Json>, key: string) {
    IsKey(key) && key in block && block[key] == Bool(true)
  }

  lemma KeysNamed(key: string)
    ensures key in KEYS <==> IsKey(key)
  {
  }

  /** What one file comes to. */
  lemma ReadIff(f: File, block: map<string, Json>)
    ensures Read(f).Nothing? <==> f == Absent
    ensures Read(f).Policied? <==> exists b :: States(f, b)
    ensures States(f, block) ==> Read(f).Policied?
    ensures States(f, block) ==>
              forall key | IsKey(key) ::
                && Read(f).policy[key] == Grants(block, key)
                && (key in Read(f).declared <==> key in block)
  {
    if f.Doc? && f.json.Obj? {
      var top := f.json.fields;
      if "consent" in top && top["consent"].Obj? {
        assert States(f, top["consent"].fields);
      } else {
        assert "internet" in KEYS && "cloud_llm" in KEYS && "federation" in KEYS;
        if KEYS * top.Keys != {} {
          var k :| k in KEYS * top.Keys;
          assert States(f, top);
        }
        if "internet" in top { assert "internet" in KEYS * top.Keys; }
        if "cloud_llm" in top { assert "cloud_llm" in KEYS * top.Keys; }
        if "federation" in top { assert "federation" in KEYS * top.Keys; }
      }
    }
  }

  /** A key is permitted exactly when the settings file that is read states it as a real `true`, or there is no
      settings file and the mirror states it so. */
  lemma PermittedIff(d: Disk, key: string)
    ensures Permitted(d, key) <==>
            exists f, block ::
              && States(f, block) && Grants(block, key)
              && (IsSettings(d, f) || (IsSettings(d, Absent) && IsMirror(d, f)))
  {
    hide Read, States;
    KeysNamed(key);
    var canon, mirror := Canonical(d), Mirror(d);
    StatesOf(canon);
    StatesOf(mirror);
    if block :| States(canon, block) { ReadIff(canon, block); }
    if block :| States(mirror, block) { ReadIff(mirror, block); }
    OneBlock(canon);
    OneBlock(mirror);
  }

  lemma StatesOf(f: File)
    ensures Read(f).Policied? <==> exists b :: States(f, b)
    ensures Read(f).Nothing? <==> f == Absent
  {
    ReadIff(f, map[]);
  }

  lemma OneBlock(f: File)
    ensures forall a, b :: States(f, a) && States(f, b) ==> a == b
  {
  }

  /** The canonical shape. */
  lemma CanonicalBlock(d: Disk, top: map<string, Json>, block: map<string, Json>, key: string)
    requires IsSettings(d, Doc(Obj(top))) && "consent" in top && top["consent"] == Obj(block)
    ensures Permitted(d, key) <==>
            key in {"internet", "cloud_llm", "federation"} && key in block && block[key] == Bool(true)
  {
    assert States(Doc(Obj(top)), block);
    PermittedIff(d, key);
    OneBlock(Doc(Obj(top)));
    hide Permitted;
  }

  /** The flat shape, in the settings file or in the mirror that is read when there is none. */
  lemma FlatBlock(d: Disk, top: map<string, Json>, key: string)
    requires IsSettings(d, Doc(Obj(top))) || (IsSettings(d, Absent) && IsMirror(d, Doc(Obj(top))))
    requires !("consent" in top && top["consent"].Obj?)
    ensures Permitted(d, key) <==>
            key in {"internet", "cloud_llm", "federation"} && key in top && top[key] == Bool(true)
  {
    PermittedIff(d, key);
    OneBlock(Doc(Obj(top)));
    hide Permitted;
    if IsKey(key) && key in top {
      assert States(Doc(Obj(top)), top);
    }
  }

  /** The mirror in the canonical shape, when there is no settings file. */
  lemma MirrorBlock(d: Disk, top: map<string, Json>, block: map<string, Json>, key: string)
    requires IsSettings(d, Absent) && IsMirror(d, Doc(Obj(top)))
    requires "consent" in top && top["consent"] == Obj(block)
    ensures Permitted(d, key) <==>
            key in {"internet", "cloud_llm", "federation"} && key in block && block[key] == Bool(true)
  {
    assert States(Doc(Obj(top)), block);
    PermittedIff(d, key);
    OneBlock(Doc(Obj(top)));
    hide Permitted;
  }

  /** Where the policy came from: a settings file that is there but states nothing fails, no policy anywhere
      warns. */
  lemma StatusIff(d: Disk)
    ensures var check := ReadConsent(d);
      && (check.status == Fail <==> exists f :: IsSettings(d, f) && f != Absent && !exists b :: States(f, b))
      && (check.status == Warn <==> IsSettings(d, Absent) && !exists f, b :: IsMirror(d, f) && States(f, b))
      && (check.source == Nowhere <==> check.status == Warn)
      && (check.source == Legacy <==> IsSettings(d, Absent) && exists f, b :: IsMirror(d, f) && States(f, b))
  {
    hide Read, States;
    var canon, mirror := Canonical(d), Mirror(d);
    StatesOf(canon);
    StatesOf(mirror);
    assert IsSettings(d, canon) && IsMirror(d, mirror);
  }

  /** The two files disagree on exactly the keys that both of them name and one of them grants. */
  lemma DisagreementIff(d: Disk, key: string)
    ensures key in ReadConsent(d).disagreement <==>
            exists f, block, g, other ::
              && IsSettings(d, f) && States(f, block) && IsMirror(d, g) && States(g, other)
              && IsKey(key) && key in block && key in other
              && (block[key] == Bool(true)) != (other[key] == Bool(true))
  {
    hide Read, States;
    KeysNamed(key);
    var canon, mirror := Canonical(d), Mirror(d);
    StatesOf(canon);
    StatesOf(mirror);
    OneBlock(canon);
    OneBlock(mirror);
    assert IsSettings(d, canon) && IsMirror(d, mirror);
    if block, other :| States(canon, block) && States(mirror, other) {
      ReadIff(canon, block);
      ReadIff(mirror, other);
    }
  }

  // ---- Writing ---------------------------------------------------------------------------------

  /** A write is accepted exactly for the three keys, each a boolean, beside which only the retired one may
      stand; what is written are those booleans. */
  lemma AcceptedIff(values: map<string, Json>)
    ensures Accepted(values).Some? <==>
            && "internet" in values && "cloud_llm" in values && "federation" in values
            && forall k | k in values :: (IsKey(k) && values[k].Bool?) || k == "lan"
    ensures Accepted(values).Some? ==>
              forall k | IsKey(k) ::
                k in Accepted(values).value && k in values && values[k] == Bool(Accepted(values).value[k])
  {
    var kept := map k | k in values && k !in RETIRED :: values[k];
    forall k ensures k in kept <==> k in values && k != "lan" {
    }
    assert forall k :: k in KEYS <==> IsKey(k);
    if kept.Keys == KEYS {
      assert "internet" in kept.Keys && "cloud_llm" in kept.Keys && "federation" in kept.Keys;
      assert forall k | k in values :: k in kept.Keys || k == "lan";
    }
    if "internet" in values && "cloud_llm" in values && "federation" in values
       && forall k | k in values :: (IsKey(k) && values[k].Bool?) || k == "lan" {
      assert kept.Keys == KEYS;
    }
  }

  /** The settings text written keeps every other top-level key and states the three keys as booleans. */
  lemma SettingsText(f: File, p: Policy)
    requires p.Keys == KEYS
    ensures var top := NewSettings(f, p).fields;
      && States(Doc(NewSettings(f, p)), top["consent"].fields)
      && (forall k | IsKey(k) :: k in top["consent"].fields && top["consent"].fields[k] == Bool(p[k]))
      && (forall k | k != "consent" ::
            (k in top <==> f.Doc? && f.json.Obj? && k in f.json.fields) &&
            (k in top ==> top[k] == f.json.fields[k]))
  {
    assert forall k :: k in KEYS <==> IsKey(k);
  }

  /** A completed write touches the settings file that was read, the mirror that was read, and the audit trail,
      which gains an intent and a commit that name the keys whose permission changes. */
  lemma CompletedWrite(digest: Policy -> string, d: Disk, action: string, p: Policy, f: File)
    requires p.Keys == KEYS && ReadConsent(d).status != Fail && IsSettings(d, f)
    ensures var e := Attempt(digest, d, action, p, 4);
      && IsSettings(e, Doc(NewSettings(f, p))) && IsMirror(e, Doc(Obj(map k | k in p :: Bool(p[k]))))
      && (d.over.Some? ==> e.config == d.config && e.root == d.root && e.over.Some?)
      && (d.over.None? ==>
            && e.over.None?
            && (if d.config != Absent then e.root == d.root else e.config == Absent))
      && (if d.mirrorConfig != Absent then e.mirrorRoot == d.mirrorRoot else e.mirrorConfig == Absent)
      && |e.audit| == |d.audit| + 2 && d.audit <= e.audit
      && (var intent, commit := e.audit[|d.audit|], e.audit[|d.audit| + 1];
          && intent.intent && !intent.reconciled && !commit.intent && commit.reconciled
          && commit == intent.(intent := false, reconciled := true)
          && intent.action == action
          && intent.before == digest(Effective(d)) && intent.after == digest(p)
          && forall key :: key in intent.changed <==> IsKey(key) && Permitted(d, key) != p[key])
  {
    TrailOf(digest, d, action, p, 4);
    WrittenFiles(digest, d, action, p, f);
    hide Attempt, NewSettings, ReadConsent;
    forall key ensures key in KEYS <==> IsKey(key) {
      KeysNamed(key);
    }
  }

  lemma WrittenFiles(digest: Policy -> string, d: Disk, action: string, p: Policy, f: File)
    requires p.Keys == KEYS && ReadConsent(d).status != Fail && IsSettings(d, f)
    ensures var e := Attempt(digest, d, action, p, 4);
      && IsSettings(e, Doc(NewSettings(f, p))) && IsMirror(e, Doc(AsJson(p)))
      && (d.over.Some? ==> e.config == d.config && e.root == d.root && e.over.Some?)
      && (d.over.None? ==>
            && e.over.None?
            && (if d.config != Absent then e.root == d.root else e.config == Absent))
      && (if d.mirrorConfig != Absent then e.mirrorRoot == d.mirrorRoot else e.mirrorConfig == Absent)
  {
    hide NewSettings, AsJson, Steps.All;
    var cs := Changes(digest, d, action, p);
    assert cs == [cs[0], cs[1], cs[2], cs[3]];
    Steps.PrefixOfFour(Put, d, cs[0], cs[1], cs[2], cs[3], 4);
    hide ReadConsent;
  }

  /** Setting one key, seen through the permissions: that key is as asked and the others are as they were. */
  lemma SetKeySeen(digest: Policy -> string, d: Disk, key: string, value: bool, other: string)
    requires IsKey(key) && ReadConsent(d).status != Fail
    ensures var e := AfterEvent(digest, d, SetKey(key, value, 4));
      Permitted(e, other) == if other == key then value else Permitted(d, other)
  {
    SetKeySetsOne(digest, d, key, value);
    KeysNamed(key);
    hide AfterEvent, ReadConsent;
  }

  /** A whole write, seen through the permissions: exactly what was asked. */
  lemma WriteSeen(digest: Policy -> string, d: Disk, action: string, values: map<string, Json>, key: string)
    requires Accepted(values).Some? && ReadConsent(d).status != Fail
    ensures Permitted(AfterEvent(digest, d, Write(action, values, 4)), key) <==>
            IsKey(key) && key in values && values[key] == Bool(true)
  {
    AcceptedIff(values);
    var p := Accepted(values).value;
    assert p.Keys == KEYS;
    KeysNamed(key);
    hide Accepted;
    WholeOldOrNew(digest, d, action, p, 4);
    hide Attempt, ReadConsent;
  }

  /** The trail says which call it was. */
  lemma ActionNamed(digest: Policy -> string, d: Disk, key: string, value: bool)
    requires IsKey(key) && ReadConsent(d).status != Fail
    ensures var e := AfterEvent(digest, d, SetKey(key, value, 4));
      |e.audit| == |d.audit| + 2 && e.audit[|d.audit|].action == e.audit[|d.audit| + 1].action == "set:" + key
    ensures var e := AfterEvent(digest, d, Reconcile(4));
      |e.audit| == |d.audit| + 2 && e.audit[|d.audit|].action == e.audit[|d.audit| + 1].action == "reconcile"
  {
    hide Attempt, ReadConsent;
    KeysNamed(key);
    ActionsOf(digest, d, "set:" + key, Effective(d)[key := value]);
    ActionsOf(digest, d, "reconcile", Effective(d));
  }

  lemma ActionsOf(digest: Policy -> string, d: Disk, action: string, p: Policy)
    requires p.Keys == KEYS && ReadConsent(d).status != Fail
    ensures var e := Attempt(digest, d, action, p, 4);
      |e.audit| == |d.audit| + 2 && e.audit[|d.audit|].action == e.audit[|d.audit| + 1].action == action
  {
    hide Attempt, ReadConsent;
    TrailOf(digest, d, action, p, 4);
  }
}
