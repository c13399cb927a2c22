/** Bound receipts: the writer, the staged verifier, and what a signature over the payload binds. */
module BoundReceipt {
  import opened Wrappers
  import JsonText
  import opened JsonItems

  const FORMAT := "willow-bound-receipt/1"

  datatype Payload = Payload(
    agentIdentityRef: string, capabilityTokenRef: string, policyOrManifestDigest: string, toolCallDigest: string,
    effectRefOrDenialCode: string, ledgerPrev: string, ledgerEntryHash: string, signerId: string,
    issuedAt: string, expiresAt: string)

  /** A decoded JSON value, as far as the verifier looks into it. */
  datatype Json = JStr(s: string) | JObj(fields: map<string, Json>) | JNull | JOther

  /** The live planes of one call. `manifest` names a manifest document. */
  datatype Sources = Sources(
    agent: string, trust: int, session: string, manifest: string, app: string, tool: string, nonce: string,
    prev: string, ts: string, ledgerApp: string, ledgerTool: string, ledgerOutcome: string,
    ledgerDetail: Option<string>,
    denied: bool, denialCode: Option<string>, effectOutcome: Option<string>, effectDetail: Option<string>)

  /** Digests, the keyed hash, and the clock's format (instants are microseconds). */
  datatype Tools = Tools(
    hash: string -> string, mac: (string, string) -> string,
    acl: string -> string, policy: string -> string,
    format: int -> string, parse: string -> Option<int>)

  /** Digests are 64 hexadecimal digits, and the clock reads back what it writes. */
  ghost predicate Sound(t: Tools) {
    && (forall m :: IsDigest(t.hash(m)))
    && (forall k, m :: IsDigest(t.mac(k, m)))
    && (forall d :: IsDigest(t.acl(d)) && IsDigest(t.policy(d)))
    && (forall i :: t.parse(t.format(i)) == Some(i))
  }

  /** No two of these texts collide. */
  predicate Apart(f: string -> string, texts: set<string>) {
    forall m, n | m in texts && n in texts :: f(m) == f(n) ==> m == n
  }

  // ---- Shapes ----------------------------------------------------------------------------------

  predicate IsLowHex(c: char) { '0' <= c <= '9' || 'a' <= c <= 'f' }

  predicate IsWord(c: char) { '0' <= c <= '9' || 'a' <= c <= 'z' || c == '_' }

  predicate IsDigest(s: string) { |s| == 64 && forall c | c in s :: IsLowHex(c) }

  /** `$` also matches before a final line feed. */
  function BeforeEnd(s: string): string {
    if s != "" && s[|s| - 1] == '\n' then s[..|s| - 1] else s
  }

  predicate DigestShape(s: string) { IsDigest(BeforeEnd(s)) }

  const EFFECT := "effect:"
  const DENIAL := "denial:"

  predicate EffectShape(s: string) {
    var body := BeforeEnd(s);
    || (DENIAL <= body && 1 <= |body| - |DENIAL| <= 64 && forall c | c in body[|DENIAL|..] :: IsWord(c))
    || (EFFECT <= body && IsDigest(body[|EFFECT|..]))
  }

  predicate SignerShape(s: string) {
    var body := BeforeEnd(s);
    && 1 <= |body| <= 128
    && ('0' <= body[0] <= '9' || 'a' <= body[0] <= 'z')
    && forall c | c in body[1..] :: '0' <= c <= '9' || 'a' <= c <= 'z' || c == '.' || c == '_' || c == '-'
  }

  predicate SignatureShape(alg: string, value: string) {
    && BeforeEnd(value) != "" && (forall c | c in BeforeEnd(value) :: IsLowHex(c))
    && (alg == "hmac-sha256" ==> |value| == 64)
    && (alg == "ed25519" ==> |value| == 128)
  }

  // ---- The digests of a call -------------------------------------------------------------------

  function Optional(s: Option<string>): Item { if s.None? then Null else Str(s.value) }

  function AgentText(s: Sources): string { List([Str("session_bind"), Str(s.agent), Num(s.trust), Str(s.session)]) }

  function CallText(s: Sources): string { List([Str("call"), Str(s.session), Str(s.app), Str(s.tool), Str(s.nonce)]) }

  function EffectText(outcome: string, detail: Option<string>): string {
    List([Str("effect"), Str(outcome), Optional(detail)])
  }

  function LedgerText(s: Sources): string {
    List([Str(s.prev), Str(s.ts), Str(s.ledgerApp), Str(s.ledgerTool), Str(s.ledgerOutcome), Optional(s.ledgerDetail)])
  }

  function LowerChar(c: char): char { if 'A' <= c <= 'Z' then c + 32 as char else c }

  function CodeChar(c: char): (r: char)
    ensures IsWord(r)
  {
    if IsWord(LowerChar(c)) then LowerChar(c) else '_'
  }

  /** Lower case, every other character an underscore, at most 64. */
  function DenialCode(code: string): (r: string)
    ensures |r| == if |code| < 64 then |code| else 64
    ensures forall c | c in r :: IsWord(c)
  {
    seq(if |code| < 64 then |code| else 64, i requires 0 <= i < |code| => CodeChar(code[i]))
  }

  function Outcome(s: Sources): string { if s.effectOutcome.Some? then s.effectOutcome.value else s.ledgerOutcome }

  /** None when a denied call has no code. */
  function EffectOf(t: Tools, s: Sources): Option<string> {
    if !s.denied then Some(EFFECT + t.hash(EffectText(Outcome(s), s.effectDetail)))
    else if s.denialCode.None? || s.denialCode.value == "" then None
    else Some(DENIAL + DenialCode(s.denialCode.value))
  }

  datatype Refs = Refs(agent: string, acl: string, policy: string, call: string, effect: string, prev: string,
      entry: string)

  function ExpectedRefs(t: Tools, s: Sources): Option<Refs> {
    var effect := EffectOf(t, s);
    if effect.None? then None
    else
      Some(Refs(t.hash(AgentText(s)), t.acl(s.manifest), t.policy(s.manifest), t.hash(CallText(s)), effect.value,
          s.prev,
                t.hash(LedgerText(s))))
  }

  // ---- The signed bytes ------------------------------------------------------------------------

  function SignedFields(p: Payload): seq<string> {
    [FORMAT, p.agentIdentityRef, p.capabilityTokenRef, p.policyOrManifestDigest, p.toolCallDigest,
        p.effectRefOrDenialCode,
     p.ledgerPrev, p.ledgerEntryHash, p.signerId, p.issuedAt, p.expiresAt]
  }

  function SignedText(p: Payload): string { JsonText.Array(SignedFields(p)) }

  /** Two payloads with the same signed bytes agree in every field. */
  lemma SignedTextInjective(p: Payload, q: Payload)
    ensures SignedText(p) == SignedText(q) ==> p == q
  {
    hide JsonText.Array;
    if SignedText(p) == SignedText(q) {
      JsonText.ArrayInjective(SignedFields(p), SignedFields(q));
      var a, b := SignedFields(p), SignedFields(q);
      assert a[1] == b[1] && a[2] == b[2] && a[3] == b[3] && a[4] == b[4] && a[5] == b[5];
      assert a[6] == b[6] && a[7] == b[7] && a[8] == b[8] && a[9] == b[9] && a[10] == b[10];
    }
  }

  // ---- The writer ------------------------------------------------------------------------------

  datatype WriteError = NoKey | NoDenialCode

  function PayloadJson(p: Payload): map<string, Json> {
    map["agent_identity_ref" := JStr(p.agentIdentityRef), "capability_token_ref" := JStr(p.capabilityTokenRef),
        "policy_or_manifest_digest" := JStr(p.policyOrManifestDigest), "tool_call_digest" := JStr(p.toolCallDigest),
        "effect_ref_or_denial_code" := JStr(p.effectRefOrDenialCode), "ledger_prev" := JStr(p.ledgerPrev),
        "ledger_entry_hash" := JStr(p.ledgerEntryHash), "signer_id" := JStr(p.signerId),
        "issued_at" := JStr(p.issuedAt), "expires_at" := JStr(p.expiresAt)]
  }

  function Wire(p: Payload, alg: string, value: string, meta: Option<map<string, Json>>): Json {
    var bare := map["format" := JStr(FORMAT), "payload" := JObj(PayloadJson(p)),
                    "signature" := JObj(map["alg" := JStr(alg), "value" := JStr(value)])];
    JObj(if meta.Some? then bare["meta" := JObj(meta.value)] else bare)
  }

  function Lifetime(ttl: int): int { 1_000_000 * if ttl < 1 then 1 else ttl }

  function NewPayload(t: Tools, refs: Refs, signer: string, issued: int, ttl: int): Payload {
    Payload(refs.agent, refs.acl, refs.policy, refs.call, refs.effect, refs.prev, refs.entry, signer,
            t.format(issued), t.format(issued + Lifetime(ttl)))
  }

  function WriteReceipt(t: Tools, s: Sources, key: string, signer: string, ttl: int, issued: int,
                        meta: Option<map<string, Json>>): Result<Json, WriteError> {
    if key == "" then Err(NoKey)
    else
      var refs := ExpectedRefs(t, s);
      if refs.None? then Err(NoDenialCode)
      else
        var p := NewPayload(t, refs.value, signer, issued, ttl);
        Ok(Wire(p, "hmac-sha256", t.mac(key, SignedText(p)), meta))
  }

  // ---- The verifier ----------------------------------------------------------------------------

  function Text(fields: map<string, Json>, key: string): Option<string> {
    if key in fields && fields[key].JStr? then Some(fields[key].s) else None
  }

  /** What is left of a wire once its structure has been checked. */
  datatype Checked = Checked(payload: Payload, alg: string, value: string)

  const PAYLOAD_KEYS := {
    "agent_identity_ref", "capability_token_ref", "policy_or_manifest_digest", "tool_call_digest",
        "effect_ref_or_denial_code",
    "ledger_prev", "ledger_entry_hash", "signer_id", "issued_at", "expires_at" }

  predicate GoodDigest(fields: map<string, Json>, key: string) {
    Text(fields, key).Some? && DigestShape(Text(fields, key).value)
  }

  predicate GoodTime(t: Tools, fields: map<string, Json>, key: string) {
    Text(fields, key).Some? && t.parse(Text(fields, key).value).Some?
  }

  function CheckPayload(t: Tools, p: map<string, Json>): Option<Payload> {
    if p.Keys != PAYLOAD_KEYS then None
    else if !GoodDigest(p, "agent_identity_ref") || !GoodDigest(p, "capability_token_ref") then None
    else if !GoodDigest(p, "policy_or_manifest_digest") || !GoodDigest(p, "tool_call_digest") then None
    else if !GoodDigest(p, "ledger_prev") || !GoodDigest(p, "ledger_entry_hash") then None
    else if Text(p, "effect_ref_or_denial_code").None? ||
        !EffectShape(Text(p, "effect_ref_or_denial_code").value) then None
    else if Text(p, "signer_id").None? || !SignerShape(Text(p, "signer_id").value) then None
    else if !GoodTime(t, p, "issued_at") || !GoodTime(t, p, "expires_at") then None
    else
      Some(Payload(p["agent_identity_ref"].s, p["capability_token_ref"].s, p["policy_or_manifest_digest"].s,
          p["tool_call_digest"].s,
                   p["effect_ref_or_denial_code"].s, p["ledger_prev"].s, p["ledger_entry_hash"].s, p["signer_id"].s,
                   p["issued_at"].s, p["expires_at"].s))
  }

  function CheckSignature(w: map<string, Json>): Option<(string, string)> {
    if "signature" !in w || !w["signature"].JObj? || w["signature"].fields.Keys != {"alg", "value"} then None
    else
      var alg, value := Text(w["signature"].fields, "alg"), Text(w["signature"].fields, "value");
      if alg.None? || alg.value !in {"hmac-sha256", "ed25519"} || value.None? ||
          !SignatureShape(alg.value, value.value) then None
      else Some((alg.value, value.value))
  }

  /** Stage one. */
  function Structure(t: Tools, wire: Json): Option<Checked> {
    if !wire.JObj? then None
    else
      var w := wire.fields;
      if Text(w, "format") != Some(FORMAT) || !(w.Keys <= {"format", "payload", "signature", "meta"}) then None
      else if "payload" !in w || !w["payload"].JObj? || CheckPayload(t, w["payload"].fields).None? then None
      else if CheckSignature(w).None? then None
      else if "meta" in w && !w["meta"].JNull? && !w["meta"].JObj? then None
      else Some(Checked(CheckPayload(t, w["payload"].fields).value, CheckSignature(w).value.0,
          CheckSignature(w).value.1))
  }

  datatype Verdict = Verified | StructuralInvalid | Expired | RefMismatch(field: string) | SignatureInvalid | Raised

  /** The first reference field, in the declared order, that differs. */
  function Mismatch(p: Payload, r: Refs): Option<string> {
    if p.agentIdentityRef != r.agent then Some("agent_identity_ref")
    else if p.capabilityTokenRef != r.acl then Some("capability_token_ref")
    else if p.policyOrManifestDigest != r.policy then Some("policy_or_manifest_digest")
    else if p.toolCallDigest != r.call then Some("tool_call_digest")
    else if p.effectRefOrDenialCode != r.effect then Some("effect_ref_or_denial_code")
    else if p.ledgerPrev != r.prev then Some("ledger_prev")
    else if p.ledgerEntryHash != r.entry then Some("ledger_entry_hash")
    else None
  }

  function VerifyReceipt(t: Tools, wire: Json, key: string, s: Sources, now: int): Verdict {
    var c := Structure(t, wire);
    if c.None? then StructuralInvalid
    else if t.parse(c.value.payload.expiresAt).None? then Raised
    else if now > t.parse(c.value.payload.expiresAt).value then Expired
    else
      var refs := ExpectedRefs(t, s);
      if refs.None? then Raised
      else
        var bad := Mismatch(c.value.payload, refs.value);
        if bad.Some? then RefMismatch(bad.value)
        else if c.value.alg != "hmac-sha256" then SignatureInvalid
        else if t.mac(key, SignedText(c.value.payload)) != c.value.value then SignatureInvalid
        else Verified
  }

  // ---- What a verified receipt means -----------------------------------------------------------

  predicate CarriesRefs(p: Payload, r: Refs) {
    && p.agentIdentityRef == r.agent && p.capabilityTokenRef == r.acl && p.policyOrManifestDigest == r.policy
    && p.toolCallDigest == r.call && p.effectRefOrDenialCode == r.effect && p.ledgerPrev == r.prev &&
        p.ledgerEntryHash == r.entry
  }

  lemma StructureTimes(t: Tools, wire: Json)
    requires Structure(t, wire).Some?
    ensures t.parse(Structure(t, wire).value.payload.expiresAt).Some?
  {
    hide DigestShape, EffectShape, SignerShape, SignatureShape, CheckSignature;
  }

  /** A receipt verifies exactly when it is well formed, not past its expiry, about this very call, and
      signed under the key; the verifier never gets past the structure to fail on a timestamp. */
  lemma VerifiedIff(t: Tools, wire: Json, key: string, s: Sources, now: int)
    ensures VerifyReceipt(t, wire, key, s, now) == Verified <==>
      && Structure(t, wire).Some? && ExpectedRefs(t, s).Some?
      && (var c := Structure(t, wire).value;
          && t.parse(c.payload.expiresAt).Some? && now <= t.parse(c.payload.expiresAt).value
          && CarriesRefs(c.payload, ExpectedRefs(t, s).value)
          && c.alg == "hmac-sha256" && c.value == t.mac(key, SignedText(c.payload)))
    ensures VerifyReceipt(t, wire, key, s, now) == Raised <==>
      && Structure(t, wire).Some? && ExpectedRefs(t, s).None?
      && now <= t.parse(Structure(t, wire).value.payload.expiresAt).value
  {
    hide Structure, ExpectedRefs, SignedText;
    if Structure(t, wire).Some? { StructureTimes(t, wire); }
  }

  /** While the keyed hash does not collide on the two, one signature belongs to one payload: a wire whose payload
      was changed in any field does not verify with the old signature, whatever call it is checked against. */
  lemma ChangedPayloadFails(t: Tools, a: Json, b: Json, key: string, sa: Sources, sb: Sources, nowA: int, nowB: int)
    ensures
      Structure(t, a).Some? && Structure(t, b).Some? && VerifyReceipt(t, a, key, sa, nowA) == Verified ==>
        var ca, cb := Structure(t, a).value, Structure(t, b).value;
        var p, q := SignedText(ca.payload), SignedText(cb.payload);
        ca.value == cb.value && ca.payload != cb.payload && (t.mac(key, p) == t.mac(key, q) ==> p == q) ==>
        VerifyReceipt(t, b, key, sb, nowB) != Verified
  {
    VerifiedIff(t, a, key, sa, nowA);
    VerifiedIff(t, b, key, sb, nowB);
    hide Structure, VerifyReceipt, SignedText, ExpectedRefs;
    if Structure(t, a).Some? && Structure(t, b).Some? {
      SignedTextInjective(Structure(t, a).value.payload, Structure(t, b).value.payload);
    }
  }

  // ---- Write, then verify ----------------------------------------------------------------------

  lemma DigestIsShaped(s: string)
    requires IsDigest(s)
    ensures DigestShape(s) && BeforeEnd(s) == s
  {
    assert s[63] in s;
  }

  lemma EffectIsShaped(t: Tools, s: Sources)
    requires Sound(t) && EffectOf(t, s).Some?
    ensures EffectShape(EffectOf(t, s).value)
  {
    hide EffectShape, EffectText, DenialCode;
    if !s.denied {
      DigestEffect(t.hash(EffectText(Outcome(s), s.effectDetail)));
    } else {
      DenialEffect(DenialCode(s.denialCode.value));
    }
  }

  lemma DigestEffect(h: string)
    requires IsDigest(h)
    ensures EffectShape(EFFECT + h)
  {
    var e := EFFECT + h;
    assert h[63] in h && e[|e| - 1] == h[63];
    assert e[|EFFECT|..] == h;
  }

  lemma DenialEffect(code: string)
    requires 1 <= |code| <= 64 && forall c | c in code :: IsWord(c)
    ensures EffectShape(DENIAL + code)
  {
    var e := DENIAL + code;
    assert code[|code| - 1] in code && e[|e| - 1] == code[|code| - 1];
    assert e[|DENIAL|..] == code;
  }

  lemma PayloadChecked(t: Tools, p: Payload)
    ensures CheckPayload(t, PayloadJson(p)) ==
      if && DigestShape(p.agentIdentityRef) && DigestShape(p.capabilityTokenRef) &&
          DigestShape(p.policyOrManifestDigest)
         && DigestShape(p.toolCallDigest) && DigestShape(p.ledgerPrev) && DigestShape(p.ledgerEntryHash)
         && EffectShape(p.effectRefOrDenialCode) && SignerShape(p.signerId)
         && t.parse(p.issuedAt).Some? && t.parse(p.expiresAt).Some?
      then Some(p) else None
  {
    hide DigestShape, EffectShape, SignerShape;
    var j := PayloadJson(p);
    assert j.Keys == PAYLOAD_KEYS;
  }

  lemma WireChecked(t: Tools, p: Payload, value: string, meta: Option<map<string, Json>>)
    requires IsDigest(value)
    ensures Structure(t, Wire(p, "hmac-sha256", value, meta)) ==
      if CheckPayload(t, PayloadJson(p)) == Some(p) then Some(Checked(p, "hmac-sha256", value))
      else if CheckPayload(t, PayloadJson(p)).None? then None
      else Structure(t, Wire(p, "hmac-sha256", value, meta))
  {
    hide CheckPayload, PayloadJson;
    DigestIsShaped(value);
    var w := Wire(p, "hmac-sha256", value, meta).fields;
    var sig := map["alg" := JStr("hmac-sha256"), "value" := JStr(value)];
    assert sig.Keys == {"alg", "value"};
    assert w["signature"] == JObj(sig);
    assert CheckSignature(w) == Some(("hmac-sha256", value));
  }

  /** A receipt just written, checked against the call it was written for, verifies exactly until its
      expiry, provided the ledger hash and the signer id have the shapes the verifier asks for. */
  lemma WrittenVerifiesIff(t: Tools, s: Sources, key: string, signer: string, ttl: int, issued: int,
                           meta: Option<map<string, Json>>, now: int)
    requires Sound(t)
    ensures WriteReceipt(t, s, key, signer, ttl, issued, meta).Ok? ==>
      var wire := WriteReceipt(t, s, key, signer, ttl, issued, meta).value;
      var verdict := VerifyReceipt(t, wire, key, s, now);
      && (verdict == Verified <==> DigestShape(s.prev) && SignerShape(signer) && now <= issued + Lifetime(ttl))
      && (verdict == StructuralInvalid <==> !(DigestShape(s.prev) && SignerShape(signer)))
      && (verdict in {Verified, StructuralInvalid, Expired})
  {
    if WriteReceipt(t, s, key, signer, ttl, issued, meta).Ok? {
      WrittenPayload(t, s, key, signer, ttl, issued, meta);
      var wire := WriteReceipt(t, s, key, signer, ttl, issued, meta).value;
      var p := NewPayload(t, ExpectedRefs(t, s).value, signer, issued, ttl);
      hide SignedText, ExpectedRefs, SignerShape, DigestShape, Structure, WriteReceipt;
      assert t.parse(p.expiresAt) == Some(issued + Lifetime(ttl));
      if DigestShape(s.prev) && SignerShape(signer) {
        assert CarriesRefs(p, ExpectedRefs(t, s).value) by { hide *; OwnRefs(t, ExpectedRefs(t, s).value, signer,
            issued, ttl); }
        hide NewPayload, CarriesRefs, VerifyReceipt;
        OwnVerdict(t, wire, key, s, now, p);
      }
    }
  }

  lemma OwnRefs(t: Tools, refs: Refs, signer: string, issued: int, ttl: int)
    ensures CarriesRefs(NewPayload(t, refs, signer, issued, ttl), refs)
  {
  }

  /** A well-formed wire about this call under this key is only a matter of time. */
  lemma OwnVerdict(t: Tools, wire: Json, key: string, s: Sources, now: int, p: Payload)
    requires Structure(t, wire) == Some(Checked(p, "hmac-sha256", t.mac(key, SignedText(p))))
    requires ExpectedRefs(t, s).Some? && CarriesRefs(p, ExpectedRefs(t, s).value) && t.parse(p.expiresAt).Some?
    ensures VerifyReceipt(t, wire, key, s, now) == if now <= t.parse(p.expiresAt).value then Verified else Expired
  {
    hide Structure, ExpectedRefs, SignedText;
  }

  lemma RefsShaped(t: Tools, s: Sources)
    requires Sound(t) && ExpectedRefs(t, s).Some?
    ensures var r := ExpectedRefs(t, s).value;
      && DigestShape(r.agent) && DigestShape(r.acl) && DigestShape(r.policy) && DigestShape(r.call) &&
          DigestShape(r.entry)
      && EffectShape(r.effect) && r.prev == s.prev
  {
    var r := ExpectedRefs(t, s).value;
    EffectIsShaped(t, s);
    hide EffectShape, DigestShape, EffectOf, AgentText, CallText, LedgerText;
    DigestIsShaped(r.agent);
    DigestIsShaped(r.acl);
    DigestIsShaped(r.policy);
    DigestIsShaped(r.call);
    DigestIsShaped(r.entry);
  }

  // ---- The references bind the call ------------------------------------------------------------

  /** What a denied or an allowed call reports of its effect. */
  predicate SameEffect(a: Sources, b: Sources) {
    && a.denied == b.denied
    && (!a.denied ==> Outcome(a) == Outcome(b) && a.effectDetail == b.effectDetail)
    && (a.denied ==> a.denialCode.Some? && b.denialCode.Some?)
    && (a.denied ==> DenialCode(a.denialCode.value) == DenialCode(b.denialCode.value))
  }

  predicate SameCall(t: Tools, a: Sources, b: Sources) {
    && a.agent == b.agent && a.trust == b.trust && a.session == b.session
    && t.acl(a.manifest) == t.acl(b.manifest) && t.policy(a.manifest) == t.policy(b.manifest)
    && a.app == b.app && a.tool == b.tool && a.nonce == b.nonce
    && a.prev == b.prev && a.ts == b.ts && a.ledgerApp == b.ledgerApp && a.ledgerTool == b.ledgerTool
    && a.ledgerOutcome == b.ledgerOutcome && a.ledgerDetail == b.ledgerDetail
    && SameEffect(a, b)
  }

  lemma AgentBinds(t: Tools, a: Sources, b: Sources)
    requires AgentText(a) == AgentText(b)
    ensures a.agent == b.agent && a.trust == b.trust && a.session == b.session
  {
    hide List;
    var x, y := [Str("session_bind"), Str(a.agent), Num(a.trust), Str(a.session)],
        [Str("session_bind"), Str(b.agent), Num(b.trust), Str(b.session)];
    ListInjective(x, y);
    assert x[1] == y[1] && x[2] == y[2] && x[3] == y[3];
  }

  lemma CallBinds(t: Tools, a: Sources, b: Sources)
    requires CallText(a) == CallText(b)
    ensures a.session == b.session && a.app == b.app && a.tool == b.tool && a.nonce == b.nonce
  {
    hide List;
    var x, y := [Str("call"), Str(a.session), Str(a.app), Str(a.tool), Str(a.nonce)],
        [Str("call"), Str(b.session), Str(b.app), Str(b.tool), Str(b.nonce)];
    ListInjective(x, y);
    assert x[1] == y[1] && x[2] == y[2] && x[3] == y[3] && x[4] == y[4];
  }

  lemma LedgerBinds(t: Tools, a: Sources, b: Sources)
    requires LedgerText(a) == LedgerText(b)
    ensures a.prev == b.prev && a.ts == b.ts && a.ledgerApp == b.ledgerApp && a.ledgerTool == b.ledgerTool
    ensures a.ledgerOutcome == b.ledgerOutcome && a.ledgerDetail == b.ledgerDetail
  {
    hide List;
    var x := [Str(a.prev), Str(a.ts), Str(a.ledgerApp), Str(a.ledgerTool), Str(a.ledgerOutcome),
        Optional(a.ledgerDetail)];
    var y := [Str(b.prev), Str(b.ts), Str(b.ledgerApp), Str(b.ledgerTool), Str(b.ledgerOutcome),
        Optional(b.ledgerDetail)];
    ListInjective(x, y);
    assert x[0] == y[0] && x[1] == y[1] && x[2] == y[2] && x[3] == y[3] && x[4] == y[4] && x[5] == y[5];
  }

  lemma EffectBinds(t: Tools, a: Sources, b: Sources)
    requires EffectOf(t, a).Some? && EffectOf(t, a) == EffectOf(t, b)
    requires Apart(t.hash, {EffectText(Outcome(a), a.effectDetail), EffectText(Outcome(b), b.effectDetail)})
    ensures SameEffect(a, b)
  {
    hide List, DenialCode;
    var e := EffectOf(t, a).value;
    assert e[0] == (if a.denied then 'd' else 'e') && e[0] == (if b.denied then 'd' else 'e');
    if a.denied {
      assert e[|DENIAL|..] == DenialCode(a.denialCode.value) && e[|DENIAL|..] == DenialCode(b.denialCode.value);
    } else {
      assert e[|EFFECT|..] == t.hash(EffectText(Outcome(a), a.effectDetail)) &&
          e[|EFFECT|..] == t.hash(EffectText(Outcome(b), b.effectDetail));
      var x, y := [Str("effect"), Str(Outcome(a)), Optional(a.effectDetail)],
          [Str("effect"), Str(Outcome(b)), Optional(b.effectDetail)];
      ListInjective(x, y);
      assert x[1] == y[1] && x[2] == y[2];
    }
  }

  /** Every text the references of two calls are digests of. */
  function CallTexts(a: Sources): set<string> {
    {AgentText(a), CallText(a), LedgerText(a), EffectText(Outcome(a), a.effectDetail)}
  }

  /** While the hash does not collide on their texts, two calls have the same references exactly when
      they are the same call. */
  lemma RefsBindCall(t: Tools, a: Sources, b: Sources)
    requires Apart(t.hash, CallTexts(a) + CallTexts(b))
    ensures ExpectedRefs(t, a).Some? && ExpectedRefs(t, b).Some? ==>
      (ExpectedRefs(t, a) == ExpectedRefs(t, b) <==> SameCall(t, a, b))
  {
    if ExpectedRefs(t, a).Some? && ExpectedRefs(t, b).Some? {
      if ExpectedRefs(t, a) == ExpectedRefs(t, b) {
        RefsEqual(t, a, b);
        hide ExpectedRefs, AgentText, CallText, LedgerText, EffectText, EffectOf, DenialCode;
        ApartPair(t.hash, CallTexts(a) + CallTexts(b), AgentText(a), AgentText(b));
        ApartPair(t.hash, CallTexts(a) + CallTexts(b), CallText(a), CallText(b));
        ApartPair(t.hash, CallTexts(a) + CallTexts(b), LedgerText(a), LedgerText(b));
        AgentBinds(t, a, b);
        CallBinds(t, a, b);
        LedgerBinds(t, a, b);
        EffectBinds(t, a, b);
      }
      hide *;
      if SameCall(t, a, b) { SameCallSameRefs(t, a, b); }
    }
  }

  lemma SameCallSameRefs(t: Tools, a: Sources, b: Sources)
    requires ExpectedRefs(t, a).Some? && ExpectedRefs(t, b).Some? && SameCall(t, a, b)
    ensures ExpectedRefs(t, a) == ExpectedRefs(t, b)
  {
    hide List, DenialCode, Apart;
  }

  lemma RefsEqual(t: Tools, a: Sources, b: Sources)
    requires ExpectedRefs(t, a).Some? && ExpectedRefs(t, a) == ExpectedRefs(t, b)
    ensures t.hash(AgentText(a)) == t.hash(AgentText(b)) && t.hash(CallText(a)) == t.hash(CallText(b))
    ensures t.hash(LedgerText(a)) == t.hash(LedgerText(b)) && EffectOf(t, a).Some? && EffectOf(t, a) == EffectOf(t, b)
    ensures t.acl(a.manifest) == t.acl(b.manifest) && t.policy(a.manifest) == t.policy(b.manifest)
  {
    hide AgentText, CallText, LedgerText, EffectOf;
  }

  lemma ApartPair(f: string -> string, texts: set<string>, m: string, n: string)
    requires Apart(f, texts) && m in texts && n in texts && f(m) == f(n)
    ensures m == n
  {
  }

  /** A receipt written for one call never verifies against another. */
  lemma ReceiptIsForItsCall(t: Tools, s: Sources, other: Sources, key: string, signer: string, ttl: int, issued: int,
                            meta: Option<map<string, Json>>, now: int)
    requires Sound(t) && Apart(t.hash, CallTexts(s) + CallTexts(other))
    ensures var written := WriteReceipt(t, s, key, signer, ttl, issued, meta);
      written.Ok? && VerifyReceipt(t, written.value, key, other, now) == Verified ==> SameCall(t, s, other)
  {
    hide Apart, CallTexts, SameCall;
    if WriteReceipt(t, s, key, signer, ttl, issued, meta).Ok? {
      var wire := WriteReceipt(t, s, key, signer, ttl, issued, meta).value;
      WrittenPayload(t, s, key, signer, ttl, issued, meta);
      VerifiedIff(t, wire, key, other, now);
      hide SignedText, VerifyReceipt, ExpectedRefs, Structure, WriteReceipt;
      RefsBindCall(t, s, other);
    }
  }

  lemma WrittenPayload(t: Tools, s: Sources, key: string, signer: string, ttl: int, issued: int,
                       meta: Option<map<string, Json>>)
    requires Sound(t) && WriteReceipt(t, s, key, signer, ttl, issued, meta).Ok?
    ensures ExpectedRefs(t, s).Some?
    ensures var wire := WriteReceipt(t, s, key, signer, ttl, issued, meta).value;
      var p := NewPayload(t, ExpectedRefs(t, s).value, signer, issued, ttl);
      Structure(t, wire) == if DigestShape(s.prev) && SignerShape(signer)
        then Some(Checked(p, "hmac-sha256", t.mac(key, SignedText(p)))) else None
  {
    hide SignedText, EffectShape, SignerShape, DigestShape, PayloadJson, EffectOf, AgentText, CallText, LedgerText,
        CheckPayload, Wire, Structure;
    var p := NewPayload(t, ExpectedRefs(t, s).value, signer, issued, ttl);
    RefsShaped(t, s);
    hide ExpectedRefs;
    PayloadChecked(t, p);
    WireChecked(t, p, t.mac(key, SignedText(p)), meta);
  }
}
