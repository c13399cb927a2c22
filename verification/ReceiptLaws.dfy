/** Bound receipts key by key: what a wire has to hold to be well formed, what the writer puts into it, and which
    verdict the verifier reaches. */
module ReceiptLaws {
  import opened Wrappers
  import JsonText
  import Decimal
  import opened JsonItems
  import opened BoundReceipt

  // ---- Shapes ----------------------------------------------------------------------------------

  predicate IsHex(c: char) { c in "0123456789abcdef" }

  /** Sixty-four lower-case hexadecimal digits, and perhaps one line feed. */
  predicate Hex64(s: string) {
    && (|s| == 64 || (|s| == 65 && s[64] == '\n'))
    && forall i :: 0 <= i < 64 ==> IsHex(s[i])
  }

  lemma HexIsLowHex(c: char)
    ensures IsHex(c) <==> IsLowHex(c)
  {
    var digits := "0123456789abcdef";
    if '0' <= c <= '9' { assert digits[(c - '0') as int] == c; }
    if 'a' <= c <= 'f' { assert digits[10 + (c - 'a') as int] == c; }
  }

  lemma DigestShapeIff(s: string)
    ensures DigestShape(s) <==> Hex64(s)
  {
    forall c: char ensures IsHex(c) <==> IsLowHex(c) {
      HexIsLowHex(c);
    }
    hide IsHex, IsLowHex;
    if DigestShape(s) {
      forall i | 0 <= i < 64 ensures IsHex(s[i]) {
        assert BeforeEnd(s)[i] == s[i];
      }
    }
    if Hex64(s) && |s| == 64 {
      assert IsHex(s[63]);
      NewlineIsNoHex();
    }
  }

  lemma NewlineIsNoHex()
    ensures !IsHex('\n')
  {
  }

  /** Each payload key stands for one field of the payload. */
  function FieldOf(p: Payload, key: string): Option<string> {
    if key == "agent_identity_ref" then Some(p.agentIdentityRef)
    else if key == "capability_token_ref" then Some(p.capabilityTokenRef)
    else if key == "policy_or_manifest_digest" then Some(p.policyOrManifestDigest)
    else if key == "tool_call_digest" then Some(p.toolCallDigest)
    else if key == "effect_ref_or_denial_code" then Some(p.effectRefOrDenialCode)
    else if key == "ledger_prev" then Some(p.ledgerPrev)
    else if key == "ledger_entry_hash" then Some(p.ledgerEntryHash)
    else if key == "signer_id" then Some(p.signerId)
    else if key == "issued_at" then Some(p.issuedAt)
    else if key == "expires_at" then Some(p.expiresAt)
    else None
  }

  /** The object holds the payload's ten fields as strings, and nothing else. */
  ghost predicate Holds(fields: map<string, Json>, p: Payload) {
    forall key :: if key in fields then FieldOf(p, key).Some? && fields[key] == JStr(FieldOf(p, key).value)
                  else FieldOf(p, key) == None
  }

  /** Every field has the shape asked of it. */
  predicate Shaped(t: Tools, p: Payload) {
    && Hex64(p.agentIdentityRef) && Hex64(p.capabilityTokenRef) && Hex64(p.policyOrManifestDigest)
    && Hex64(p.toolCallDigest) && Hex64(p.ledgerPrev) && Hex64(p.ledgerEntryHash)
    && EffectShape(p.effectRefOrDenialCode) && SignerShape(p.signerId)
    && t.parse(p.issuedAt).Some? && t.parse(p.expiresAt).Some?
  }

  lemma HeldKeys(fields: map<string, Json>, p: Payload)
    requires Holds(fields, p)
    ensures fields.Keys == PAYLOAD_KEYS
  {
    hide FieldOf;
    forall key ensures key in fields.Keys <==> key in PAYLOAD_KEYS {
      KeyIsField(p, key);
    }
    hide *;
  }

  lemma JsonHolds(p: Payload, key: string)
    requires FieldOf(p, key).Some?
    ensures key in PayloadJson(p) && PayloadJson(p)[key] == JStr(FieldOf(p, key).value)
  {
  }

  lemma HeldIsJson(fields: map<string, Json>, p: Payload)
    requires Holds(fields, p)
    ensures fields == PayloadJson(p)
  {
    HeldKeys(fields, p);
    JsonKeys(p);
    hide FieldOf, PayloadJson;
    forall key | key in fields ensures fields[key] == PayloadJson(p)[key] {
      JsonHolds(p, key);
    }
  }

  lemma JsonKeys(p: Payload)
    ensures PayloadJson(p).Keys == PAYLOAD_KEYS
  {
  }

  lemma KeyIsField(p: Payload, key: string)
    ensures key in PAYLOAD_KEYS <==> FieldOf(p, key).Some?
  {
  }

  lemma PayloadIff(t: Tools, fields: map<string, Json>, p: Payload)
    ensures CheckPayload(t, fields) == Some(p) <==> Holds(fields, p) && Shaped(t, p)
  {
    hide DigestShape, EffectShape, SignerShape, Hex64, CheckPayload, PayloadJson, Holds;
    if CheckPayload(t, fields) == Some(p) { PayloadOf(t, fields, p); }
    if Holds(fields, p) {
      HeldIsJson(fields, p);
      PayloadChecked(t, p);
      DigestShapeIff(p.agentIdentityRef);
      DigestShapeIff(p.capabilityTokenRef);
      DigestShapeIff(p.policyOrManifestDigest);
      DigestShapeIff(p.toolCallDigest);
      DigestShapeIff(p.ledgerPrev);
      DigestShapeIff(p.ledgerEntryHash);
    }
  }

  lemma PayloadOf(t: Tools, fields: map<string, Json>, p: Payload)
    requires CheckPayload(t, fields) == Some(p)
    ensures Holds(fields, p)
  {
    hide DigestShape, EffectShape, SignerShape;
    forall key
      ensures if key in fields then FieldOf(p, key).Some? && fields[key] == JStr(FieldOf(p, key).value)
              else FieldOf(p, key) == None
    {
      KeyIsField(p, key);
    }
  }

  /** The signature names one of the two algorithms and holds as many hexadecimal digits as it needs. */
  ghost predicate Signed(fields: map<string, Json>, alg: string, value: string) {
    && (forall key :: key in fields <==> key == "alg" || key == "value")
    && fields["alg"] == JStr(alg) && fields["value"] == JStr(value)
    && (alg == "hmac-sha256" || alg == "ed25519")
    && SignatureShape(alg, value)
  }

  /** Hexadecimal digits, the last of which may be a line feed. */
  predicate HexLine(value: string, n: nat) {
    |value| == n && n > 1 && (forall i :: 0 <= i < n - 1 ==> IsHex(value[i])) &&
    (IsHex(value[n - 1]) || value[n - 1] == '\n')
  }

  lemma HexLineIff(value: string, n: nat)
    requires n > 1
    ensures |value| == n && BeforeEnd(value) != "" && (forall c | c in BeforeEnd(value) :: IsLowHex(c)) <==>
            HexLine(value, n)
  {
    var body := BeforeEnd(value);
    if |value| == n && (forall c | c in body :: IsLowHex(c)) {
      forall i | 0 <= i < |body| ensures IsHex(value[i]) {
        assert body[i] in body;
        HexIsLowHex(value[i]);
      }
    }
    if HexLine(value, n) {
      forall c | c in body ensures IsLowHex(c) {
        var i :| 0 <= i < |body| && body[i] == c;
        HexIsLowHex(value[i]);
      }
    }
    hide IsHex;
  }

  /** An hmac value has 64 digits, an ed25519 value 128. */
  lemma SignatureShapeIff(value: string)
    ensures SignatureShape("hmac-sha256", value) <==> HexLine(value, 64)
    ensures SignatureShape("ed25519", value) <==> HexLine(value, 128)
  {
    HexLineIff(value, 64);
    HexLineIff(value, 128);
    hide HexLine, BeforeEnd, IsLowHex;
  }

  predicate OnlyWireKeys(w: map<string, Json>) {
    forall key :: key in w ==> key == "format" || key == "payload" || key == "signature" || key == "meta"
  }

  lemma WireKeysIff(w: map<string, Json>)
    ensures OnlyWireKeys(w) <==> w.Keys <= {"format", "payload", "signature", "meta"}
  {
    if OnlyWireKeys(w) {
      forall key | key in w.Keys ensures key in {"format", "payload", "signature", "meta"} {
        assert key in w;
      }
    }
  }

  /** A wire is well formed exactly when it is an object of the format with a payload and a signature, perhaps a meta
      object, and no other key; the payload has its ten shaped fields and no other. */
  lemma StructureIff(t: Tools, wire: Json, p: Payload, alg: string, value: string)
    ensures Structure(t, wire) == Some(Checked(p, alg, value)) <==>
            && wire.JObj?
            && (var w := wire.fields;
                && OnlyWireKeys(w)
                && "format" in w && w["format"] == JStr("willow-bound-receipt/1")
                && "payload" in w && w["payload"].JObj? && Holds(w["payload"].fields, p) && Shaped(t, p)
                && "signature" in w && w["signature"].JObj? && Signed(w["signature"].fields, alg, value)
                && ("meta" in w ==> w["meta"].JNull? || w["meta"].JObj?))
  {
    hide CheckPayload, CheckSignature, Holds, Shaped, Signed, OnlyWireKeys;
    if wire.JObj? {
      var w := wire.fields;
      WireKeysIff(w);
      if "payload" in w && w["payload"].JObj? {
        PayloadIff(t, w["payload"].fields, p);
        if "signature" in w && w["signature"].JObj? {
          SignatureIff(w, alg, value);
        } else {
          NoSignature(w);
        }
      }
    }
  }

  lemma NoSignature(w: map<string, Json>)
    requires "signature" !in w || !w["signature"].JObj?
    ensures CheckSignature(w) == None
  {
  }

  lemma SignatureIff(w: map<string, Json>, alg: string, value: string)
    requires "signature" in w && w["signature"].JObj?
    ensures CheckSignature(w) == Some((alg, value)) <==> Signed(w["signature"].fields, alg, value)
  {
    hide SignatureShape;
    var fields := w["signature"].fields;
    assert fields.Keys == {"alg", "value"} <==> forall key :: key in fields <==> key == "alg" || key == "value" by {
      if forall key :: key in fields <==> key == "alg" || key == "value" {
        assert fields.Keys == {"alg", "value"};
      }
    }
  }

  predicate WordChar(c: char) { 'a' <= c <= 'z' || '0' <= c <= '9' || c == '_' }

  predicate HexChar(c: char) { '0' <= c <= '9' || 'a' <= c <= 'f' }

  /** The line feed a pattern's end may stand before. */
  predicate Ended(s: string, body: string) { s == body || s == body + "\n" }

  lemma BeforeEndIs(s: string)
    ensures Ended(s, BeforeEnd(s))
  {
  }

  /** Either "denial:" and one to 64 word characters, or "effect:" and a digest. */
  lemma EffectShapeIff(s: string)
    ensures EffectShape(s) <==>
            || (exists code :: Ended(s, "denial:" + code) && 1 <= |code| <= 64 && (forall c | c in code :: WordChar(c)))
            || (exists digest :: Ended(s, "effect:" + digest) && |digest| == 64
                               && (forall c | c in digest :: HexChar(c)))
  {
    BeforeEndIs(s);
    var body := BeforeEnd(s);
    if EffectShape(s) {
      if DENIAL <= body && 1 <= |body| - |DENIAL| <= 64 && forall c | c in body[|DENIAL|..] :: IsWord(c) {
        assert body == "denial:" + body[|DENIAL|..];
      } else {
        assert body == "effect:" + body[|EFFECT|..];
      }
    }
    if code :| Ended(s, "denial:" + code) && 1 <= |code| <= 64 && (forall c | c in code :: WordChar(c)) {
      CodeEnds(s, code);
    }
    if digest :| Ended(s, "effect:" + digest) && |digest| == 64 && (forall c | c in digest :: HexChar(c)) {
      DigestEnds(s, digest);
    }
  }

  lemma CodeEnds(s: string, code: string)
    requires Ended(s, "denial:" + code) && 1 <= |code| && (forall c | c in code :: WordChar(c))
    ensures BeforeEnd(s) == "denial:" + code && DENIAL <= BeforeEnd(s) && BeforeEnd(s)[|DENIAL|..] == code
  {
    assert code[|code| - 1] in code;
  }

  lemma DigestEnds(s: string, digest: string)
    requires Ended(s, "effect:" + digest) && |digest| == 64 && (forall c | c in digest :: HexChar(c))
    ensures BeforeEnd(s) == "effect:" + digest && EFFECT <= BeforeEnd(s) && BeforeEnd(s)[|EFFECT|..] == digest
  {
    assert digest[63] in digest;
  }

  predicate SignerText(id: string) {
    && 1 <= |id| <= 128 && ('a' <= id[0] <= 'z' || '0' <= id[0] <= '9')
    && forall i :: 1 <= i < |id| ==> WordChar(id[i]) || id[i] == '.' || id[i] == '-'
  }

  lemma SignerBody(s: string)
    ensures SignerShape(s) <==> SignerText(BeforeEnd(s))
  {
    hide BeforeEnd;
    var body := BeforeEnd(s);
    if |body| > 0 {
      assert forall i :: 1 <= i < |body| ==> body[1..][i - 1] == body[i];
      assert forall i :: 1 <= i < |body| ==> body[i] in body[1..];
    }
  }

  lemma SignerEnds(s: string, id: string)
    requires Ended(s, id) && SignerText(id)
    ensures BeforeEnd(s) == id
  {
    assert |id| > 1 ==> WordChar(id[|id| - 1]) || id[|id| - 1] == '.' || id[|id| - 1] == '-';
  }

  /** A signer id has one to 128 characters, the first a lower-case letter or digit, the others also a dot, a dash or
      an underscore; a line feed may follow. */
  lemma SignerShapeIff(s: string)
    ensures SignerShape(s) <==> exists id :: Ended(s, id) && SignerText(id)
  {
    BeforeEndIs(s);
    SignerBody(s);
    hide SignerShape, SignerText, BeforeEnd, Ended;
    if id :| Ended(s, id) && SignerText(id) { SignerEnds(s, id); }
  }

  // ---- What the writer writes ------------------------------------------------------------------

  /** A denial code is the given one in lower case, cut at 64, with an underscore for every character that is no
      letter, digit or underscore. */
  lemma DenialCodeAt(code: string, i: nat)
    requires i < |code| && i < 64
    ensures |DenialCode(code)| == if |code| < 64 then |code| else 64
    ensures DenialCode(code)[i] ==
            if 'A' <= code[i] <= 'Z' then "abcdefghijklmnopqrstuvwxyz"[(code[i] - 'A') as int]
            else if WordChar(code[i]) then code[i]
            else '_'
  {
    var lower := "abcdefghijklmnopqrstuvwxyz";
    if 'A' <= code[i] <= 'Z' {
      assert lower[(code[i] - 'A') as int] == 'a' + (code[i] - 'A');
    }
  }

  lemma Spell(a: Item, rest: seq<Item>)
    ensures Tail([a]) == Encode(a) + "]"
    ensures rest != [] ==> Tail([a] + rest) == Encode(a) + ("," + Tail(rest))
  {
    if rest != [] { assert ([a] + rest)[1..] == rest; }
  }

  lemma SpellThree(a: Item, b: Item, c: Item)
    ensures Tail([a, b, c]) == Encode(a) + ("," + (Encode(b) + ("," + (Encode(c) + "]"))))
  {
    hide Encode;
    Spell(a, [b, c]);
    Spell(b, [c]);
    Spell(c, []);
    assert [a] + [b, c] == [a, b, c] && [b] + [c] == [b, c];
  }

  lemma SpellMore(a: Item, b: Item, rest: seq<Item>)
    requires rest != []
    ensures Tail([a, b] + rest) == Encode(a) + ("," + (Encode(b) + ("," + Tail(rest))))
  {
    hide Encode;
    Spell(a, [b] + rest);
    Spell(b, rest);
    assert [a] + ([b] + rest) == [a, b] + rest;
  }

  /** The agent as a JSON array. */
  lemma AgentSpelled(s: Sources)
    ensures AgentText(s) == "[" + ("\"session_bind\"" + ("," + (JsonText.Quote(s.agent) + ("," +
            (Decimal.OfInt(s.trust) + ("," + (JsonText.Quote(s.session) + "]")))))))
  {
    hide JsonText.Quote, Decimal.OfInt, Tail;
    QuotedWords();
    Spell(Str("session_bind"), [Str(s.agent), Num(s.trust), Str(s.session)]);
    SpellThree(Str(s.agent), Num(s.trust), Str(s.session));
    assert [Str("session_bind")] + [Str(s.agent), Num(s.trust), Str(s.session)] ==
           [Str("session_bind"), Str(s.agent), Num(s.trust), Str(s.session)];
  }

  /** The call. */
  lemma CallSpelled(s: Sources)
    ensures CallText(s) == "[" + ("\"call\"" + ("," + (JsonText.Quote(s.session) + ("," +
            (JsonText.Quote(s.app) + ("," + (JsonText.Quote(s.tool) + ("," + (JsonText.Quote(s.nonce) + "]")))))))))
  {
    hide JsonText.Quote, Tail;
    QuotedWords();
    SpellMore(Str("call"), Str(s.session), [Str(s.app), Str(s.tool), Str(s.nonce)]);
    SpellThree(Str(s.app), Str(s.tool), Str(s.nonce));
    assert [Str("call"), Str(s.session)] + [Str(s.app), Str(s.tool), Str(s.nonce)] ==
           [Str("call"), Str(s.session), Str(s.app), Str(s.tool), Str(s.nonce)];
  }

  function QuotedOrNull(s: Option<string>): string { if s.None? then "null" else JsonText.Quote(s.value) }

  /** The ledger entry. */
  lemma LedgerSpelled(s: Sources)
    ensures LedgerText(s) == "[" + (JsonText.Quote(s.prev) + ("," + (JsonText.Quote(s.ts) + ("," +
            (JsonText.Quote(s.ledgerApp) + ("," + (JsonText.Quote(s.ledgerTool) + ("," +
            (JsonText.Quote(s.ledgerOutcome) + ("," + (QuotedOrNull(s.ledgerDetail) + "]")))))))))))
  {
    hide JsonText.Quote, Tail;
    var last := [Str(s.ledgerOutcome), Optional(s.ledgerDetail)];
    SpellMore(Str(s.prev), Str(s.ts), [Str(s.ledgerApp), Str(s.ledgerTool)] + last);
    SpellMore(Str(s.ledgerApp), Str(s.ledgerTool), last);
    Spell(Str(s.ledgerOutcome), [Optional(s.ledgerDetail)]);
    Spell(Optional(s.ledgerDetail), []);
    assert last == [Str(s.ledgerOutcome)] + [Optional(s.ledgerDetail)];
    assert [Str(s.prev), Str(s.ts)] + ([Str(s.ledgerApp), Str(s.ledgerTool)] + last) ==
           [Str(s.prev), Str(s.ts), Str(s.ledgerApp), Str(s.ledgerTool), Str(s.ledgerOutcome),
               Optional(s.ledgerDetail)];
  }

  /** The effect of an allowed call: the outcome it was given, or else the ledger's. */
  lemma EffectSpelled(t: Tools, s: Sources)
    ensures !s.denied ==>
              var outcome := if s.effectOutcome.Some? then s.effectOutcome.value else s.ledgerOutcome;
              EffectOf(t, s) == Some("effect:" + t.hash("[" + ("\"effect\"" + ("," + (JsonText.Quote(outcome) + ("," +
              (QuotedOrNull(s.effectDetail) + "]")))))))
    ensures s.denied ==>
              EffectOf(t, s) ==
              if s.denialCode in {None, Some("")} then None else Some("denial:" + DenialCode(s.denialCode.value))
  {
    QuotedWords();
    SpellThree(Str("effect"), Str(Outcome(s)), Optional(s.effectDetail));
    hide JsonText.Quote, Tail, DenialCode;
  }

  lemma QuotedWords()
    ensures JsonText.Quote("session_bind") == "\"session_bind\"" && JsonText.Quote("call") == "\"call\""
    ensures JsonText.Quote("effect") == "\"effect\""
  {
    hide JsonText.EscapeAll;
    JsonText.PlainWord("session_bind");
    JsonText.PlainWord("call");
    JsonText.PlainWord("effect");
  }

  /** The signed bytes read back as the format and the ten fields in their order. */
  lemma SignedOrder(p: Payload)
    ensures JsonText.ReadArray(SignedText(p)) ==
            Some(["willow-bound-receipt/1", p.agentIdentityRef, p.capabilityTokenRef, p.policyOrManifestDigest,
                  p.toolCallDigest, p.effectRefOrDenialCode, p.ledgerPrev, p.ledgerEntryHash, p.signerId, p.issuedAt,
                  p.expiresAt])
  {
    JsonText.ArrayBack(SignedFields(p));
  }

  /** The payload a writer makes for a call: the digests of its planes, its effect, its place in the ledger, and a
      lifetime of at least one second. */
  predicate PayloadOfCall(t: Tools, p: Payload, s: Sources, signer: string, ttl: int, issued: int) {
    && p.agentIdentityRef == t.hash(AgentText(s)) && p.capabilityTokenRef == t.acl(s.manifest)
    && p.policyOrManifestDigest == t.policy(s.manifest) && p.toolCallDigest == t.hash(CallText(s))
    && EffectOf(t, s) == Some(p.effectRefOrDenialCode)
    && p.ledgerPrev == s.prev && p.ledgerEntryHash == t.hash(LedgerText(s)) && p.signerId == signer
    && p.issuedAt == t.format(issued) && p.expiresAt == t.format(issued + 1_000_000 * if ttl > 1 then ttl else 1)
  }

  /** The writer refuses without a key and for a denied call without a code; otherwise its wire holds the payload of
      the call, the keyed hash of its signed bytes, and the meta object it was given. */
  lemma WrittenWire(t: Tools, s: Sources, key: string, signer: string, ttl: int, issued: int,
                    meta: Option<map<string, Json>>) returns (p: Payload)
    ensures WriteReceipt(t, s, key, signer, ttl, issued, meta).Ok? <==>
            key != "" && !(s.denied && s.denialCode in {None, Some("")})
    ensures WriteReceipt(t, s, key, signer, ttl, issued, meta).Ok? ==>
              var wire := WriteReceipt(t, s, key, signer, ttl, issued, meta).value;
              && PayloadOfCall(t, p, s, signer, ttl, issued)
              && wire.JObj? && "format" in wire.fields && wire.fields["format"] == JStr("willow-bound-receipt/1")
              && "payload" in wire.fields && wire.fields["payload"].JObj? && Holds(wire.fields["payload"].fields, p)
              && "signature" in wire.fields
              && wire.fields["signature"] ==
                 JObj(map["alg" := JStr("hmac-sha256"), "value" := JStr(t.mac(key, SignedText(p)))])
              && (if meta.Some? then "meta" in wire.fields && wire.fields["meta"] == JObj(meta.value)
                  else "meta" !in wire.fields)
  {
    hide SignedText, AgentText, CallText, LedgerText, EffectText, DenialCode, PayloadJson, Holds;
    var written := WriteReceipt(t, s, key, signer, ttl, issued, meta);
    if written.Ok? {
      p := NewPayload(t, ExpectedRefs(t, s).value, signer, issued, ttl);
      JsonIsHeld(p);
    } else {
      p := Payload("", "", "", "", "", "", "", "", "", "");
    }
  }

  lemma JsonIsHeld(p: Payload)
    ensures Holds(PayloadJson(p), p)
  {
    hide FieldOf, PayloadJson;
    JsonKeys(p);
    forall key
      ensures if key in PayloadJson(p) then FieldOf(p, key).Some? && PayloadJson(p)[key] == JStr(FieldOf(p, key).value)
              else FieldOf(p, key) == None
    {
      KeyIsField(p, key);
      if FieldOf(p, key).Some? { JsonHolds(p, key); }
    }
  }

  /** A written receipt verifies for its call until its last microsecond. */
  lemma WrittenLasts(t: Tools, s: Sources, key: string, signer: string, ttl: int, issued: int,
                     meta: Option<map<string, Json>>, now: int)
    requires Sound(t) && WriteReceipt(t, s, key, signer, ttl, issued, meta).Ok?
    ensures VerifyReceipt(t, WriteReceipt(t, s, key, signer, ttl, issued, meta).value, key, s, now) == Verified <==>
            Hex64(s.prev) && SignerShape(signer) && now <= issued + 1_000_000 * if ttl > 1 then ttl else 1
  {
    hide VerifyReceipt, WriteReceipt, Hex64, DigestShape, SignerShape, Sound;
    WrittenVerifiesIff(t, s, key, signer, ttl, issued, meta, now);
    DigestShapeIff(s.prev);
  }

  /** The stages in order: shape, expiry, references, signature. */
  lemma VerdictStages(t: Tools, wire: Json, key: string, s: Sources, now: int)
    requires ExpectedRefs(t, s).Some?
    ensures var verdict := VerifyReceipt(t, wire, key, s, now);
      match Structure(t, wire)
      case None => verdict == StructuralInvalid
      case Some(c) =>
        var p, refs := c.payload, ExpectedRefs(t, s).value;
        t.parse(p.expiresAt).Some? &&
        if now > t.parse(p.expiresAt).value then verdict == Expired
        else if p.agentIdentityRef != refs.agent then verdict == RefMismatch("agent_identity_ref")
        else if p.capabilityTokenRef != refs.acl then verdict == RefMismatch("capability_token_ref")
        else if p.policyOrManifestDigest != refs.policy then verdict == RefMismatch("policy_or_manifest_digest")
        else if p.toolCallDigest != refs.call then verdict == RefMismatch("tool_call_digest")
        else if p.effectRefOrDenialCode != refs.effect then verdict == RefMismatch("effect_ref_or_denial_code")
        else if p.ledgerPrev != refs.prev then verdict == RefMismatch("ledger_prev")
        else if p.ledgerEntryHash != refs.entry then verdict == RefMismatch("ledger_entry_hash")
        else if c.alg == "hmac-sha256" && c.value == t.mac(key, SignedText(p)) then verdict == Verified
        else verdict == SignatureInvalid
  {
    hide Structure, ExpectedRefs, SignedText;
    if Structure(t, wire).Some? { StructureTimes(t, wire); }
  }

  /** The escapes, character by character. */
  lemma EscapeTable(c: char)
    ensures JsonText.Escape('"') == "\\\"" && JsonText.Escape('\\') == "\\\\" && JsonText.Escape('\n') == "\\n"
    ensures JsonText.Escape('\r') == "\\r" && JsonText.Escape('\t') == "\\t"
    ensures JsonText.Escape('\U{8}') == "\\b" && JsonText.Escape('\U{c}') == "\\f"
    ensures JsonText.Escape('\U{1f}') == "\\u001f" && JsonText.Escape('\U{0}') == "\\u0000"
    ensures c >= ' ' && c != '"' && c != '\\' ==> JsonText.Escape(c) == [c]
  {
    assert JsonText.LOW_HEX[15] == 'f' && JsonText.LOW_HEX[1] == '1' && JsonText.LOW_HEX[0] == '0';
  }

  /** Texts are apart when any two of them with one digest are the same text. */
  lemma ApartIff(f: string -> string, m: string, n: string)
    ensures Apart(f, {m, n}) <==> f(m) != f(n) || m == n
  {
  }
}
