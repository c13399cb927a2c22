/** The ledger seen from its text: what an entry's line reads back as, and what head, append and verify answer. */
module LedgerLaws {
  import opened Wrappers
  import opened TextLines
  import opened JsonText
  import opened LedgerModel
  import Ledger

  /** Where str.splitlines breaks in text that holds no carriage return pair. */
  lemma BreakChars(c: char)
    ensures IsBreak(c) <==> c as int in {0x0a, 0x0b, 0x0c, 0x0d, 0x1c, 0x1d, 0x1e, 0x85, 0x2028, 0x2029}
  {
  }

  /** What str.strip removes. */
  lemma SpaceChars(c: char)
    ensures IsSpace(c) <==>
            || c as int in {0x09, 0x0a, 0x0b, 0x0c, 0x0d, 0x1c, 0x1d, 0x1e, 0x1f, 0x20, 0x85, 0xa0, 0x1680, 0x2028,
                            0x2029, 0x202f, 0x205f, 0x3000}
            || 0x2000 <= c as int <= 0x200a
  {
  }

  /** A text without breaks, a break, and more text: two pieces at least. */
  lemma BreakSplits(a: string, c: char, b: string)
    requires Unbroken(a) && IsBreak(c)
    ensures Pieces(a + [c] + b) == [a] + Pieces(b)
  {
    UnbrokenIsOnePiece(a);
    OneBreak(c);
    PiecesJoin(a, [c]);
    PiecesJoin(a + [c], b);
    hide Pieces;
    GlueTwo(a, Pieces(b));
  }

  lemma GlueTwo(a: string, q: seq<string>)
    requires q != []
    ensures Glue([a], ["", ""]) == [a, ""] && Glue([a, ""], q) == [a] + q
  {
    assert a + "" == a && "" + q[0] == q[0];
    assert q == [q[0]] + q[1..];
  }

  lemma OneBreak(c: char)
    requires IsBreak(c)
    ensures Pieces([c]) == ["", ""]
  {
    assert [c][1..] == "";
    assert Pieces("") == [""];
  }

  // ---- An entry read back ----------------------------------------------------------------------

  datatype Member = Member(key: string, value: string)

  /** The members of an object of strings, up to its closing brace, which ends the text. */
  function ReadMembers(t: string): Option<seq<Member>>
    decreases |t|
  {
    if t == "" || t[0] != '"' then None
    else
      var key := ReadBody(t[1..]);
      if key.None? || |key.value.rest| < 2 || key.value.rest[..2] != ":\"" then None
      else
        var value := ReadBody(key.value.rest[2..]);
        if value.None? || value.value.rest == "" || |value.value.rest| >= |t| then None
        else if value.value.rest == "}" then Some([Member(key.value.value, value.value.value)])
        else if value.value.rest[0] != ',' then None
        else
          var more := ReadMembers(value.value.rest[1..]);
          if more.None? then None else Some([Member(key.value.value, value.value.value)] + more.value)
  }

  function ReadObject(t: string): Option<seq<Member>> {
    if t != "" && t[0] == '{' then ReadMembers(t[1..]) else None
  }

  function Spelled(members: seq<Member>): string
    requires members != []
    decreases |members|
  {
    Quote(members[0].key) + ":" + Quote(members[0].value) +
    if |members| == 1 then "}" else "," + Spelled(members[1..])
  }

  lemma MemberSplit(m: Member, after: string)
    ensures Quote(m.key) + ":" + Quote(m.value) + after ==
            "\"" + (EscapeAll(m.key) + "\"" + (":\"" + (EscapeAll(m.value) + "\"" + after)))
  {
    hide EscapeAll;
    var k, v := EscapeAll(m.key), EscapeAll(m.value);
    assert "\"" + k + "\"" + ":" + ("\"" + v + "\"") + after == "\"" + (k + "\"" + (":\"" + (v + "\"" + after)));
  }

  lemma MemberBack(m: Member, after: string)
    requires after != ""
    ensures var t := Quote(m.key) + ":" + Quote(m.value) + after;
      ReadMembers(t) ==
      if after == "}" then Some([m])
      else if after[0] != ',' then None
      else var more := ReadMembers(after[1..]); if more.None? then None else Some([m] + more.value)
  {
    hide EscapeAll, ReadBody;
    MemberSplit(m, after);
    var inner := EscapeAll(m.value) + "\"" + after;
    var t := "\"" + (EscapeAll(m.key) + "\"" + (":\"" + inner));
    assert t[1..] == EscapeAll(m.key) + "\"" + (":\"" + inner);
    ReadBack(m.key, ":\"" + inner);
    assert (":\"" + inner)[..2] == ":\"" && (":\"" + inner)[2..] == inner;
    ReadBack(m.value, after);
    assert |after| < |t|;
    hide Quote;
  }

  lemma {:induction false} MembersBack(members: seq<Member>)
    requires members != []
    ensures ReadMembers(Spelled(members)) == Some(members)
    decreases |members|
  {
    hide Quote, ReadMembers;
    var after := if |members| == 1 then "}" else "," + Spelled(members[1..]);
    MemberBack(members[0], after);
    if |members| > 1 {
      assert after[1..] == Spelled(members[1..]);
      assert |Spelled(members[1..])| > 0;
      MembersBack(members[1..]);
      assert [members[0]] + members[1..] == members;
    } else {
      assert [members[0]] == members;
    }
  }

  function Members(e: Entry): seq<Member> {
    [Member("kind", "session_attestation"), Member("session_id", e.session), Member("verifier", e.verifier),
     Member("attested_at", e.attestedAt), Member("sig_digest", e.digest), Member("prev", e.prev)]
  }

  lemma SpelledMore(m: Member, rest: seq<Member>)
    ensures Spelled([m]) == Quote(m.key) + ":" + Quote(m.value) + "}"
    ensures rest != [] ==> Spelled([m] + rest) == Quote(m.key) + ":" + Quote(m.value) + ("," + Spelled(rest))
  {
    if rest != [] { assert ([m] + rest)[1..] == rest; }
  }

  lemma KindPlain()
    ensures Quote("kind") + ":" + Quote("session_attestation") == "\"kind\":\"session_attestation\""
  {
    hide EscapeAll, Quote;
    KeyKind();
    ValueKind();
    assert "\"kind\"" + ":" == "\"kind\":";
  }

  lemma KeyKind()
    ensures Quote("kind") == "\"kind\""
  {
    hide EscapeAll, Quote;
    PlainWord("kind");
  }

  lemma ValueKind()
    ensures Quote("session_attestation") == "\"session_attestation\""
  {
    hide EscapeAll, Quote;
    PlainWord("session_attestation");
  }

  lemma IdPlain()
    ensures Quote("session_id") + ":" == "\"session_id\":"
    ensures "," + Quote("verifier") + ":" == ",\"verifier\":"
  {
    hide EscapeAll, Quote;
    PlainWord("session_id");
    PlainWord("verifier");
  }

  lemma KeysPlain()
    ensures "," + Quote("attested_at") + ":" == ",\"attested_at\":"
    ensures "," + Quote("sig_digest") + ":" == ",\"sig_digest\":"
    ensures "," + Quote("prev") + ":" == ",\"prev\":"
  {
    hide EscapeAll, Quote;
    PlainWord("attested_at");
    PlainWord("sig_digest");
    PlainWord("prev");
  }

  lemma CommaField(key: string, lead: string, value: string, rest: seq<Member>)
    requires lead == "," + Quote(key) + ":"
    ensures "," + Spelled([Member(key, value)] + rest) ==
            Field(lead, value) + if rest == [] then "}" else "," + Spelled(rest)
  {
    hide Quote, Spelled;
    SpelledMore(Member(key, value), rest);
    var k, v := Quote(key), Quote(value);
    var tail := if rest == [] then "}" else "," + Spelled(rest);
    assert "," + (k + ":" + v + tail) == "," + k + ":" + v + tail;
    assert [Member(key, value)] + [] == [Member(key, value)];
  }

  lemma EntryIsSpelled(e: Entry)
    ensures EntryLine(e) == "{" + Spelled(Members(e))
  {
    hide Spelled, Quote, Field;
    IdPlain();
    KeysPlain();
    var prev := [Member("prev", e.prev)];
    var digest := [Member("sig_digest", e.digest)] + prev;
    var attested := [Member("attested_at", e.attestedAt)] + digest;
    var verifier := [Member("verifier", e.verifier)] + attested;
    assert prev == [Member("prev", e.prev)] + [];
    CommaField("prev", ",\"prev\":", e.prev, []);
    CommaField("sig_digest", ",\"sig_digest\":", e.digest, prev);
    CommaField("attested_at", ",\"attested_at\":", e.attestedAt, digest);
    CommaField("verifier", ",\"verifier\":", e.verifier, attested);
    FirstTwo(e.session, verifier);
    MembersAre(e);
    Reassociate(Field("\"kind\":\"session_attestation\",\"session_id\":", e.session),
        Field(",\"verifier\":", e.verifier), Field(",\"attested_at\":", e.attestedAt),
        Field(",\"sig_digest\":", e.digest), Field(",\"prev\":", e.prev));
  }

  lemma MembersAre(e: Entry)
    ensures Members(e) ==
            [Member("kind", "session_attestation"), Member("session_id", e.session)] +
            ([Member("verifier", e.verifier)] + ([Member("attested_at", e.attestedAt)] +
            ([Member("sig_digest", e.digest)] + [Member("prev", e.prev)])))
  {
  }

  lemma FirstTwo(session: string, rest: seq<Member>)
    requires rest != []
    ensures Spelled([Member("kind", "session_attestation"), Member("session_id", session)] + rest) ==
            Field("\"kind\":\"session_attestation\",\"session_id\":", session) + ("," + Spelled(rest))
  {
    hide Spelled, Quote;
    var kind, id := Member("kind", "session_attestation"), Member("session_id", session);
    assert [kind, id] + rest == [kind] + ([id] + rest);
    SpelledMore(kind, [id] + rest);
    SpelledMore(id, rest);
    KindPlain();
    IdPlain();
    HeadField(Quote(session), "," + Spelled(rest));
  }

  lemma HeadField(quoted: string, tail: string)
    ensures "\"kind\":\"session_attestation\"" + ("," + ("\"session_id\":" + quoted + tail)) ==
            "\"kind\":\"session_attestation\",\"session_id\":" + quoted + tail
  {
    var a, b := "\"kind\":\"session_attestation\"", "\"session_id\":";
    assert a + "," + b == "\"kind\":\"session_attestation\",\"session_id\":";
    Shuffle(a, b, quoted, tail);
  }

  lemma Shuffle(a: string, b: string, c: string, d: string)
    ensures a + ("," + (b + c + d)) == a + "," + b + c + d
  {
  }

  lemma Reassociate(a: string, b: string, c: string, d: string, e: string)
    ensures "{" + (a + b + c + d + e) + "}" == "{" + (a + (b + (c + (d + (e + "}")))))
  {
    assert (a + b + c + d + e) + "}" == a + (b + (c + (d + (e + "}"))));
  }

  /** A written entry reads back as its six members, in this order. */
  lemma EntryReads(e: Entry)
    ensures ReadObject(EntryLine(e)) ==
            Some([Member("kind", "session_attestation"), Member("session_id", e.session),
                  Member("verifier", e.verifier), Member("attested_at", e.attestedAt),
                  Member("sig_digest", e.digest), Member("prev", e.prev)])
  {
    hide EntryLine, Spelled, ReadMembers;
    EntryIsSpelled(e);
    MembersBack(Members(e));
    assert ("{" + Spelled(Members(e)))[1..] == Spelled(Members(e));
  }

  // ---- The calls -------------------------------------------------------------------------------

  /** The head is the hash of the last non-blank line, and "genesis" when there is none. */
  method Reading(ledger: Ledger.LedgerFile) returns (tip: string)
    ensures var lines := LinesOf(ledger.file);
      tip == if lines == [] then "genesis" else ledger.tools.hash(lines[|lines| - 1])
  {
    tip := ledger.Head();
  }

  /** An append adds one line feed-ended line, which names the session, the verifier and the head there was, and
      answers its hash. */
  method Attesting(ledger: Ledger.LedgerFile, session: string, verifier: string, attestedAt: string,
                   digest: string) returns (head: string, ghost line: string)
    modifies ledger
    ensures ledger.file == Some((if old(ledger.file).Some? then old(ledger.file).value else "") + line + "\n")
    ensures head == ledger.tools.hash(line)
    ensures var lines := LinesOf(old(ledger.file));
      ReadObject(line) ==
      Some([Member("kind", "session_attestation"), Member("session_id", session), Member("verifier", verifier),
            Member("attested_at", attestedAt), Member("sig_digest", digest),
            Member("prev", if lines == [] then "genesis" else ledger.tools.hash(lines[|lines| - 1]))])
  {
    hide EntryLine, ReadObject;
    ghost var e := NewEntry(ledger.tools, ledger.file, session, verifier, attestedAt, digest);
    EntryReads(e);
    line := EntryLine(e);
    head := ledger.Append(session, verifier, attestedAt, digest);
  }
}
