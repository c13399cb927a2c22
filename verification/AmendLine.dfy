/** The one line of a sealed conclusion that authorises one row change: printed by one function,
    read back by a multi-line regular expression. */
module AmendLine {
  import opened Wrappers
  import opened Decimal

  datatype Amend = Amend(id: nat, verb: string, from: string, to: string)

  const TAG := "syscall-row-amend:"

  predicate IsBlank(c: char) { c == ' ' || c == '\t' }

  /** ASCII whitespace. */
  predicate IsAsciiSpace(c: char) { c == ' ' || '\t' <= c <= '\r' }

  predicate IsInk(c: char) { !IsAsciiSpace(c) }

  predicate IsHex(c: char) { IsDigit(c) || 'a' <= c <= 'f' || 'A' <= c <= 'F' }

  predicate All(p: char -> bool, s: string) { forall c | c in s :: p(c) }

  /** A digest as hexdigest prints it. */
  predicate IsDigest(s: string) { |s| == 64 && forall c | c in s :: IsDigit(c) || 'a' <= c <= 'f' }

  function Lower(s: string): (r: string)
    ensures |r| == |s|
  {
    seq(|s|, i requires 0 <= i < |s| => if 'A' <= s[i] <= 'Z' then s[i] + 32 as char else s[i])
  }

  datatype Cut = Cut(head: string, tail: string)

  /** The longest prefix of characters that satisfy `p`, and what follows. */
  function Span(p: char -> bool, s: string): (c: Cut)
    ensures s == c.head + c.tail && All(p, c.head)
    ensures c.tail != "" ==> !p(c.tail[0])
    decreases |s|
  {
    if s == "" || !p(s[0]) then Cut("", s)
    else
      var rest := Span(p, s[1..]);
      Cut([s[0]] + rest.head, rest.tail)
  }

  function After(prefix: string, s: string): Option<string> {
    if prefix <= s then Some(s[|prefix|..]) else None
  }

  /** Blanks, at least `least` of them, then the given word. */
  function Word(least: nat, word: string, s: string): Option<string> {
    var blanks := Span(IsBlank, s);
    if |blanks.head| < least then None else After(word, blanks.tail)
  }

  function Digest(s: string): Option<Cut> {
    if |s| >= 64 && All(IsHex, s[..64]) then Some(Cut(Lower(s[..64]), s[64..])) else None
  }

  predicate EndsLine(s: string) {
    var rest := Span(IsBlank, s).tail;
    rest == "" || rest == "\r"
  }

  function ParseHashes(id: nat, verb: string, s: string): (r: Option<Amend>)
    ensures r.Some? ==> r.value.id == id && r.value.verb == verb
  {
    var atFrom := Word(1, "from=", s);
    if atFrom.None? then None
    else
      var from := Digest(atFrom.value);
      if from.None? then None
      else
        var atTo := Word(1, "to=", from.value.tail);
        if atTo.None? then None
        else
          var to := Digest(atTo.value);
          if to.None? || !EndsLine(to.value.tail) then None
          else Some(Amend(id, verb, from.value.head, to.value.head))
  }

  /** The fields from the id on. */
  function ParseFields(s: string): (r: Option<Amend>)
    ensures r.Some? ==> r.value.verb != "" && All(IsInk, r.value.verb)
  {
    var digits := Span(IsDigit, s);
    var atVerb := Word(1, "verb=", digits.tail);
    if digits.head == "" || atVerb.None? then None
    else
      var verb := Span(IsInk, atVerb.value);
      if verb.head == "" then None
      else ParseHashes(ToNat(digits.head), verb.head, verb.tail)
  }

  /** One match of the pattern on one line. */
  function ParseLine(line: string): (r: Option<Amend>)
    ensures r.Some? ==> r.value.verb != "" && All(IsInk, r.value.verb)
  {
    var tagged := After(TAG, line);
    if tagged.None? then None
    else
      var atId := Word(0, "id=", tagged.value);
      if atId.None? then None else ParseFields(atId.value)
  }

  /** The lines `^` and `$` see in multi-line mode. */
  function Lines(text: string): (ls: seq<string>)
    ensures ls != []
    decreases |text|
  {
    if text == "" then [""] else LeadLine(text[0], Lines(text[1..]))
  }

  /** One more character in front. */
  function LeadLine(c: char, lines: seq<string>): (ls: seq<string>)
    requires lines != []
    ensures ls != []
  {
    if c == '\n' then [""] + lines else [[c] + lines[0]] + lines[1..]
  }

  function Matches(lines: seq<string>): seq<Amend>
    decreases |lines|
  {
    if lines == [] then []
    else
      var first := ParseLine(lines[0]);
      (if first.Some? then [first.value] else []) + Matches(lines[1..])
  }

  function FindAll(text: string): seq<Amend> { Matches(Lines(text)) }

  function Print(id: int, verb: string, from: string, to: string): string {
    TAG + (" id=" + (OfInt(id) + (" verb=" + (verb + (" from=" + (from + (" to=" + to)))))))
  }

  // ---- Round trip ------------------------------------------------------------------------------

  lemma {:induction false} SpanAll(p: char -> bool, a: string, b: string)
    requires All(p, a) && (b != "" ==> !p(b[0]))
    ensures Span(p, a + b) == Cut(a, b)
    decreases |a|
  {
    if a == "" {
      assert a + b == b;
    } else {
      assert (a + b)[1..] == a[1..] + b;
      SpanAll(p, a[1..], b);
    }
  }

  lemma WordAfter(least: nat, word: string, s: string)
    requires word != "" && !IsBlank(word[0]) && least <= 1
    ensures Word(least, word, " " + word + s) == Some(s)
  {
    assert " " + word + s == " " + (word + s);
    assert (word + s)[0] == word[0] && (word + s)[|word|..] == s;
    SpanAll(IsBlank, " ", word + s);
    hide Span;
    assert Span(IsBlank, " " + word + s) == Cut(" ", word + s);
  }

  lemma DigestAfter(d: string, s: string)
    requires IsDigest(d)
    ensures Digest(d + s) == Some(Cut(d, s))
  {
    assert (d + s)[..64] == d && (d + s)[64..] == s;
    forall i | 0 <= i < |d| ensures Lower(d)[i] == d[i] {
      assert d[i] in d;
    }
    assert Lower(d) == d;
  }

  lemma HashesParse(id: nat, verb: string, from: string, to: string)
    requires IsDigest(from) && IsDigest(to)
    ensures ParseHashes(id, verb, " from=" + (from + (" to=" + to))) == Some(Amend(id, verb, from, to))
  {
    hide Word, Digest, IsDigest;
    WordAfter(1, "from=", from + (" to=" + to));
    assert " from=" + (from + (" to=" + to)) == " " + "from=" + (from + (" to=" + to));
    DigestAfter(from, " to=" + to);
    WordAfter(1, "to=", to);
    assert " to=" + to == " " + "to=" + to;
    DigestAfter(to, "");
    assert to + "" == to;
  }

  /** A tagged line is read from its id on. */
  lemma TaggedParses(atId: string)
    ensures ParseLine(TAG + (" id=" + atId)) == ParseFields(atId)
  {
    hide Word, ParseFields;
    var tagged := " id=" + atId;
    assert (TAG + tagged)[|TAG|..] == tagged;
    WordAfter(0, "id=", atId);
    assert tagged == " " + "id=" + atId;
  }

  /** So is an id followed by a verb. */
  lemma FieldsParse(id: nat, verb: string, tail: string)
    requires verb != "" && All(IsInk, verb) && (tail != "" ==> IsAsciiSpace(tail[0]))
    ensures ParseFields(OfNat(id) + (" verb=" + (verb + tail))) == ParseHashes(id, verb, tail)
  {
    hide Word, Span, OfNat, ParseHashes;
    var atVerb := verb + tail;
    var verbed := " verb=" + atVerb;
    DigitsAll(OfNat(id));
    SpanAll(IsDigit, OfNat(id), verbed);
    WordAfter(1, "verb=", atVerb);
    assert verbed == " " + "verb=" + atVerb;
    SpanAll(IsInk, verb, tail);
    RoundTrip(id);
  }

  lemma PrintedParses(id: nat, verb: string, from: string, to: string)
    requires IsDigest(from) && IsDigest(to) && verb != "" && All(IsInk, verb)
    ensures ParseLine(Print(id, verb, from, to)) == Some(Amend(id, verb, from, to))
  {
    hide ParseLine, ParseFields, ParseHashes, All, IsDigest;
    var hashes := " from=" + (from + (" to=" + to));
    TaggedParses(OfInt(id) + (" verb=" + (verb + hashes)));
    FieldsParse(id, verb, hashes);
    HashesParse(id, verb, from, to);
  }

  lemma DigitsAll(s: string)
    requires AllDigits(s)
    ensures All(IsDigit, s)
  {
  }

  /** A line without a line break is one line. */
  lemma {:induction false} OneLine(text: string)
    requires '\n' !in text
    ensures Lines(text) == [text]
    decreases |text|
  {
    if text != "" {
      OneLine(text[1..]);
      assert text == [text[0]] + text[1..];
    }
  }

  lemma PrintedIsOneLine(id: nat, verb: string, from: string, to: string)
    requires IsDigest(from) && IsDigest(to) && All(IsInk, verb)
    ensures '\n' !in Print(id, verb, from, to)
  {
    assert '\n' !in OfNat(id) && '\n' !in verb && '\n' !in from && '\n' !in to;
  }

  predicate IsLine(a: Amend, id: int, verb: string, from: string, to: string) {
    a.id == id && a.verb == verb && a.from == from && a.to == to
  }

  /** The printed line is read back as it was written, exactly for the ids and verbs the pattern admits. */
  lemma PrintFindIff(id: int, verb: string, from: string, to: string)
    requires IsDigest(from) && IsDigest(to)
    ensures (exists a: Amend :: IsLine(a, id, verb, from, to) && FindAll(Print(id, verb, from, to)) == [a])
            <==> id >= 0 && verb != "" && All(IsInk, verb)
  {
    hide Print, ParseLine, All, IsDigest;
    if id >= 0 && verb != "" && All(IsInk, verb) {
      PrintedParses(id, verb, from, to);
      PrintedIsOneLine(id, verb, from, to);
      OneLine(Print(id, verb, from, to));
      Single(Print(id, verb, from, to));
      var a := Amend(id, verb, from, to);
      assert FindAll(Print(id, verb, from, to)) == [a];
    }
    if a: Amend :| IsLine(a, id, verb, from, to) && FindAll(Print(id, verb, from, to)) == [a] {
      FoundIsClean(Lines(Print(id, verb, from, to)), a);
    }
  }

  lemma Single(line: string)
    ensures Matches([line]) == if ParseLine(line).Some? then [ParseLine(line).value] else []
  {
    assert [line][1..] == [];
  }

  lemma {:induction false} FoundIsClean(lines: seq<string>, a: Amend)
    requires a in Matches(lines)
    ensures a.verb != "" && All(IsInk, a.verb)
    decreases |lines|
  {
    hide All, ParseLine;
    var first := ParseLine(lines[0]);
    if !(first.Some? && first.value == a) { FoundIsClean(lines[1..], a); }
  }

  lemma NoMatch(line: string)
    requires '\n' !in line && ParseLine(line).None?
    ensures FindAll(line) == []
  {
    OneLine(line);
    Single(line);
  }

  /** A negative id: the printed line is not found at all. */
  lemma NegativeIdIsLost(id: int, verb: string, from: string, to: string)
    requires id < 0 && All(IsInk, verb) && IsDigest(from) && IsDigest(to)
    ensures FindAll(Print(id, verb, from, to)) == []
  {
    hide OfNat;
    var atId := OfInt(id) + (" verb=" + (verb + (" from=" + (from + (" to=" + to)))));
    assert '\n' !in verb;
    SpacedIsOneLine(id, verb, from, to);
    hide IsDigest, All;
    TaggedParses(atId);
    assert atId[0] == '-';
    NoDigits(atId);
    hide ParseLine, ParseFields, OfInt, FindAll;
    NoMatch(Print(id, verb, from, to));
  }

  lemma NoDigits(s: string)
    requires s != "" && !IsDigit(s[0])
    ensures ParseFields(s).None?
  {
  }

  /** A verb of two words, the second not itself a hash field: the same. */
  lemma SpacedVerbIsLost(id: nat, first: string, second: string, from: string, to: string)
    requires first != "" && All(IsInk, first) && second != "" && All(IsInk, second) && !("from=" <= second)
    requires IsDigest(from) && IsDigest(to)
    ensures FindAll(Print(id, first + " " + second, from, to)) == []
  {
    hide OfNat, ParseHashes;
    var verb, hashes := first + " " + second, " from=" + (from + (" to=" + to));
    var tail := " " + (second + hashes);
    assert verb + hashes == first + tail;
    SpacedIsOneLine(id, verb, from, to);
    NoFrom(id, first, second, hashes);
    hide ParseLine, ParseFields, ParseHashes, OfNat, FindAll, All, IsDigest;
    TaggedParses(OfInt(id) + (" verb=" + (verb + hashes)));
    FieldsParse(id, first, tail);
    NoMatch(Print(id, verb, from, to));
  }

  lemma SpacedIsOneLine(id: int, verb: string, from: string, to: string)
    requires '\n' !in verb && IsDigest(from) && IsDigest(to)
    ensures '\n' !in Print(id, verb, from, to)
  {
    assert '\n' !in OfInt(id) && '\n' !in from && '\n' !in to;
  }

  /** What follows the verb must start with `from=`. */
  lemma NoFrom(id: nat, verb: string, word: string, after: string)
    requires word != "" && All(IsInk, word) && !("from=" <= word) && after != "" && after[0] == ' '
    ensures ParseHashes(id, verb, " " + (word + after)).None?
  {
    assert word[0] in word;
    var rest := word + after;
    SpanAll(IsBlank, " ", rest);
    assert !("from=" <= rest) by {
      if |word| < 5 {
        assert rest[|word|] == ' ';
      } else {
        assert rest[..5] == word[..5];
      }
    }
    hide Span;
  }

  /** For one id and one verb of each kind. */
  lemma UnreadableLines()
    ensures FindAll(Print(-1, "pr.update", seq(64, _ => '0'), seq(64, _ => '0'))) == []
    ensures FindAll(Print(1, "pr update", seq(64, _ => '0'), seq(64, _ => '0'))) == []
  {
    var d := seq(64, _ => '0');
    hide FindAll, Print;
    NegativeIdIsLost(-1, "pr.update", d, d);
    assert "update"[0] == 'u' && "from="[0] == 'f';
    SpacedVerbIsLost(1, "pr", "update", d, d);
    assert "pr" + " " + "update" == "pr update";
  }

  // ---- The line among others -------------------------------------------------------------------

  lemma {:induction false} LinesJoin(a: string, b: string)
    ensures Lines(a + "\n" + b) == Lines(a) + Lines(b)
    decreases |a|
  {
    var all := a + "\n" + b;
    if a == "" {
      assert all == "\n" + b && all[1..] == b && all[0] == '\n';
    } else {
      assert all[1..] == a[1..] + "\n" + b && all[0] == a[0];
      LinesJoin(a[1..], b);
      LeadJoin(a[0], Lines(a[1..]), Lines(b));
    }
  }

  lemma LeadJoin(c: char, p: seq<string>, q: seq<string>)
    requires p != []
    ensures LeadLine(c, p + q) == LeadLine(c, p) + q
  {
    assert (p + q)[1..] == p[1..] + q;
  }

  lemma {:induction false} MatchesJoin(a: seq<string>, b: seq<string>)
    ensures Matches(a + b) == Matches(a) + Matches(b)
    decreases |a|
  {
    hide ParseLine;
    if a == [] {
      assert a + b == b;
    } else {
      assert (a + b)[1..] == a[1..] + b && (a + b)[0] == a[0];
      MatchesJoin(a[1..], b);
      var found := ParseLine(a[0]);
      var here := if found.Some? then [found.value] else [];
      assert Matches(a + b) == here + Matches(a[1..] + b);
      assert Matches(a) == here + Matches(a[1..]);
    }
  }

  /** Text on other lines neither hides a line nor adds to it. */
  lemma FindAllJoin(a: string, b: string)
    ensures FindAll(a + "\n" + b) == FindAll(a) + FindAll(b)
  {
    LinesJoin(a, b);
    MatchesJoin(Lines(a), Lines(b));
  }

  // ---- The pattern, spelled out ----------------------------------------------------------------

  /** The pieces of a line the pattern matches. */
  datatype Parts = Parts(b0: string, digits: string, b1: string, verb: string, b2: string, from: string, b3: string,
                         to: string, end: string)

  function Spelled(p: Parts): string {
    "syscall-row-amend:" + (p.b0 + ("id=" + (p.digits + (p.b1 + ("verb=" + (p.verb + SpelledHashes(p)))))))
  }

  function SpelledHashes(p: Parts): string {
    p.b2 + ("from=" + (p.from + (p.b3 + ("to=" + (p.to + p.end)))))
  }

  predicate Blanks(s: string) { forall c | c in s :: c == ' ' || c == '\t' }

  predicate Digits(s: string) { forall c | c in s :: '0' <= c <= '9' }

  predicate Inked(s: string) { forall c | c in s :: c !in " \t\n\U{b}\U{c}\r" }

  predicate Hexes(s: string) { forall c | c in s :: '0' <= c <= '9' || 'a' <= c <= 'f' || 'A' <= c <= 'F' }

  predicate HashesSpelled(p: Parts) {
    && Blanks(p.b2) && p.b2 != "" && |p.from| == 64 && Hexes(p.from)
    && Blanks(p.b3) && p.b3 != "" && |p.to| == 64 && Hexes(p.to)
    && (Blanks(p.end) || (p.end != "" && p.end[|p.end| - 1] == '\r' && Blanks(p.end[..|p.end| - 1])))
  }

  predicate WellSpelled(p: Parts) {
    && Blanks(p.b0)
    && p.digits != "" && Digits(p.digits) && Blanks(p.b1) && p.b1 != ""
    && p.verb != "" && Inked(p.verb) && HashesSpelled(p)
  }

  lemma InkedIsInk(s: string)
    ensures Inked(s) <==> All(IsInk, s)
  {
    forall c: char ensures c in " \t\n\U{b}\U{c}\r" <==> IsAsciiSpace(c) {
      assert ' ' in " \t\n\U{b}\U{c}\r";
      assert " \t\n\U{b}\U{c}\r" == [' ', '\t', '\n', '\U{b}', '\U{c}', '\r'];
    }
  }

  lemma WordReads(least: nat, word: string, blanks: string, rest: string)
    requires word != "" && !IsBlank(word[0]) && Blanks(blanks) && least <= |blanks|
    ensures Word(least, word, blanks + (word + rest)) == Some(rest)
  {
    assert (word + rest)[0] == word[0] && (word + rest)[|word|..] == rest;
    SpanAll(IsBlank, blanks, word + rest);
  }

  lemma WordRead(least: nat, word: string, s: string) returns (blanks: string)
    requires Word(least, word, s).Some?
    ensures Blanks(blanks) && |blanks| >= least && s == blanks + (word + Word(least, word, s).value)
  {
    blanks := Span(IsBlank, s).head;
    var tail := Span(IsBlank, s).tail;
    assert tail == word + tail[|word|..];
  }

  lemma DigestReads(d: string, rest: string)
    requires |d| == 64 && Hexes(d)
    ensures Digest(d + rest) == Some(Cut(Lower(d), rest))
  {
    assert (d + rest)[..64] == d && (d + rest)[64..] == rest;
  }

  lemma EndReads(end: string)
    ensures EndsLine(end) <==>
            Blanks(end) || (end != "" && end[|end| - 1] == '\r' && Blanks(end[..|end| - 1]))
  {
    var cut := Span(IsBlank, end);
    assert end == cut.head + cut.tail;
    if cut.tail == "" {
      assert end == cut.head;
    } else if cut.tail == "\r" {
      assert end[..|end| - 1] == cut.head;
    } else {
      assert cut.tail[0] in end;
      if end[|end| - 1] == '\r' && Blanks(end[..|end| - 1]) {
        assert end == end[..|end| - 1] + "\r";
        SpanAll(IsBlank, end[..|end| - 1], "\r");
      }
    }
  }

  lemma HashesRead(id: nat, verb: string, p: Parts)
    requires HashesSpelled(p)
    ensures ParseHashes(id, verb, SpelledHashes(p)) == Some(Amend(id, verb, Lower(p.from), Lower(p.to)))
  {
    hide Word, Digest, EndsLine, Blanks, Hexes, Lower;
    var atTo := p.to + p.end;
    WordReads(1, "from=", p.b2, p.from + (p.b3 + ("to=" + atTo)));
    DigestReads(p.from, p.b3 + ("to=" + atTo));
    WordReads(1, "to=", p.b3, atTo);
    DigestReads(p.to, p.end);
    EndReads(p.end);
  }

  /** Every line of the pattern's shape is read as its id, its verb and its digests in lower case. */
  lemma SpelledParses(p: Parts)
    requires WellSpelled(p)
    ensures AllDigits(p.digits)
    ensures ParseLine(Spelled(p)) == Some(Amend(ToNat(p.digits), p.verb, Lower(p.from), Lower(p.to)))
  {
    hide Word, ParseHashes, SpelledHashes, Lower;
    var hashes := SpelledHashes(p);
    var atVerb := p.verb + hashes;
    var atBlank := p.b1 + ("verb=" + atVerb);
    assert (TAG + (p.b0 + ("id=" + (p.digits + atBlank))))[|TAG|..] == p.b0 + ("id=" + (p.digits + atBlank));
    WordReads(0, "id=", p.b0, p.digits + atBlank);
    assert atBlank[0] == p.b1[0] && p.b1[0] in p.b1;
    SpanAll(IsDigit, p.digits, atBlank);
    WordReads(1, "verb=", p.b1, atVerb);
    InkedIsInk(p.verb);
    HashesStart(p);
    SpanAll(IsInk, p.verb, hashes);
    HashesRead(ToNat(p.digits), p.verb, p);
  }

  lemma HashesStart(p: Parts)
    requires HashesSpelled(p)
    ensures SpelledHashes(p) != "" && !IsInk(SpelledHashes(p)[0])
  {
    assert SpelledHashes(p)[0] == p.b2[0] && p.b2[0] in p.b2;
  }

  lemma HashesParsed(id: nat, verb: string, s: string) returns (p: Parts)
    requires ParseHashes(id, verb, s).Some?
    ensures HashesSpelled(p) && SpelledHashes(p) == s
  {
    hide Word, EndsLine;
    var b2 := WordRead(1, "from=", s);
    var atFrom := Word(1, "from=", s).value;
    var tail := Digest(atFrom).value.tail;
    var b3 := WordRead(1, "to=", tail);
    var atTo := Word(1, "to=", tail).value;
    var end := Digest(atTo).value.tail;
    EndReads(end);
    p := Parts("", "", "", "", b2, atFrom[..64], b3, atTo[..64], end);
    assert atFrom == atFrom[..64] + tail && atTo == atTo[..64] + end;
  }

  /** And a line that is read has that shape. */
  lemma ParsedSpelled(line: string) returns (p: Parts)
    requires ParseLine(line).Some?
    ensures WellSpelled(p) && Spelled(p) == line
  {
    hide Word, ParseHashes, SpelledHashes, HashesSpelled;
    var tagged := After(TAG, line).value;
    var b0 := WordRead(0, "id=", tagged);
    var atId := Word(0, "id=", tagged).value;
    var digits := Span(IsDigit, atId);
    var b1 := WordRead(1, "verb=", digits.tail);
    var atVerb := Word(1, "verb=", digits.tail).value;
    var verb := Span(IsInk, atVerb);
    InkedIsInk(verb.head);
    var hashes := HashesParsed(ToNat(digits.head), verb.head, verb.tail);
    p := hashes.(b0 := b0, digits := digits.head, b1 := b1, verb := verb.head);
    SameHashes(hashes, p);
    assert line == TAG + tagged;
  }

  lemma SameHashes(p: Parts, q: Parts)
    requires p.b2 == q.b2 && p.from == q.from && p.b3 == q.b3 && p.to == q.to && p.end == q.end
    ensures SpelledHashes(p) == SpelledHashes(q) && (HashesSpelled(p) <==> HashesSpelled(q))
  {
  }

  /** A line is an amend line exactly when it has the shape of the pattern. */
  lemma ParsesIff(line: string)
    ensures ParseLine(line).Some? <==> exists p :: WellSpelled(p) && Spelled(p) == line
  {
    hide ParseLine, WellSpelled, Spelled;
    if ParseLine(line).Some? {
      var p := ParsedSpelled(line);
    }
    if p :| WellSpelled(p) && Spelled(p) == line {
      SpelledParses(p);
    }
  }

  /** The line as it is printed. */
  lemma PrintedText(id: int, verb: string, from: string, to: string)
    ensures Print(id, verb, from, to) ==
            "syscall-row-amend: id=" + (OfInt(id) + (" verb=" + (verb + (" from=" + (from + (" to=" + to))))))
    ensures OfInt(18) == "18" && OfInt(-7) == "-7"
  {
    assert OfNat(1) == "1" && OfNat(18) == "18" && OfNat(7) == "7";
    hide OfInt;
    var rest := OfInt(id) + (" verb=" + (verb + (" from=" + (from + (" to=" + to)))));
    assert TAG + " id=" == "syscall-row-amend: id=";
    assert TAG + (" id=" + rest) == (TAG + " id=") + rest;
  }

  /** Reading a digest lowers its six letters and keeps everything else. */
  lemma LowerLetters(s: string, i: nat)
    requires i < |s|
    ensures |Lower(s)| == |s|
    ensures forall k :: 0 <= k < 6 && s[i] == "ABCDEF"[k] ==> Lower(s)[i] == "abcdef"[k]
    ensures !('A' <= s[i] <= 'Z') ==> Lower(s)[i] == s[i]
  {
    assert "ABCDEF" == ['A', 'B', 'C', 'D', 'E', 'F'] && "abcdef" == ['a', 'b', 'c', 'd', 'e', 'f'];
  }
}
