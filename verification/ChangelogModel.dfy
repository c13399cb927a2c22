/** Rebuilding the newest changelog section from the commits of its range. */
module ChangelogModel {
  import opened Wrappers
  import opened TextLines

  /** A parsed non-merge commit; an empty scope is no scope. */
  datatype Commit = Commit(sha: string, kind: string, scope: string, desc: string)

  datatype ConfigEntry = ConfigEntry(kind: string, section: string, hidden: bool)

  /** What a `## [version](...compare/...)` line names. */
  datatype Header = Header(version: string, prev: string, next: string, base: string)

  /** The header pattern, and the commits of a range (None when the tool has to bail out on it). */
  datatype Tools = Tools(header: string -> Option<Header>, commits: (string, string) -> Option<seq<Commit>>)

  // ---- Configuration ---------------------------------------------------------------------------

  /** The section of each visible type; a later entry wins. */
  function Visible(entries: seq<ConfigEntry>): map<string, string>
    decreases |entries|
  {
    if entries == [] then map[]
    else
      var last := entries[|entries| - 1];
      var rest := Visible(entries[..|entries| - 1]);
      if last.hidden then rest else rest[last.kind := last.section]
  }

  /** The visible sections, each once, in the order they first appear. */
  function Order(entries: seq<ConfigEntry>): seq<string>
    decreases |entries|
  {
    if entries == [] then []
    else
      var last := entries[|entries| - 1];
      var rest := Order(entries[..|entries| - 1]);
      if last.hidden || last.section in rest then rest else rest + [last.section]
  }

  predicate Distinct(names: seq<string>) { forall i, j :: 0 <= i < j < |names| ==> names[i] != names[j] }

  lemma {:induction false} OrderCovers(entries: seq<ConfigEntry>)
    ensures Distinct(Order(entries))
    ensures forall kind | kind in Visible(entries) :: Visible(entries)[kind] in Order(entries)
    decreases |entries|
  {
    if entries != [] { OrderCovers(entries[..|entries| - 1]); }
  }

  // ---- Rendering -------------------------------------------------------------------------------

  function SectionOf(visible: map<string, string>, c: Commit): Option<string> {
    if c.kind in visible then Some(visible[c.kind]) else None
  }

  function InSection(commits: seq<Commit>, visible: map<string, string>, section: string): seq<Commit>
    decreases |commits|
  {
    if commits == [] then []
    else
      var n := |commits| - 1;
      InSection(commits[..n], visible, section) +
      if SectionOf(visible, commits[n]) == Some(section) then [commits[n]] else []
  }

  function Short(sha: string): string { if |sha| < 7 then sha else sha[..7] }

  function Bullet(c: Commit, base: string): string {
    "* " + ((if c.scope != "" then "**" + c.scope + ":** " else "") + c.desc + " ([" + Short(c.sha) + "](" + base +
        "/commit/" + c.sha + "))")
  }

  function Bullets(commits: seq<Commit>, base: string): (lines: seq<string>)
    ensures |lines| == |commits|
    ensures forall i | 0 <= i < |lines| :: lines[i] == Bullet(commits[i], base)
  {
    seq(|commits|, i requires 0 <= i < |commits| => Bullet(commits[i], base))
  }

  const HASHES := "### "

  function Block(section: string, commits: seq<Commit>, base: string): seq<string> {
    if commits == [] then [] else ["", "", HASHES + section, ""] + Bullets(commits, base)
  }

  function Render(commits: seq<Commit>, visible: map<string, string>, order: seq<string>, base: string): seq<string>
    decreases |order|
  {
    if order == [] then []
    else
      var n := |order| - 1;
      Render(commits, visible, order[..n], base) + Block(order[n], InSection(commits, visible, order[n]), base)
  }

  /** The commits a rendering lists, section by section. */
  function Listed(commits: seq<Commit>, visible: map<string, string>, order: seq<string>): seq<Commit>
    decreases |order|
  {
    if order == [] then []
    else
      var n := |order| - 1;
      Listed(commits, visible, order[..n]) + InSection(commits, visible, order[n])
  }

  function Shown(commits: seq<Commit>, visible: map<string, string>): seq<Commit>
    decreases |commits|
  {
    if commits == [] then []
    else
      var n := |commits| - 1;
      Shown(commits[..n], visible) + if commits[n].kind in visible then [commits[n]] else []
  }

  /** The commits whose section is one of these. */
  function Among(commits: seq<Commit>, visible: map<string, string>, names: seq<string>): seq<Commit>
    decreases |commits|
  {
    if commits == [] then []
    else
      var n := |commits| - 1;
      Among(commits[..n], visible, names) +
      if SectionOf(visible, commits[n]).Some? && SectionOf(visible, commits[n]).value in names then [commits[n]] else []
  }

  lemma {:induction false} AmongOneMore(commits: seq<Commit>, visible: map<string, string>, names: seq<string>,
                                        name: string)
    requires name !in names
    ensures multiset(Among(commits, visible, names + [name])) ==
            multiset(Among(commits, visible, names)) + multiset(InSection(commits, visible, name))
    decreases |commits|
  {
    if commits != [] { AmongOneMore(commits[..|commits| - 1], visible, names, name); }
  }

  lemma {:induction false} ListedIsAmong(commits: seq<Commit>, visible: map<string, string>, order: seq<string>)
    requires Distinct(order)
    ensures multiset(Listed(commits, visible, order)) == multiset(Among(commits, visible, order))
    decreases |order|
  {
    if order == [] {
      AmongNone(commits, visible);
    } else {
      var n := |order| - 1;
      ListedIsAmong(commits, visible, order[..n]);
      assert order[n] !in order[..n];
      AmongOneMore(commits, visible, order[..n], order[n]);
      assert order == order[..n] + [order[n]];
    }
  }

  lemma {:induction false} AmongNone(commits: seq<Commit>, visible: map<string, string>)
    ensures Among(commits, visible, []) == []
    decreases |commits|
  {
    if commits != [] { AmongNone(commits[..|commits| - 1], visible); }
  }

  lemma {:induction false} AmongAll(commits: seq<Commit>, visible: map<string, string>, order: seq<string>)
    requires forall kind | kind in visible :: visible[kind] in order
    ensures Among(commits, visible, order) == Shown(commits, visible)
    decreases |commits|
  {
    if commits != [] { AmongAll(commits[..|commits| - 1], visible, order); }
  }

  /** Every commit of a visible type is listed exactly once, and no other commit is. */
  lemma ListsEachOnce(commits: seq<Commit>, entries: seq<ConfigEntry>)
    ensures multiset(Listed(commits, Visible(entries), Order(entries))) == multiset(Shown(commits, Visible(entries)))
  {
    OrderCovers(entries);
    ListedIsAmong(commits, Visible(entries), Order(entries));
    AmongAll(commits, Visible(entries), Order(entries));
  }

  predicate IsBullet(line: string) { "* " <= line }

  function BulletsIn(lines: seq<string>): seq<string>
    decreases |lines|
  {
    if lines == [] then []
    else
      var n := |lines| - 1;
      BulletsIn(lines[..n]) + if IsBullet(lines[n]) then [lines[n]] else []
  }

  lemma {:induction false} BulletsInJoin(a: seq<string>, b: seq<string>)
    ensures BulletsIn(a + b) == BulletsIn(a) + BulletsIn(b)
    decreases |b|
  {
    if b == [] {
      assert a + b == a;
    } else {
      var n := |b| - 1;
      assert (a + b)[..|a| + n] == a + b[..n] && (a + b)[|a| + n] == b[n];
      BulletsInJoin(a, b[..n]);
    }
  }

  lemma {:induction false} AllBullets(lines: seq<string>)
    requires forall i | 0 <= i < |lines| :: IsBullet(lines[i])
    ensures BulletsIn(lines) == lines
    decreases |lines|
  {
    if lines != [] { AllBullets(lines[..|lines| - 1]); }
  }

  lemma {:induction false} NoBullets(lines: seq<string>)
    requires forall i | 0 <= i < |lines| :: !IsBullet(lines[i])
    ensures BulletsIn(lines) == []
    decreases |lines|
  {
    if lines != [] { NoBullets(lines[..|lines| - 1]); }
  }

  lemma HeadingLines(section: string)
    ensures BulletsIn(["", "", HASHES + section, ""]) == []
  {
    var h := HASHES + section;
    assert h[0] == '#';
    NoBullets(["", "", h, ""]);
  }

  lemma BlockBullets(section: string, group: seq<Commit>, base: string)
    ensures BulletsIn(Block(section, group, base)) == Bullets(group, base)
  {
    hide Bullet;
    if group == [] {
      assert Bullets(group, base) == [];
    } else {
      HeadingLines(section);
      forall i | 0 <= i < |group| ensures IsBullet(Bullets(group, base)[i]) { BulletIsBullet(group[i], base); }
      AllBullets(Bullets(group, base));
      BulletsInJoin(["", "", HASHES + section, ""], Bullets(group, base));
    }
  }

  lemma BulletsJoin(a: seq<Commit>, b: seq<Commit>, base: string)
    ensures Bullets(a + b, base) == Bullets(a, base) + Bullets(b, base)
  {
    hide Bullet;
  }

  /** The bullets of a rendering are exactly those of the commits it lists, in that order. */
  lemma {:induction false} RenderedBullets(commits: seq<Commit>, visible: map<string, string>, order: seq<string>,
                                           base: string)
    ensures BulletsIn(Render(commits, visible, order, base)) == Bullets(Listed(commits, visible, order), base)
    decreases |order|
  {
    hide Bullet, InSection, Block, BulletsIn, Bullets;
    if order == [] {
      BulletsNone(base);
    } else {
      var n := |order| - 1;
      RenderedBullets(commits, visible, order[..n], base);
      var group := InSection(commits, visible, order[n]);
      BulletsInJoin(Render(commits, visible, order[..n], base), Block(order[n], group, base));
      BlockBullets(order[n], group, base);
      BulletsJoin(Listed(commits, visible, order[..n]), group, base);
    }
  }

  lemma BulletsNone(base: string)
    ensures BulletsIn([]) == [] && Bullets([], base) == []
  {
  }

  lemma BulletIsBullet(c: Commit, base: string)
    ensures IsBullet(Bullet(c, base)) && !Blank(Bullet(c, base)) && !EndsSection(Bullet(c, base))
  {
    var b := Bullet(c, base);
    assert b[0] == '*' && b[1] == ' ' && b[0] in b;
  }

  // ---- Lines -----------------------------------------------------------------------------------

  /** str.splitlines: a final line break ends the last line and starts none. */
  function SplitLines(text: string): seq<string> { DropLastEmpty(Pieces(text)) }

  function DropLastEmpty(lines: seq<string>): seq<string> {
    if lines != [] && lines[|lines| - 1] == "" then lines[..|lines| - 1] else lines
  }

  function Join(lines: seq<string>): string
    decreases |lines|
  {
    if lines == [] then ""
    else if |lines| == 1 then lines[0]
    else lines[0] + "\n" + Join(lines[1..])
  }

  predicate AllUnbroken(lines: seq<string>) { forall i :: 0 <= i < |lines| ==> Unbroken(lines[i]) }

  /** Whole lines in front of a text stay whole. */
  lemma {:induction false} PiecesOfJoin(lines: seq<string>, text: string)
    requires AllUnbroken(lines)
    ensures Pieces(Feed(lines) + text) == lines + Pieces(text)
    decreases |lines|
  {
    hide Pieces, Unbroken;
    if lines == [] {
      assert Feed(lines) + text == text && lines + Pieces(text) == Pieces(text);
    } else {
      var rest := Feed(lines[1..]) + text;
      assert Feed(lines) + text == (lines[0] + "\n") + rest;
      PiecesOfJoin(lines[1..], text);
      BreakEnds(lines[0]);
      PiecesJoin(lines[0] + "\n", rest);
      GlueBreak(lines[0], Pieces(rest));
      assert [lines[0]] + lines[1..] == lines;
    }
  }

  lemma GlueBreak(line: string, q: seq<string>)
    requires q != []
    ensures Glue([line, ""], q) == [line] + q
  {
    assert [line, ""][..1] == [line] && "" + q[0] == q[0];
  }

  /** Every line with its line feed. */
  function Feed(lines: seq<string>): string
    decreases |lines|
  {
    if lines == [] then "" else lines[0] + "\n" + Feed(lines[1..])
  }

  lemma {:induction false} JoinIsFeed(lines: seq<string>)
    requires lines != []
    ensures Join(lines) == Feed(lines[..|lines| - 1]) + lines[|lines| - 1]
    decreases |lines|
  {
    if |lines| > 1 {
      JoinIsFeed(lines[1..]);
      assert lines[..|lines| - 1][1..] == lines[1..][..|lines| - 2];
    }
  }

  lemma {:induction false} JoinFeed(a: seq<string>, b: seq<string>)
    requires b != []
    ensures Join(a + b) == Feed(a) + Join(b)
    decreases |a|
  {
    if a == [] {
      assert a + b == b;
    } else {
      assert (a + b)[1..] == a[1..] + b;
      JoinFeed(a[1..], b);
    }
  }

  lemma SplitUnbroken(text: string)
    ensures AllUnbroken(SplitLines(text))
  {
    PiecesUnbroken(text);
    var p := Pieces(text);
    forall i | 0 <= i < |SplitLines(text)| ensures Unbroken(SplitLines(text)[i]) {
      assert p[i] in p;
    }
  }

  // ---- The section -----------------------------------------------------------------------------

  function RStrip(s: string): string
    decreases |s|
  {
    if s != "" && IsSpace(s[|s| - 1]) then RStrip(s[..|s| - 1]) else s
  }

  /** The name on a `### ` line: at least one character, trailing whitespace aside. */
  function Heading(line: string): Option<string> {
    if !(HASHES <= line) || |line| == |HASHES| then None
    else
      var rest := line[|HASHES|..];
      Some(if Blank(rest) then rest[..1] else RStrip(rest))
  }

  predicate EndsSection(line: string) { "## " <= line }

  function FindHeader(t: Tools, lines: seq<string>, i: nat): (r: Option<nat>)
    requires i <= |lines|
    ensures r.Some? ==> i <= r.value < |lines| && t.header(lines[r.value]).Some?
    ensures r.Some? ==> forall k :: i <= k < r.value ==> t.header(lines[k]).None?
    ensures r.None? ==> forall k :: i <= k < |lines| ==> t.header(lines[k]).None?
    decreases |lines| - i
  {
    if i == |lines| then None
    else if t.header(lines[i]).Some? then Some(i)
    else FindHeader(t, lines, i + 1)
  }

  function FindEnd(lines: seq<string>, i: nat): (r: nat)
    requires i <= |lines|
    ensures i <= r <= |lines| && (r < |lines| ==> EndsSection(lines[r]))
    ensures forall k :: i <= k < r ==> !EndsSection(lines[k])
    decreases |lines| - i
  {
    if i == |lines| || EndsSection(lines[i]) then i else FindEnd(lines, i + 1)
  }

  /** Trailing blank lines dropped. */
  function Trim(lines: seq<string>): seq<string>
    decreases |lines|
  {
    if lines != [] && Blank(lines[|lines| - 1]) then Trim(lines[..|lines| - 1]) else lines
  }

  predicate HeadingsKnown(lines: seq<string>, order: seq<string>) {
    forall i :: 0 <= i < |lines| && Heading(lines[i]).Some? ==> Heading(lines[i]).value in order
  }

  datatype Bail = NoSection | UnknownHeading | BadRange

  datatype Rebuilt = Rebuilt(text: string, changed: bool)

  function NewBody(commits: seq<Commit>, entries: seq<ConfigEntry>, base: string): seq<string> {
    Render(commits, Visible(entries), Order(entries), base) + [""]
  }

  predicate EndsWithFeed(text: string) { text != "" && text[|text| - 1] == '\n' }

  function Rebuild(t: Tools, entries: seq<ConfigEntry>, text: string): Result<Rebuilt, Bail> {
    var lines := SplitLines(text);
    var start := FindHeader(t, lines, 0);
    if start.None? then Err(NoSection)
    else
      var header := t.header(lines[start.value]).value;
      var end := FindEnd(lines, start.value + 1);
      var body := lines[start.value + 1..end];
      if !HeadingsKnown(body, Order(entries)) then Err(UnknownHeading)
      else
        var commits := t.commits(header.prev, header.next);
        if commits.None? then Err(BadRange)
        else
          var renewed := NewBody(commits.value, entries, header.base);
          if Trim(body) == Trim(renewed) then Ok(Rebuilt(text, false))
          else
            Ok(Rebuilt(Join(lines[..start.value + 1] + renewed + lines[end..]) +
                if EndsWithFeed(text) then "\n" else "", true))
  }

  // ---- What a rebuild leaves -------------------------------------------------------------------

  /** The three parts of a changelog around its newest section. */
  datatype Parts = Parts(front: seq<string>, body: seq<string>, rest: seq<string>, header: Header)

  predicate HasSection(t: Tools, lines: seq<string>) { FindHeader(t, lines, 0).Some? }

  function PartsOf(t: Tools, lines: seq<string>): (p: Parts)
    requires HasSection(t, lines)
    ensures lines == p.front + p.body + p.rest && p.front != []
    ensures p.rest == [] || EndsSection(p.rest[0])
  {
    var start := FindHeader(t, lines, 0).value;
    var end := FindEnd(lines, start + 1);
    Parts(lines[..start + 1], lines[start + 1..end], lines[end..], t.header(lines[start]).value)
  }

  function Rendered(t: Tools, entries: seq<ConfigEntry>, header: Header): seq<string>
    requires t.commits(header.prev, header.next).Some?
  {
    Render(t.commits(header.prev, header.next).value, Visible(entries), Order(entries), header.base)
  }

  lemma RebuildByParts(t: Tools, entries: seq<ConfigEntry>, text: string)
    requires HasSection(t, SplitLines(text))
    ensures var p := PartsOf(t, SplitLines(text));
      Rebuild(t, entries, text) ==
        if !HeadingsKnown(p.body, Order(entries)) then Err(UnknownHeading)
        else if t.commits(p.header.prev, p.header.next).None? then Err(BadRange)
        else
          var renewed := Rendered(t, entries, p.header) + [""];
          if Trim(p.body) == Trim(renewed) then Ok(Rebuilt(text, false))
          else Ok(Rebuilt(Join(p.front + renewed + p.rest) + if EndsWithFeed(text) then "\n" else "", true))
  {
    hide HeadingsKnown, Trim, Join, Render;
  }

  /** The same front has the same newest section header. */
  lemma SameFront(t: Tools, lines: seq<string>, other: seq<string>)
    requires HasSection(t, lines) && PartsOf(t, lines).front <= other
    ensures HasSection(t, other) && PartsOf(t, other).front == PartsOf(t, lines).front
    ensures PartsOf(t, other).header == PartsOf(t, lines).header
  {
    var start := FindHeader(t, lines, 0).value;
    assert forall k :: 0 <= k <= start ==> other[k] == lines[..start + 1][k];
    assert lines[..start + 1][start] == lines[start];
    var found := FindHeader(t, other, 0);
    assert found == Some(start);
    assert other[..start + 1] == lines[..start + 1];
  }

  lemma DropAfter(a: seq<string>, b: seq<string>)
    requires b != []
    ensures DropLastEmpty(a + b) == a + DropLastEmpty(b)
  {
    assert (a + b)[|a + b| - 1] == b[|b| - 1];
    assert (a + b)[..|a + b| - 1] == a + b[..|b| - 1];
  }

  /** Rebuilt text keeps every line up to the header, whatever was rendered. */
  lemma FrontKept(front: seq<string>, more: seq<string>, tail: string)
    requires AllUnbroken(front) && more != []
    ensures SplitLines(Join(front + more) + tail) == front + DropLastEmpty(Pieces(Join(more) + tail))
  {
    hide Pieces, AllUnbroken;
    JoinFeed(front, more);
    assert Join(front + more) + tail == Feed(front) + (Join(more) + tail);
    PiecesOfJoin(front, Join(more) + tail);
    DropAfter(front, Pieces(Join(more) + tail));
  }

  /** Unbroken lines, joined, are split again into the same lines. */
  lemma JoinSplits(lines: seq<string>, feed: bool)
    requires AllUnbroken(lines) && lines != []
    ensures DropLastEmpty(Pieces(Join(lines) + if feed then "\n" else "")) ==
            if feed then lines else DropLastEmpty(lines)
  {
    hide Pieces;
    var n := |lines| - 1;
    var init, last := lines[..n], lines[n];
    JoinIsFeed(lines);
    assert lines == init + [last];
    hide AllUnbroken;
    assert AllUnbroken(init) by { InitUnbroken(lines); }
    if feed {
      assert Join(lines) + "\n" == Feed(init) + (last + "\n");
      PiecesOfJoin(init, last + "\n");
      BreakEnds(last);
      assert init + [last, ""] == lines + [""];
      assert (lines + [""])[..|lines|] == lines;
    } else {
      assert Join(lines) + "" == Feed(init) + last;
      PiecesOfJoin(init, last);
      UnbrokenIsOnePiece(last);
    }
  }

  lemma InitUnbroken(lines: seq<string>)
    requires AllUnbroken(lines) && lines != []
    ensures AllUnbroken(lines[..|lines| - 1])
  {
  }

  lemma PartsUnbroken(t: Tools, text: string)
    requires HasSection(t, SplitLines(text))
    ensures var p := PartsOf(t, SplitLines(text)); AllUnbroken(p.front) && AllUnbroken(p.body) && AllUnbroken(p.rest)
  {
    SplitUnbroken(text);
    hide Unbroken, SplitLines, EndsSection;
  }

  /** Lines joined in front of other lines. */
  lemma JoinBoth(a: seq<string>, b: seq<string>)
    requires a != [] && b != []
    ensures Join(a + b) == Join(a) + "\n" + Join(b)
  {
    JoinFeed(a, b);
    JoinIsFeed(a);
    FeedLast(a);
  }

  /** Whatever the middle splits into, the lines behind it are split as they were. */
  lemma RestKept(middle: seq<string>, rest: seq<string>, feed: bool)
    requires middle != [] && AllUnbroken(rest)
    ensures var all := Pieces(Join(middle)) + rest;
      DropLastEmpty(Pieces(Join(middle + rest) + if feed then "\n" else "")) == if feed then all else DropLastEmpty(all)
  {
    hide Pieces, Join, AllUnbroken, Feed;
    var a := Join(middle);
    PiecesFeed(a);
    if rest == [] {
      assert middle + rest == middle && Pieces(a) + rest == Pieces(a);
      assert (Pieces(a) + [""])[..|Pieces(a)|] == Pieces(a);
      assert a + "" == a;
    } else {
      JoinBoth(middle, rest);
      var y := Join(rest) + if feed then "\n" else "";
      assert Join(middle + rest) + (if feed then "\n" else "") == (a + "\n") + y;
      PiecesJoin(a + "\n", y);
      GlueEmptyLast(Pieces(a), Pieces(y));
      DropAfter(Pieces(a), Pieces(y));
      JoinSplits(rest, feed);
      DropAfter(Pieces(a), rest);
    }
  }

  lemma GlueEmptyLast(p: seq<string>, q: seq<string>)
    requires q != []
    ensures Glue(p + [""], q) == p + q
  {
    assert (p + [""])[..|p|] == p && "" + q[0] == q[0];
  }

  /** The body a rebuild leaves: the rendered lines and a blank one, split at any line break inside them. */
  function BodyLines(rendered: seq<string>): seq<string> { Pieces(Join(rendered + [""])) }

  lemma UnbrokenBody(rendered: seq<string>)
    requires AllUnbroken(rendered)
    ensures BodyLines(rendered) == rendered + [""]
  {
    hide Pieces;
    JoinIsFeed(rendered + [""]);
    assert (rendered + [""])[..|rendered|] == rendered;
    PiecesOfJoin(rendered, "");
    assert Feed(rendered) + "" == Feed(rendered);
    UnbrokenIsOnePiece("");
  }

  /** A rebuild changes no line outside the newest section, whatever it renders: its lines are the old
      front, the body and the old rest, up to a blank line at the very end of a file without a final
      line feed. */
  lemma OutsideKept(t: Tools, entries: seq<ConfigEntry>, text: string)
    requires HasSection(t, SplitLines(text)) && Rebuild(t, entries, text).Ok?
    requires var h := PartsOf(t, SplitLines(text)).header; t.commits(h.prev, h.next).Some?
    ensures Rebuild(t, entries, text).value.changed ==>
      var p := PartsOf(t, SplitLines(text));
      var all := BodyLines(Rendered(t, entries, p.header)) + p.rest;
      SplitLines(Rebuild(t, entries, text).value.text) ==
          p.front + if EndsWithFeed(text) then all else DropLastEmpty(all)
    ensures !Rebuild(t, entries, text).value.changed ==> Rebuild(t, entries, text).value.text == text
  {
    var p := PartsOf(t, SplitLines(text));
    RebuildByParts(t, entries, text);
    PartsUnbroken(t, text);
    hide Rebuild, Pieces, SplitLines, PartsOf, Rendered, AllUnbroken, Trim, HeadingsKnown, Join, EndsWithFeed,
        EndsSection,
         DropLastEmpty;
    var middle := Rendered(t, entries, p.header) + [""];
    assert p.front + middle + p.rest == p.front + (middle + p.rest);
    FrontKept(p.front, middle + p.rest, if EndsWithFeed(text) then "\n" else "");
    RestKept(middle, p.rest, EndsWithFeed(text));
  }

  // ---- Running it twice ------------------------------------------------------------------------

  lemma BlockShape(section: string, group: seq<Commit>, base: string)
    ensures forall i | 0 <= i < |Block(section, group, base)| :: !EndsSection(Block(section, group, base)[i])
    ensures group != [] ==> Block(section, group, base) != []
    ensures group != [] ==> !Blank(Block(section, group, base)[|Block(section, group, base)| - 1])
  {
    hide Bullet;
    if group != [] {
      var block := Block(section, group, base);
      var h := HASHES + section;
      assert h[2] == '#';
      forall i | 0 <= i < |block| ensures !EndsSection(block[i]) {
        if i >= 4 {
          BulletIsBullet(group[i - 4], base);
          assert block[i] == Bullet(group[i - 4], base);
        } else if i == 2 {
          assert block[2] == h;
        }
      }
      BulletIsBullet(group[|group| - 1], base);
      assert block[|block| - 1] == Bullet(group[|group| - 1], base);
    }
  }

  /** No rendered line ends the section, and a rendering does not end in a blank line. */
  lemma {:induction false} RenderShape(commits: seq<Commit>, visible: map<string, string>, order: seq<string>,
                                       base: string)
    ensures var r := Render(commits, visible, order, base);
      && (forall i | 0 <= i < |r| :: !EndsSection(r[i]))
      && (r != [] ==> !Blank(r[|r| - 1]))
    decreases |order|
  {
    hide Block, InSection, EndsSection, Blank;
    if order != [] {
      var n := |order| - 1;
      RenderShape(commits, visible, order[..n], base);
      var group := InSection(commits, visible, order[n]);
      BlockShape(order[n], group, base);
      if group == [] { EmptyBlock(order[n], base); }
    }
  }

  lemma EmptyBlock(section: string, base: string)
    ensures Block(section, [], base) == []
  {
  }

  lemma TrimRendered(r: seq<string>)
    requires r != [] ==> !Blank(r[|r| - 1])
    ensures Trim(r) == r && Trim(r + [""]) == r
  {
    assert (r + [""])[..|r|] == r;
  }

  lemma {:induction false} TrimIsPrefix(lines: seq<string>)
    ensures Trim(lines) <= lines
    decreases |lines|
  {
    if lines != [] && Blank(lines[|lines| - 1]) { TrimIsPrefix(lines[..|lines| - 1]); }
  }

  /** Where the section ends once its body is the rendered one. */
  lemma EndOfRendered(lines: seq<string>, front: seq<string>, body: seq<string>, rest: seq<string>)
    requires lines == front + body + rest
    requires forall i | 0 <= i < |body| :: !EndsSection(body[i])
    requires rest == [] || EndsSection(rest[0])
    ensures FindEnd(lines, |front|) == |front| + |body|
  {
    var end := FindEnd(lines, |front|);
    forall k | |front| <= k < |front| + |body| ensures !EndsSection(lines[k]) {
      assert lines[k] == body[k - |front|];
    }
    if rest != [] { assert lines[|front| + |body|] == rest[0]; }
  }

  /** The rendering can be read back: no line break inside a line, every heading a configured section. */
  predicate Stable(rendered: seq<string>, order: seq<string>) {
    AllUnbroken(rendered) && HeadingsKnown(rendered, order)
  }

  /** The parts of a rebuilt changelog whose rendering is unbroken. */
  lemma PartsAgain(t: Tools, lines: seq<string>, again: seq<string>, rendered: seq<string>, feed: bool)
    requires HasSection(t, lines)
    requires var p := PartsOf(t, lines); var tail := rendered + [""] + p.rest;
             again == p.front + if feed then tail else DropLastEmpty(tail)
    requires forall i | 0 <= i < |rendered| :: !EndsSection(rendered[i])
    ensures HasSection(t, again) && PartsOf(t, again).header == PartsOf(t, lines).header
    ensures PartsOf(t, again).front == PartsOf(t, lines).front
    ensures PartsOf(t, again).body == rendered + [""] || PartsOf(t, again).body == rendered
  {
    hide PartsOf, HasSection, FindEnd;
    var p := PartsOf(t, lines);
    SameFront(t, lines, again);
    if p.rest == [] {
      assert rendered + [""] + p.rest == rendered + [""];
      assert (rendered + [""])[..|rendered|] == rendered;
      var body := if feed then rendered + [""] else rendered;
      assert again == p.front + body + [];
      EndOfRendered(again, p.front, body, []);
      BodyIs(t, again, p.front, body, []);
    } else {
      var tail := rendered + [""] + p.rest;
      var rest := if feed then p.rest else DropLastEmpty(p.rest);
      DropAfter(rendered + [""], p.rest);
      StillEnds(p.rest, rest, feed);
      hide DropLastEmpty, EndsSection;
      assert again == p.front + (rendered + [""]) + rest;
      EndOfRendered(again, p.front, rendered + [""], rest);
      BodyIs(t, again, p.front, rendered + [""], rest);
    }
  }

  lemma StillEnds(rest: seq<string>, kept: seq<string>, feed: bool)
    requires rest != [] && EndsSection(rest[0]) && kept == if feed then rest else DropLastEmpty(rest)
    ensures kept != [] && EndsSection(kept[0])
  {
    assert rest[0] != "";
  }

  lemma BodyIs(t: Tools, lines: seq<string>, front: seq<string>, body: seq<string>, rest: seq<string>)
    requires HasSection(t, lines) && PartsOf(t, lines).front == front && lines == front + body + rest
    requires FindEnd(lines, |front|) == |front| + |body|
    ensures PartsOf(t, lines).body == body
  {
    var start := FindHeader(t, lines, 0).value;
    assert |front| == start + 1;
    assert lines[start + 1..|front| + |body|] == body;
  }

  /** The rebuilt changelog: the same newest header, and the rendering for its body. */
  lemma RebuiltParts(t: Tools, entries: seq<ConfigEntry>, text: string)
    requires HasSection(t, SplitLines(text)) && Rebuild(t, entries, text).Ok? && Rebuild(t, entries, text).value.changed
    requires var h := PartsOf(t, SplitLines(text)).header;
             t.commits(h.prev, h.next).Some? && AllUnbroken(Rendered(t, entries, h))
    ensures var again := SplitLines(Rebuild(t, entries, text).value.text);
      && HasSection(t, again)
      && (var p, q := PartsOf(t, SplitLines(text)), PartsOf(t, again); var rendered := Rendered(t, entries, p.header);
          && q.header == p.header && q.front == p.front && (q.body == rendered + [""] || q.body == rendered))
  {
    var h := PartsOf(t, SplitLines(text)).header;
    OutsideKept(t, entries, text);
    RenderShape(t.commits(h.prev, h.next).value, Visible(entries), Order(entries), h.base);
    var rendered := Rendered(t, entries, h);
    UnbrokenBody(rendered);
    hide Rebuild, BodyLines, PartsOf, SplitLines, Rendered, HasSection, EndsSection, Render, AllUnbroken,
        DropLastEmpty, EndsWithFeed;
    PartsAgain(t, SplitLines(text), SplitLines(Rebuild(t, entries, text).value.text), rendered, EndsWithFeed(text));
  }

  /** A section that is the rendering of its range, blank lines at its end aside, is left alone. */
  lemma RenderedStays(t: Tools, entries: seq<ConfigEntry>, text: string)
    requires HasSection(t, SplitLines(text))
    requires var p := PartsOf(t, SplitLines(text));
      && HeadingsKnown(p.body, Order(entries)) && t.commits(p.header.prev, p.header.next).Some?
      && Trim(p.body) == Trim(Rendered(t, entries, p.header) + [""])
    ensures Rebuild(t, entries, text) == Ok(Rebuilt(text, false))
  {
    hide Rebuild, PartsOf, SplitLines, Rendered, HeadingsKnown, Trim, HasSection, Join, Order;
    RebuildByParts(t, entries, text);
  }

  /** With a stable rendering the second run finds nothing to change. */
  lemma StableIsFixpoint(t: Tools, entries: seq<ConfigEntry>, text: string)
    requires HasSection(t, SplitLines(text)) && Rebuild(t, entries, text).Ok? && Rebuild(t, entries, text).value.changed
    requires var h := PartsOf(t, SplitLines(text)).header;
      t.commits(h.prev, h.next).Some? && Stable(Rendered(t, entries, h), Order(entries))
    ensures var again := Rebuild(t, entries, text).value.text; Rebuild(t, entries, again) == Ok(Rebuilt(again, false))
  {
    hide Rebuild, PartsOf, SplitLines, Rendered, HeadingsKnown, Trim, HasSection, Join, Order, AllUnbroken;
    var h := PartsOf(t, SplitLines(text)).header;
    var rendered := Rendered(t, entries, h);
    RebuiltParts(t, entries, text);
    TrimDropsEmpty(rendered);
    NoHeadingInEmpty(rendered, Order(entries));
    RenderedStays(t, entries, Rebuild(t, entries, text).value.text);
  }

  lemma NoHeadingInEmpty(rendered: seq<string>, order: seq<string>)
    ensures HeadingsKnown(rendered + [""], order) <==> HeadingsKnown(rendered, order)
  {
    assert Heading("").None?;
    hide Heading;
    if HeadingsKnown(rendered + [""], order) {
      forall i | 0 <= i < |rendered| && Heading(rendered[i]).Some? ensures Heading(rendered[i]).value in order {
        assert (rendered + [""])[i] == rendered[i];
      }
    }
  }

  /** The rebuilt text still starts with the old front, whatever was rendered. */
  lemma AgainFront(t: Tools, entries: seq<ConfigEntry>, text: string)
    requires HasSection(t, SplitLines(text)) && Rebuild(t, entries, text).Ok? && Rebuild(t, entries, text).value.changed
    ensures var lines, again := SplitLines(text), SplitLines(Rebuild(t, entries, text).value.text);
      HasSection(t, again) && PartsOf(t, again).header == PartsOf(t, lines).header
  {
    var p := PartsOf(t, SplitLines(text));
    RebuildByParts(t, entries, text);
    PartsUnbroken(t, text);
    hide Rebuild, PartsOf, HasSection, SplitLines, Rendered, Trim, HeadingsKnown, EndsSection, AllUnbroken, Join,
        EndsWithFeed;
    var tail := Rendered(t, entries, p.header) + [""] + p.rest;
    assert p.front + (Rendered(t, entries, p.header) + [""]) + p.rest == p.front + tail;
    FrontKept(p.front, tail, if EndsWithFeed(text) then "\n" else "");
    SameFront(t, SplitLines(text), SplitLines(Rebuild(t, entries, text).value.text));
  }

  lemma RenderedTrims(t: Tools, entries: seq<ConfigEntry>, h: Header)
    requires t.commits(h.prev, h.next).Some?
    ensures Trim(Rendered(t, entries, h) + [""]) == Rendered(t, entries, h)
  {
    RenderShape(t.commits(h.prev, h.next).value, Visible(entries), Order(entries), h.base);
    TrimRendered(Rendered(t, entries, h));
  }

  lemma UnchangedMeans(t: Tools, entries: seq<ConfigEntry>, text: string)
    requires HasSection(t, SplitLines(text)) && Rebuild(t, entries, text) == Ok(Rebuilt(text, false))
    requires var h := PartsOf(t, SplitLines(text)).header; t.commits(h.prev, h.next).Some?
    ensures var p := PartsOf(t, SplitLines(text));
      HeadingsKnown(p.body, Order(entries)) && Trim(p.body) == Trim(Rendered(t, entries, p.header) + [""])
  {
    RebuildByParts(t, entries, text);
    hide Rebuild, PartsOf, HasSection, SplitLines, Rendered, Trim, HeadingsKnown, Join;
  }

  /** Without one it does: a broken line or an unknown heading shows up in the second run. */
  lemma FixpointIsStable(t: Tools, entries: seq<ConfigEntry>, text: string)
    requires HasSection(t, SplitLines(text)) && Rebuild(t, entries, text).Ok? && Rebuild(t, entries, text).value.changed
    requires var h := PartsOf(t, SplitLines(text)).header; t.commits(h.prev, h.next).Some?
    requires var again := Rebuild(t, entries, text).value.text; Rebuild(t, entries, again) == Ok(Rebuilt(again, false))
    ensures Stable(Rendered(t, entries, PartsOf(t, SplitLines(text)).header), Order(entries))
  {
    var h := PartsOf(t, SplitLines(text)).header;
    var rendered := Rendered(t, entries, h);
    var again := Rebuild(t, entries, text).value.text;
    hide Rebuild, PartsOf, HasSection, SplitLines, Rendered, Trim, HeadingsKnown, EndsSection, Render, AllUnbroken,
        Join, Stable, Order, Visible;
    RenderedTrims(t, entries, h);
    AgainFront(t, entries, text);
    UnchangedMeans(t, entries, again);
    PartsUnbroken(t, again);
    var body := PartsOf(t, SplitLines(again)).body;
    TrimIsPrefix(body);
    PrefixStable(body, rendered, Order(entries));
  }

  lemma PrefixStable(body: seq<string>, prefix: seq<string>, order: seq<string>)
    requires prefix <= body && AllUnbroken(body) && HeadingsKnown(body, order)
    ensures Stable(prefix, order)
  {
    assert forall i :: 0 <= i < |prefix| ==> prefix[i] == body[i];
    hide Unbroken, Heading;
  }

  /** A rebuild that changed something is final exactly when its rendering is stable; one that changed
      nothing is final in any case. */
  lemma IdempotentIff(t: Tools, entries: seq<ConfigEntry>, text: string)
    requires HasSection(t, SplitLines(text)) && Rebuild(t, entries, text).Ok?
    requires var h := PartsOf(t, SplitLines(text)).header; t.commits(h.prev, h.next).Some?
    ensures var first := Rebuild(t, entries, text).value;
      Rebuild(t, entries, first.text) == Ok(Rebuilt(first.text, false)) <==>
      !first.changed || Stable(Rendered(t, entries, PartsOf(t, SplitLines(text)).header), Order(entries))
  {
    var first := Rebuild(t, entries, text).value;
    RebuildByParts(t, entries, text);
    hide Rebuild, PartsOf, SplitLines, Rendered, Trim, HeadingsKnown, Stable, Join;
    if first.changed {
      if Stable(Rendered(t, entries, PartsOf(t, SplitLines(text)).header), Order(entries)) {
        StableIsFixpoint(t, entries, text);
      } else if Rebuild(t, entries, first.text) == Ok(Rebuilt(first.text, false)) {
        FixpointIsStable(t, entries, text);
      }
    }
  }

  // ---- When a rendering is stable --------------------------------------------------------------

  predicate CleanCommit(c: Commit) { Unbroken(c.sha) && Unbroken(c.scope) && Unbroken(c.desc) }

  /** A section name the heading pattern reads back whole. */
  predicate CleanName(name: string) { name != "" && Unbroken(name) && !IsSpace(name[|name| - 1]) }

  lemma BulletUnbroken(c: Commit, base: string)
    requires CleanCommit(c) && Unbroken(base)
    ensures Unbroken(Bullet(c, base)) && Heading(Bullet(c, base)).None?
  {
    var b := Bullet(c, base);
    assert b[0] == '*';
    forall x | x in b ensures !IsBreak(x) {}
  }

  lemma HeadingBack(name: string)
    requires CleanName(name)
    ensures Heading(HASHES + name) == Some(name) && Unbroken(HASHES + name)
  {
    assert (HASHES + name)[|HASHES|..] == name;
    assert name[|name| - 1] in name;
    UnbrokenJoin(HASHES, name);
  }

  lemma BlockStable(section: string, group: seq<Commit>, base: string, order: seq<string>)
    requires CleanName(section) && section in order && Unbroken(base) && forall c | c in group :: CleanCommit(c)
    ensures Stable(Block(section, group, base), order)
  {
    hide Bullet, CleanName;
    var block := Block(section, group, base);
    HeadingBack(section);
    assert Unbroken("") && Heading("").None?;
    hide Heading, Unbroken;
    forall i | 0 <= i < |block| ensures Unbroken(block[i]) &&
        (Heading(block[i]).Some? ==> Heading(block[i]).value in order) {
      if i >= 4 {
        assert group[i - 4] in group;
        BulletUnbroken(group[i - 4], base);
        assert block[i] == Bullet(group[i - 4], base);
      }
    }
  }

  lemma StableJoin(a: seq<string>, b: seq<string>, order: seq<string>)
    requires Stable(a, order) && Stable(b, order)
    ensures Stable(a + b, order)
  {
    hide Heading, Unbroken;
  }

  lemma {:induction false} InSectionSub(commits: seq<Commit>, visible: map<string, string>, section: string)
    ensures forall c | c in InSection(commits, visible, section) :: c in commits
    decreases |commits|
  {
    if commits != [] { InSectionSub(commits[..|commits| - 1], visible, section); }
  }

  lemma {:induction false} RenderStable(commits: seq<Commit>, visible: map<string, string>, names: seq<string>,
                                        base: string, order: seq<string>)
    requires (forall c | c in commits :: CleanCommit(c)) && Unbroken(base)
    requires forall i | 0 <= i < |names| :: CleanName(names[i]) && names[i] in order
    ensures Stable(Render(commits, visible, names, base), order)
    decreases |names|
  {
    hide Stable, Block, CleanName, CleanCommit, Unbroken;
    if names == [] {
      NothingIsStable(order);
    } else {
      var n := |names| - 1;
      RenderStable(commits, visible, names[..n], base, order);
      InSectionSub(commits, visible, names[n]);
      BlockStable(names[n], InSection(commits, visible, names[n]), base, order);
      StableJoin(Render(commits, visible, names[..n], base),
          Block(names[n], InSection(commits, visible, names[n]), base), order);
    }
  }

  lemma NothingIsStable(order: seq<string>)
    ensures Stable([], order)
  {
  }

  /** Section names that do not end in whitespace and commit texts without line breaks make every rebuild final. */
  lemma CleanIsIdempotent(t: Tools, entries: seq<ConfigEntry>, text: string)
    requires HasSection(t, SplitLines(text)) && Rebuild(t, entries, text).Ok?
    requires var h := PartsOf(t, SplitLines(text)).header;
      t.commits(h.prev, h.next).Some? && Unbroken(h.base) && forall c | c in t.commits(h.prev, h.next).value ::
          CleanCommit(c)
    requires forall i | 0 <= i < |Order(entries)| :: CleanName(Order(entries)[i])
    ensures var first := Rebuild(t, entries, text).value;
            Rebuild(t, entries, first.text) == Ok(Rebuilt(first.text, false))
  {
    hide Rebuild, PartsOf, SplitLines, Stable, CleanName, CleanCommit, Order;
    var h := PartsOf(t, SplitLines(text)).header;
    RenderStable(t.commits(h.prev, h.next).value, Visible(entries), Order(entries), h.base, Order(entries));
    IdempotentIff(t, entries, text);
  }

  lemma BlankIsNoBullet(line: string)
    requires Blank(line)
    ensures !IsBullet(line)
  {
    if line != "" { assert line[0] in line; }
    assert !IsSpace('*');
  }

  lemma {:induction false} BulletsTrim(lines: seq<string>)
    ensures BulletsIn(Trim(lines)) == BulletsIn(lines)
    decreases |lines|
  {
    hide Blank, IsBullet;
    if lines != [] && Blank(lines[|lines| - 1]) {
      BlankIsNoBullet(lines[|lines| - 1]);
      BulletsTrim(lines[..|lines| - 1]);
    }
  }

  lemma BulletsUnbroken(a: seq<Commit>, b: seq<Commit>, base: string)
    ensures AllUnbroken(Bullets(a + b, base)) <==> AllUnbroken(Bullets(a, base)) && AllUnbroken(Bullets(b, base))
  {
    hide Unbroken, Bullet;
    BulletsJoin(a, b, base);
    var x, y := Bullets(a, base), Bullets(b, base);
    assert forall i | 0 <= i < |x| :: (x + y)[i] == x[i];
    assert forall i | 0 <= i < |y| :: (x + y)[|x| + i] == y[i];
  }

  lemma BlockUnbroken(section: string, group: seq<Commit>, base: string)
    requires Unbroken(section) && AllUnbroken(Bullets(group, base))
    ensures AllUnbroken(Block(section, group, base))
  {
    UnbrokenJoin(HASHES, section);
    assert Unbroken("") && Unbroken(HASHES);
    hide Unbroken, Bullet;
  }

  lemma {:induction false} RenderUnbroken(commits: seq<Commit>, visible: map<string, string>, order: seq<string>,
                                          base: string)
    requires AllUnbroken(order) && AllUnbroken(Bullets(Listed(commits, visible, order), base))
    ensures AllUnbroken(Render(commits, visible, order, base))
    decreases |order|
  {
    hide Unbroken, Bullets, Block, InSection;
    if order != [] {
      var n := |order| - 1;
      BulletsUnbroken(Listed(commits, visible, order[..n]), InSection(commits, visible, order[n]), base);
      RenderUnbroken(commits, visible, order[..n], base);
      BlockUnbroken(order[n], InSection(commits, visible, order[n]), base);
    }
  }

  lemma {:induction false} BulletsInUnbroken(lines: seq<string>)
    requires AllUnbroken(lines)
    ensures AllUnbroken(BulletsIn(lines))
    decreases |lines|
  {
    hide Unbroken, IsBullet;
    if lines != [] { BulletsInUnbroken(lines[..|lines| - 1]); }
  }

  /** What a run that changed nothing found in the section is what it would have written. */
  lemma UnchangedBullets(t: Tools, entries: seq<ConfigEntry>, text: string)
    requires HasSection(t, SplitLines(text)) && Rebuild(t, entries, text) == Ok(Rebuilt(text, false))
    requires var h := PartsOf(t, SplitLines(text)).header; t.commits(h.prev, h.next).Some?
    ensures var p := PartsOf(t, SplitLines(text)); BulletsIn(p.body) == BulletsIn(Rendered(t, entries, p.header))
  {
    hide Rebuild, PartsOf, SplitLines, Rendered, HasSection, HeadingsKnown, BulletsIn, Trim, Order;
    var p := PartsOf(t, SplitLines(text));
    UnchangedMeans(t, entries, text);
    RenderedTrims(t, entries, p.header);
    BulletsTrim(p.body);
  }

  /** After a successful run, changed or not, the newest section's bullets are those of the visible commits
      of its range, section by section in configured order, each exactly once: exactly when none of these
      bullets holds a line break, section names holding none. */
  lemma SectionListsCommitsIff(t: Tools, entries: seq<ConfigEntry>, text: string)
    requires HasSection(t, SplitLines(text)) && Rebuild(t, entries, text).Ok? && AllUnbroken(Order(entries))
    requires var h := PartsOf(t, SplitLines(text)).header; t.commits(h.prev, h.next).Some?
    ensures var again := SplitLines(Rebuild(t, entries, text).value.text);
      var h := PartsOf(t, SplitLines(text)).header;
      var commits := t.commits(h.prev, h.next).value;
      var listed := Listed(commits, Visible(entries), Order(entries));
      && HasSection(t, again)
      && multiset(listed) == multiset(Shown(commits, Visible(entries)))
      && (BulletsIn(PartsOf(t, again).body) == Bullets(listed, h.base) <==> AllUnbroken(Bullets(listed, h.base)))
  {
    var h := PartsOf(t, SplitLines(text)).header;
    var commits := t.commits(h.prev, h.next).value;
    var listed := Listed(commits, Visible(entries), Order(entries));
    ListsEachOnce(commits, entries);
    RenderedBullets(commits, Visible(entries), Order(entries), h.base);
    var rendered := Rendered(t, entries, h);
    assert BulletsIn(rendered) == Bullets(listed, h.base);
    var first := Rebuild(t, entries, text).value;
    OutsideKept(t, entries, text);
    if AllUnbroken(Bullets(listed, h.base)) { RenderUnbroken(commits, Visible(entries), Order(entries), h.base); }
    assert AllUnbroken(Bullets(listed, h.base)) ==> AllUnbroken(rendered);
    hide Rebuild, PartsOf, SplitLines, Rendered, HasSection, AllUnbroken, BulletsIn, Bullets, Listed, Shown, Order,
        Visible, BodyLines,
         DropLastEmpty, EndsWithFeed;
    if first.changed {
      AgainFront(t, entries, text);
      if AllUnbroken(rendered) { RebuiltParts(t, entries, text); }
      BlankIsNoBulletAtEnd(rendered);
    } else {
      UnchangedBullets(t, entries, text);
    }
    PartsUnbroken(t, first.text);
    BulletsInUnbroken(PartsOf(t, SplitLines(first.text)).body);
  }

  lemma BlankIsNoBulletAtEnd(lines: seq<string>)
    ensures BulletsIn(lines + [""]) == BulletsIn(lines)
  {
    assert (lines + [""])[..|lines|] == lines;
  }

  // ---- What is published -----------------------------------------------------------------------

  function FindVersion(t: Tools, lines: seq<string>, version: string, i: nat): Option<nat>
    requires i <= |lines|
    decreases |lines| - i
  {
    if i == |lines| then None
    else if t.header(lines[i]).Some? && t.header(lines[i]).value.version == version then Some(i)
    else FindVersion(t, lines, version, i + 1)
  }

  /** One version's section, header line included, without trailing whitespace. */
  function SectionFor(t: Tools, text: string, version: string): Option<string> {
    var lines := SplitLines(text);
    var start := FindVersion(t, lines, version, 0);
    if start.None? || start.value >= |lines| then None
    else Some(RStrip(Join(lines[start.value..FindEnd(lines, start.value + 1)])))
  }

  lemma {:induction false} FirstVersion(t: Tools, lines: seq<string>, i: nat, start: nat)
    requires i <= start < |lines| && t.header(lines[start]).Some?
    requires forall k :: i <= k < start ==> t.header(lines[k]).None?
    ensures FindVersion(t, lines, t.header(lines[start]).value.version, i) == Some(start)
    decreases start - i
  {
    if i < start { FirstVersion(t, lines, i + 1, start); }
  }

  lemma RStripFeed(s: string)
    ensures RStrip(s + "\n") == RStrip(s)
  {
    assert (s + "\n")[..|s|] == s;
  }

  lemma JoinBlank(lines: seq<string>)
    requires lines != []
    ensures RStrip(Join(lines + [""])) == RStrip(Join(lines))
  {
    JoinIsFeed(lines + [""]);
    assert (lines + [""])[..|lines|] == lines;
    JoinIsFeed(lines);
    var n := |lines| - 1;
    FeedLast(lines);
    RStripFeed(Join(lines));
    assert Feed(lines) + "" == Join(lines) + "\n";
  }

  lemma {:induction false} FeedLast(lines: seq<string>)
    requires lines != []
    ensures Feed(lines) == Feed(lines[..|lines| - 1]) + lines[|lines| - 1] + "\n"
    decreases |lines|
  {
    if |lines| == 1 {
      assert lines[..0] == [] && Feed(lines[1..]) == "";
    } else {
      FeedLast(lines[1..]);
      assert lines[..|lines| - 1][1..] == lines[1..][..|lines| - 2];
    }
  }

  /** The newest version's published section is its header line and its body. */
  lemma NewestSection(t: Tools, text: string)
    requires HasSection(t, SplitLines(text))
    ensures var p := PartsOf(t, SplitLines(text)); var top := p.front[|p.front| - 1];
      SectionFor(t, text, p.header.version) == Some(RStrip(Join([top] + p.body)))
  {
    hide Join, RStrip, SplitLines, EndsSection;
    var lines := SplitLines(text);
    var p := PartsOf(t, lines);
    var start := FindHeader(t, lines, 0).value;
    FirstVersion(t, lines, 0, start);
    assert lines[start..FindEnd(lines, start + 1)] == [lines[start]] + p.body;
  }

  lemma {:induction false} RStripBlank(s: string, b: string)
    requires Blank(b)
    ensures RStrip(s + b) == RStrip(s)
    decreases |b|
  {
    if b == "" {
      assert s + b == s;
    } else {
      assert b[|b| - 1] in b;
      assert (s + b)[..|s + b| - 1] == s + b[..|b| - 1];
      RStripBlank(s, b[..|b| - 1]);
    }
  }

  /** Blank lines at the end are not published. */
  lemma {:induction false} TrimPublished(top: string, body: seq<string>)
    ensures RStrip(Join([top] + body)) == RStrip(Join([top] + Trim(body)))
    decreases |body|
  {
    hide RStrip, Join, Blank;
    if body != [] && Blank(body[|body| - 1]) {
      var init, last := body[..|body| - 1], body[|body| - 1];
      TrimPublished(top, init);
      assert [top] + body == ([top] + init) + [last];
      JoinBoth([top] + init, [last]);
      JoinOne(last);
      RStripBlank(Join([top] + init) + "\n", last);
      RStripFeed(Join([top] + init));
    }
  }

  lemma JoinOne(line: string)
    ensures Join([line]) == line
  {
  }

  /** The newest section of a text whose body is this rendering, blank lines at its end aside. */
  lemma SectionOfParts(t: Tools, text: string, top: string, version: string, rendered: seq<string>)
    requires HasSection(t, SplitLines(text))
    requires var p := PartsOf(t, SplitLines(text));
      p.header.version == version && p.front[|p.front| - 1] == top && Trim(p.body) == rendered
    ensures SectionFor(t, text, version) == Some(RStrip(Join([top] + rendered)))
  {
    hide PartsOf, SplitLines, HasSection, Join, RStrip, SectionFor, Trim;
    NewestSection(t, text);
    TrimPublished(top, PartsOf(t, SplitLines(text)).body);
  }

  lemma TrimDropsEmpty(lines: seq<string>)
    ensures Trim(lines + [""]) == Trim(lines)
  {
    assert (lines + [""])[..|lines|] == lines;
  }

  /** After any successful run whose rendering holds no line break, the newest version is published as its
      header line and exactly the rendered lines. */
  lemma PublishedSection(t: Tools, entries: seq<ConfigEntry>, text: string)
    requires HasSection(t, SplitLines(text)) && Rebuild(t, entries, text).Ok?
    requires var h := PartsOf(t, SplitLines(text)).header;
      t.commits(h.prev, h.next).Some? && (Rebuild(t, entries, text).value.changed ==>
          AllUnbroken(Rendered(t, entries, h)))
    ensures var p := PartsOf(t, SplitLines(text)); var top := p.front[|p.front| - 1];
      SectionFor(t, Rebuild(t, entries, text).value.text, p.header.version) ==
      Some(RStrip(Join([top] + Rendered(t, entries, p.header))))
  {
    hide Rebuild, PartsOf, SplitLines, Rendered, HasSection, AllUnbroken, HeadingsKnown, Join, RStrip, SectionFor,
        Order, Trim, BodyLines, EndsWithFeed;
    var p := PartsOf(t, SplitLines(text));
    var rendered := Rendered(t, entries, p.header);
    var first := Rebuild(t, entries, text).value;
    RenderedTrims(t, entries, p.header);
    TrimDropsEmpty(rendered);
    if first.changed {
      RebuiltParts(t, entries, text);
    } else {
      OutsideKept(t, entries, text);
      UnchangedMeans(t, entries, text);
    }
    SectionOfParts(t, first.text, p.front[|p.front| - 1], p.header.version, rendered);
  }

  // ---- A rebuild that is not final ---------------------------------------------------------------

  /** One commit whose subject holds U+2028, in a changelog of one empty section: the second run reports a
      change again. */
  lemma SeparatorNeverSettles()
    ensures var t := Tools(line => if line == "H" then Some(Header("1", "a", "b", "u")) else None,
                           (prev, next) => Some([Commit("abc", "fix", "", "one\U{2028}two")]));
      var entries := [ConfigEntry("fix", "Fixes", false)];
      var first := Rebuild(t, entries, "H");
      first.Ok? && first.value.changed && Rebuild(t, entries, first.value.text) != Ok(Rebuilt(first.value.text, false))
  {
    var c := Commit("abc", "fix", "", "one\U{2028}two");
    var t := Tools(line => if line == "H" then Some(Header("1", "a", "b", "u")) else None, (prev, next) => Some([c]));
    var entries := [ConfigEntry("fix", "Fixes", false)];
    hide Bullet;
    assert Unbroken("H");
    UnbrokenIsOnePiece("H");
    assert SplitLines("H") == ["H"];
    assert HasSection(t, ["H"]) && PartsOf(t, ["H"]) == Parts(["H"], [], [], Header("1", "a", "b", "u"));
    var h := Header("1", "a", "b", "u");
    OneBlock(c, entries);
    var rendered := Rendered(t, entries, h);
    assert rendered == Block("Fixes", [c], "u");
    assert rendered[4] == Bullet(c, "u");
    BrokenBullet(c, "u");
    RenderedTrims(t, entries, h);
    assert Trim([]) == [];
    RebuildByParts(t, entries, "H");
    hide Rebuild, Rendered;
    IdempotentIff(t, entries, "H");
  }

  lemma OneBlock(c: Commit, entries: seq<ConfigEntry>)
    requires c.kind == "fix" && entries == [ConfigEntry("fix", "Fixes", false)]
    ensures Render([c], Visible(entries), Order(entries), "u") == Block("Fixes", [c], "u")
  {
    hide Bullet, Block;
    assert entries[..0] == [];
    assert Visible(entries) == map["fix" := "Fixes"] && Order(entries) == ["Fixes"];
    assert [c][..0] == [] && ["Fixes"][..0] == [];
    assert InSection([c], Visible(entries), "Fixes") == [c];
  }

  lemma BrokenBullet(c: Commit, base: string)
    requires '\U{2028}' in c.desc
    ensures !Unbroken(Bullet(c, base))
  {
    assert '\U{2028}' in Bullet(c, base);
  }
}
