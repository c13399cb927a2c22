/** The rebuilt section in plain terms: its text, which commits it lists and where, and when there is none. */
module ChangelogLaws {
  import opened Wrappers
  import opened TextLines
  import opened ChangelogModel

  // ---- The text --------------------------------------------------------------------------------

  /** A bullet names the scope in bold when there is one, then the description, and links the first seven characters
      of the hash to the commit. */
  lemma BulletText(head: string, tail: string, kind: string, scope: string, desc: string, base: string)
    requires |head| == 7 && scope != ""
    ensures Bullet(Commit(head + tail, kind, scope, desc), base) ==
            "* " + ("**" + scope + ":** " + desc + " ([" + head + "](" + base + "/commit/" + (head + tail) + "))")
    ensures Bullet(Commit(head + tail, kind, "", desc), base) ==
            "* " + (desc + " ([" + head + "](" + base + "/commit/" + (head + tail) + "))")
  {
    assert Short(head + tail) == head;
    assert "" + desc == desc;
  }

  /** A section's block: two empty lines, the heading, an empty line, and a bullet for each commit. */
  lemma BlockText(section: string, group: seq<Commit>, base: string)
    requires group != []
    ensures var block := Block(section, group, base);
      && |block| == 4 + |group| && block[..4] == ["", "", "### " + section, ""]
      && forall i :: 0 <= i < |group| ==> block[4 + i] == Bullet(group[i], base)
  {
    hide Bullet;
  }

  /** A bullet line starts with a star and a blank. */
  lemma BulletLine(line: string)
    ensures IsBullet(line) <==> |line| > 1 && line[0] == '*' && line[1] == ' '
  {
    if |line| > 1 { assert line[..2] == [line[0], line[1]]; }
  }

  /** A heading line names what follows its mark, trailing whitespace aside. */
  lemma HeadingText(name: string, pad: string)
    requires name != "" && !IsSpace(name[|name| - 1]) && Blank(pad)
    ensures Heading("### " + name + pad) == Some(name)
  {
    var line := "### " + name + pad;
    assert line[|HASHES|..] == name + pad;
    assert (name + pad)[|name| - 1] in name + pad;
    StripEnd(name, pad);
  }

  lemma {:induction false} StripEnd(name: string, pad: string)
    requires name != "" && !IsSpace(name[|name| - 1]) && Blank(pad)
    ensures RStrip(name + pad) == name
    decreases |pad|
  {
    if pad != "" {
      var all := name + pad;
      assert all[|all| - 1] == pad[|pad| - 1] && pad[|pad| - 1] in pad;
      assert all[..|all| - 1] == name + pad[..|pad| - 1];
      StripEnd(name, pad[..|pad| - 1]);
    } else {
      assert name + pad == name;
    }
  }

  // ---- The configuration -----------------------------------------------------------------------

  /** The entry is the last visible one of its kind. */
  predicate LastVisible(entries: seq<ConfigEntry>, i: nat, kind: string) {
    && i < |entries| && entries[i].kind == kind && !entries[i].hidden
    && forall j :: i < j < |entries| && entries[j].kind == kind ==> entries[j].hidden
  }

  lemma {:induction false} VisibleFrom(entries: seq<ConfigEntry>, kind: string) returns (i: nat)
    requires kind in Visible(entries)
    ensures LastVisible(entries, i, kind) && Visible(entries)[kind] == entries[i].section
    decreases |entries|
  {
    var n := |entries| - 1;
    if !entries[n].hidden && entries[n].kind == kind {
      i := n;
    } else {
      i := VisibleFrom(entries[..n], kind);
      forall j | i < j < |entries| && entries[j].kind == kind ensures entries[j].hidden {
        if j < n { assert entries[..n][j] == entries[j]; }
      }
    }
  }

  lemma {:induction false} VisibleAt(entries: seq<ConfigEntry>, i: nat, kind: string)
    requires LastVisible(entries, i, kind)
    ensures kind in Visible(entries) && Visible(entries)[kind] == entries[i].section
    decreases |entries|
  {
    var n := |entries| - 1;
    if i < n {
      assert LastVisible(entries[..n], i, kind);
      VisibleAt(entries[..n], i, kind);
    }
  }

  /** A type is shown in the section of its last visible entry, and not at all when it has none. */
  lemma VisibleIff(entries: seq<ConfigEntry>, kind: string, section: string)
    ensures kind in Visible(entries) && Visible(entries)[kind] == section <==>
            exists i: nat :: LastVisible(entries, i, kind) && entries[i].section == section
  {
    if kind in Visible(entries) { var i := VisibleFrom(entries, kind); }
    if i: nat :| LastVisible(entries, i, kind) && entries[i].section == section { VisibleAt(entries, i, kind); }
  }

  predicate Ascends(at: seq<nat>) { forall i, j :: 0 <= i < j < |at| ==> at[i] < at[j] }

  /** The entry is the first visible one of its section. */
  predicate FirstVisible(entries: seq<ConfigEntry>, i: nat, section: string) {
    && i < |entries| && entries[i].section == section && !entries[i].hidden
    && forall j :: 0 <= j < i && entries[j].section == section ==> entries[j].hidden
  }

  lemma StaysFirst(entries: seq<ConfigEntry>, n: nat, i: nat, section: string)
    requires n <= |entries| && FirstVisible(entries[..n], i, section)
    ensures FirstVisible(entries, i, section)
  {
    forall j | 0 <= j < i && entries[j].section == section ensures entries[j].hidden {
      assert entries[..n][j] == entries[j];
    }
  }

  lemma NewIsFirst(entries: seq<ConfigEntry>, n: nat, order: seq<string>)
    requires n < |entries| && !entries[n].hidden && entries[n].section !in order
    requires forall i :: 0 <= i < n && !entries[..n][i].hidden ==> entries[..n][i].section in order
    ensures FirstVisible(entries, n, entries[n].section)
  {
    forall j | 0 <= j < n && entries[j].section == entries[n].section ensures entries[j].hidden {
      assert entries[..n][j] == entries[j];
    }
  }

  /** The sections stand in the order of their first visible entries. */
  lemma {:induction false} OrderFrom(entries: seq<ConfigEntry>) returns (at: seq<nat>)
    ensures |at| == |Order(entries)| && Ascends(at)
    ensures forall k :: 0 <= k < |at| ==> FirstVisible(entries, at[k], Order(entries)[k])
    ensures forall i :: 0 <= i < |entries| && !entries[i].hidden ==> entries[i].section in Order(entries)
    decreases |entries|
  {
    hide FirstVisible;
    if entries == [] {
      at := [];
    } else {
      var n := |entries| - 1;
      var rest := Order(entries[..n]);
      at := OrderFrom(entries[..n]);
      FirstIsInside(entries[..n], at, rest);
      forall k | 0 <= k < |at| ensures FirstVisible(entries, at[k], rest[k]) {
        StaysFirst(entries, n, at[k], rest[k]);
      }
      if !entries[n].hidden && entries[n].section !in rest {
        NewIsFirst(entries, n, rest);
        at := at + [n];
      }
      forall i | 0 <= i < |entries| && !entries[i].hidden ensures entries[i].section in Order(entries) {
        if i < n { assert entries[..n][i] == entries[i]; }
      }
    }
  }

  lemma FirstIsInside(entries: seq<ConfigEntry>, at: seq<nat>, order: seq<string>)
    requires |at| == |order| && forall k :: 0 <= k < |at| ==> FirstVisible(entries, at[k], order[k])
    ensures forall k :: 0 <= k < |at| ==> at[k] < |entries|
  {
  }

  // ---- Which commits, and where ----------------------------------------------------------------

  /** The list is the commits at these positions. */
  predicate Picks(commits: seq<Commit>, at: seq<nat>, list: seq<Commit>) {
    |at| == |list| && forall i :: 0 <= i < |at| ==> at[i] < |commits| && list[i] == commits[at[i]]
  }

  lemma PicksJoin(commits: seq<Commit>, a: seq<nat>, x: seq<Commit>, b: seq<nat>, y: seq<Commit>)
    requires Picks(commits, a, x) && Picks(commits, b, y)
    ensures Picks(commits, a + b, x + y)
  {
  }

  /** A section holds the commits whose type it shows, in their own order. */
  lemma {:induction false} SectionHolds(commits: seq<Commit>, visible: map<string, string>,
                                        section: string) returns (at: seq<nat>)
    ensures Picks(commits, at, InSection(commits, visible, section)) && Ascends(at)
    ensures forall k :: 0 <= k < |commits| ==>
              (k in at <==> commits[k].kind in visible && visible[commits[k].kind] == section)
    decreases |commits|
  {
    if commits == [] {
      at := [];
    } else {
      var n := |commits| - 1;
      at := SectionHolds(commits[..n], visible, section);
      forall k | 0 <= k < n
        ensures k in at <==> commits[k].kind in visible && visible[commits[k].kind] == section
      {
        assert commits[..n][k] == commits[k];
      }
      assert n !in at;
      if commits[n].kind in visible && visible[commits[n].kind] == section { at := at + [n]; }
    }
  }

  /** A commit's place in a rendering: its section first, then its own position. */
  predicate Before(commits: seq<Commit>, visible: map<string, string>, order: seq<string>, a: nat, b: nat) {
    && a < |commits| && b < |commits| && commits[a].kind in visible && commits[b].kind in visible
    && (|| (visible[commits[a].kind] == visible[commits[b].kind] && a < b)
        || exists i, j :: 0 <= i < j < |order| && order[i] == visible[commits[a].kind]
                                                && order[j] == visible[commits[b].kind])
  }

  predicate ShownIn(visible: map<string, string>, c: Commit, order: seq<string>) {
    c.kind in visible && visible[c.kind] in order
  }

  /** The rendering lists exactly the commits of a section in the order, sorted by section and then by position. */
  lemma {:induction false} ListedInOrder(commits: seq<Commit>, visible: map<string, string>,
                                         order: seq<string>) returns (at: seq<nat>)
    ensures Picks(commits, at, Listed(commits, visible, order))
    ensures forall k :: 0 <= k < |commits| ==> (k in at <==> ShownIn(visible, commits[k], order))
    ensures forall i, j :: 0 <= i < j < |at| ==> Before(commits, visible, order, at[i], at[j])
    decreases |order|
  {
    hide Before, ShownIn, InSection, Ascends;
    if order == [] {
      at := [];
      NoneShown(commits, visible);
    } else {
      var n := |order| - 1;
      var front := ListedInOrder(commits, visible, order[..n]);
      var last := SectionHolds(commits, visible, order[n]);
      at := front + last;
      PicksJoin(commits, front, Listed(commits, visible, order[..n]), last, InSection(commits, visible, order[n]));
      ShownEither(commits, visible, order, front, last);
      PairsInOrder(commits, visible, order, front, last);
    }
  }

  lemma PairsInOrder(commits: seq<Commit>, visible: map<string, string>, order: seq<string>, front: seq<nat>,
                     last: seq<nat>)
    requires order != [] && Ascends(last)
    requires forall i :: 0 <= i < |front| ==> front[i] < |commits|
    requires forall i :: 0 <= i < |last| ==> last[i] < |commits|
    requires forall k :: 0 <= k < |commits| ==> (k in front <==> ShownIn(visible, commits[k], order[..|order| - 1]))
    requires forall k :: 0 <= k < |commits| ==>
               (k in last <==> commits[k].kind in visible && visible[commits[k].kind] == order[|order| - 1])
    requires forall i, j :: 0 <= i < j < |front| ==>
               Before(commits, visible, order[..|order| - 1], front[i], front[j])
    ensures forall i, j :: 0 <= i < j < |front| + |last| ==>
              Before(commits, visible, order, (front + last)[i], (front + last)[j])
  {
    hide Before, ShownIn, Ascends;
    var n := |order| - 1;
    ShownFront(commits, visible, order[..n], front);
    LastShown(commits, visible, order[n], last);
    forall i, j | 0 <= i < j < |front| + |last|
      ensures Before(commits, visible, order, (front + last)[i], (front + last)[j])
    {
      PairInOrder(commits, visible, order, front, last, i, j);
    }
  }

  lemma NoneShown(commits: seq<Commit>, visible: map<string, string>)
    ensures forall k :: 0 <= k < |commits| ==> !ShownIn(visible, commits[k], [])
  {
  }

  lemma ShownEither(commits: seq<Commit>, visible: map<string, string>, order: seq<string>, front: seq<nat>,
                    last: seq<nat>)
    requires order != []
    requires forall k :: 0 <= k < |commits| ==> (k in front <==> ShownIn(visible, commits[k], order[..|order| - 1]))
    requires forall k :: 0 <= k < |commits| ==>
               (k in last <==> commits[k].kind in visible && visible[commits[k].kind] == order[|order| - 1])
    ensures forall k :: 0 <= k < |commits| ==> (k in front + last <==> ShownIn(visible, commits[k], order))
  {
    var n := |order| - 1;
    assert order == order[..n] + [order[n]];
  }

  lemma LastShown(commits: seq<Commit>, visible: map<string, string>, section: string, at: seq<nat>)
    requires forall i :: 0 <= i < |at| ==> at[i] < |commits|
    requires forall k :: 0 <= k < |commits| ==>
               (k in at <==> commits[k].kind in visible && visible[commits[k].kind] == section)
    ensures forall i :: 0 <= i < |at| ==>
              commits[at[i]].kind in visible && visible[commits[at[i]].kind] == section
  {
    forall i | 0 <= i < |at| ensures commits[at[i]].kind in visible && visible[commits[at[i]].kind] == section {
      assert at[i] in at;
    }
  }

  lemma ShownFront(commits: seq<Commit>, visible: map<string, string>, order: seq<string>, at: seq<nat>)
    requires forall i :: 0 <= i < |at| ==> at[i] < |commits|
    requires forall k :: 0 <= k < |commits| ==> (k in at <==> ShownIn(visible, commits[k], order))
    ensures forall i :: 0 <= i < |at| ==>
              commits[at[i]].kind in visible && visible[commits[at[i]].kind] in order
  {
    forall i | 0 <= i < |at| ensures ShownIn(visible, commits[at[i]], order) {
      assert at[i] in at;
    }
  }

  lemma PairInOrder(commits: seq<Commit>, visible: map<string, string>, order: seq<string>, front: seq<nat>,
                    last: seq<nat>, i: nat, j: nat)
    requires order != [] && i < j < |front| + |last|
    requires forall k :: 0 <= k < |front| ==> front[k] < |commits| && commits[front[k]].kind in visible
                                              && visible[commits[front[k]].kind] in order[..|order| - 1]
    requires forall k, l :: 0 <= k < l < |front| ==>
               Before(commits, visible, order[..|order| - 1], front[k], front[l])
    requires Ascends(last)
    requires forall k :: 0 <= k < |last| ==> last[k] < |commits| && commits[last[k]].kind in visible
                                             && visible[commits[last[k]].kind] == order[|order| - 1]
    ensures Before(commits, visible, order, (front + last)[i], (front + last)[j])
  {
    var n := |order| - 1;
    if j < |front| {
      assert Before(commits, visible, order[..n], front[i], front[j]);
      if visible[commits[front[i]].kind] != visible[commits[front[j]].kind] || front[i] >= front[j] {
        var a, b :| 0 <= a < b < n && order[..n][a] == visible[commits[front[i]].kind]
                    && order[..n][b] == visible[commits[front[j]].kind];
        assert order[a] == order[..n][a] && order[b] == order[..n][b];
      }
    } else if i < |front| {
      var a :| 0 <= a < n && order[..n][a] == visible[commits[front[i]].kind];
      assert order[a] == order[..n][a];
    }
  }

  // ---- When there is no rebuild ----------------------------------------------------------------

  /** The newest section runs from the first header to the next line that starts with two hashes and a blank. */
  predicate IsNewest(t: Tools, lines: seq<string>, start: nat, end: nat) {
    && start < end <= |lines|
    && t.header(lines[start]).Some? && (forall i :: 0 <= i < start ==> t.header(lines[i]).None?)
    && (forall i :: start < i < end ==> !("## " <= lines[i])) && (end < |lines| ==> "## " <= lines[end])
  }

  lemma PartsAreNewest(t: Tools, lines: seq<string>)
    requires HasSection(t, lines)
    ensures var p := PartsOf(t, lines); IsNewest(t, lines, |p.front| - 1, |p.front| + |p.body|)
    ensures PartsOf(t, lines).header == t.header(lines[|PartsOf(t, lines).front| - 1]).value
  {
    var start := FindHeader(t, lines, 0).value;
    var end := FindEnd(lines, start + 1);
    forall i | start < i < end ensures !("## " <= lines[i]) {
      assert !EndsSection(lines[i]);
    }
  }

  /** The rebuild bails exactly when there is no header, when the newest section has a heading that is no configured
      section, or when the range cannot be read; else it changes the text exactly when the section without its
      trailing blank lines differs from the rendering. */
  lemma RebuildOutcome(t: Tools, entries: seq<ConfigEntry>, text: string)
    ensures var lines := SplitLines(text); var r := Rebuild(t, entries, text);
      && (r == Err(NoSection) <==> forall i :: 0 <= i < |lines| ==> t.header(lines[i]).None?)
      && (HasSection(t, lines) ==>
            var p := PartsOf(t, lines);
            && IsNewest(t, lines, |p.front| - 1, |p.front| + |p.body|)
            && (r == Err(UnknownHeading) <==>
                  exists line :: line in p.body && Heading(line).Some? && Heading(line).value !in Order(entries))
            && (r == Err(BadRange) <==> r != Err(UnknownHeading) && t.commits(p.header.prev, p.header.next) == None)
            && (r.Ok? && !r.value.changed ==> r.value.text == text)
            && (r.Ok? ==>
                  && t.commits(p.header.prev, p.header.next).Some?
                  && (r.value.changed <==> Trim(p.body) != Trim(Rendered(t, entries, p.header) + [""]))
                  && (r.value.changed ==>
                        r.value.text == Join(p.front + (Rendered(t, entries, p.header) + [""]) + p.rest) +
                                        if text != "" && text[|text| - 1] == '\n' then "\n" else "")))
  {
    var lines := SplitLines(text);
    if HasSection(t, lines) {
      RebuildByParts(t, entries, text);
      PartsAreNewest(t, lines);
      Unknown(PartsOf(t, lines).body, Order(entries));
      assert t.header(lines[|PartsOf(t, lines).front| - 1]).Some?;
    }
    hide SplitLines, Trim, Heading, Visible, Order, Render;
  }

  lemma Unknown(lines: seq<string>, order: seq<string>)
    ensures !HeadingsKnown(lines, order) <==>
            exists line :: line in lines && Heading(line).Some? && Heading(line).value !in order
  {
    hide Heading;
    if line :| line in lines && Heading(line).Some? && Heading(line).value !in order {
      var i :| 0 <= i < |lines| && lines[i] == line;
    }
  }

  // ---- One version's section -------------------------------------------------------------------

  /** The first section of a version. */
  predicate IsVersion(t: Tools, lines: seq<string>, version: string, start: nat, end: nat) {
    && start < end <= |lines| && Names(t, lines[start], version)
    && (forall i :: 0 <= i < start ==> !Names(t, lines[i], version))
    && (forall i :: start < i < end ==> !("## " <= lines[i])) && (end < |lines| ==> "## " <= lines[end])
  }

  predicate Names(t: Tools, line: string, version: string) {
    t.header(line).Some? && t.header(line).value.version == version
  }

  lemma {:induction false} VersionAt(t: Tools, lines: seq<string>, version: string, i: nat)
    requires i <= |lines|
    ensures match FindVersion(t, lines, version, i)
      case Some(k) => i <= k < |lines| && Names(t, lines[k], version) &&
                      forall j :: i <= j < k ==> !Names(t, lines[j], version)
      case None => forall j :: i <= j < |lines| ==> !Names(t, lines[j], version)
    decreases |lines| - i
  {
    if i < |lines| { VersionAt(t, lines, version, i + 1); }
  }

  /** The section of a version is its lines from its header to the next heading of that level, without trailing
      whitespace; there is none exactly when no header names the version. */
  lemma SectionForIs(t: Tools, text: string, version: string)
    ensures var lines := SplitLines(text);
      match SectionFor(t, text, version)
      case None => forall i :: 0 <= i < |lines| ==> !Names(t, lines[i], version)
      case Some(section) =>
        exists start: nat, end: nat :: IsVersion(t, lines, version, start, end) &&
                                       section == RStrip(Join(lines[start..end]))
  {
    var lines := SplitLines(text);
    VersionAt(t, lines, version, 0);
    hide SplitLines, RStrip, Join;
    var found := FindVersion(t, lines, version, 0);
    if found.Some? {
      var end := FindEnd(lines, found.value + 1);
      forall i | found.value < i < end ensures !("## " <= lines[i]) {
        assert !EndsSection(lines[i]);
      }
      assert IsVersion(t, lines, version, found.value, end);
    }
  }
}
