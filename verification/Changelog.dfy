/** The loops of the rebuild. */
module Changelog {
  import opened Wrappers
  import opened TextLines
  import opened ChangelogModel

  method SectionsFromConfig(entries: seq<ConfigEntry>) returns (visible: map<string, string>, order: seq<string>)
    ensures visible == Visible(entries) && order == Order(entries)
  {
    visible := map[];
    order := [];
    for i := 0 to |entries|
      invariant visible == Visible(entries[..i]) && order == Order(entries[..i])
    {
      assert entries[..i + 1][..i] == entries[..i];
      var e := entries[i];
      if !e.hidden {
        visible := visible[e.kind := e.section];
        if e.section !in order { order := order + [e.section]; }
      }
    }
    assert entries[..|entries|] == entries;
  }

  /** The grouped commits are the sections of what was read, none of them empty. */
  predicate Groups(grouped: map<string, seq<Commit>>, commits: seq<Commit>, visible: map<string, string>,
                   name: string) {
    && (name in grouped ==> grouped[name] != [])
    && (if name in grouped then grouped[name] else []) == InSection(commits, visible, name)
  }

  lemma GroupsMore(grouped: map<string, seq<Commit>>, commits: seq<Commit>, visible: map<string, string>, c: Commit,
                   name: string)
    requires Groups(grouped, commits, visible, name)
    ensures
      var more :=
        if c.kind !in visible then grouped
        else grouped[visible[c.kind] := (if visible[c.kind] in grouped then grouped[visible[c.kind]] else []) + [c]];
      Groups(more, commits + [c], visible, name)
  {
    assert (commits + [c])[..|commits|] == commits;
  }

  /** The commits of each section, in range order. */
  method GroupCommits(commits: seq<Commit>, visible: map<string, string>) returns (grouped: map<string, seq<Commit>>)
    ensures forall name :: Groups(grouped, commits, visible, name)
  {
    grouped := map[];
    for i := 0 to |commits|
      invariant forall name :: Groups(grouped, commits[..i], visible, name)
    {
      assert commits[..i + 1] == commits[..i] + [commits[i]];
      var c := commits[i];
      ghost var before := grouped;
      if c.kind in visible {
        var section := visible[c.kind];
        grouped := grouped[section := (if section in grouped then grouped[section] else []) + [c]];
      }
      ghost var seen := commits[..i + 1];
      hide Groups;
      forall name ensures Groups(grouped, seen, visible, name) {
        GroupsMore(before, commits[..i], visible, c, name);
      }
    }
    assert commits[..|commits|] == commits;
  }

  method BlockLines(section: string, group: seq<Commit>, base: string) returns (block: seq<string>)
    requires group != []
    ensures block == Block(section, group, base)
  {
    hide Bullet;
    block := ["", "", HASHES + section, ""];
    for j := 0 to |group|
      invariant block == ["", "", HASHES + section, ""] + Bullets(group, base)[..j]
    {
      block := block + [Bullet(group[j], base)];
    }
    assert Bullets(group, base)[..|group|] == Bullets(group, base);
  }

  /** Group the commits by section, then write the groups in configured order. */
  method RenderLines(commits: seq<Commit>, visible: map<string, string>, order: seq<string>,
                     base: string) returns (lines: seq<string>)
    ensures lines == Render(commits, visible, order, base)
  {
    hide InSection, Block;
    var grouped := GroupCommits(commits, visible);
    lines := [];
    for k := 0 to |order|
      invariant lines == Render(commits, visible, order[..k], base)
    {
      assert order[..k + 1][..k] == order[..k];
      assert Groups(grouped, commits, visible, order[k]);
      if order[k] in grouped {
        var block := BlockLines(order[k], grouped[order[k]], base);
        lines := lines + block;
      } else {
        EmptyBlock(order[k], base);
      }
    }
    assert order[..|order|] == order;
  }

  /** Trailing blank lines popped one by one. */
  method Trimmed(lines: seq<string>) returns (out: seq<string>)
    ensures out == Trim(lines)
  {
    out := lines;
    while out != [] && Blank(out[|out| - 1])
      invariant Trim(out) == Trim(lines)
      decreases |out|
    {
      out := out[..|out| - 1];
    }
  }
}
