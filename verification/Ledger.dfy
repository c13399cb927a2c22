/** The ledger file and the three calls on it. */
module Ledger {
  import opened Wrappers
  import opened TextLines
  import opened LedgerModel

  class LedgerFile {
    const tools: Tools
    var file: Option<string>

    /** The walk that keeps the last non-blank line. */
    method Head() returns (tip: string)
      ensures tip == Tip(tools, LinesOf(file))
    {
      if file.None? { return GENESIS; }
      var pieces := Pieces(file.value);
      var last := "";
      for i := 0 to |pieces|
        invariant last == var inked := Inked(pieces[..i]); if inked == [] then "" else inked[|inked| - 1]
      {
        InkedSplit(pieces, i);
        if Strip(pieces[i]) != "" { last := Strip(pieces[i]); }
      }
      assert pieces[..|pieces|] == pieces;
      InkedIsInk(pieces);
      assert Inked(pieces) != [] ==> Inked(pieces)[|Inked(pieces)| - 1] in Inked(pieces);
      tip := if last != "" then tools.hash(last) else GENESIS;
    }

    lemma InkedSplit(pieces: seq<string>, i: nat)
      requires i < |pieces|
      ensures Inked(pieces[..i + 1]) == Inked(pieces[..i]) + if Strip(pieces[i]) == "" then [] else [Strip(pieces[i])]
    {
      assert pieces[..i + 1] == pieces[..i] + [pieces[i]];
      InkedJoin(pieces[..i], [pieces[i]]);
      InkedOne(pieces[i]);
    }

    lemma {:induction false} InkedIsInk(pieces: seq<string>)
      ensures forall line | line in Inked(pieces) :: line != ""
      decreases |pieces|
    {
      hide Strip;
      if pieces != [] { InkedIsInk(pieces[1..]); }
    }

    method Append(session: string, verifier: string, attestedAt: string, digest: string) returns (head: string)
      modifies this
      ensures var line := EntryLine(NewEntry(tools, old(file), session, verifier, attestedAt, digest));
        file == Some(TextOf(old(file)) + line + "\n") && head == tools.hash(line)
    {
      hide EntryLine;
      var prev := Head();
      var line := EntryLine(Entry(session, verifier, attestedAt, digest, prev));
      file := Some(TextOf(file) + line + "\n");
      head := tools.hash(line);
    }

    /** The walk over the chain. */
    method Verify(expected: string) returns (verdict: Verdict)
      ensures Passed(verdict) <==> Verified(tools, file, expected)
      ensures verdict.Intact? ==> file.Some? && verdict.count == |LinesOf(file)|
      ensures file.None? ==> verdict == if expected in {"", "genesis"} then NoLedger else Missing
      ensures file.Some? && Chained(tools, LinesOf(file)) && !Passed(verdict) ==> verdict == WrongHead
      ensures file.Some? && !Chained(tools, LinesOf(file)) ==> verdict in {NotJson, Raised, Broken}
    {
      if file.None? {
        return if expected != "" && expected != GENESIS then Missing else NoLedger;
      }
      hide Chained, Tip, Inked, Strip;
      var pieces := Pieces(file.value);
      ghost var all := Inked(pieces);
      assert pieces[..0] == [] && all[..0] == [];
      NothingChained(tools);
      var prev, count := GENESIS, 0;
      for i := 0 to |pieces|
        invariant count <= |all| && Inked(pieces[..i]) == all[..count]
        invariant prev == Tip(tools, all[..count])
        invariant Chained(tools, all[..count])
      {
        Remaining(pieces, i);
        WalkStep(pieces, i, all, count);
        var line := Strip(pieces[i]);
        if line != "" {
          ChainGrows(tools, all[..count], line);
          var parsed := tools.parse(line);
          if parsed != Prev(prev) {
            Unchained(count, all);
            return match parsed case NoJson => NotJson case NoObject => Raised case _ => Broken;
          }
          prev := tools.hash(line);
          count := count + 1;
        }
      }
      assert pieces[..|pieces|] == pieces;
      assert all[..count] == all;
      if expected != "" && expected != prev { return WrongHead; }
      verdict := Intact(count);
    }

    lemma NothingChained(t: Tools)
      ensures Inked([]) == [] && Tip(t, []) == GENESIS && Chained(t, [])
    {
    }

    /** One more piece: a blank one adds no line, another is the next line. */
    lemma WalkStep(pieces: seq<string>, i: nat, all: seq<string>, count: nat)
      requires i < |pieces| && count <= |all| && Inked(pieces[..i]) == all[..count]
      requires all == Inked(pieces[..i]) +
                      ((if Strip(pieces[i]) == "" then [] else [Strip(pieces[i])]) + Inked(pieces[i + 1..]))
      ensures Strip(pieces[i]) == "" ==> Inked(pieces[..i + 1]) == all[..count]
      ensures Strip(pieces[i]) != "" ==>
                && count < |all| && all[..count + 1] == all[..count] + [Strip(pieces[i])]
                && Inked(pieces[..i + 1]) == all[..count + 1]
    {
      hide Inked, Strip;
      InkedSplit(pieces, i);
      if Strip(pieces[i]) != "" {
        assert all[count] == Strip(pieces[i]);
      }
    }

    lemma Remaining(pieces: seq<string>, i: nat)
      requires i < |pieces|
      ensures Inked(pieces) == Inked(pieces[..i]) +
              ((if Strip(pieces[i]) == "" then [] else [Strip(pieces[i])]) + Inked(pieces[i + 1..]))
    {
      assert pieces == pieces[..i + 1] + pieces[i + 1..];
      InkedJoin(pieces[..i + 1], pieces[i + 1..]);
      InkedSplit(pieces, i);
    }

    lemma Unchained(count: nat, all: seq<string>)
      requires count < |all| && !Chained(tools, all[..count + 1])
      ensures !Chained(tools, all)
    {
      if Chained(tools, all) { ChainedPrefix(tools, all, count + 1); }
    }
  }
}
