/** Sequences of atomic steps, and what a prefix of one leaves: the crash points. */
module Steps {
  function All<S, C>(step: (S, C) -> S, s: S, changes: seq<C>): S
    decreases |changes|
  {
    if changes == [] then s else All(step, step(s, changes[0]), changes[1..])
  }

  lemma Nothing<S, C>(step: (S, C) -> S, s: S)
    ensures All(step, s, []) == s
  {
  }

  lemma Next<S, C>(step: (S, C) -> S, s: S, a: C, rest: seq<C>)
    ensures All(step, s, [a] + rest) == All(step, step(s, a), rest)
  {
    assert ([a] + rest)[1..] == rest;
  }

  lemma Two<S, C>(step: (S, C) -> S, s: S, a: C, b: C, rest: seq<C>)
    ensures All(step, s, [a] + ([b] + rest)) == All(step, step(step(s, a), b), rest)
  {
    Next(step, s, a, [b] + rest);
    Next(step, step(s, a), b, rest);
  }

  /** Every prefix of four steps. */
  lemma PrefixOfFour<S, C>(step: (S, C) -> S, s: S, a: C, b: C, c: C, e: C, k: nat)
    requires k <= 4
    ensures All(step, s, [a, b, c, e][..k]) ==
            if k == 0 then s
            else if k == 1 then step(s, a)
            else if k == 2 then step(step(s, a), b)
            else if k == 3 then step(step(step(s, a), b), c)
            else step(step(step(step(s, a), b), c), e)
  {
    hide All;
    var s2 := step(step(s, a), b);
    if k == 0 {
      Nothing(step, s);
    } else if k == 1 {
      Next(step, s, a, []);
      Nothing(step, step(s, a));
      assert [a, b, c, e][..1] == [a] + [];
    } else if k == 2 {
      Two(step, s, a, b, []);
      Nothing(step, s2);
      assert [a, b, c, e][..2] == [a] + ([b] + []);
    } else if k == 3 {
      Two(step, s, a, b, [c] + []);
      Next(step, s2, c, []);
      Nothing(step, step(s2, c));
      assert [a, b, c, e][..3] == [a] + ([b] + ([c] + []));
    } else {
      Two(step, s, a, b, [c] + ([e] + []));
      Two(step, s2, c, e, []);
      Nothing(step, step(step(s2, c), e));
      assert [a, b, c, e][..4] == [a] + ([b] + ([c] + ([e] + [])));
    }
  }
}
