/** Python's `str.count` for a non-empty pattern. */
module PyStr {

  /** `sub` occurs in `s` starting at position i. */
  predicate OccursAt(s: string, sub: string, i: int)
  {
    0 <= i && i + |sub| <= |s| && s[i..i + |sub|] == sub
  }

  /** `sub` occurs somewhere in `s` (Python's `sub in s`). */
  predicate Contains(s: string, sub: string)
  {
    exists i | 0 <= i <= |s| - |sub| :: OccursAt(s, sub, i)
  }

  /** `s.count(sub)`: the number of non-overlapping occurrences of `sub`,
      found scanning from the left and resuming after each match. The
      occurrences fit in `s`. */
  function Count(s: string, sub: string): (n: nat)
    requires sub != []
    ensures n * |sub| <= |s|
    decreases |s|
  {
    if |s| < |sub| then 0
    else if s[..|sub|] == sub then
      var rest := Count(s[|sub|..], sub);
      assert (1 + rest) * |sub| == |sub| + rest * |sub|;
      1 + rest
    else Count(s[1..], sub)
  }

  /** An occurrence in a suffix is an occurrence in the whole string, shifted. */
  lemma OccursInSuffix(s: string, sub: string, d: nat, i: int)
    requires d <= |s|
    ensures OccursAt(s[d..], sub, i) <==> i >= 0 && OccursAt(s, sub, i + d)
  {
    if 0 <= i && i + |sub| <= |s| - d {
      assert s[d..][i..i + |sub|] == s[i + d..i + d + |sub|];
    }
  }

  /** Occurrences are counted, not just detected, and they do not overlap:
      "Gold" occurs twice in "GoldGold", while "aa" is counted once in "aaa". */
  lemma CountExamples()
    ensures Count("GoldGold", "Gold") == 2
    ensures Count("aaa", "aa") == 1
  {
    assert "GoldGold"[..4] == "Gold" && "GoldGold"[4..] == "Gold";
    CountSelf("Gold");
    assert "aaa"[..2] == "aa" && "aaa"[2..] == "a";
  }

  /** The count is positive exactly when the pattern occurs. */
  lemma {:induction false} CountPositiveIffContains(s: string, sub: string)
    requires sub != []
    ensures Count(s, sub) > 0 <==> Contains(s, sub)
    decreases |s|
  {
    if |s| >= |sub| && s[..|sub|] == sub {
      assert OccursAt(s, sub, 0);
    } else if |s| >= |sub| {
      CountPositiveIffContains(s[1..], sub);
      if Contains(s[1..], sub) {
        var i :| OccursAt(s[1..], sub, i);
        OccursInSuffix(s, sub, 1, i);
      }
      if Contains(s, sub) {
        var i :| OccursAt(s, sub, i);
        assert OccursAt(s, sub, i) && i != 0;
        OccursInSuffix(s, sub, 1, i - 1);
        assert OccursAt(s[1..], sub, i - 1);
      }
    }
  }

  /** A string that contains no occurrence of the pattern counts 0. */
  lemma CountAbsent(s: string, sub: string)
    requires sub != [] && !Contains(s, sub)
    ensures Count(s, sub) == 0
  {
    CountPositiveIffContains(s, sub);
  }

  /** A pattern whose first character is missing from `s` does not occur in it. */
  lemma FirstCharMissing(s: string, sub: string)
    requires sub != [] && sub[0] !in s
    ensures !Contains(s, sub)
  {
    forall i | 0 <= i <= |s| - |sub| ensures !OccursAt(s, sub, i) {
      assert s[i] in s;
    }
  }

  /** A string counts itself once. */
  lemma CountSelf(s: string)
    requires s != []
    ensures Count(s, s) == 1
  {
    assert s[..|s|] == s;
    assert s[|s|..] == [];
  }
}
