/** Substring, prefix and suffix tests on strings, with the meaning Rust's
    `str::contains`, `str::starts_with` and `str::ends_with` give them. */
module Strings {

  /** `needle` occurs in `s` starting at index `i`. */
  ghost predicate OccursAt(s: string, needle: string, i: nat) {
    i + |needle| <= |s| && s[i..i + |needle|] == needle
  }

  predicate StartsWith(s: string, prefix: string) {
    |prefix| <= |s| && s[..|prefix|] == prefix
  }

  predicate EndsWith(s: string, suffix: string) {
    |suffix| <= |s| && s[|s| - |suffix|..] == suffix
  }

  /** Plain substring containment, as `str::contains` with a `&str` pattern:
      no character of `needle` is special. */
  predicate Contains(s: string, needle: string)
    decreases |s|
  {
    StartsWith(s, needle) || (|s| > 0 && Contains(s[1..], needle))
  }

  /** `Contains` holds exactly when some occurrence exists. */
  lemma {:induction false} ContainsIff(s: string, needle: string)
    ensures Contains(s, needle) <==> exists i: nat :: OccursAt(s, needle, i)
    decreases |s|
  {
    if StartsWith(s, needle) {
      assert OccursAt(s, needle, 0);
    } else if |s| == 0 {
      assert forall i: nat :: !OccursAt(s, needle, i);
    } else {
      ContainsIff(s[1..], needle);
      ShiftOccurrence(s, needle);
    }
  }

  /** An occurrence in `s` past index 0 is an occurrence in `s[1..]`, and back. */
  lemma ShiftOccurrence(s: string, needle: string)
    requires |s| > 0 && !StartsWith(s, needle)
    ensures (exists i: nat :: OccursAt(s, needle, i)) <==> (exists j: nat :: OccursAt(s[1..], needle, j))
  {
    forall i: nat | OccursAt(s, needle, i) ensures OccursAt(s[1..], needle, i - 1) {
      assert s[1..][i - 1..i - 1 + |needle|] == s[i..i + |needle|];
    }
    forall j: nat | OccursAt(s[1..], needle, j) ensures OccursAt(s, needle, j + 1) {
      assert s[1..][j..j + |needle|] == s[j + 1..j + 1 + |needle|];
    }
  }

  /** A string contained in a part of `s` is contained in `s`. */
  lemma {:induction false} ContainsTransitive(s: string, t: string, u: string)
    requires Contains(s, t) && Contains(t, u)
    ensures Contains(s, u)
  {
    ContainsIff(s, t);
    ContainsIff(t, u);
    ContainsIff(s, u);
    var i: nat :| OccursAt(s, t, i);
    var j: nat :| OccursAt(t, u, j);
    assert t == s[i..i + |t|];
    forall k | 0 <= k < |u| ensures s[i + j + k] == u[k] {
      assert u[k] == t[j..j + |u|][k] == t[j + k];
      assert t[j + k] == s[i..i + |t|][j + k] == s[i + j + k];
    }
    assert s[i + j..i + j + |u|] == u;
    assert OccursAt(s, u, i + j);
  }

  /** A suffix of `s` is contained in `s`. */
  lemma EndsWithContains(s: string, suffix: string)
    requires EndsWith(s, suffix)
    ensures Contains(s, suffix)
  {
  }

  /** `needle` cannot occur in `s` when one of its characters is absent from `s`. */
  lemma MissingCharNotContained(s: string, needle: string, c: char)
    requires c in needle && c !in s
    ensures !Contains(s, needle)
  {
  }
}
