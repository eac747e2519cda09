/** String operations on storage keys. `split(c).pop()` and
    `replace(pattern, '')` with a plain-string pattern (first occurrence only)
    are the ones the listing applies; the character searches below are
    helpers that define them, the key parse and the corrected display name. */
module Strings {
  import opened Wrappers

  /** Helper: the position of the first `c` in `s`, if any. */
  function IndexOf(s: string, c: char): (r: Option<nat>)
    ensures r.None? <==> c !in s
    ensures r.Some? ==> r.value < |s| && s[r.value] == c && c !in s[..r.value]
  {
    if s == [] then None
    else if s[0] == c then Some(0)
    else
      match IndexOf(s[1..], c)
      case None => None
      case Some(i) =>
        assert s[..i + 1] == [s[0]] + s[1..][..i];
        Some(i + 1)
  }

  /** Helper: the position of the last `c` in `s`, if any. */
  function LastIndexOf(s: string, c: char): (r: Option<nat>)
    ensures r.None? <==> c !in s
    ensures r.Some? ==> r.value < |s| && s[r.value] == c && c !in s[r.value + 1..]
  {
    if s == [] then None
    else if s[|s| - 1] == c then Some(|s| - 1)
    else
      var r := LastIndexOf(s[..|s| - 1], c);
      assert s == s[..|s| - 1] + [s[|s| - 1]];
      r
  }

  /** `s.split(sep).pop()`: the last piece of `s` cut at `sep`, which is the
      whole of `s` when `sep` does not occur in it. */
  function LastPiece(s: string, sep: char): (r: string)
    ensures sep !in r
    ensures |r| <= |s| && r == s[|s| - |r|..]
    ensures sep !in s ==> r == s
    ensures sep in s ==> |r| < |s| && s[|s| - |r| - 1] == sep
  {
    match LastIndexOf(s, sep)
    case None => s
    case Some(i) => s[i + 1..]
  }

  /** The text after the first `sep` in `s`, or all of `s` when there is none. */
  function AfterFirst(s: string, sep: char): (r: string)
    ensures |r| <= |s| && r == s[|s| - |r|..]
    ensures sep !in s ==> r == s
    ensures sep in s ==> |r| < |s| && s[|s| - |r| - 1] == sep && sep !in s[..|s| - |r| - 1]
  {
    match IndexOf(s, sep)
    case None => s
    case Some(i) => s[i + 1..]
  }

  /** Proof helper: concatenation regrouped, stated once so that proofs about
      keys can cite it instead of searching for it. */
  lemma Regroup(x: string, y: string, z: string)
    ensures x + (y + z) == (x + y) + z
  {
  }

  /** When the piece after the last `sep` is known, `LastPiece` returns exactly it. */
  lemma LastPieceOf(a: string, sep: char, b: string)
    requires sep !in b
    ensures LastPiece(a + [sep] + b, sep) == b
  {
    var s := a + [sep] + b;
    assert s[|a|] == sep;
    assert s[|a| + 1..] == b;
    var i := LastIndexOf(s, sep).value;
    assert forall k :: i < k < |s| ==> s[k] == s[i + 1..][k - i - 1];
    assert forall k :: |a| < k < |s| ==> s[k] == b[k - |a| - 1];
    assert i == |a|;
  }

  /** When the text before the first `sep` is known, `AfterFirst` returns exactly the rest. */
  lemma AfterFirstOf(a: string, sep: char, b: string)
    requires sep !in a
    ensures AfterFirst(a + [sep] + b, sep) == b
  {
    var s := a + [sep] + b;
    assert s[|a|] == sep;
    assert s[..|a|] == a && s[|a| + 1..] == b;
    var i := IndexOf(s, sep).value;
    assert forall k :: 0 <= k < |a| ==> s[k] == a[k];
    assert forall k :: 0 <= k < i ==> s[k] == s[..i][k];
    assert i == |a|;
  }

  /** `pat` occurs in `s` starting at position `i`. */
  predicate OccursAt(s: string, pat: string, i: nat)
  {
    i + |pat| <= |s| && s[i..i + |pat|] == pat
  }

  /** `i` is the occurrence of `pat` that `replace` removes: an occurrence with none before it. */
  predicate IsFirstOccurrence(s: string, pat: string, i: nat)
  {
    OccursAt(s, pat, i) && forall j :: 0 <= j < i ==> !OccursAt(s, pat, j)
  }

  /** The first occurrence of `pat` in `s` at or after `from`. */
  function IndexOfFrom(s: string, pat: string, from: nat): (r: Option<nat>)
    ensures r.Some? ==> from <= r.value && OccursAt(s, pat, r.value)
    ensures r.Some? ==> forall j :: from <= j < r.value ==> !OccursAt(s, pat, j)
    ensures r.None? ==> forall j :: from <= j ==> !OccursAt(s, pat, j)
    decreases |s| - from
  {
    if from + |pat| > |s| then None
    else if OccursAt(s, pat, from) then Some(from)
    else IndexOfFrom(s, pat, from + 1)
  }

  /** `s.replace(pat, '')` for a plain-string `pat`: the first occurrence is
      cut out, and nothing else changes. */
  function RemoveFirst(s: string, pat: string): (r: string)
    ensures (forall j: nat :: !OccursAt(s, pat, j)) ==> r == s
    ensures forall i: nat :: IsFirstOccurrence(s, pat, i) ==>
              |r| == |s| - |pat| && r[..i] + pat + r[i..] == s
    ensures forall c :: c in r ==> c in s
  {
    match IndexOfFrom(s, pat, 0)
    case None => s
    case Some(i) =>
      var r := s[..i] + s[i + |pat|..];
      assert r[..i] + pat + r[i..] == s by {
        assert r[..i] == s[..i] && r[i..] == s[i + |pat|..];
        assert s == s[..i] + s[i..i + |pat|] + s[i + |pat|..];
      }
      r
  }

  /** If `pat` cannot start anywhere in `a` (its first character is not in `a`),
      `replace` cuts the `pat` that follows `a`. */
  lemma RemoveFirstAfter(a: string, pat: string, b: string)
    requires pat != [] && pat[0] !in a
    ensures RemoveFirst(a + pat + b, pat) == a + b
  {
    var s := a + pat + b;
    assert OccursAt(s, pat, |a|) by { assert s[|a|..|a| + |pat|] == pat; }
    forall j | 0 <= j < |a| ensures !OccursAt(s, pat, j) {
      assert s[j] == a[j];
    }
    assert IsFirstOccurrence(s, pat, |a|);
    var r := RemoveFirst(s, pat);
    assert r[..|a|] + pat + r[|a|..] == a + pat + b;
    assert r[..|a|] == a by {
      assert (r[..|a|] + pat + r[|a|..])[..|a|] == r[..|a|];
      assert (a + pat + b)[..|a|] == a;
    }
    assert r[|a|..] == b by {
      assert (r[..|a|] + pat + r[|a|..])[|a| + |pat|..] == r[|a|..];
      assert (a + pat + b)[|a| + |pat|..] == b;
    }
    assert r == r[..|a|] + r[|a|..];
  }
}
