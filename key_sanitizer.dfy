/** The key sanitiser of index.js: every character outside the allow-list
    `a-z A-Z 0-9 ! - _ . * ' ( )` is deleted, and the others are kept in order. */
module KeySanitizer {

  /** The characters the sanitiser keeps. */
  predicate Allowed(c: char)
  {
    || 'a' <= c <= 'z'
    || 'A' <= c <= 'Z'
    || '0' <= c <= '9'
    || c in "!-_.*'()"
  }

  predicate AllAllowed(s: string)
  {
    forall i :: 0 <= i < |s| ==> Allowed(s[i])
  }

  /** `key.replace(/[^a-zA-Z0-9!\-_.*'()]/g, '')` */
  function Sanitize(s: string): (r: string)
    ensures AllAllowed(r)
    ensures |r| <= |s|
  {
    if s == [] then [] else (if Allowed(s[0]) then [s[0]] else []) + Sanitize(s[1..])
  }

  /** `sub` is obtained from `s` by deleting characters (order kept). */
  predicate IsSubsequence(sub: string, s: string)
  {
    sub == [] || (s != [] && ((sub[0] == s[0] && IsSubsequence(sub[1..], s[1..])) || IsSubsequence(sub, s[1..])))
  }

  /** The sanitiser only deletes: its output is a subsequence of its input. */
  lemma {:induction false} SanitizeIsSubsequence(s: string)
    ensures IsSubsequence(Sanitize(s), s)
  {
    if s != [] {
      SanitizeIsSubsequence(s[1..]);
      var r := Sanitize(s);
      if Allowed(s[0]) {
        assert r[0] == s[0] && r[1..] == Sanitize(s[1..]);
      } else {
        assert r == Sanitize(s[1..]);
      }
    }
  }

  /** It deletes exactly the disallowed characters: each allowed character
      occurs as often in the output as in the input, each other one not at all. */
  lemma {:induction false} SanitizeCounts(s: string, c: char)
    ensures multiset(Sanitize(s))[c] == if Allowed(c) then multiset(s)[c] else 0
  {
    if s != [] {
      SanitizeCounts(s[1..], c);
      assert s == [s[0]] + s[1..];
    }
  }

  /** A string is left unchanged exactly when all its characters are allowed. */
  lemma {:induction false} SanitizeFixedPoint(s: string)
    ensures Sanitize(s) == s <==> AllAllowed(s)
  {
    if s != [] && AllAllowed(s) {
      SanitizeFixedPoint(s[1..]);
    }
  }

  /** Sanitising twice is sanitising once. */
  lemma {:induction false} SanitizeIdempotent(s: string)
    ensures Sanitize(Sanitize(s)) == Sanitize(s)
  {
    SanitizeFixedPoint(Sanitize(s));
  }

  /** The sanitiser works character by character, so it distributes over
      concatenation and maps the empty string to itself. */
  lemma {:induction false} SanitizeConcat(a: string, b: string)
    ensures Sanitize(a + b) == Sanitize(a) + Sanitize(b)
    ensures Sanitize([]) == []
  {
    if a != [] {
      assert (a + b)[1..] == a[1..] + b;
      SanitizeConcat(a[1..], b);
    } else {
      assert a + b == b;
    }
  }

  /** An allowed character stays in place between what is left of its neighbours. */
  lemma SanitizeKeepsOne(a: string, c: char, b: string)
    requires Allowed(c)
    ensures Sanitize(a + [c] + b) == Sanitize(a) + [c] + Sanitize(b)
  {
    assert Sanitize(a + [c] + b) == Sanitize(a + [c]) + Sanitize(b) by {
      SanitizeConcat(a + [c], b);
    }
    assert Sanitize(a + [c]) == Sanitize(a) + [c] by {
      SanitizeConcat(a, [c]);
      assert [c][1..] == [];
    }
  }

  /** Between two runs of allowed characters, a disallowed one is the only thing deleted. */
  lemma SanitizeDropsOne(a: string, c: char, b: string)
    requires AllAllowed(a) && !Allowed(c) && AllAllowed(b)
    ensures Sanitize(a + [c] + b) == a + b
  {
    assert Sanitize(a + [c] + b) == Sanitize(a + [c]) + Sanitize(b) by {
      SanitizeConcat(a + [c], b);
    }
    assert Sanitize(a + [c]) == Sanitize(a) by {
      SanitizeConcat(a, [c]);
      assert [c][1..] == [];
      assert Sanitize(a) + [] == Sanitize(a);
    }
    assert Sanitize(a) == a by {
      SanitizeFixedPoint(a);
    }
    assert Sanitize(b) == b by {
      SanitizeFixedPoint(b);
    }
  }
}
