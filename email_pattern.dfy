/** The email format test `/\S+@\S+\.\S+/.test(s)`. The pattern has no
    anchors, so it succeeds when some substring of `s` matches it.

    `EmailSearch` states that directly: an `@` and a later `.` with at least
    one non-whitespace character before the `@`, only non-whitespace (and at
    least one character) between them, and a non-whitespace character after
    the `.`. `MatchesEmailPattern` decides it in one left-to-right pass, by
    following the pattern's automaton, and its contract states that the two
    agree on every string. */
module EmailPattern {
  import opened JsText

  /** Position a holds an `@` preceded by a non-whitespace character. */
  ghost predicate AtMark(s: string, a: int) {
    1 <= a < |s| && s[a] == '@' && !IsJsWhitespace(s[a - 1])
  }

  /** Every character strictly between lo and hi is non-whitespace. */
  ghost predicate NonSpaceBetween(s: string, lo: int, hi: int)
    requires 0 <= lo && hi <= |s|
  {
    forall k | lo < k < hi :: !IsJsWhitespace(s[k])
  }

  /** `\S+@\S+\.\S+` matches a substring with its `@` at a and its `.` at b. */
  ghost predicate EmailMatchAt(s: string, a: int, b: int) {
    && AtMark(s, a)
    && a + 2 <= b && b + 1 < |s|
    && s[b] == '.'
    && NonSpaceBetween(s, a, b)
    && !IsJsWhitespace(s[b + 1])
  }

  /** The unanchored search succeeds. */
  ghost predicate EmailSearch(s: string) {
    exists a, b :: EmailMatchAt(s, a, b)
  }

  /** The states of the pattern's automaton that are live after a prefix:
      `text` — a `\S+` run has just been read (the `@` may come next);
      `at` — the `@` has just been read;
      `domain` — a non-empty `\S+` run after the `@` has just been read;
      `dot` — a `.` ending such a run has just been read;
      `found` — a whole match has been read somewhere. */
  datatype ScanState = ScanState(text: bool, at: bool, domain: bool, dot: bool, found: bool)

  const Start := ScanState(false, false, false, false, false)

  /** Advances every live state over one character. The start state is
      always live, because the search may begin anywhere. */
  function Step(st: ScanState, c: char): ScanState {
    var nonSpace := !IsJsWhitespace(c);
    ScanState(
      text := nonSpace,
      at := st.text && c == '@',
      domain := (st.at || st.domain) && nonSpace,
      dot := st.domain && c == '.',
      found := st.found || (st.dot && nonSpace))
  }

  /** The live states after reading all of s. */
  function Scan(s: string): ScanState
    decreases |s|
  {
    if s == [] then Start else Step(Scan(s[..|s| - 1]), s[|s| - 1])
  }

  /** What each automaton state means for the prefix read so far. */
  ghost function Meaning(p: string): ScanState {
    ScanState(
      text := |p| >= 1 && !IsJsWhitespace(p[|p| - 1]),
      at := AtMark(p, |p| - 1),
      domain := exists a :: AtMark(p, a) && a + 1 < |p| && NonSpaceBetween(p, a, |p|),
      dot := exists a :: AtMark(p, a) && a + 2 < |p| && p[|p| - 1] == '.' && NonSpaceBetween(p, a, |p| - 1),
      found := EmailSearch(p))
  }

  lemma AtMarkExtend(p: string, c: char, a: int)
    requires a < |p|
    ensures AtMark(p + [c], a) <==> AtMark(p, a)
  {
  }

  lemma StepDomain(p: string, c: char)
    ensures Step(Meaning(p), c).domain == Meaning(p + [c]).domain
  {
    var q := p + [c];
    var n := |p|;
    if Meaning(q).domain {
      var a :| AtMark(q, a) && a + 1 < |q| && NonSpaceBetween(q, a, |q|);
      assert !IsJsWhitespace(c) by { assert q[n] == c; }
      AtMarkExtend(p, c, a);
      if a == n - 1 {
        assert Meaning(p).at;
      } else {
        assert NonSpaceBetween(p, a, n) by {
          forall k | a < k < n ensures !IsJsWhitespace(p[k]) { assert q[k] == p[k]; }
        }
        assert Meaning(p).domain;
      }
    }
    if Step(Meaning(p), c).domain {
      var a: int;
      if Meaning(p).at {
        a := n - 1;
      } else {
        a :| AtMark(p, a) && a + 1 < n && NonSpaceBetween(p, a, n);
      }
      AtMarkExtend(p, c, a);
      assert NonSpaceBetween(q, a, |q|) by {
        forall k | a < k < |q| ensures !IsJsWhitespace(q[k]) {
          if k < n { assert q[k] == p[k]; }
        }
      }
      assert Meaning(q).domain;
    }
  }

  lemma StepDot(p: string, c: char)
    ensures Step(Meaning(p), c).dot == Meaning(p + [c]).dot
  {
    var q := p + [c];
    var n := |p|;
    if Meaning(q).dot {
      var a :| AtMark(q, a) && a + 2 < |q| && q[|q| - 1] == '.' && NonSpaceBetween(q, a, |q| - 1);
      AtMarkExtend(p, c, a);
      assert NonSpaceBetween(p, a, n) by {
        forall k | a < k < n ensures !IsJsWhitespace(p[k]) { assert q[k] == p[k]; }
      }
      assert Meaning(p).domain;
    }
    if Step(Meaning(p), c).dot {
      var a :| AtMark(p, a) && a + 1 < n && NonSpaceBetween(p, a, n);
      AtMarkExtend(p, c, a);
      assert NonSpaceBetween(q, a, |q| - 1) by {
        forall k | a < k < |q| - 1 ensures !IsJsWhitespace(q[k]) { assert q[k] == p[k]; }
      }
      assert q[|q| - 1] == '.';
      assert Meaning(q).dot;
    }
  }

  lemma StepFound(p: string, c: char)
    ensures Step(Meaning(p), c).found == Meaning(p + [c]).found
  {
    var q := p + [c];
    var n := |p|;
    if EmailSearch(q) {
      var a, b :| EmailMatchAt(q, a, b);
      AtMarkExtend(p, c, a);
      if b + 1 < n {
        assert NonSpaceBetween(p, a, b) by {
          forall k | a < k < b ensures !IsJsWhitespace(p[k]) { assert q[k] == p[k]; }
        }
        assert q[b] == p[b] && q[b + 1] == p[b + 1];
        assert EmailMatchAt(p, a, b);
      } else {
        assert NonSpaceBetween(p, a, n - 1) by {
          forall k | a < k < n - 1 ensures !IsJsWhitespace(p[k]) { assert q[k] == p[k]; }
        }
        assert q[b] == p[n - 1] && q[b + 1] == c;
        assert Meaning(p).dot;
      }
    }
    if Step(Meaning(p), c).found {
      if EmailSearch(p) {
        var a, b :| EmailMatchAt(p, a, b);
        AtMarkExtend(p, c, a);
        assert NonSpaceBetween(q, a, b) by {
          forall k | a < k < b ensures !IsJsWhitespace(q[k]) { assert q[k] == p[k]; }
        }
        assert q[b] == p[b] && q[b + 1] == p[b + 1];
        assert EmailMatchAt(q, a, b);
      } else {
        var a :| AtMark(p, a) && a + 2 < n && p[n - 1] == '.' && NonSpaceBetween(p, a, n - 1);
        AtMarkExtend(p, c, a);
        assert NonSpaceBetween(q, a, n - 1) by {
          forall k | a < k < n - 1 ensures !IsJsWhitespace(q[k]) { assert q[k] == p[k]; }
        }
        assert q[n - 1] == '.' && q[n] == c;
        assert EmailMatchAt(q, a, n - 1);
      }
    }
  }

  /** One step of the automaton keeps every state's meaning. */
  lemma StepKeepsMeaning(p: string, c: char)
    ensures Step(Meaning(p), c) == Meaning(p + [c])
  {
    var q := p + [c];
    assert q[|q| - 1] == c;
    if |p| >= 1 { assert q[|p| - 1] == p[|p| - 1]; }
    StepDomain(p, c);
    StepDot(p, c);
    StepFound(p, c);
  }

  lemma {:induction false} ScanMeaning(s: string)
    ensures Scan(s) == Meaning(s)
    decreases |s|
  {
    if s == [] {
      assert !EmailSearch(s);
    } else {
      var p := s[..|s| - 1];
      ScanMeaning(p);
      StepKeepsMeaning(p, s[|s| - 1]);
      assert p + [s[|s| - 1]] == s;
    }
  }

  /** `/\S+@\S+\.\S+/.test(s)`, in one left-to-right pass: it accepts
      exactly the strings the unanchored search accepts. */
  function MatchesEmailPattern(s: string): (found: bool)
    ensures found <==> EmailSearch(s)
  {
    ScanMeaning(s);
    Scan(s).found
  }
}
