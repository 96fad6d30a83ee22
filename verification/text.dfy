/**
 * The few string operations of Python that the parser relies on: the
 * substring test `p in s`, the code-point order `<` used by `sort`, and
 * decimal digits for the regular expressions `^\d+$` and `\d\.\d+`.
 */
module Text {

  /** Python's `p in s` for strings: `p` occurs somewhere in `s`. */
  predicate Contains(s: string, p: string)
    decreases |s|
  {
    p <= s || (s != [] && Contains(s[1..], p))
  }

  /** The positional reading of `p in s`: a start index at which `p` occurs. */
  predicate OccursAt(s: string, p: string, i: int)
  {
    0 <= i && i + |p| <= |s| && s[i..i + |p|] == p
  }

  /** Where `Contains` holds, `p` occurs at some index `i`. */
  lemma {:induction false} ContainsWitness(s: string, p: string) returns (i: nat)
    requires Contains(s, p)
    ensures OccursAt(s, p, i)
    decreases |s|
  {
    if p <= s {
      i := 0;
    } else {
      var j := ContainsWitness(s[1..], p);
      assert s[1..][j..j + |p|] == s[j + 1..j + 1 + |p|];
      i := j + 1;
    }
  }

  /** An occurrence of `p` at `i` is found by `Contains`. */
  lemma {:induction false} OccurrenceContained(s: string, p: string, i: nat)
    requires OccursAt(s, p, i)
    ensures Contains(s, p)
    decreases i
  {
    if i > 0 {
      assert s[1..][i - 1..i - 1 + |p|] == s[i..i + |p|];
      OccurrenceContained(s[1..], p, i - 1);
    }
  }

  /** `Contains` finds exactly the occurrences that `OccursAt` describes. */
  lemma ContainsIffOccurs(s: string, p: string)
    ensures Contains(s, p) <==> exists i :: OccursAt(s, p, i)
  {
    if Contains(s, p) {
      var i := ContainsWitness(s, p);
    }
    if i :| OccursAt(s, p, i) {
      OccurrenceContained(s, p, i);
    }
  }

  /** A text shorter than `p` cannot contain it. */
  lemma {:induction false} ShorterDoesNotContain(s: string, p: string)
    requires |s| < |p|
    ensures !Contains(s, p)
    decreases |s|
  {
    if s != [] {
      ShorterDoesNotContain(s[1..], p);
    }
  }

  /**
   * Python's `a < b` on `str`: lexicographic by code point, a proper prefix
   * coming first.
   */
  predicate Below(a: string, b: string)
    decreases |a|
  {
    if a == [] then b != []
    else b != [] && (if a[0] == b[0] then Below(a[1..], b[1..]) else a[0] < b[0])
  }

  lemma {:induction false} BelowIrreflexive(a: string)
    ensures !Below(a, a)
    decreases |a|
  {
    if a != [] {
      BelowIrreflexive(a[1..]);
    }
  }

  lemma {:induction false} BelowTransitive(a: string, b: string, c: string)
    requires Below(a, b) && Below(b, c)
    ensures Below(a, c)
    decreases |a|
  {
    if a != [] && a[0] == b[0] && b[0] == c[0] {
      BelowTransitive(a[1..], b[1..], c[1..]);
    }
  }

  /** Two different strings are always ordered one way or the other. */
  lemma {:induction false} BelowTotal(a: string, b: string)
    requires a != b
    ensures Below(a, b) || Below(b, a)
    decreases |a|
  {
    if a != [] && b != [] && a[0] == b[0] {
      assert a == [a[0]] + a[1..] && b == [b[0]] + b[1..];
      BelowTotal(a[1..], b[1..]);
    }
  }

  lemma {:induction false} BelowAsymmetric(a: string, b: string)
    requires Below(a, b)
    ensures !Below(b, a)
  {
    if Below(b, a) {
      BelowTransitive(a, b, a);
      BelowIrreflexive(a);
    }
  }

  /** The class `\d`, restricted to ASCII digits. */
  predicate IsDigit(c: char)
  {
    '0' <= c <= '9'
  }

  predicate AllDigits(s: string)
  {
    forall k :: 0 <= k < |s| ==> IsDigit(s[k])
  }

  /**
   * `re.search(r'^\d+$', s)` succeeds: a non-empty digit run, where `$` also
   * matches in front of one final newline.
   */
  predicate IsDigitRun(s: string)
  {
    || (s != [] && AllDigits(s))
    || (|s| >= 2 && s[|s| - 1] == '\n' && AllDigits(s[..|s| - 1]))
  }
}
