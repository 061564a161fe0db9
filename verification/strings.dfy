/** Facts about strings used when text is built up piece by piece. */
module Strings {

  /** Appending `b` then `c` is appending `b + c`. */
  lemma Assoc(a: string, b: string, c: string)
    ensures (a + b) + c == a + (b + c)
  {
  }

  /** A string is a prefix of itself extended by anything. */
  lemma AppendExtends(a: string, b: string)
    ensures a <= a + b
  {
    assert (a + b)[..|a|] == a;
  }

  /** Two appends keep what was there first. */
  lemma AppendTwiceExtends(a: string, b: string, c: string)
    ensures a <= (a + b) + c
  {
    assert ((a + b) + c)[..|a|] == a;
  }

  lemma AppendEmpty(a: string)
    ensures a + "" == a
  {
  }

  /** Three appends to `x` are one append of the three pieces. */
  lemma Regroup3(x: string, a: string, b: string, c: string)
    ensures ((x + a) + b) + c == x + ((a + b) + c)
  {
    Assoc(x, a, b);
    Assoc(x, a + b, c);
  }

  /** Three appends to `x + y` are one append of what they add to `y`. */
  lemma Extend3(x: string, y: string, a: string, b: string, c: string)
    ensures (((x + y) + a) + b) + c == x + (((y + a) + b) + c)
  {
    Assoc(x + y, a, b);
    Assoc(x + y, a + b, c);
    Assoc(x, y, (a + b) + c);
    Assoc(y, a, b);
    Assoc(y, a + b, c);
  }

  /** Five appends to `x + y` are one append of what they add to `y`. */
  lemma Extend5(x: string, y: string, a: string, b: string, c: string, d: string, e: string)
    ensures (((((x + y) + a) + b) + c) + d) + e == x + (((((y + a) + b) + c) + d) + e)
  {
    Extend3(x, y, a, b, c);
    Assoc(x, ((y + a) + b) + c, d);
    Assoc(x, (((y + a) + b) + c) + d, e);
  }

  /**
   * Regrouping of a chain of appends whose middle pieces `l`, `n`, `nt` form
   * one part; with only variables in it, the regrouping stays cheap to prove
   * wherever it is instantiated.
   */
  lemma Regroup5(x: string, c: string, l: string, n: string, nt: string, e: string)
    ensures ((((x + c) + l) + n) + nt) + e == x + (((c + "") + ((l + n) + nt)) + e)
  {
    assert c + "" == c;
    Extend3(x, c, l, n, nt);
    Assoc(c, l, n);
    Assoc(c, l + n, nt);
    Assoc(x, c + ((l + n) + nt), e);
  }

  /** As `Regroup5`, with a second part `l`, `p`, `pt` before the first. */
  lemma Regroup8(x: string, c: string, l: string, p: string, pt: string, n: string, nt: string, e: string)
    ensures (((((((x + c) + l) + p) + pt) + l) + n) + nt) + e
      == x + (((c + ((l + p) + pt)) + ((l + n) + nt)) + e)
  {
    Extend3(x, c, l, p, pt);
    Assoc(c, l, p);
    Assoc(c, l + p, pt);
    Extend3(x, c + ((l + p) + pt), l, n, nt);
    Assoc(c + ((l + p) + pt), l, n);
    Assoc(c + ((l + p) + pt), l + n, nt);
    Assoc(x, (c + ((l + p) + pt)) + ((l + n) + nt), e);
  }

  /** `w` occurs in `s` starting at index `i`. */
  predicate OccursAt(s: string, w: string, i: nat) {
    i + |w| <= |s| && s[i..i + |w|] == w
  }

  /** `w` occurs in `s` as a contiguous piece. */
  predicate Contains(s: string, w: string) {
    exists i: nat | i <= |s| :: OccursAt(s, w, i)
  }

  lemma ContainsSelf(s: string, b: string)
    ensures Contains(s + b, s)
  {
    assert (s + b)[0..|s|] == s;
    assert OccursAt(s + b, s, 0);
  }

  lemma ContainsLeft(a: string, s: string, w: string)
    requires Contains(s, w)
    ensures Contains(a + s, w)
  {
    var i: nat :| i <= |s| && OccursAt(s, w, i);
    assert (a + s)[|a| + i..|a| + i + |w|] == s[i..i + |w|];
    assert OccursAt(a + s, w, |a| + i);
  }

  lemma ContainsRight(s: string, b: string, w: string)
    requires Contains(s, w)
    ensures Contains(s + b, w)
  {
    var i: nat :| i <= |s| && OccursAt(s, w, i);
    assert (s + b)[i..i + |w|] == s[i..i + |w|];
    assert OccursAt(s + b, w, i);
  }

  /** A word whose first character is nowhere in `s` does not occur in `s`. */
  lemma NotContainsWithoutFirst(s: string, w: string)
    requires |w| > 0 && w[0] !in s
    ensures !Contains(s, w)
  {
    forall i: nat | i + |w| <= |s|
      ensures !OccursAt(s, w, i)
    {
      assert s[i..i + |w|][0] == s[i];
      assert s[i] in s;
    }
  }
}
