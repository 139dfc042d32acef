/**
 * Positions of text inside a document. The lemmas here are stated once over
 * arbitrary strings so that proofs about the long literal parts of the
 * document only have to name the pieces around the text they look for.
 */
module Strings {

  /** Regrouping a concatenation. */
  lemma ConcatAssoc<T>(a: seq<T>, b: seq<T>, c: seq<T>)
    ensures (a + b) + c == a + (b + c)
  {
  }

  predicate HasPrefix(s: string, p: string) {
    |p| <= |s| && s[..|p|] == p
  }

  /** `m` occurs in `s` starting at position `i`. */
  predicate OccursAt(s: string, m: string, i: int) {
    0 <= i <= |s| - |m| && s[i..i + |m|] == m
  }

  /** `m` occurs in `s`. */
  ghost predicate Contains(s: string, m: string) {
    exists i :: OccursAt(s, m, i)
  }

  /** `m` occurs in `s` at two different positions. */
  ghost predicate OccursTwice(s: string, m: string) {
    exists i, j :: i < j && OccursAt(s, m, i) && OccursAt(s, m, j)
  }

  /** `with` is `without` with `fragment` inserted at one position, and nothing else changed. */
  ghost predicate InsertedAt(without: string, with: string, fragment: string) {
    exists i :: 0 <= i <= |without| && with == without[..i] + fragment + without[i..]
  }

  lemma ContainsFront(m: string, t: string)
    ensures Contains(m + t, m)
  {
    assert OccursAt(m + t, m, 0);
  }

  lemma ContainsWhole(m: string)
    ensures Contains(m, m)
  {
    assert OccursAt(m, m, 0);
  }

  lemma ContainsBehind(a: string, x: string, m: string)
    requires Contains(x, m)
    ensures Contains(a + x, m)
  {
    var i :| OccursAt(x, m, i);
    assert (a + x)[|a| + i..|a| + i + |m|] == m;
    assert OccursAt(a + x, m, |a| + i);
  }

  lemma ContainsBefore(x: string, b: string, m: string)
    requires Contains(x, m)
    ensures Contains(x + b, m)
  {
    var i :| OccursAt(x, m, i);
    assert (x + b)[i..i + |m|] == m;
    assert OccursAt(x + b, m, i);
  }

  /** A non-empty `m` at the front and again somewhere behind it. */
  lemma OccursTwiceFrontAndBehind(m: string, y: string, x: string)
    requires |m| > 0 && Contains(x, m)
    ensures OccursTwice(m + (y + x), m)
  {
    var s := m + (y + x);
    var k :| OccursAt(x, m, k);
    var j := |m| + |y| + k;
    assert s[0..|m|] == m;
    assert s[j..j + |m|] == x[k..k + |m|];
    assert OccursAt(s, m, 0) && OccursAt(s, m, j);
  }

  lemma OccursTwiceBehind(a: string, x: string, m: string)
    requires OccursTwice(x, m)
    ensures OccursTwice(a + x, m)
  {
    var i, j :| i < j && OccursAt(x, m, i) && OccursAt(x, m, j);
    assert (a + x)[|a| + i..|a| + i + |m|] == m;
    assert (a + x)[|a| + j..|a| + j + |m|] == m;
    assert OccursAt(a + x, m, |a| + i) && OccursAt(a + x, m, |a| + j);
  }

  lemma InsertedAtFront(t: string, f: string)
    ensures InsertedAt(t, f + t, f)
  {
    assert t[..0] == [] && t[0..] == t;
    assert f + t == t[..0] + f + t[0..];
  }

  lemma InsertedAtBehind(a: string, w: string, v: string, f: string)
    requires InsertedAt(w, v, f)
    ensures InsertedAt(a + w, a + v, f)
  {
    var i :| 0 <= i <= |w| && v == w[..i] + f + w[i..];
    var k := |a| + i;
    assert (a + w)[..k] == a + w[..i];
    assert (a + w)[k..] == w[i..];
    assert a + v == (a + w)[..k] + f + (a + w)[k..];
  }

  /** `s` ends with `t`. */
  predicate HasSuffix(s: string, t: string) {
    |t| <= |s| && s[|s| - |t|..] == t
  }

  lemma PrefixFront(p: string, t: string)
    ensures HasPrefix(p + t, p)
  {
    assert (p + t)[..|p|] == p;
  }

  lemma SuffixBehind(a: string, x: string, t: string)
    requires HasSuffix(x, t)
    ensures HasSuffix(a + x, t)
  {
    assert (a + x)[|a + x| - |t|..] == x[|x| - |t|..];
  }

  /** Text inside text inside `s` is inside `s`. */
  lemma ContainsTransitive(s: string, x: string, m: string)
    requires Contains(s, x) && Contains(x, m)
    ensures Contains(s, m)
  {
    var i :| OccursAt(s, x, i);
    var k :| OccursAt(x, m, k);
    assert s[i..i + |x|] == x;
    forall j | 0 <= j < |m|
      ensures s[i + k..i + k + |m|][j] == m[j]
    {
      assert s[i + k + j] == s[i..i + |x|][k + j] == x[k + j];
    }
    assert OccursAt(s, m, i + k);
  }
}
