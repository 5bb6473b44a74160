/** Character classes and substring tests shared by the patch scripts. */
module Text {

  datatype Option<+T> = None | Some(value: T)

  /** Python's `\s` on a str: exactly the characters for which `str.isspace()` holds. */
  predicate IsSpace(c: char) {
    || c == ' '
    || ('\t' <= c <= '\r')                  // \t \n \v \f \r
    || ('\U{1C}' <= c <= '\U{1F}')          // file, group, record and unit separators
    || c == '\U{85}' || c == '\U{A0}' || c == '\U{1680}'
    || ('\U{2000}' <= c <= '\U{200A}')
    || c == '\U{2028}' || c == '\U{2029}' || c == '\U{202F}' || c == '\U{205F}' || c == '\U{3000}'
  }

  /** Where the whitespace run of `u` starting at index `k` ends (what a greedy `\s*` takes first). */
  function RunEnd(u: string, k: nat): (r: nat)
    requires k <= |u|
    ensures k <= r <= |u|
    ensures forall j :: k <= j < r ==> IsSpace(u[j])
    ensures r < |u| ==> !IsSpace(u[r])
    decreases |u| - k
  {
    if k < |u| && IsSpace(u[k]) then RunEnd(u, k + 1) else k
  }

  /** A run of whitespace from `k` to `e` that a non-space ends is taken whole. */
  lemma {:induction false} RunEndAt(u: string, k: nat, e: nat)
    requires k <= e < |u|
    requires forall j :: k <= j < e ==> IsSpace(u[j])
    requires !IsSpace(u[e])
    ensures RunEnd(u, k) == e
    decreases e - k
  {
    if k < e {
      RunEndAt(u, k + 1, e);
    }
  }

  /** `p` occurs in `s` starting at index `i`. */
  predicate OccursAt(s: string, p: string, i: nat) {
    i + |p| <= |s| && forall j :: 0 <= j < |p| ==> s[i + j] == p[j]
  }

  /** Python's `p in s` for strings. */
  predicate Contains(s: string, p: string) {
    exists i :: 0 <= i <= |s| && OccursAt(s, p, i)
  }

  /** An occurrence in a suffix is an occurrence in the whole string, shifted. */
  lemma OccursShift(s: string, p: string, i: nat, k: nat)
    requires i <= |s|
    ensures OccursAt(s[i..], p, k) <==> OccursAt(s, p, i + k)
  {
    if OccursAt(s, p, i + k) {
      forall j | 0 <= j < |p|
        ensures s[i..][k + j] == p[j]
      {
        assert s[i..][k + j] == s[i + (k + j)];
      }
    }
  }

  /** An occurrence inside an occurrence is an occurrence. */
  lemma OccursWithin(s: string, m: string, d: nat, x: string, e: nat)
    requires OccursAt(s, m, d) && OccursAt(m, x, e)
    ensures OccursAt(s, x, d + e)
  {
    forall j | 0 <= j < |x|
      ensures s[d + e + j] == x[j]
    {
      assert s[d + (e + j)] == m[e + j];
    }
  }

  /** Whatever contains m contains everything m contains. */
  lemma ContainsWithin(s: string, m: string, x: string)
    requires Contains(m, x)
    ensures Contains(s, m) ==> Contains(s, x)
  {
    if Contains(s, m) {
      var d :| 0 <= d <= |s| && OccursAt(s, m, d);
      var e :| 0 <= e <= |m| && OccursAt(m, x, e);
      OccursWithin(s, m, d, x, e);
    }
  }

  lemma NoCrConcat(a: string, b: string)
    requires NoCr(a) && NoCr(b)
    ensures NoCr(a + b)
  {
    forall i | 0 <= i < |a + b|
      ensures (a + b)[i] != '\r'
    {
      if i >= |a| {
        assert (a + b)[i] == b[i - |a|];
      }
    }
  }

  predicate NoCr(s: string) {
    forall i :: 0 <= i < |s| ==> s[i] != '\r'
  }

  /** c does not occur in s. */
  predicate Lacks(s: string, c: char) {
    forall i :: 0 <= i < |s| ==> s[i] != c
  }

  lemma LacksConcat(a: string, b: string, c: char)
    requires Lacks(a, c) && Lacks(b, c)
    ensures Lacks(a + b, c)
  {
    forall i | 0 <= i < |a + b|
      ensures (a + b)[i] != c
    {
      if i >= |a| {
        assert (a + b)[i] == b[i - |a|];
      }
    }
  }

  /** Whitespace lacks every other character. */
  lemma SpacesLack(ws: string, c: char)
    requires !IsSpace(c) && forall j :: 0 <= j < |ws| ==> IsSpace(ws[j])
    ensures Lacks(ws, c)
  {
  }

  /** Pieces that each lack c still lack it once joined behind a one-character head. */
  lemma LacksAfterFirst(h: string, t: string, ws: string, d: string, c: char)
    requires |h| == 1 && Lacks(t, c) && Lacks(ws, c) && Lacks(d, c)
    ensures Lacks((h + t + ws + d)[1..], c)
  {
    LacksConcat(t, ws, c);
    LacksConcat(t + ws, d, c);
    assert (h + t + ws + d)[1..] == t + ws + d;
  }

  /** A string lacking one of x's characters does not contain x. */
  lemma LacksNotContains(s: string, x: string, k: nat)
    requires k < |x| && Lacks(s, x[k])
    ensures !Contains(s, x)
  {
    forall i | 0 <= i <= |s|
      ensures !OccursAt(s, x, i)
    {
      if i + |x| <= |s| {
        assert s[i + k] != x[k];
      }
    }
  }

  /** An occurrence in the second part of a concatenation is one in the whole. */
  lemma ContainsInSuffix(a: string, b: string, x: string, e: nat)
    requires OccursAt(b, x, e)
    ensures Contains(a + b, x)
  {
    OccursAtEnd(a, b);
    OccursWithin(a + b, b, |a|, x, e);
  }

  /** The second part of a concatenation occurs where the first ends. */
  lemma OccursAtEnd(a: string, b: string)
    ensures OccursAt(a + b, b, |a|)
  {
    forall j | 0 <= j < |b|
      ensures (a + b)[|a| + j] == b[j]
    {
    }
  }

  /** Two updates elsewhere leave an entry, and whether it is there, as they were. */
  lemma UpdatedElsewhere<K, V>(m: map<K, V>, a: K, b: K, va: V, vb: V, c: K)
    requires c != a && c != b
    ensures (c in m[a := va][b := vb]) == (c in m)
    ensures c in m ==> m[a := va][b := vb][c] == m[c]
  {
  }

  lemma ContainsSelf(x: string)
    ensures Contains(x, x)
  {
    assert OccursAt(x, x, 0);
  }

  /** What a string contains, it still contains with more text on either side. */
  lemma ContainsExtended(a: string, b: string, c: string, x: string)
    requires Contains(b, x)
    ensures Contains(a + b, x) && Contains(b + c, x)
  {
    var e :| 0 <= e <= |b| && OccursAt(b, x, e);
    ContainsInSuffix(a, b, x, e);
    assert OccursAt(b + c, b, 0);
    OccursWithin(b + c, b, 0, x, e);
  }

  lemma SliceCons(s: string, j: nat, k: nat)
    requires j < k <= |s|
    ensures s[j..k] == [s[j]] + s[j + 1..k]
  {
  }

  lemma AppendAssoc(a: string, b: string, c: string)
    ensures a + (b + c) == (a + b) + c
  {
  }

  lemma DropMiddle(a: string, b: string, c: string)
    ensures (a + b + c)[|a|..] == b + c
  {
  }

  lemma DropDrop(s: string, i: nat, n: nat)
    requires i + n <= |s|
    ensures s[i..][n..] == s[i + n..]
  {
  }

  /** The first and the last of four concatenated parts, cut back out. */
  lemma OuterParts(a: string, b: string, c: string, d: string)
    ensures (a + b + c + d)[..|a|] == a
    ensures (a + b + c + d)[|a| + |b| + |c|..] == d
  {
  }
}
