/**
 * The few regular-expression shapes the patch scripts use, with Python's `re.sub`
 * semantics: the leftmost match wins, matches do not overlap, and scanning resumes
 * right after each match. None of the shapes has an anchor or a look-behind, so
 * whether a match starts at index i of s depends only on s[i..]; MatchLen is
 * therefore stated on a suffix.
 */
module Regex {
  import opened Text
  import opened Pipeline

  datatype Pattern =
    | Lit(text: string)                        // an escaped literal, `a\.b\(c\);\n`
    | SpacesLit(text: string)                  // `\s*` then a literal
    | LitSpacesLit(head: string, tail: string) // a literal, `\s*`, a literal
    | Block(header: string)                    // `\n\s*` header `[\s\S]*?\n\s{8}\}`

  /** Every shape used matches at least one character. */
  predicate ValidPattern(p: Pattern) {
    match p
    case Lit(t) => t != []
    case SpacesLit(t) => t != []
    case LitSpacesLit(h, _) => h != []
    case Block(_) => true
  }

  /** What may follow a greedy `\s*`: a literal, or a header and a lazily ended block. */
  datatype Tail = Exact(text: string) | LazyBlock(header: string)

  function MinLen(t: Tail): nat {
    match t
    case Exact(x) => |x|
    case LazyBlock(h) => |h| + 10
  }

  /** The tail's first character exists and is not whitespace. */
  predicate StartsSolid(t: Tail) {
    match t
    case Exact(x) => x != [] && !IsSpace(x[0])
    case LazyBlock(h) => h != [] && !IsSpace(h[0])
  }

  /** `\n\s{8}\}` matches at index k of v. */
  predicate CloserAt(v: string, k: int) {
    && 0 <= k && k + 10 <= |v|
    && v[k] == '\n'
    && (forall j :: k < j < k + 9 ==> IsSpace(v[j]))
    && v[k + 9] == '}'
  }

  /** `[\s\S]*?\n\s{8}\}` started at index k of v: the index just past the first closer at or after k. */
  function CloseFrom(v: string, k: nat): (r: Option<nat>)
    requires k <= |v|
    ensures r.Some? ==> k + 10 <= r.value <= |v| && CloserAt(v, r.value - 10)
    ensures r.Some? ==> forall j :: k <= j < r.value - 10 ==> !CloserAt(v, j)
    ensures r.None? ==> forall j :: k <= j ==> !CloserAt(v, j)
    decreases |v| - k
  {
    if CloserAt(v, k) then Some(k + 10)
    else if k == |v| then None
    else CloseFrom(v, k + 1)
  }

  /** Where the match of t that starts at index k of u ends. */
  function TailEnd(t: Tail, u: string, k: nat): (r: Option<nat>)
    requires k <= |u|
    ensures r.Some? ==> k + MinLen(t) <= r.value <= |u|
  {
    match t
    case Exact(x) => if OccursAt(u, x, k) then Some(k + |x|) else None
    case LazyBlock(h) => if OccursAt(u, h, k) then CloseFrom(u, k + |h|) else None
  }

  /**
   * A greedy `\s*` that started at index lo of u and has taken the characters up to k,
   * followed by t; on failure it gives back one character at a time.
   */
  function Greedy(u: string, lo: nat, k: nat, t: Tail): (r: Option<nat>)
    requires lo <= k <= |u|
    ensures r.Some? ==> lo + MinLen(t) <= r.value <= |u|
    decreases k - lo
  {
    match TailEnd(t, u, k)
    case Some(e) => Some(e)
    case None => if k == lo then None else Greedy(u, lo, k - 1, t)
  }

  /** Length of the match of p at the start of u, as Python's backtracking matcher finds it. */
  function MatchLen(p: Pattern, u: string): (r: Option<nat>)
    requires ValidPattern(p)
    ensures r.Some? ==> 0 < r.value <= |u|
  {
    match p
    case Lit(x) => if OccursAt(u, x, 0) then Some(|x|) else None
    case SpacesLit(x) => Greedy(u, 0, RunEnd(u, 0), Exact(x))
    case LitSpacesLit(h, x) =>
      if OccursAt(u, h, 0) then Greedy(u, |h|, RunEnd(u, |h|), Exact(x)) else None
    case Block(h) =>
      if u != [] && u[0] == '\n' then Greedy(u, 1, RunEnd(u, 1), LazyBlock(h)) else None
  }

  // ---------------------------------------------------------------------------
  // The scanning loop of `re.sub`, for any matcher

  /** A matcher gives the length of the match at the start of a string, if one starts there. */
  type Matcher = string -> Option<nat>

  /** Every match is non-empty and stays inside the string. */
  ghost predicate Advances(m: Matcher) {
    forall u :: m(u).Some? ==> 0 < m(u).value <= |u|
  }

  /** Scan left to right: replace a match where one starts, copy the character otherwise. */
  function Scan(m: Matcher, s: string, rep: string): string
    requires Advances(m)
    decreases |s|
  {
    if s == [] then []
    else
      match m(s)
      case Some(n) => rep + Scan(m, s[n..], rep)
      case None => [s[0]] + Scan(m, s[1..], rep)
  }

  /** No match starts at any index below k. */
  predicate NoMatchBefore(m: Matcher, s: string, k: nat) {
    forall i :: 0 <= i < k && i <= |s| ==> m(s[i..]).None?
  }

  /** `re.search`: the index of the leftmost match. */
  function FirstMatch(m: Matcher, s: string): (r: Option<nat>)
    ensures r.None? ==> NoMatchBefore(m, s, |s|)
    ensures r.Some? ==> r.value < |s| && m(s[r.value..]).Some? && NoMatchBefore(m, s, r.value)
    decreases |s|
  {
    if s == [] then None
    else if m(s).Some? then (assert s[0..] == s; Some(0))
    else
      var rest := FirstMatch(m, s[1..]);
      assert forall i :: 1 <= i <= |s| ==> s[i..] == s[1..][i - 1..];
      match rest
      case None => None
      case Some(i) => Some(i + 1)
  }

  /** `re.sub` as its documentation states it: splice rep over the leftmost match, continue after it. */
  function Substitute(m: Matcher, s: string, rep: string): string
    requires Advances(m)
    decreases |s|
  {
    match FirstMatch(m, s)
    case None => s
    case Some(i) =>
      var n := m(s[i..]).value;
      s[..i] + rep + Substitute(m, s[i + n..], rep)
  }

  /** Where no match starts, the character is copied and scanning moves on by one. */
  lemma ScanSkips(m: Matcher, s: string, rep: string, j: nat)
    requires Advances(m) && j < |s| && m(s[j..]).None?
    ensures Scan(m, s[j..], rep) == [s[j]] + Scan(m, s[j + 1..], rep)
  {
    assert s[j..][1..] == s[j + 1..];
  }

  /** Text before the first match start is copied verbatim and in order. */
  lemma {:induction false} ScanCopiesGapFrom(m: Matcher, s: string, rep: string, j: nat, k: nat)
    requires Advances(m) && j <= k <= |s| && NoMatchBefore(m, s, k)
    ensures Scan(m, s[j..], rep) == s[j..k] + Scan(m, s[k..], rep)
    decreases k - j
  {
    if j < k {
      ScanSkips(m, s, rep, j);
      ScanCopiesGapFrom(m, s, rep, j + 1, k);
      SliceCons(s, j, k);
      AppendAssoc([s[j]], s[j + 1..k], Scan(m, s[k..], rep));
    }
  }

  lemma ScanCopiesGap(m: Matcher, s: string, rep: string, k: nat)
    requires Advances(m) && k <= |s| && NoMatchBefore(m, s, k)
    ensures Scan(m, s, rep) == s[..k] + Scan(m, s[k..], rep)
  {
    ScanCopiesGapFrom(m, s, rep, 0, k);
    assert s[0..] == s;
  }

  /** The leftmost match is replaced, and scanning resumes right after it. */
  lemma ScanAtLeftmost(m: Matcher, s: string, rep: string, i: nat, n: nat)
    requires Advances(m) && i < |s| && NoMatchBefore(m, s, i) && m(s[i..]) == Some(n)
    ensures Scan(m, s, rep) == s[..i] + rep + Scan(m, s[i + n..], rep)
  {
    ScanCopiesGap(m, s, rep, i);
    ScanReplaces(m, s[i..], rep, n);
    DropDrop(s, i, n);
    AppendAssoc(s[..i], rep, Scan(m, s[i + n..], rep));
  }

  /** Where a match starts, it is replaced and scanning resumes after it. */
  lemma ScanReplaces(m: Matcher, t: string, rep: string, n: nat)
    requires Advances(m) && t != [] && m(t) == Some(n)
    ensures Scan(m, t, rep) == rep + Scan(m, t[n..], rep)
  {
  }

  /** The scanning loop agrees with the search-and-splice reading of `re.sub`. */
  lemma {:induction false} ScanIsSubstitute(m: Matcher, s: string, rep: string)
    requires Advances(m)
    ensures Scan(m, s, rep) == Substitute(m, s, rep)
    decreases |s|
  {
    match FirstMatch(m, s)
    case None =>
      ScanCopiesGap(m, s, rep, |s|);
      assert s[..|s|] == s;
    case Some(i) =>
      var n := m(s[i..]).value;
      ScanAtLeftmost(m, s, rep, i, n);
      ScanIsSubstitute(m, s[i + n..], rep);
  }

  // ---------------------------------------------------------------------------
  // ReplaceAll: the scanning loop with one of the pattern shapes

  function MatcherOf(p: Pattern): (m: Matcher)
    requires ValidPattern(p)
    ensures Advances(m)
    ensures forall u :: m(u) == MatchLen(p, u)
  {
    u => MatchLen(p, u)
  }

  /** `re.sub(p, rep, s)`, and `s.replace(x, rep)` when p is `Lit(x)`. */
  function ReplaceAll(p: Pattern, s: string, rep: string): string
    requires ValidPattern(p)
  {
    Scan(MatcherOf(p), s, rep)
  }

  /** p matches nowhere in s. */
  predicate NoMatch(p: Pattern, s: string)
    requires ValidPattern(p)
  {
    forall i :: 0 <= i < |s| ==> MatchLen(p, s[i..]).None?
  }

  /** A step whose pattern is absent is the identity. */
  lemma ReplaceAllNoMatch(p: Pattern, s: string, rep: string)
    requires ValidPattern(p) && NoMatch(p, s)
    ensures ReplaceAll(p, s, rep) == s
  {
    ScanCopiesGap(MatcherOf(p), s, rep, |s|);
    assert s[..|s|] == s;
  }

  /** Replacing at the leftmost match of a pattern: the text before it is kept, the match becomes rep. */
  lemma ReplaceAllAtLeftmost(p: Pattern, s: string, rep: string, i: nat, n: nat)
    requires ValidPattern(p) && i < |s| && MatchLen(p, s[i..]) == Some(n)
    requires forall j :: 0 <= j < i ==> MatchLen(p, s[j..]).None?
    ensures ReplaceAll(p, s, rep) == s[..i] + rep + ReplaceAll(p, s[i + n..], rep)
  {
    ScanAtLeftmost(MatcherOf(p), s, rep, i, n);
  }

  /** A match at the end of a match-free prefix: the prefix is kept, the match becomes rep. */
  lemma ReplaceAllSplit(p: Pattern, pre: string, mid: string, post: string, rep: string)
    requires ValidPattern(p)
    requires forall i :: 0 <= i < |pre| ==> MatchLen(p, (pre + mid + post)[i..]).None?
    requires MatchLen(p, (pre + mid + post)[|pre|..]) == Some(|mid|)
    ensures ReplaceAll(p, pre + mid + post, rep) == pre + rep + ReplaceAll(p, post, rep)
  {
    var s := pre + mid + post;
    ReplaceAllAtLeftmost(p, s, rep, |pre|, |mid|);
    assert s[..|pre|] == pre;
    assert s[|pre| + |mid|..] == post;
  }

  /** The same, with the match given on the text from its start on. */
  lemma ReplaceAllBetween(p: Pattern, pre: string, mid: string, post: string, rep: string)
    requires ValidPattern(p)
    requires forall i :: 0 <= i < |pre| ==> MatchLen(p, (pre + mid + post)[i..]).None?
    requires MatchLen(p, mid + post) == Some(|mid|)
    ensures ReplaceAll(p, pre + mid + post, rep) == pre + rep + ReplaceAll(p, post, rep)
  {
    DropMiddle(pre, mid, post);
    ReplaceAllSplit(p, pre, mid, post, rep);
  }

  // ---------------------------------------------------------------------------
  // Literals

  /** A literal pattern matches nowhere exactly when the literal does not occur. */
  lemma LitNoMatchIffAbsent(x: string, s: string)
    requires x != []
    ensures NoMatch(Lit(x), s) <==> !Contains(s, x)
  {
    forall i | 0 <= i < |s|
      ensures MatchLen(Lit(x), s[i..]).Some? <==> OccursAt(s, x, i)
    {
      OccursShift(s, x, i, 0);
    }
    if Contains(s, x) {
      var i :| 0 <= i <= |s| && OccursAt(s, x, i);
      assert i < |s|;
    }
  }

  /** Replacing an absent literal (a `str.replace` or an escaped `re.sub`) is the identity. */
  lemma LitAbsentIdentity(x: string, s: string, rep: string)
    requires x != [] && !Contains(s, x)
    ensures ReplaceAll(Lit(x), s, rep) == s
  {
    LitNoMatchIffAbsent(x, s);
    ReplaceAllNoMatch(Lit(x), s, rep);
  }

  /** One step of a literal replacement at the front of the text. */
  lemma LitHeadStep(x: string, u: string, rep: string)
    requires x != [] && u != []
    ensures OccursAt(u, x, 0) ==> ReplaceAll(Lit(x), u, rep) == rep + ReplaceAll(Lit(x), u[|x|..], rep)
    ensures !OccursAt(u, x, 0) ==> ReplaceAll(Lit(x), u, rep) == [u[0]] + ReplaceAll(Lit(x), u[1..], rep)
  {
  }

  /** The first occurrence of a literal is replaced, together with exactly its own characters. */
  lemma LitFirstOccurrence(x: string, pre: string, post: string, rep: string)
    requires x != []
    requires forall q :: 0 <= q < |pre| ==> !OccursAt(pre + x + post, x, q)
    ensures ReplaceAll(Lit(x), pre + x + post, rep) == pre + rep + ReplaceAll(Lit(x), post, rep)
  {
    var s := pre + x + post;
    forall i | 0 <= i < |pre|
      ensures MatchLen(Lit(x), s[i..]).None?
    {
      OccursShift(s, x, i, 0);
    }
    assert OccursAt(s, x, |pre|);
    OccursShift(s, x, |pre|, 0);
    ReplaceAllSplit(Lit(x), pre, x, post, rep);
  }

  /** A text that is exactly the literal is replaced whole. */
  lemma LitReplacesWhole(x: string, rep: string)
    requires x != []
    ensures ReplaceAll(Lit(x), x, rep) == rep
  {
    LitFirstOccurrence(x, [], [], rep);
    assert [] + x + [] == x;
  }

  /**
   * Deleting a literal can join the text around it into the literal again: the literal's first
   * character, the literal, then the literal without its first character comes out as the literal.
   */
  lemma LitDeletionRejoins(x: string)
    requires |x| >= 2 && x[0] != x[1]
    ensures ReplaceAll(Lit(x), [x[0]] + x + x[1..], "") == x
  {
    var s := [x[0]] + x + x[1..];
    assert !OccursAt(s, x, 0) by {
      assert s[1] == x[0];
    }
    LitFirstOccurrence(x, [x[0]], x[1..], "");
    assert !Contains(x[1..], x);
    LitAbsentIdentity(x, x[1..], "");
    assert [x[0]] + "" + x[1..] == x;
  }

  // ---------------------------------------------------------------------------
  // Greedy `\s*` with backtracking

  /** If the tail matches nowhere from lo to k, the greedy run fails. */
  lemma {:induction false} GreedyNone(u: string, lo: nat, k: nat, t: Tail)
    requires lo <= k <= |u|
    requires forall j :: lo <= j <= k ==> TailEnd(t, u, j).None?
    ensures Greedy(u, lo, k, t).None?
    decreases k - lo
  {
    if k > lo {
      GreedyNone(u, lo, k - 1, t);
    }
  }

  /** When the tail starts with a non-space, the greedy `\s*` keeps its whole whitespace run. */
  lemma GreedyWholeRun(u: string, lo: nat, t: Tail, r: nat)
    requires StartsSolid(t) && lo <= |u| && RunEnd(u, lo) == r
    ensures Greedy(u, lo, r, t) == TailEnd(t, u, r)
  {
    if TailEnd(t, u, r).None? && r > lo {
      forall j | lo <= j <= r - 1
        ensures TailEnd(t, u, j).None?
      {
        assert IsSpace(u[j]);
      }
      GreedyNone(u, lo, r - 1, t);
    }
  }

  /** No `\s*x` match starts before index a when s[a - 1] is not whitespace and x does not occur before b. */
  lemma SpacesLitNoneBefore(x: string, s: string, a: nat, b: nat, i: nat)
    requires x != [] && !IsSpace(x[0])
    requires i < a <= b <= |s| && !IsSpace(s[a - 1])
    requires forall q :: 0 <= q < b ==> !OccursAt(s, x, q)
    ensures MatchLen(SpacesLit(x), s[i..]).None?
  {
    var u := s[i..];
    var r := RunEnd(u, 0);
    assert u[a - 1 - i] == s[a - 1];
    assert r <= a - 1 - i;
    OccursShift(s, x, i, r);
    GreedyWholeRun(u, 0, Exact(x), r);
  }

  /** From the start of a whitespace run, `\s*x` takes the run and the x after it. */
  lemma SpacesLitAt(x: string, s: string, a: nat, b: nat)
    requires x != [] && !IsSpace(x[0])
    requires a <= b && OccursAt(s, x, b)
    requires forall j :: a <= j < b ==> IsSpace(s[j])
    ensures MatchLen(SpacesLit(x), s[a..]) == Some(b - a + |x|)
  {
    var u := s[a..];
    assert u[b - a] == s[b + 0];
    RunEndAt(u, 0, b - a);
    OccursShift(s, x, a, b - a);
  }

  /** Before index a, where s[a - 1] is not whitespace and x not yet occurred by b, no `\s*x` match starts. */
  lemma SpacesLitNoneInPrefix(x: string, s: string, a: nat, b: nat)
    requires x != [] && !IsSpace(x[0])
    requires 0 < a <= b <= |s| && !IsSpace(s[a - 1])
    requires forall q :: 0 <= q < b ==> !OccursAt(s, x, q)
    ensures forall i :: 0 <= i < a ==> MatchLen(SpacesLit(x), s[i..]).None?
  {
    forall i | 0 <= i < a
      ensures MatchLen(SpacesLit(x), s[i..]).None?
    {
      SpacesLitNoneBefore(x, s, a, b, i);
    }
  }

  /** A whitespace run then x, at index a of s, is matched by `\s*x` exactly. */
  lemma SpacesLitMatchesRun(x: string, pre: string, ws: string, post: string)
    requires x != [] && !IsSpace(x[0])
    requires forall j :: 0 <= j < |ws| ==> IsSpace(ws[j])
    ensures var s := pre + ws + x + post;
            MatchLen(SpacesLit(x), s[|pre|..]) == Some(|ws| + |x|)
  {
    var s := pre + ws + x + post;
    var a, b := |pre|, |pre| + |ws|;
    forall j | a <= j < b
      ensures IsSpace(s[j])
    {
      assert s[j] == ws[j - a];
    }
    assert OccursAt(s, x, b) by {
      forall j | 0 <= j < |x|
        ensures s[b + j] == x[j]
      {
      }
    }
    SpacesLitAt(x, s, a, b);
  }

  /**
   * `\s*x` replaces the whole whitespace run in front of the first occurrence of x, together
   * with x, when x starts with a non-space and the text before the run does not end in one.
   */
  lemma SpacesLitTakesWholeRun(x: string, pre: string, ws: string, post: string, rep: string)
    requires x != [] && !IsSpace(x[0])
    requires pre == [] || !IsSpace(pre[|pre| - 1])
    requires forall j :: 0 <= j < |ws| ==> IsSpace(ws[j])
    requires forall q :: 0 <= q < |pre| + |ws| ==> !OccursAt(pre + ws + x + post, x, q)
    ensures ReplaceAll(SpacesLit(x), pre + ws + x + post, rep) ==
            pre + rep + ReplaceAll(SpacesLit(x), post, rep)
  {
    var s := pre + ws + x + post;
    var a, n := |pre|, |ws| + |x|;
    if a > 0 {
      assert s[a - 1] == pre[a - 1];
      SpacesLitNoneInPrefix(x, s, a, a + |ws|);
    }
    SpacesLitMatchesRun(x, pre, ws, post);
    ReplaceAllAtLeftmost(SpacesLit(x), s, rep, a, n);
    OuterParts(pre, ws, x, post);
  }

  /** `h\s*x` matches h, any whitespace run (newlines included), then x. */
  lemma LitSpacesLitAcceptsAnyRun(h: string, x: string, ws: string, post: string)
    requires h != [] && x != [] && !IsSpace(x[0])
    requires forall j :: 0 <= j < |ws| ==> IsSpace(ws[j])
    ensures MatchLen(LitSpacesLit(h, x), h + ws + x + post) == Some(|h| + |ws| + |x|)
  {
    var u := h + ws + x + post;
    var b := |h| + |ws|;
    forall j | 0 <= j < |h|
      ensures u[j] == h[j]
    {
    }
    forall j | |h| <= j < b
      ensures IsSpace(u[j])
    {
      assert u[j] == ws[j - |h|];
    }
    forall j | 0 <= j < |x|
      ensures u[b + j] == x[j]
    {
    }
    assert OccursAt(u, h, 0);
    assert OccursAt(u, x, b);
    RunEndAt(u, |h|, b);
  }

  /** The converse: every `h\s*x` match is h, the whole whitespace run after it, then x. */
  lemma LitSpacesLitMatchShape(h: string, x: string, u: string)
    requires h != [] && x != [] && !IsSpace(x[0])
    requires MatchLen(LitSpacesLit(h, x), u).Some?
    ensures OccursAt(u, h, 0) && OccursAt(u, x, RunEnd(u, |h|))
    ensures MatchLen(LitSpacesLit(h, x), u).value == RunEnd(u, |h|) + |x|
  {
    GreedyWholeRun(u, |h|, Exact(x), RunEnd(u, |h|));
  }

  /**
   * The same past a prefix that starts with no match and then holds no further first character
   * of h: such a prefix is kept as it is.
   */
  lemma LitSpacesLitReplacedAfter(h: string, x: string, pre: string, ws: string, post: string, rep: string)
    requires h != [] && x != [] && !IsSpace(x[0])
    requires forall j :: 0 <= j < |ws| ==> IsSpace(ws[j])
    requires pre != [] && Lacks(pre[1..], h[0])
    requires MatchLen(LitSpacesLit(h, x), pre + (h + ws + x) + post).None?
    ensures ReplaceAll(LitSpacesLit(h, x), pre + (h + ws + x) + post, rep) ==
            pre + rep + ReplaceAll(LitSpacesLit(h, x), post, rep)
  {
    var s := pre + (h + ws + x) + post;
    LitSpacesLitNoneWithoutHead(h, x, pre, (h + ws + x) + post, 1);
    assert s[0..] == s;
    LitSpacesLitReplacedFirst(h, x, pre, ws, post, rep);
  }

  /** No `h\s*x` match starts where the text does not hold h's first character. */
  lemma LitSpacesLitNoneWithoutHead(h: string, x: string, pre: string, rest: string, lo: nat)
    requires h != [] && lo <= |pre| && Lacks(pre[lo..], h[0])
    ensures forall q :: lo <= q < |pre| ==> MatchLen(LitSpacesLit(h, x), (pre + rest)[q..]).None?
  {
    forall q | lo <= q < |pre|
      ensures MatchLen(LitSpacesLit(h, x), (pre + rest)[q..]).None?
    {
      assert (pre + rest)[q..][0] == pre[lo..][q - lo];
    }
  }

  /**
   * At the first match, `h\s*x` is replaced together with whatever whitespace run sits inside it;
   * the text before is kept (it may hold h followed by something other than x) and the rest is
   * substituted afresh.
   */
  lemma LitSpacesLitReplacedFirst(h: string, x: string, pre: string, ws: string, post: string, rep: string)
    requires h != [] && x != [] && !IsSpace(x[0])
    requires forall j :: 0 <= j < |ws| ==> IsSpace(ws[j])
    requires forall q :: 0 <= q < |pre| ==> MatchLen(LitSpacesLit(h, x), (pre + (h + ws + x) + post)[q..]).None?
    ensures ReplaceAll(LitSpacesLit(h, x), pre + (h + ws + x) + post, rep) ==
            pre + rep + ReplaceAll(LitSpacesLit(h, x), post, rep)
  {
    var mid := h + ws + x;
    LitSpacesLitAcceptsAnyRun(h, x, ws, post);
    ReplaceAllBetween(LitSpacesLit(h, x), pre, mid, post, rep);
  }

  // ---------------------------------------------------------------------------
  // Lazy block removal

  /** Dropping d characters moves every closer d places to the left. */
  lemma CloserShift(u: string, d: nat, j: nat)
    requires d <= |u|
    ensures CloserAt(u[d..], j) <==> CloserAt(u, d + j)
  {
    if CloserAt(u[d..], j) {
      forall i | d + j < i < d + j + 9
        ensures IsSpace(u[i])
      {
        assert u[i] == u[d..][i - d];
      }
    }
    if CloserAt(u, d + j) {
      forall i | j < i < j + 9
        ensures IsSpace(u[d..][i])
      {
        assert u[d..][i] == u[d + i];
      }
    }
  }

  /** The closer test at an index reads only the ten characters from there. */
  lemma CloserWindow(v: string, w: string, d: nat, k: nat)
    requires OccursAt(v, w, d) && k + 10 <= |w|
    ensures CloserAt(v, d + k) <==> CloserAt(w, k)
  {
    assert w[k] == v[d + k] && w[k + 9] == v[d + (k + 9)];
    if CloserAt(v, d + k) {
      forall i | k < i < k + 9
        ensures IsSpace(w[i])
      {
        assert w[i] == v[d + i];
      }
    }
    if CloserAt(w, k) {
      forall i | d + k < i < d + k + 9
        ensures IsSpace(v[i])
      {
        assert v[i] == w[i - d];
      }
    }
  }

  /** The lazy body ends at the first closer. */
  lemma CloseFromFirst(v: string, k: nat, c: nat)
    requires k <= c && CloserAt(v, c)
    requires forall j :: k <= j < c ==> !CloserAt(v, j)
    ensures CloseFrom(v, k) == Some(c + 10)
  {
  }

  /** A block match is a newline, the whole whitespace run, the header, and a body ending at the first closer. */
  lemma BlockMatchShape(h: string, u: string)
    requires h != [] && !IsSpace(h[0]) && MatchLen(Block(h), u).Some?
    ensures u[0] == '\n' && OccursAt(u, h, RunEnd(u, 1))
    ensures var n := MatchLen(Block(h), u).value;
            var start := RunEnd(u, 1) + |h|;
            && start + 10 <= n
            && CloserAt(u, n - 10)
            && forall k :: start <= k < n - 10 ==> !CloserAt(u, k)
  {
    GreedyWholeRun(u, 1, LazyBlock(h), RunEnd(u, 1));
  }

  /** With no closer after any occurrence of the header, the block rule matches nowhere and changes nothing. */
  lemma BlockWithoutCloserIsIdentity(h: string, s: string, rep: string)
    requires forall q: nat, k :: OccursAt(s, h, q) && q + |h| <= k ==> !CloserAt(s, k)
    ensures ReplaceAll(Block(h), s, rep) == s
  {
    forall i | 0 <= i < |s|
      ensures MatchLen(Block(h), s[i..]).None?
    {
      var u := s[i..];
      if u[0] == '\n' {
        var r := RunEnd(u, 1);
        forall j | 1 <= j <= r
          ensures TailEnd(LazyBlock(h), u, j).None?
        {
          if OccursAt(u, h, j) {
            OccursShift(s, h, i, j);
            forall k: nat | j + |h| <= k
              ensures !CloserAt(u, k)
            {
              CloserShift(s, i, k);
            }
          }
        }
        GreedyNone(u, 1, r, LazyBlock(h));
      }
    }
    ReplaceAllNoMatch(Block(h), s, rep);
  }

  /**
   * No block match starts at index i < a when the whitespace run after a newline there ends
   * before a, and the header does not occur before b.
   */
  lemma BlockNoneBefore(h: string, s: string, a: nat, b: nat, i: nat)
    requires h != [] && !IsSpace(h[0])
    requires i < a <= b <= |s|
    requires s[i] == '\n' ==> RunEnd(s, i + 1) < a
    requires forall q :: 0 <= q < b ==> !OccursAt(s, h, q)
    ensures MatchLen(Block(h), s[i..]).None?
  {
    var u := s[i..];
    if u[0] == '\n' {
      var e := RunEnd(s, i + 1);
      forall j | 1 <= j < e - i
        ensures IsSpace(u[j])
      {
        assert u[j] == s[i + j];
      }
      assert u[e - i] == s[e];
      RunEndAt(u, 1, e - i);
      OccursShift(s, h, i, e - i);
      GreedyWholeRun(u, 1, LazyBlock(h), e - i);
    }
  }

  /** In a prefix of s, a whitespace run that ends inside the prefix ends at the same place in s. */
  lemma RunEndInPrefix(pre: string, s: string, k: nat)
    requires k <= |pre| <= |s| && s[..|pre|] == pre && RunEnd(pre, k) < |pre|
    ensures RunEnd(s, k) == RunEnd(pre, k)
  {
    var e := RunEnd(pre, k);
    forall j | k <= j < e
      ensures IsSpace(s[j])
    {
      assert s[j] == pre[j];
    }
    assert s[e] == pre[e];
    RunEndAt(s, k, e);
  }

  /** From the newline at index a, the block match runs to the end of the first closer after the header at b. */
  lemma BlockAt(h: string, s: string, a: nat, b: nat, c: nat)
    requires h != [] && !IsSpace(h[0])
    requires a < b && OccursAt(s, h, b) && s[a] == '\n'
    requires forall j :: a < j < b ==> IsSpace(s[j])
    requires b + |h| <= c && CloserAt(s, c)
    requires forall k :: b + |h| <= k < c ==> !CloserAt(s, k)
    ensures MatchLen(Block(h), s[a..]) == Some(c + 10 - a)
  {
    var u := s[a..];
    assert u[b - a] == s[b + 0];
    RunEndAt(u, 1, b - a);
    OccursShift(s, h, a, b - a);
    CloserShift(s, a, c - a);
    forall k | b - a + |h| <= k < c - a
      ensures !CloserAt(u, k)
    {
      CloserShift(s, a, k);
    }
    CloseFromFirst(u, b - a + |h|, c - a);
  }

  /** The body runs up to its closer and holds no earlier one. */
  lemma BodyCloses(body: string, close: string)
    requires |close| == 10 && CloserAt(close, 0)
    requires forall k :: 0 <= k < |body| ==> !CloserAt(body + close, k)
    ensures CloserAt(body + close, |body|)
  {
    assert OccursAt(body + close, close, |body|);
    CloserWindow(body + close, close, |body|, 0);
  }

  /** Where the head of a block sits inside it: the newline, the whitespace run, the header. */
  lemma BlockHeadLayout(h: string, ws: string, w: string)
    ensures var m := "\n" + ws + h + w;
            && m[0] == '\n'
            && (forall j :: 0 <= j < |ws| ==> m[1 + j] == ws[j])
            && OccursAt(m, h, 1 + |ws|)
  {
    var m := "\n" + ws + h + w;
    forall j | 0 <= j < |ws|
      ensures m[1 + j] == ws[j]
    {
    }
    forall j | 0 <= j < |h|
      ensures m[1 + |ws| + j] == h[j]
    {
    }
  }

  /** The first closer of w is, shifted, the first closer of v + w from the end of v on. */
  lemma CloserAfter(v: string, w: string, n: nat)
    requires n + 10 <= |w| && CloserAt(w, n)
    requires forall k :: 0 <= k < n ==> !CloserAt(w, k)
    ensures CloserAt(v + w, |v| + n)
    ensures forall k :: |v| <= k < |v| + n ==> !CloserAt(v + w, k)
  {
    OccursAtEnd(v, w);
    CloserWindow(v + w, w, |v|, n);
    forall k | |v| <= k < |v| + n
      ensures !CloserAt(v + w, k)
    {
      CloserWindow(v + w, w, |v|, k - |v|);
    }
  }

  /** The block facts carried from the block into the buffer around it. */
  lemma BlockInBuffer(h: string, ws: string, w: string, n: nat, s: string, a: nat)
    requires n + 10 <= |w| && CloserAt(w, n)
    requires forall k :: 0 <= k < n ==> !CloserAt(w, k)
    requires OccursAt(s, "\n" + ws + h + w, a)
    ensures var b := a + 1 + |ws|;
            && s[a] == '\n'
            && (forall j :: a < j < b ==> s[j] == ws[j - a - 1])
            && OccursAt(s, h, b)
            && CloserAt(s, b + |h| + n)
            && (forall k :: b + |h| <= k < b + |h| + n ==> !CloserAt(s, k))
  {
    var m := "\n" + ws + h + w;
    var b := 1 + |ws|;
    BlockHeadLayout(h, ws, w);
    CloserAfter("\n" + ws + h, w, n);
    assert s[a + 0] == m[0];
    forall j | a < j < a + b
      ensures s[j] == ws[j - a - 1]
    {
      assert s[a + (1 + (j - a - 1))] == m[1 + (j - a - 1)];
    }
    OccursWithin(s, m, a, h, b);
    CloserWindow(s, m, a, b + |h| + n);
    forall k | a + b + |h| <= k < a + b + |h| + n
      ensures !CloserAt(s, k)
    {
      CloserWindow(s, m, a, k - a);
    }
  }

  /** The block in front of the rest of the buffer is matched whole. */
  lemma BlockMatchedWhole(h: string, ws: string, body: string, close: string,
                          block: string, s: string, a: nat)
    requires h != [] && !IsSpace(h[0])
    requires forall j :: 0 <= j < |ws| ==> IsSpace(ws[j])
    requires |close| == 10 && CloserAt(close, 0)
    requires forall k :: 0 <= k < |body| ==> !CloserAt(body + close, k)
    requires block == "\n" + ws + h + (body + close) && OccursAt(s, block, a)
    ensures MatchLen(Block(h), s[a..]) == Some(|block|)
  {
    var b := a + 1 + |ws|;
    BodyCloses(body, close);
    BlockInBuffer(h, ws, body + close, |body|, s, a);
    forall j | a < j < b
      ensures IsSpace(s[j])
    {
      assert s[j] == ws[j - a - 1];
    }
    BlockAt(h, s, a, b, b + |h| + |body|);
  }

  /**
   * pre + block + post, where block is a newline, a whitespace run ws, the header h, a body and
   * a closer with no closer earlier in body + closer; the whitespace at the end of pre holds no
   * newline (every newline of pre has a non-space after it within pre), and h does not occur
   * before the end of ws.
   */
  predicate RemovableBlock(h: string, pre: string, ws: string, body: string, close: string,
                           block: string, post: string) {
    && (forall j :: 0 <= j < |pre| && pre[j] == '\n' ==> RunEnd(pre, j + 1) < |pre|)
    && (forall j :: 0 <= j < |ws| ==> IsSpace(ws[j]))
    && |close| == 10 && CloserAt(close, 0)
    && (forall k :: 0 <= k < |body| ==> !CloserAt(body + close, k))
    && block == "\n" + ws + h + (body + close)
    && (forall q :: 0 <= q < |pre| + 1 + |ws| ==> !OccursAt(pre + block + post, h, q))
  }

  /**
   * The lazy block rule removes a block (a newline, whitespace, the header, a body, the first
   * closer after the header) and everything after the closer is scanned as if the block had
   * never been there.
   */
  lemma BlockRemovedToFirstCloser(h: string, pre: string, ws: string, body: string, close: string,
                                  block: string, post: string, rep: string)
    requires h != [] && !IsSpace(h[0])
    requires RemovableBlock(h, pre, ws, body, close, block, post)
    ensures ReplaceAll(Block(h), pre + block + post, rep) == pre + rep + ReplaceAll(Block(h), post, rep)
  {
    var s := pre + block + post;
    var a := |pre|;
    assert s[..a] == pre;
    forall i | 0 <= i < a
      ensures MatchLen(Block(h), s[i..]).None?
    {
      assert s[i] == pre[i];
      if pre[i] == '\n' {
        RunEndInPrefix(pre, s, i + 1);
      }
      BlockNoneBefore(h, s, a, a + 1 + |ws|, i);
    }
    assert OccursAt(s, block, a);
    BlockMatchedWhole(h, ws, body, close, block, s, a);
    ReplaceAllSplit(Block(h), pre, block, post, rep);
  }

  // ---------------------------------------------------------------------------
  // The literal every match holds

  /** The literal that every match of p contains. */
  function Key(p: Pattern): string {
    match p
    case Lit(x) => x
    case SpacesLit(x) => x
    case LitSpacesLit(h, _) => h
    case Block(h) => h
  }

  /** A greedy run that succeeds does so where its tail matches. */
  lemma {:induction false} GreedyFound(u: string, lo: nat, k: nat, t: Tail)
    requires lo <= k <= |u| && Greedy(u, lo, k, t).Some?
    ensures exists j :: lo <= j <= k && TailEnd(t, u, j).Some?
    decreases k - lo
  {
    if TailEnd(t, u, k).None? {
      GreedyFound(u, lo, k - 1, t);
    }
  }

  /** Every match contains the pattern's key literal. */
  lemma MatchHoldsKey(p: Pattern, u: string)
    requires ValidPattern(p) && MatchLen(p, u).Some?
    ensures Contains(u, Key(p))
  {
    match p
    case Lit(x) =>
    case LitSpacesLit(h, x) =>
    case SpacesLit(x) =>
      GreedyFound(u, 0, RunEnd(u, 0), Exact(x));
    case Block(h) =>
      GreedyFound(u, 1, RunEnd(u, 1), LazyBlock(h));
  }

  lemma MatchAtHoldsKey(p: Pattern, s: string, i: nat)
    requires ValidPattern(p) && i <= |s|
    ensures MatchLen(p, s[i..]).Some? ==> Contains(s, Key(p))
  {
    if MatchLen(p, s[i..]).Some? {
      MatchHoldsKey(p, s[i..]);
      var j :| 0 <= j <= |s[i..]| && OccursAt(s[i..], Key(p), j);
      OccursShift(s, Key(p), i, j);
    }
  }

  /** A pattern whose key literal is absent matches nowhere. */
  lemma AbsentKeyNoMatch(p: Pattern, s: string)
    requires ValidPattern(p) && !Contains(s, Key(p))
    ensures NoMatch(p, s)
  {
    forall i | 0 <= i < |s|
      ensures MatchLen(p, s[i..]).None?
    {
      MatchAtHoldsKey(p, s, i);
    }
  }

  // ---------------------------------------------------------------------------
  // Ordered rule lists

  datatype Rule = Rule(pat: Pattern, rep: string)

  predicate ValidRules(rules: seq<Rule>) {
    forall i :: 0 <= i < |rules| ==> ValidPattern(rules[i].pat)
  }

  /**
   * One substitution. Every rule the scripts use has a valid pattern (each script's RulesValid).
   * A pattern outside the modelled shapes, such as an empty literal, for which Python would
   * insert rep at every position, is taken as the identity: a modelling convenience only.
   */
  function Apply(r: Rule, s: string): string {
    if ValidPattern(r.pat) then ReplaceAll(r.pat, s, r.rep) else s
  }

  /** Each rule is applied to the output of the rules before it, in list order. */
  function ApplyRules(rules: seq<Rule>, s: string): string {
    RunAll(Apply, rules, s)
  }

  /** Running a list of rules is running its first part and then its second part on the result. */
  lemma ApplyRulesAppend(a: seq<Rule>, b: seq<Rule>, s: string)
    ensures ApplyRules(a + b, s) == ApplyRules(b, ApplyRules(a, s))
  {
    RunAllAppend(Apply, a, b, s);
  }

  /** A buffer in which no rule's pattern occurs comes out of the whole list unchanged. */
  lemma ApplyRulesNoMatch(rules: seq<Rule>, s: string)
    requires ValidRules(rules)
    requires forall i :: 0 <= i < |rules| ==> NoMatch(rules[i].pat, s)
    ensures ApplyRules(rules, s) == s
  {
    forall i | 0 <= i < |rules|
      ensures Apply(rules[i], s) == s
    {
      ReplaceAllNoMatch(rules[i].pat, s, rules[i].rep);
    }
    RunAllFixed(Apply, rules, s);
  }
}
