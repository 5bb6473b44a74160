/**
 * A fixed list of steps run one after another on a text buffer, each on the output of the
 * step before it. The steps are left abstract here; Regex supplies the substitutions.
 */
module Pipeline {

  /** The first k steps, in list order. */
  function Fold<R>(f: (R, string) -> string, steps: seq<R>, k: nat, s: string): string
    requires k <= |steps|
    decreases k
  {
    if k == 0 then s else f(steps[k - 1], Fold(f, steps, k - 1, s))
  }

  /** All the steps, in list order. */
  function RunAll<R>(f: (R, string) -> string, steps: seq<R>, s: string): string {
    Fold(f, steps, |steps|, s)
  }

  /** A list extended at the end runs as before on its first steps. */
  lemma {:induction false} FoldPrefix<R>(f: (R, string) -> string, a: seq<R>, b: seq<R>, k: nat, s: string)
    requires k <= |a|
    ensures Fold(f, a + b, k, s) == Fold(f, a, k, s)
    decreases k
  {
    if k > 0 {
      assert (a + b)[k - 1] == a[k - 1];
      FoldPrefix(f, a, b, k - 1, s);
    }
  }

  /** The steps of the second part run on the output of the first part. */
  lemma {:induction false} FoldSuffix<R>(f: (R, string) -> string, a: seq<R>, b: seq<R>, j: nat, s: string)
    requires j <= |b|
    ensures Fold(f, a + b, |a| + j, s) == Fold(f, b, j, RunAll(f, a, s))
    decreases j
  {
    if j == 0 {
      FoldPrefix(f, a, b, |a|, s);
    } else {
      assert (a + b)[|a| + j - 1] == b[j - 1];
      FoldSuffix(f, a, b, j - 1, s);
    }
  }

  /** Running a concatenated list is running its first part, then its second part on the result. */
  lemma RunAllAppend<R>(f: (R, string) -> string, a: seq<R>, b: seq<R>, s: string)
    ensures RunAll(f, a + b, s) == RunAll(f, b, RunAll(f, a, s))
  {
    FoldSuffix(f, a, b, |b|, s);
  }

  /** A buffer that every step leaves alone comes out of the first k steps unchanged. */
  lemma {:induction false} FoldFixed<R>(f: (R, string) -> string, steps: seq<R>, k: nat, s: string)
    requires k <= |steps|
    requires forall i :: 0 <= i < |steps| ==> f(steps[i], s) == s
    ensures Fold(f, steps, k, s) == s
    decreases k
  {
    if k > 0 {
      FoldFixed(f, steps, k - 1, s);
    }
  }

  /** A buffer that every step leaves alone comes out of the whole list unchanged. */
  lemma RunAllFixed<R>(f: (R, string) -> string, steps: seq<R>, s: string)
    requires forall i :: 0 <= i < |steps| ==> f(steps[i], s) == s
    ensures RunAll(f, steps, s) == s
  {
    FoldFixed(f, steps, |steps|, s);
  }
}
