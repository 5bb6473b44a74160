/** The shape both fix scripts share: if a file exists, read it, run substitutions, write it back. */
module Rewrite {
  import opened Text
  import opened Files
  import opened Regex

  /** `"\r\n"` replaced by `"\n"`, then every remaining `"\r"` replaced by `"\n"`. */
  function Translated(s: string): string {
    ReplaceAll(Lit("\r"), ReplaceAll(Lit("\r\n"), s, "\n"), "\n")
  }

  /** Universal newlines, as a text-mode read applies them, are exactly those two replacements. */
  lemma {:induction false} NewlinesTranslate(s: string)
    ensures Newlines(s) == Translated(s)
    decreases |s|
  {
    if s != [] {
      var crlf, cr := "\r\n", "\r";
      var c := s[0];
      var a, t: string;
      if c == '\r' && |s| > 1 && s[1] == '\n' {
        assert OccursAt(s, crlf, 0);
        LitHeadStep(crlf, s, "\n");
        a, t := "\n", s[2..];
      } else {
        assert !OccursAt(s, crlf, 0) by {
          if |s| > 1 {
            assert s[0] != crlf[0] || s[1] != crlf[1];
          }
        }
        LitHeadStep(crlf, s, "\n");
        a, t := [c], s[1..];
      }
      var rest := ReplaceAll(Lit(crlf), t, "\n");
      assert ReplaceAll(Lit(crlf), s, "\n") == a + rest;
      LitHeadStep(cr, a + rest, "\n");
      assert (a + rest)[1..] == rest;
      assert (a + rest)[0] == a[0];
      assert OccursAt(a + rest, cr, 0) <==> (a + rest)[0] == cr[0];
      NewlinesTranslate(t);
      if c == '\r' {
        assert Newlines(s) == "\n" + Newlines(t);
      } else {
        assert Newlines(s) == [c] + Newlines(t);
      }
    }
  }

  /** The file table with p (if it is a file) holding the rules' output on its text. */
  function Patched(sys: Sys, p: Path, rules: seq<Rule>): map<Path, string>
  {
    if p in sys.files then sys.files[p := ApplyRules(rules, Newlines(sys.files[p]))] else sys.files
  }

  /** `if os.path.exists(p):` read p, apply the rules in order, write the result to p. */
  function GuardedRewrite(sys: Sys, p: Path, rules: seq<Rule>): Run
  {
    if !PathExists(sys, p) then Run(sys, None)
    else
      match ReadText(sys, p)
      case Raised(e) => Run(sys, Some(e))
      case Ok(content) => WriteText(sys, p, ApplyRules(rules, content))
  }

  /**
   * A missing file is neither read nor created; a present one is written back unconditionally
   * with the rules' output; only a directory in its place raises; nothing else changes.
   */
  lemma GuardedRewriteEffect(sys: Sys, p: Path, rules: seq<Rule>)
    requires WellFormed(sys)
    ensures var r := GuardedRewrite(sys, p, rules);
            && WellFormed(r.sys)
            && r.raised == (if p in sys.dirs then Some(IsADirectory) else None)
            && (r.raised.None? ==> r.sys == sys.(files := Patched(sys, p, rules)))
            && (r.raised.Some? ==> r.sys == sys)
  {
    if p in sys.files {
      assert Parent(p) in sys.dirs && p !in sys.dirs;
    }
  }

  /** A file the rules leave alone, with no carriage return, is written back byte-identical. */
  lemma GuardedRewriteKeeps(sys: Sys, p: Path, rules: seq<Rule>)
    requires WellFormed(sys) && p in sys.files
    requires NoCr(sys.files[p]) && ApplyRules(rules, sys.files[p]) == sys.files[p]
    ensures GuardedRewrite(sys, p, rules) == Run(sys, None)
  {
    GuardedRewriteEffect(sys, p, rules);
    RewriteSame(sys, p);
  }

  /** Patching one path leaves every other entry, and the set of files, as it was. */
  lemma PatchedEntries(sys: Sys, p: Path, rules: seq<Rule>)
    ensures var m := Patched(sys, p, rules);
            && m.Keys == sys.files.Keys
            && (p in sys.files ==> m[p] == ApplyRules(rules, Newlines(sys.files[p])))
            && forall x :: x in sys.files && x != p ==> m[x] == sys.files[x]
  {
  }
}
