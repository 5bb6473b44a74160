/**
 * Stubbing LineageHardwareManager out of InputMethodManagerService.java: nine substitutions run
 * in order on the file's text, which is then written back.
 */
module FixImms {
  import opened Text
  import opened Files
  import opened Regex
  import opened Rewrite
  import opened Pipeline

  /** The service source, relative to the build top. */
  const ImmsPath: Path := ["frameworks", "base", "services", "core", "java", "com", "android", "server",
                           "inputmethod", "InputMethodManagerService.java"]

  // The Java names the patterns spell out, composed from their parts.
  const Hardware: string := "LineageHardware"
  const Manager: string := Hardware + "Manager"
  const Polling: string := "FEATURE_HIGH_TOUCH_POLLING_RATE"
  const Sensitivity: string := "FEATURE_HIGH_TOUCH_SENSITIVITY"
  const Hovering: string := "FEATURE_TOUCH_HOVERING"

  /** `import com.android.internal.lineage.hardware.LineageHardwareManager;` and its newline. */
  const ImportLine: string := "import com.android." + "internal.lineage.hardware." + Manager + ";\n"
  /** `private LineageHardwareManager mLineageHardware;` and its newline. */
  const FieldDecl: string := "private " + Manager + " m" + Hardware + ";\n"
  /** `mLineageHardware = LineageHardwareManager.getInstance(mContext);` and its newline. */
  const Assignment: string := "m" + Hardware + " = " + Manager + ".getInstance(mContext);\n"
  /** `mLineageHardware.isSupported(` */
  const IsSupported: string := "m" + Hardware + ".isSupported("
  const PollingFeature: string := Manager + "." + Polling + ")"
  const SensitivityFeature: string := Manager + "." + Sensitivity + ")"
  const HoveringFeature: string := Manager + "." + Hovering + ")"
  const HoveringQuery: string := IsSupported + HoveringFeature
  /** `mLineageHardware.set(LineageHardwareManager.<feature>, enabled);` */
  const SetPolling: string := "m" + Hardware + ".set(" + Manager + "." + Polling + ", enabled);"
  const SetSensitivity: string := "m" + Hardware + ".set(" + Manager + "." + Sensitivity + ", enabled);"
  const SetHovering: string := "m" + Hardware + ".set(" + Manager + "." + Hovering + ", enabled);"

  /** The nine substitutions, in the order the script runs them. */
  const Rules: seq<Rule> := [
    Rule(Lit(ImportLine), ""),
    Rule(SpacesLit(FieldDecl), "\n"),
    Rule(SpacesLit(Assignment), "\n"),
    Rule(LitSpacesLit(IsSupported, PollingFeature), "false"),
    Rule(LitSpacesLit(IsSupported, SensitivityFeature), "false"),
    Rule(Lit(HoveringQuery), "false"),
    Rule(Lit(SetPolling), "// LineageOS touch polling disabled"),
    Rule(Lit(SetSensitivity), "// LineageOS touch sensitivity disabled"),
    Rule(Lit(SetHovering), "// LineageOS touch hovering disabled")
  ]

  lemma RulesValid()
    ensures ValidRules(Rules)
  {
  }

  /** What `main` does: change to the build top (the working directory when it is unset), then patch. */
  function MainRun(sys: Sys, top: Option<Path>): Run {
    var c := ChangeDir(sys, if top.Some? then top.value else sys.cwd);
    if c.raised.Some? then c
    else GuardedRewrite(c.sys, c.sys.cwd + ImmsPath, Rules)
  }

  /** The nine substitutions of `main`, each applied to the previous one's output. */
  method Patch(original: string) returns (content: string)
    ensures content == ApplyRules(Rules, original)
  {
    content := original;
    content := Apply(Rules[0], content);
    assert content == Fold(Apply, Rules, 1, original);
    content := Apply(Rules[1], content);
    assert content == Fold(Apply, Rules, 2, original);
    content := Apply(Rules[2], content);
    assert content == Fold(Apply, Rules, 3, original);
    content := Apply(Rules[3], content);
    assert content == Fold(Apply, Rules, 4, original);
    content := Apply(Rules[4], content);
    assert content == Fold(Apply, Rules, 5, original);
    content := Apply(Rules[5], content);
    assert content == Fold(Apply, Rules, 6, original);
    content := Apply(Rules[6], content);
    assert content == Fold(Apply, Rules, 7, original);
    content := Apply(Rules[7], content);
    assert content == Fold(Apply, Rules, 8, original);
    content := Apply(Rules[8], content);
    assert content == Fold(Apply, Rules, 9, original);
  }

  /** `main`, on the machine in place. */
  method Fix(fs: FileSystem, top: Option<Path>) returns (raised: Option<IoError>)
    modifies fs
    ensures Run(fs.View(), raised) == MainRun(old(fs.View()), top)
  {
    RulesValid();
    raised := fs.Chdir(if top.Some? then top.value else fs.cwd);
    if raised.Some? {
      return;
    }
    var imms := fs.cwd + ImmsPath;
    var present := fs.Exists(imms);
    if !present {
      return;
    }
    var read := fs.Read(imms);
    if read.Raised? {
      raised := Some(read.error);
      return;
    }
    var content := Patch(read.value);
    raised := fs.Write(imms, content);
  }

  /**
   * If the build top is not a directory the script fails and changes nothing. Otherwise it moves
   * there; a missing source is neither read nor created; a present one is written back
   * unconditionally with the nine steps' output; a directory in the source's place raises after
   * the move and before any write; nothing else changes.
   */
  lemma MainEffect(sys: Sys, top: Option<Path>)
    requires WellFormed(sys)
    ensures var dir := if top.Some? then top.value else sys.cwd;
            var r := MainRun(sys, top);
            && (dir !in sys.dirs ==> r.sys == sys && r.raised.Some?)
            && (dir in sys.dirs ==>
                  && r.raised == (if dir + ImmsPath in sys.dirs then Some(IsADirectory) else None)
                  && (r.raised.None? ==> r.sys == Sys(Patched(sys, dir + ImmsPath, Rules), sys.dirs, dir))
                  && (r.raised.Some? ==> r.sys == sys.(cwd := dir)))
  {
    RulesValid();
    var dir := if top.Some? then top.value else sys.cwd;
    if dir in sys.dirs {
      GuardedRewriteEffect(sys.(cwd := dir), dir + ImmsPath, Rules);
    }
  }

  /** Each literal the patterns start from spells out `LineageHardware`. */
  lemma LiteralsMentionHardware()
    ensures Contains(ImportLine, Hardware) && Contains(FieldDecl, Hardware)
    ensures Contains(Assignment, Hardware) && Contains(IsSupported, Hardware)
    ensures Contains(HoveringQuery, Hardware) && Contains(SetPolling, Hardware)
    ensures Contains(SetSensitivity, Hardware) && Contains(SetHovering, Hardware)
  {
    var h := Hardware;
    ContainsSelf(h);
    ContainsExtended("m", h, "", h);
    ContainsExtended([], h, "Manager", h);
    ContainsExtended("import com.android." + "internal.lineage.hardware.", Manager, "", h);
    ContainsExtended("", "import com.android." + "internal.lineage.hardware." + Manager, ";\n", h);
    ContainsExtended("private " + Manager + " m", h, "", h);
    ContainsExtended("", "private " + Manager + " m" + h, ";\n", h);
    ContainsExtended("", "m" + h, " = ", h);
    ContainsExtended("", "m" + h + " = ", Manager, h);
    ContainsExtended("", "m" + h + " = " + Manager, ".getInstance(mContext);\n", h);
    ContainsExtended("", "m" + h, ".isSupported(", h);
    ContainsExtended("", IsSupported, HoveringFeature, h);
    SetMentionsHardware(Polling);
    SetMentionsHardware(Sensitivity);
    SetMentionsHardware(Hovering);
  }

  lemma SetMentionsHardware(feature: string)
    ensures Contains("m" + Hardware + ".set(" + Manager + "." + feature + ", enabled);", Hardware)
  {
    var h := Hardware;
    ContainsSelf(h);
    ContainsExtended("m", h, "", h);
    ContainsExtended("", "m" + h, ".set(", h);
    ContainsExtended([], h, "Manager", h);
    ContainsExtended("", "m" + h + ".set(", Manager, h);
    ContainsExtended("", "m" + h + ".set(" + Manager, ".", h);
    ContainsExtended("", "m" + h + ".set(" + Manager + ".", feature, h);
    ContainsExtended("", "m" + h + ".set(" + Manager + "." + feature, ", enabled);", h);
  }

  /** Every pattern's key literal mentions `LineageHardware`. */
  lemma KeysMentionHardware(i: nat)
    requires i < |Rules|
    ensures ValidPattern(Rules[i].pat) && Contains(Key(Rules[i].pat), Hardware)
  {
    LiteralsMentionHardware();
    var keys := [ImportLine, FieldDecl, Assignment, IsSupported, IsSupported, HoveringQuery,
                 SetPolling, SetSensitivity, SetHovering];
    assert Key(Rules[i].pat) == keys[i];
    assert Contains(keys[i], Hardware);
  }

  /** A source that never mentions `LineageHardware` comes out of the nine steps unchanged. */
  lemma CleanSourceUnchanged(s: string)
    requires !Contains(s, Hardware)
    ensures ApplyRules(Rules, s) == s
  {
    RulesValid();
    forall i | 0 <= i < |Rules|
      ensures NoMatch(Rules[i].pat, s)
    {
      KeysMentionHardware(i);
      ContainsWithin(s, Key(Rules[i].pat), Hardware);
      AbsentKeyNoMatch(Rules[i].pat, s);
    }
    ApplyRulesNoMatch(Rules, s);
  }

  /**
   * The field declaration and the assignment are removed together with the whole whitespace run
   * before them (indentation and preceding newlines) and their own newline; one newline replaces
   * all of it.
   */
  lemma StatementRemovedWithLeadingRun(x: string, pre: string, ws: string, post: string)
    requires x == FieldDecl || x == Assignment
    requires pre == [] || !IsSpace(pre[|pre| - 1])
    requires forall j :: 0 <= j < |ws| ==> IsSpace(ws[j])
    requires forall q :: 0 <= q < |pre| + |ws| ==> !OccursAt(pre + ws + x + post, x, q)
    ensures ReplaceAll(SpacesLit(x), pre + ws + x + post, "\n") ==
            pre + "\n" + ReplaceAll(SpacesLit(x), post, "\n")
  {
    SpacesLitTakesWholeRun(x, pre, ws, post, "\n");
  }

  /**
   * The polling-rate and sensitivity queries match with any whitespace, newlines included, after
   * `(`: at the first match the query becomes `false`, the text before it is kept, and the rest
   * is scanned afresh.
   */
  lemma QueryAcceptsAnyRun(feature: string, pre: string, ws: string, post: string)
    requires feature == PollingFeature || feature == SensitivityFeature
    requires forall j :: 0 <= j < |ws| ==> IsSpace(ws[j])
    requires forall q :: 0 <= q < |pre| ==>
      MatchLen(LitSpacesLit(IsSupported, feature), (pre + (IsSupported + ws + feature) + post)[q..]).None?
    ensures ReplaceAll(LitSpacesLit(IsSupported, feature), pre + (IsSupported + ws + feature) + post, "false") ==
            pre + "false" + ReplaceAll(LitSpacesLit(IsSupported, feature), post, "false")
  {
    assert feature[0] == 'L';
    LitSpacesLitReplacedFirst(IsSupported, feature, pre, ws, post, "false");
  }

  /**
   * A query of another feature is not a match: `mLineageHardware.isSupported(`, any whitespace,
   * then the hovering feature is passed over by the polling-rate and sensitivity steps.
   */
  lemma OtherQueryNoMatch(feature: string, ws: string, post: string)
    requires feature == PollingFeature || feature == SensitivityFeature
    requires forall j :: 0 <= j < |ws| ==> IsSpace(ws[j])
    ensures MatchLen(LitSpacesLit(IsSupported, feature), IsSupported + ws + HoveringFeature + post).None?
  {
    var u := IsSupported + ws + HoveringFeature + post;
    var b := |IsSupported| + |ws|;
    forall j | |IsSupported| <= j < b
      ensures IsSpace(u[j])
    {
      assert u[j] == ws[j - |IsSupported|];
    }
    assert u[b] == HoveringFeature[0] == 'L';
    RunEndAt(u, |IsSupported|, b);
    assert u[b + 31] == HoveringFeature[31] == 'T';
    assert feature[0] == 'L' && feature[31] == 'H';
    assert !OccursAt(u, feature, b);
    if MatchLen(LitSpacesLit(IsSupported, feature), u).Some? {
      LitSpacesLitMatchShape(IsSupported, feature, u);
    }
  }

  /** The constant pieces of a hovering query hold no `m` past its first character. */
  lemma HoveringPiecesLackHead()
    ensures IsSupported == "m" + (Hardware + ".isSupported(")
    ensures Lacks(Hardware + ".isSupported(", 'm') && Lacks(HoveringFeature + ";", 'm')
  {
    assert Lacks(Hardware, 'm') && Lacks(".isSupported(", 'm');
    LacksConcat(Hardware, ".isSupported(", 'm');
    assert Lacks(Manager + ".", 'm') && Lacks(Hovering + ")" + ";", 'm');
    LacksConcat(Manager + ".", Hovering + ")" + ";", 'm');
    assert Manager + "." + (Hovering + ")" + ";") == HoveringFeature + ";";
  }

  /** Past its first character, a hovering query holds no `m`, so no query match starts inside it. */
  lemma HoveringQueryLacksHead(ws0: string)
    requires forall j :: 0 <= j < |ws0| ==> IsSpace(ws0[j])
    ensures Lacks((IsSupported + ws0 + (HoveringFeature + ";"))[1..], 'm')
  {
    HoveringPiecesLackHead();
    SpacesLack(ws0, 'm');
    LacksAfterFirst("m", Hardware + ".isSupported(", ws0, HoveringFeature + ";", 'm');
  }

  /**
   * A hovering query in front of the polling-rate or sensitivity query does not stop that step:
   * the hovering query is kept and the later query becomes `false`.
   */
  lemma QueryAfterHoveringQuery(feature: string, ws0: string, ws: string, post: string)
    requires feature == PollingFeature || feature == SensitivityFeature
    requires forall j :: 0 <= j < |ws0| ==> IsSpace(ws0[j])
    requires forall j :: 0 <= j < |ws| ==> IsSpace(ws[j])
    ensures var pre := IsSupported + ws0 + (HoveringFeature + ";");
            ReplaceAll(LitSpacesLit(IsSupported, feature), pre + (IsSupported + ws + feature) + post, "false") ==
            pre + "false" + ReplaceAll(LitSpacesLit(IsSupported, feature), post, "false")
  {
    var pre := IsSupported + ws0 + (HoveringFeature + ";");
    var rest := ";" + (IsSupported + ws + feature) + post;
    assert pre + (IsSupported + ws + feature) + post == IsSupported + ws0 + HoveringFeature + rest;
    OtherQueryNoMatch(feature, ws0, rest);
    HoveringQueryLacksHead(ws0);
    assert feature[0] == 'L';
    LitSpacesLitReplacedAfter(IsSupported, feature, pre, ws, post, "false");
  }

  /**
   * The five literal steps (the import line with its newline, the hovering query, the three
   * `set` calls): the first occurrence of the literal becomes the step's replacement, the text
   * before it is kept, and the rest is scanned afresh.
   */
  lemma LiteralStepReplacesFirst(i: nat, pre: string, post: string)
    requires i == 0 || 5 <= i < 9
    requires forall q :: 0 <= q < |pre| ==> !OccursAt(pre + Key(Rules[i].pat) + post, Key(Rules[i].pat), q)
    ensures var r := Rules[i];
            Apply(r, pre + Key(r.pat) + post) == pre + r.rep + Apply(r, post)
  {
    var r := Rules[i];
    assert r.pat.Lit? && r.pat.text != [] && Key(r.pat) == r.pat.text;
    LitFirstOccurrence(r.pat.text, pre, post, r.rep);
  }

  /**
   * The import step is not idempotent: deleting the import line can join the text around it into
   * the import line again, which a second application deletes.
   */
  lemma ImportStepNotIdempotent()
    ensures var s := "i" + ImportLine + ImportLine[1..];
            && Apply(Rules[0], s) == ImportLine
            && Apply(Rules[0], Apply(Rules[0], s)) == ""
  {
    var u := ImportLine;
    assert u[0] == 'i' && u[1] == 'm';
    assert "i" == [u[0]];
    LitDeletionRejoins(u);
    LitReplacesWhole(u, "");
  }

  /** The hovering query matches only with nothing between `(` and the feature name. */
  lemma HoveringNeedsNoSpace(ws: string, post: string)
    requires ws != [] && IsSpace(ws[0])
    ensures MatchLen(Lit(HoveringQuery), IsSupported + ws + HoveringFeature + post).None?
  {
    var u := IsSupported + ws + HoveringFeature + post;
    assert u[|IsSupported|] == ws[0];
    assert HoveringQuery[|IsSupported|] == HoveringFeature[0];
  }
}
