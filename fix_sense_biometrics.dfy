/**
 * Removing the ParanoidSense face provider from FaceService.java and AuthService.java: each file,
 * if present, gets its own list of substitutions and is written back.
 */
module FixSense {
  import opened Text
  import opened Files
  import opened Regex
  import opened Rewrite
  import opened Pipeline

  /** The two services, relative to the build top. */
  const FacePath: Path := ["frameworks", "base", "services", "core", "java", "com", "android", "server",
                           "biometrics", "sensors", "face", "FaceService.java"]
  const AuthPath: Path := ["frameworks", "base", "services", "core", "java", "com", "android", "server",
                           "biometrics", "AuthService.java"]

  // The Java text the substitutions spell out, composed from its parts.
  const Sense: string := "Sense"
  const SensePackage: string := "import com.android." + "server.biometrics." + "sensors.face.sense."
  /** `import com.android.server.biometrics.sensors.face.sense.SenseProvider;` and its newline. */
  const ProviderImport: string := SensePackage + Sense + "Provider;\n"
  /** `import com.android.server.biometrics.sensors.face.sense.SenseUtils;` and its newline. */
  const UtilsImport: string := SensePackage + Sense + "Utils;\n"
  const CanUse: string := Sense + "Utils.canUseProvider()"
  const AddAll: string := "providers.addAll(get" + Sense + "Providers());"
  const Disabled: string := "// Sense provider disabled"
  /** The header of the method whose whole body the last FaceService step removes. */
  const Header: string := "private List<ServiceProvider> get" + Sense + "Providers() {"

  /** FaceService's five steps, in the order the script runs them. */
  const FaceRules: seq<Rule> := [
    Rule(Lit(ProviderImport), ""),
    Rule(Lit(UtilsImport), ""),
    Rule(Lit(CanUse), "false"),
    Rule(Lit(AddAll), Disabled),
    Rule(Block(Header), "")
  ]

  /** AuthService's two steps. */
  const AuthRules: seq<Rule> := [
    Rule(Lit(UtilsImport), ""),
    Rule(Lit(CanUse), "false")
  ]

  lemma RulesValid()
    ensures ValidRules(FaceRules) && ValidRules(AuthRules)
  {
  }

  /**
   * What `main` does: change to the build top (the working directory when it is unset), patch
   * FaceService if it exists, then AuthService if it exists.
   */
  function MainRun(sys: Sys, top: Option<Path>): Run {
    var c := ChangeDir(sys, if top.Some? then top.value else sys.cwd);
    if c.raised.Some? then c
    else
      var face := GuardedRewrite(c.sys, c.sys.cwd + FacePath, FaceRules);
      if face.raised.Some? then face
      else GuardedRewrite(face.sys, face.sys.cwd + AuthPath, AuthRules)
  }

  /** FaceService's substitutions, each applied to the previous one's output. */
  method PatchFace(original: string) returns (content: string)
    ensures content == ApplyRules(FaceRules, original)
  {
    content := original;
    content := Apply(FaceRules[0], content);
    assert content == Fold(Apply, FaceRules, 1, original);
    content := Apply(FaceRules[1], content);
    assert content == Fold(Apply, FaceRules, 2, original);
    content := Apply(FaceRules[2], content);
    assert content == Fold(Apply, FaceRules, 3, original);
    content := Apply(FaceRules[3], content);
    assert content == Fold(Apply, FaceRules, 4, original);
    content := Apply(FaceRules[4], content);
    assert content == Fold(Apply, FaceRules, 5, original);
  }

  /** AuthService's substitutions, the second applied to the first one's output. */
  method PatchAuth(original: string) returns (content: string)
    ensures content == ApplyRules(AuthRules, original)
  {
    content := original;
    content := Apply(AuthRules[0], content);
    assert content == Fold(Apply, AuthRules, 1, original);
    content := Apply(AuthRules[1], content);
    assert content == Fold(Apply, AuthRules, 2, original);
  }

  /** `main`, on the machine in place. */
  method Fix(fs: FileSystem, top: Option<Path>) returns (raised: Option<IoError>)
    modifies fs
    ensures Run(fs.View(), raised) == MainRun(old(fs.View()), top)
  {
    raised := fs.Chdir(if top.Some? then top.value else fs.cwd);
    if raised.Some? {
      return;
    }
    var face := fs.cwd + FacePath;
    var present := fs.Exists(face);
    if present {
      var read := fs.Read(face);
      if read.Raised? {
        raised := Some(read.error);
        return;
      }
      var content := PatchFace(read.value);
      raised := fs.Write(face, content);
      if raised.Some? {
        return;
      }
    }
    var auth := fs.cwd + AuthPath;
    present := fs.Exists(auth);
    if present {
      var read := fs.Read(auth);
      if read.Raised? {
        raised := Some(read.error);
        return;
      }
      var content := PatchAuth(read.value);
      raised := fs.Write(auth, content);
    }
  }

  /**
   * If the build top is not a directory the script fails and changes nothing. Otherwise the two
   * services are handled independently: each one present is rewritten with its own steps' output
   * whether or not the other exists, a missing one is not created, and no other file changes.
   * Only a directory in place of a service raises; one in place of FaceService stops the script
   * before anything is written.
   */
  lemma MainEffect(sys: Sys, top: Option<Path>)
    requires WellFormed(sys)
    ensures var dir := if top.Some? then top.value else sys.cwd;
            var face := dir + FacePath;
            var auth := dir + AuthPath;
            var r := MainRun(sys, top);
            && (dir !in sys.dirs ==> r.sys == sys && r.raised.Some?)
            && (dir in sys.dirs ==>
                  r.raised == (if face in sys.dirs || auth in sys.dirs then Some(IsADirectory) else None))
            && (dir in sys.dirs && face in sys.dirs ==> r.sys == sys.(cwd := dir))
            && (dir in sys.dirs && face !in sys.dirs ==>
                  && r.sys.dirs == sys.dirs && r.sys.cwd == dir
                  && r.sys.files.Keys == sys.files.Keys
                  && (face in sys.files ==>
                        r.sys.files[face] == ApplyRules(FaceRules, Newlines(sys.files[face])))
                  && (auth in sys.files ==>
                        r.sys.files[auth] == ApplyRules(AuthRules, Newlines(sys.files[auth])))
                  && forall x :: x in sys.files && x != face && x != auth ==> r.sys.files[x] == sys.files[x])
  {
    var dir := if top.Some? then top.value else sys.cwd;
    if dir in sys.dirs {
      var face := dir + FacePath;
      var auth := dir + AuthPath;
      assert face != auth by {
        assert |face| != |auth|;
      }
      var s1 := sys.(cwd := dir);
      GuardedRewriteEffect(s1, face, FaceRules);
      PatchedEntries(s1, face, FaceRules);
      var f := GuardedRewrite(s1, face, FaceRules);
      if f.raised.None? {
        GuardedRewriteEffect(f.sys, auth, AuthRules);
        PatchedEntries(f.sys, auth, AuthRules);
      }
    }
  }

  /** Each literal the patterns start from spells out `Sense`. */
  lemma LiteralsMentionSense()
    ensures Contains(ProviderImport, Sense) && Contains(UtilsImport, Sense)
    ensures Contains(CanUse, Sense) && Contains(AddAll, Sense) && Contains(Header, Sense)
  {
    var s := Sense;
    ContainsSelf(s);
    ContainsExtended(SensePackage, s, "", s);
    ContainsExtended("", SensePackage + s, "Provider;\n", s);
    ContainsExtended("", SensePackage + s, "Utils;\n", s);
    ContainsExtended("", s, "Utils.canUseProvider()", s);
    ContainsExtended("providers.addAll(get", s, "", s);
    ContainsExtended("", "providers.addAll(get" + s, "Providers());", s);
    ContainsExtended("private List<ServiceProvider> get", s, "", s);
    ContainsExtended("", "private List<ServiceProvider> get" + s, "Providers() {", s);
  }

  /** Every FaceService pattern's key literal mentions `Sense`. */
  lemma KeysMentionSense(i: nat)
    requires i < |FaceRules|
    ensures ValidPattern(FaceRules[i].pat) && Contains(Key(FaceRules[i].pat), Sense)
  {
    LiteralsMentionSense();
    var keys := [ProviderImport, UtilsImport, CanUse, AddAll, Header];
    assert Key(FaceRules[i].pat) == keys[i];
    assert Contains(keys[i], Sense);
  }

  /** FaceService source that never mentions `Sense` comes out of its five steps unchanged. */
  lemma CleanFaceUnchanged(s: string)
    requires !Contains(s, Sense)
    ensures ApplyRules(FaceRules, s) == s
  {
    RulesValid();
    forall i | 0 <= i < |FaceRules|
      ensures NoMatch(FaceRules[i].pat, s)
    {
      KeysMentionSense(i);
      ContainsWithin(s, Key(FaceRules[i].pat), Sense);
      AbsentKeyNoMatch(FaceRules[i].pat, s);
    }
    ApplyRulesNoMatch(FaceRules, s);
  }

  /** AuthService source that never mentions `Sense` comes out of its two steps unchanged. */
  lemma CleanAuthUnchanged(s: string)
    requires !Contains(s, Sense)
    ensures ApplyRules(AuthRules, s) == s
  {
    LiteralsMentionSense();
    ContainsWithin(s, UtilsImport, Sense);
    ContainsWithin(s, CanUse, Sense);
    AuthUntouchedWithoutTargets(s);
  }

  /**
   * AuthService is changed by nothing but its two targets: a file holding neither the SenseUtils
   * import line nor a `SenseUtils.canUseProvider()` call comes out unchanged.
   */
  lemma AuthUntouchedWithoutTargets(s: string)
    requires !Contains(s, UtilsImport) && !Contains(s, CanUse)
    ensures ApplyRules(AuthRules, s) == s
  {
    LitNoMatchIffAbsent(UtilsImport, s);
    LitNoMatchIffAbsent(CanUse, s);
    ApplyRulesNoMatch(AuthRules, s);
  }

  /**
   * The four literal FaceService steps: the first occurrence of the literal (an import line with
   * its newline, the `canUseProvider()` call, the `addAll` call) becomes the step's replacement,
   * the text before it is kept, and the rest is scanned afresh.
   */
  lemma LiteralStepReplacesFirst(i: nat, pre: string, post: string)
    requires i < 4
    requires forall q :: 0 <= q < |pre| ==> !OccursAt(pre + Key(FaceRules[i].pat) + post, Key(FaceRules[i].pat), q)
    ensures var r := FaceRules[i];
            Apply(r, pre + Key(r.pat) + post) == pre + r.rep + Apply(r, post)
  {
    var r := FaceRules[i];
    assert r.pat.Lit? && r.pat.text != [] && Key(r.pat) == r.pat.text;
    LitFirstOccurrence(r.pat.text, pre, post, r.rep);
  }

  /** The block step removes with an empty replacement, and its header starts with a non-space. */
  lemma HeaderStartsSolid()
    ensures FaceRules[4].pat == Block(Header) && FaceRules[4].rep == ""
    ensures Header != [] && !IsSpace(Header[0])
  {
    assert Header[0] == 'p';
  }

  /**
   * The block step removes the `getSenseProviders()` method: from the newline before its
   * indentation through the first closer after the header, leaving the text before it as it was
   * and scanning the text after that brace afresh.
   */
  lemma BlockStepRemovesMethod(pre: string, ws: string, body: string, close: string,
                               block: string, post: string)
    requires RemovableBlock(Header, pre, ws, body, close, block, post)
    ensures Apply(FaceRules[4], pre + block + post) == pre + Apply(FaceRules[4], post)
  {
    HeaderStartsSolid();
    BlockRemovedToFirstCloser(Header, pre, ws, body, close, block, post, "");
    assert pre + "" == pre;
  }

  /**
   * When the header does not occur again after the method, the block step's whole effect is to
   * cut the method out: the text before and the text after it are joined unchanged.
   */
  lemma BlockStepCutsMethod(pre: string, ws: string, body: string, close: string,
                            block: string, post: string)
    requires RemovableBlock(Header, pre, ws, body, close, block, post)
    requires !Contains(post, Header)
    ensures Apply(FaceRules[4], pre + block + post) == pre + post
  {
    BlockStepRemovesMethod(pre, ws, body, close, block, post);
    BlockStepWithoutHeader(post);
  }

  /** The SenseUtils import line holds no `(`, so it never holds the `canUseProvider()` call. */
  lemma UtilsImportLacksCall()
    ensures !Contains(UtilsImport, CanUse)
  {
    var p := '(';
    assert Lacks("import com.android.", p) && Lacks("server.biometrics.", p);
    assert Lacks("sensors.face.sense.", p) && Lacks(Sense, p) && Lacks("Utils;\n", p);
    LacksConcat("import com.android.", "server.biometrics.", p);
    LacksConcat("import com.android." + "server.biometrics.", "sensors.face.sense.", p);
    LacksConcat(SensePackage, Sense, p);
    LacksConcat(SensePackage + Sense, "Utils;\n", p);
    assert CanUse[|CanUse| - 2] == p;
    LacksNotContains(UtilsImport, CanUse, |CanUse| - 2);
  }

  /** The AuthService steps, written out as the two substitutions. */
  lemma AuthSteps(t: string)
    ensures ApplyRules(AuthRules, t) == ReplaceAll(Lit(CanUse), ReplaceAll(Lit(UtilsImport), t, ""), "false")
  {
    assert ApplyRules(AuthRules, t) == Fold(Apply, AuthRules, 2, t);
  }

  /** One pass over `i`, the import line, then the import line without its `i` leaves the import line. */
  lemma AuthFirstPass()
    ensures ApplyRules(AuthRules, "i" + UtilsImport + UtilsImport[1..]) == UtilsImport
  {
    var u := UtilsImport;
    assert u[0] == 'i' && u[1] == 'm';
    assert "i" == [u[0]];
    LitDeletionRejoins(u);
    UtilsImportLacksCall();
    LitAbsentIdentity(CanUse, u, "false");
    AuthSteps("i" + u + u[1..]);
  }

  /** A pass over the import line alone deletes it. */
  lemma AuthSecondPass()
    ensures ApplyRules(AuthRules, UtilsImport) == ""
  {
    LitReplacesWhole(UtilsImport, "");
    LitAbsentIdentity(CanUse, "", "false");
    AuthSteps(UtilsImport);
  }

  /**
   * The AuthService steps are not idempotent: deleting an import line can join the text around it
   * into a new one, which a second pass then deletes.
   */
  lemma AuthNotIdempotent()
    ensures var s := "i" + UtilsImport + UtilsImport[1..];
            && ApplyRules(AuthRules, s) == UtilsImport
            && ApplyRules(AuthRules, ApplyRules(AuthRules, s)) == ""
  {
    AuthFirstPass();
    AuthSecondPass();
  }

  /** Without the header the block step is the identity. */
  lemma BlockStepWithoutHeader(s: string)
    requires !Contains(s, Header)
    ensures Apply(FaceRules[4], s) == s
  {
    AbsentKeyNoMatch(Block(Header), s);
    ReplaceAllNoMatch(Block(Header), s, "");
  }

  /** With the header present but no closer anywhere after it, nothing matches and the header stays. */
  lemma BlockStepWithoutCloser(s: string)
    requires forall q: nat, k :: OccursAt(s, Header, q) && q + |Header| <= k ==> !CloserAt(s, k)
    ensures Apply(FaceRules[4], s) == s
  {
    BlockWithoutCloserIsIdentity(Header, s, "");
  }
}
