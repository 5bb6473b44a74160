/**
 * The MIUI camera fix: find the repository root, create the miuiframework stub (a directory, a
 * Java class and an Android.bp file) and add the package to the device makefile unless it is
 * already listed there. Paths are relative to the working directory, as in the script.
 */
module FixCamera {
  import opened Text
  import opened Files

  const DeviceDir: Path := ["device", "xiaomi", "xaga"]
  const FrameworkDir: Path := DeviceDir + ["miuiframework"]
  const JavaDir: Path := FrameworkDir + ["core", "java", "miui", "process"]
  const BpFile: Path := FrameworkDir + ["Android.bp"]
  const JavaFile: Path := JavaDir + ["ProcessManager.java"]
  const Makefile: Path := DeviceDir + ["custom_xaga.mk"]

  /** The package name whose presence in the makefile means the package is already added. */
  const Marker: string := "miui-framework"
  /** What is appended to the makefile: a comment line and the PRODUCT_PACKAGES line. */
  const Fragment: string := "\n# Added by fix_miui_camera.py\n" + "PRODUCT_PACKAGES += " + Marker + "\n"

  /** The stub class `miui.process.ProcessManager`, as written to ProcessManager.java. */
  const JavaContent: string :=
    "package miui.process;\n"
    + "\n"
    + "import java.util.List;\n"
    + "import android.util.Log;\n"
    + "\n"
    + "/**\n"
    + " * Stub implementation of miui.process.ProcessManager for PixelOS (Xaga)\n"
    + " * Required by MIUI Camera app to prevent ClassNotFoundException.\n"
    + " */\n"
    + "public class ProcessManager {\n"
    + "    private static final String TAG = \"ProcessManagerStub\";\n"
    + "\n"
    + "    public static final int AI_MAX_ADJ = 0;\n"
    + "    public static final int AI_MAX_PROTECT_TIME = 0;\n"
    + "\n"
    + "    public static boolean isLockedApplication(String packageName, int userId) {\n"
    + "        Log.d(TAG, \"isLockedApplication called for \" + packageName);\n"
    + "        return false;\n"
    + "    }\n"
    + "\n"
    + "    public static void adjBoost(String processName, int targetAdj, long timeout, int userId) {\n"
    + "        Log.d(TAG, \"adjBoost called for \" + processName + \" targetAdj=\" + targetAdj);\n"
    + "    }\n"
    + "\n"
    + "    public static void updateCloudData(List<String> whiteList) {\n"
    + "        Log.d(TAG, \"updateCloudData called\");\n"
    + "    }\n"
    + "\n"
    + "    public static void registerForegroundInfoListener(IForegroundInfoListener listener) {\n"
    + "        Log.d(TAG, \"registerForegroundInfoListener called\");\n"
    + "    }\n"
    + "\n"
    + "    public static void unregisterForegroundInfoListener(IForegroundInfoListener listener) {\n"
    + "        Log.d(TAG, \"unregisterForegroundInfoListener called\");\n"
    + "    }\n"
    + "    \n"
    + "    // Inner interface stub\n"
    + "    public interface IForegroundInfoListener {\n"
    + "        void onForegroundInfoChanged(ForegroundInfo foregroundInfo);\n"
    + "    }\n"
    + "    \n"
    + "    // Inner class stub\n"
    + "    public static class ForegroundInfo {\n"
    + "        public String mForegroundPackageName;\n"
    + "        public int mForegroundUid;\n"
    + "    }\n"
    + "}\n"

  /** The Soong module `miui-framework`, as written to Android.bp. */
  const BpContent: string :=
    "java_library {\n"
    + "    name: \"miui-framework\",\n"
    + "    installable: true,\n"
    + "    srcs: [\"core/java/**/*.java\"],\n"
    + "    sdk_version: \"current\",\n"
    + "}\n"

  /**
   * The two stub texts. The steps below take them as a parameter, so what is proved about the
   * steps holds whatever the texts are; the script writes Contents.
   */
  datatype Stubs = Stubs(java: string, bp: string)

  const Contents: Stubs := Stubs(JavaContent, BpContent)

  lemma FragmentHoldsMarker()
    ensures OccursAt(Fragment, Marker, 51)
  {
  }

  /**
   * The decision of `update_makefile` on the text it read: nothing to do when the marker occurs
   * anywhere in it, otherwise the text with the fragment appended.
   */
  function AppendFragment(content: string): (r: Option<string>)
    ensures r.None? <==> Contains(content, Marker)
    ensures r.Some? ==> |r.value| == |content| + |Fragment|
    ensures r.Some? ==> r.value[..|content|] == content && r.value[|content|..] == Fragment
    ensures r.Some? ==> Contains(r.value, Marker)
  {
    if Contains(content, Marker) then None
    else
      var n := content + Fragment;
      assert n[..|content|] == content && n[|content|..] == Fragment;
      FragmentHoldsMarker();
      ContainsInSuffix(content, Fragment, Marker, 51);
      Some(n)
  }

  /** Appending is idempotent: the appended text already holds the marker. */
  lemma AppendFragmentIdempotent(content: string)
    ensures AppendFragment(content).Some? ==> AppendFragment(AppendFragment(content).value).None?
  {
  }

  /** `update_makefile`: a missing makefile is left missing; otherwise read, decide, maybe write. */
  function UpdateMakefileRun(sys: Sys): Run {
    var p := sys.cwd + Makefile;
    if !PathExists(sys, p) then Run(sys, None)
    else
      match ReadText(sys, p)
      case Raised(e) => Run(sys, Some(e))
      case Ok(content) =>
        match AppendFragment(content)
        case None => Run(sys, None)
        case Some(n) => WriteText(sys, p, n)
  }

  /** The makefile's text after `update_makefile`, given its text before. */
  function MakefileAfter(text: string): string {
    if Contains(Newlines(text), Marker) then text else Newlines(text) + Fragment
  }

  /**
   * A missing makefile is neither created nor written; one already naming the marker is left
   * as it is and not written; any other gets the fragment after the text read; only a directory
   * in its place raises; nothing else changes.
   */
  lemma UpdateMakefileEffect(sys: Sys)
    requires WellFormed(sys)
    ensures var p := sys.cwd + Makefile;
            var r := UpdateMakefileRun(sys);
            && WellFormed(r.sys)
            && r.raised == (if p in sys.dirs then Some(IsADirectory) else None)
            && (p !in sys.files ==> r.sys == sys)
            && (p in sys.files ==> r.sys == sys.(files := sys.files[p := MakefileAfter(sys.files[p])]))
  {
    var p := sys.cwd + Makefile;
    if p in sys.files {
      assert Parent(p) in sys.dirs && p !in sys.dirs;
      if Contains(Newlines(sys.files[p]), Marker) {
        RewriteSame(sys, p);
      }
    }
  }

  /** The text read back from an appended makefile is the appended text itself, and names the marker. */
  lemma AppendedReadsBack(c: string)
    requires NoCr(c)
    ensures Newlines(c + Fragment) == c + Fragment && Contains(c + Fragment, Marker)
  {
    NoCrConcat(c, Fragment);
    FragmentHoldsMarker();
    ContainsInSuffix(c, Fragment, Marker, 51);
  }

  /** The makefile text `update_makefile` leaves names the marker, so a second update keeps it. */
  lemma MakefileAfterIdempotent(text: string)
    ensures Contains(Newlines(MakefileAfter(text)), Marker)
    ensures MakefileAfter(MakefileAfter(text)) == MakefileAfter(text)
  {
    var c := Newlines(text);
    if !Contains(c, Marker) {
      AppendedReadsBack(c);
    }
  }

  /** Running `update_makefile` a second time changes nothing. */
  lemma UpdateMakefileIdempotent(sys: Sys)
    requires WellFormed(sys)
    ensures var r := UpdateMakefileRun(sys);
            r.raised.None? ==> UpdateMakefileRun(r.sys) == Run(r.sys, None)
  {
    var p := sys.cwd + Makefile;
    var r := UpdateMakefileRun(sys);
    UpdateMakefileEffect(sys);
    if r.raised.None? && p in sys.files {
      MakefileAfterIdempotent(sys.files[p]);
      UpdateMakefileEffect(r.sys);
      RewriteSame(r.sys, p);
    }
  }

  /** The three steps before the makefile, and then the makefile; each stops the script if it raises. */
  function FixSteps(sys: Sys, st: Stubs): Run {
    var root := sys.cwd;
    var d := MakeDirs(sys, root + JavaDir);
    if d.raised.Some? then d
    else
      var j := WriteText(d.sys, root + JavaFile, st.java);
      if j.raised.Some? then j
      else
        var b := WriteText(j.sys, root + BpFile, st.bp);
        if b.raised.Some? then b
        else UpdateMakefileRun(b.sys)
  }

  /** `main`: stay if `device/xiaomi/xaga` is here, move up once if it is in the parent, else stop. */
  function MainRun(sys: Sys, st: Stubs): Run {
    if PathExists(sys, sys.cwd + DeviceDir) then FixSteps(sys, st)
    else if PathExists(sys, Parent(sys.cwd) + DeviceDir) then
      var c := ChangeDir(sys, Parent(sys.cwd));
      if c.raised.Some? then c else FixSteps(c.sys, st)
    else Run(sys, None)
  }

  /**
   * Root resolution: the steps run where the device directory is found, here or one level up,
   * and when it is in neither place the script returns before anything is created.
   */
  lemma MainResolvesRoot(sys: Sys, st: Stubs)
    requires WellFormed(sys)
    ensures var here := PathExists(sys, sys.cwd + DeviceDir);
            var up := PathExists(sys, Parent(sys.cwd) + DeviceDir);
            && (here ==> MainRun(sys, st) == FixSteps(sys, st))
            && (!here && up ==> MainRun(sys, st) == FixSteps(sys.(cwd := Parent(sys.cwd)), st))
            && (!here && !up ==> MainRun(sys, st) == Run(sys, None))
  {
  }

  /** The directories and stubs can be put in place: nothing in the way of the steps. */
  predicate LayoutAllows(sys: Sys, root: Path) {
    && (root + JavaDir in sys.dirs || (root + JavaDir !in sys.files && !Blocked(sys, root + JavaDir)))
    && root + JavaFile !in sys.dirs
    && root + BpFile !in sys.dirs
    && root + Makefile !in sys.dirs
  }

  /** Where the stub paths sit relative to the directory the first step creates. */
  lemma StubPaths(root: Path)
    ensures Parent(root + JavaFile) == root + JavaDir
    ensures Parent(root + BpFile) == (root + JavaDir)[..|root| + 4]
    ensures Parent(root + Makefile) == (root + JavaDir)[..|root| + 3]
    ensures (root + JavaDir)[..|root| + 5] != root + BpFile
    ensures (root + JavaDir)[..|root| + 4] != root + Makefile
    ensures |root + JavaFile| > |root + JavaDir|
    ensures root + JavaFile != root + BpFile && root + JavaFile != root + Makefile
    ensures root + BpFile != root + Makefile
    ensures (root + JavaDir)[..|root| + 3] == root + DeviceDir
  {
    assert root + JavaFile == (root + JavaDir) + ["ProcessManager.java"];
    assert (root + JavaDir)[..|root| + 4] == root + FrameworkDir;
    assert (root + JavaDir)[..|root| + 3] == root + DeviceDir;
    assert (root + JavaDir)[|root| + 4] == "core";
    assert (root + BpFile)[|root| + 4] == "Android.bp";
    assert (root + JavaDir)[|root| + 3] == "miuiframework";
    assert (root + Makefile)[|root| + 3] == "custom_xaga.mk";
  }

  /** The first step's directories never take the place of a path the later steps write. */
  lemma CreatedDirsAvoidStubs(sys: Sys, root: Path)
    requires WellFormed(sys)
    ensures var d := MakeDirs(sys, root + JavaDir);
            d.raised.None? ==>
              && (root + JavaFile in d.sys.dirs <==> root + JavaFile in sys.dirs)
              && (root + BpFile in d.sys.dirs <==> root + BpFile in sys.dirs)
              && (root + Makefile in d.sys.dirs <==> root + Makefile in sys.dirs)
              && Parent(root + JavaFile) in d.sys.dirs
              && Parent(root + BpFile) in d.sys.dirs
              && Parent(root + Makefile) in d.sys.dirs
  {
    var p := root + JavaDir;
    var d := MakeDirs(sys, p);
    StubPaths(root);
    if d.raised.None? && p !in sys.dirs {
      assert d.sys.dirs == sys.dirs + Ancestry(p);
      assert root + BpFile !in Ancestry(p);
      assert root + Makefile !in Ancestry(p);
    }
    assert p[..|p|] == p;
  }

  /** The paths the steps write. */
  function Written(root: Path): set<Path> {
    {root + JavaFile, root + BpFile, root + Makefile}
  }

  /** The two stub writes after a successful first step: when they succeed, and what they leave. */
  lemma StubWrites(sys: Sys, st: Stubs)
    requires WellFormed(sys)
    ensures var root := sys.cwd;
            var d := MakeDirs(sys, root + JavaDir);
            var j := WriteText(d.sys, root + JavaFile, st.java);
            var b := WriteText(j.sys, root + BpFile, st.bp);
            d.raised.None? ==>
              && WellFormed(b.sys)
              && (j.raised.None? <==> root + JavaFile !in sys.dirs)
              && (j.raised.None? ==> (b.raised.None? <==> root + BpFile !in sys.dirs))
              && (j.raised.None? && b.raised.None? ==>
                    && b.sys == d.sys.(files := sys.files[root + JavaFile := st.java][root + BpFile := st.bp])
                    && (root + Makefile in b.sys.dirs <==> root + Makefile in sys.dirs)
                    && Parent(root + Makefile) in b.sys.dirs)
  {
    CreatedDirsAvoidStubs(sys, sys.cwd);
  }

  /** The steps succeed exactly when nothing is in their way. */
  lemma FixStepsSucceeds(sys: Sys, st: Stubs)
    requires WellFormed(sys)
    ensures var r := FixSteps(sys, st);
            WellFormed(r.sys) && (r.raised.None? <==> LayoutAllows(sys, sys.cwd))
  {
    var root := sys.cwd;
    StubWrites(sys, st);
    var d := MakeDirs(sys, root + JavaDir);
    var j := WriteText(d.sys, root + JavaFile, st.java);
    var b := WriteText(j.sys, root + BpFile, st.bp);
    if d.raised.None? && j.raised.None? && b.raised.None? {
      UpdateMakefileEffect(b.sys);
    }
  }

  /** The file table after the steps succeeded: both stubs written, then the makefile updated. */
  function FilesAfter(files: map<Path, string>, root: Path, st: Stubs): map<Path, string> {
    var stubbed := files[root + JavaFile := st.java][root + BpFile := st.bp];
    var mk := root + Makefile;
    if mk in stubbed then stubbed[mk := MakefileAfter(stubbed[mk])] else stubbed
  }

  /**
   * After the steps succeeded the working directory is unchanged, the only directories added are
   * the Java directory and its ancestors, and the files are FilesAfter of those before.
   */
  lemma FixStepsEffect(sys: Sys, st: Stubs)
    requires WellFormed(sys)
    ensures var root := sys.cwd;
            var r := FixSteps(sys, st);
            r.raised.None? ==>
              r.sys == Sys(FilesAfter(sys.files, root, st), sys.dirs + Ancestry(root + JavaDir), root)
  {
    var root := sys.cwd;
    var r := FixSteps(sys, st);
    if r.raised.None? {
      StubWrites(sys, st);
      var d := MakeDirs(sys, root + JavaDir);
      var j := WriteText(d.sys, root + JavaFile, st.java);
      var b := WriteText(j.sys, root + BpFile, st.bp);
      UpdateMakefileEffect(b.sys);
    }
  }

  /**
   * The stubs hold exactly their texts whatever they held before, an existing makefile is as
   * `update_makefile` leaves it, no other file changes and no file other than the stubs appears.
   */
  lemma FilesAfterEntries(files: map<Path, string>, root: Path, st: Stubs)
    ensures var m := FilesAfter(files, root, st);
            && m.Keys == files.Keys + {root + JavaFile, root + BpFile}
            && m[root + JavaFile] == st.java
            && m[root + BpFile] == st.bp
            && (root + Makefile in files ==> m[root + Makefile] == MakefileAfter(files[root + Makefile]))
            && forall x :: x in files && x !in Written(root) ==> m[x] == files[x]
  {
    StubPaths(root);
    UpdatedElsewhere(files, root + JavaFile, root + BpFile, st.java, st.bp, root + Makefile);
  }

  /** Once the Java directory exists and the stubs hold their texts, the three stub steps are no-ops. */
  lemma StubStepsSettled(s: Sys, st: Stubs)
    requires WellFormed(s) && s.cwd + JavaDir in s.dirs
    requires s.cwd + JavaFile in s.files && s.files[s.cwd + JavaFile] == st.java
    requires s.cwd + BpFile in s.files && s.files[s.cwd + BpFile] == st.bp
    ensures MakeDirs(s, s.cwd + JavaDir) == Run(s, None)
    ensures WriteText(s, s.cwd + JavaFile, st.java) == Run(s, None)
    ensures WriteText(s, s.cwd + BpFile, st.bp) == Run(s, None)
  {
    RewriteSame(s, s.cwd + JavaFile);
    RewriteSame(s, s.cwd + BpFile);
  }

  /** Running the steps again after they succeeded changes nothing. */
  lemma FixStepsIdempotent(sys: Sys, st: Stubs)
    requires WellFormed(sys)
    ensures var r := FixSteps(sys, st);
            r.raised.None? ==> FixSteps(r.sys, st) == Run(r.sys, None)
  {
    var r := FixSteps(sys, st);
    FixStepsSucceeds(sys, st);
    FixStepsEffect(sys, st);
    FilesAfterEntries(sys.files, sys.cwd, st);
    if r.raised.None? {
      var root := sys.cwd;
      var d := MakeDirs(sys, root + JavaDir);
      var j := WriteText(d.sys, root + JavaFile, st.java);
      var b := WriteText(j.sys, root + BpFile, st.bp);
      assert r == UpdateMakefileRun(b.sys);
      UpdateMakefileIdempotent(b.sys);
      StubStepsSettled(r.sys, st);
    }
  }

  /** The device directory under a child of root is none of the paths the steps under root create. */
  lemma ChildDeviceDirNotCreated(root: Path, child: Path)
    requires |child| == |root| + 1 && child[..|root|] == root
    ensures child + DeviceDir !in Ancestry(root + JavaDir)
    ensures child + DeviceDir != root + JavaFile && child + DeviceDir != root + BpFile
  {
    var here := child + DeviceDir;
    assert here[|root| + 1] == "device" && (root + JavaDir)[|root| + 1] == "xiaomi";
    assert |here| == |root| + 4 && |root + JavaFile| == |root| + 9 && |root + BpFile| == |root| + 5;
  }

  /** What a successful run of the steps adds: the two stubs and the Java directory's ancestry. */
  lemma FixStepsFootprint(sys: Sys, st: Stubs)
    requires WellFormed(sys)
    ensures var r := FixSteps(sys, st);
            r.raised.None? ==>
              && WellFormed(r.sys) && r.sys.cwd == sys.cwd
              && r.sys.files.Keys == sys.files.Keys + {sys.cwd + JavaFile, sys.cwd + BpFile}
              && r.sys.dirs == sys.dirs + Ancestry(sys.cwd + JavaDir)
  {
    FixStepsSucceeds(sys, st);
    FixStepsEffect(sys, st);
    FilesAfterEntries(sys.files, sys.cwd, st);
  }

  /** A path that is none of the added ones stays absent. */
  lemma AbsentStaysAbsent(sys: Sys, t: Sys, p: Path, a: Path, b: Path, added: set<Path>)
    requires !PathExists(sys, p) && p != a && p != b && p !in added
    requires t.files.Keys == sys.files.Keys + {a, b} && t.dirs == sys.dirs + added
    ensures !PathExists(t, p)
  {
    assert p !in t.files.Keys;
  }

  /**
   * Adding the stubs and the Java directory's ancestry under the parent leaves the starting
   * directory in place and still without a device directory; the parent's one now exists.
   */
  lemma ChildAfterParentSteps(sys: Sys, t: Sys)
    requires sys.cwd in sys.dirs && sys.cwd != [] && !PathExists(sys, sys.cwd + DeviceDir)
    requires var pc := Parent(sys.cwd);
             && t.files.Keys == sys.files.Keys + {pc + JavaFile, pc + BpFile}
             && t.dirs == sys.dirs + Ancestry(pc + JavaDir)
    ensures var pc := Parent(sys.cwd);
            && sys.cwd in t.dirs && pc + DeviceDir in t.dirs
            && !PathExists(t, sys.cwd + DeviceDir)
  {
    var pc := Parent(sys.cwd);
    assert pc + DeviceDir in t.dirs by {
      assert (pc + JavaDir)[..|pc| + 3] == pc + DeviceDir;
    }
    assert !PathExists(t, sys.cwd + DeviceDir) by {
      ChildDeviceDirNotCreated(pc, sys.cwd);
      AbsentStaysAbsent(sys, t, sys.cwd + DeviceDir, pc + JavaFile, pc + BpFile, Ancestry(pc + JavaDir));
    }
  }

  /**
   * From a child of a settled build top that has no device directory of its own, the script
   * moves up and every step is a no-op.
   */
  lemma SettledRerunFromChild(t: Sys, child: Path, st: Stubs)
    requires WellFormed(t) && child in t.dirs && child != [] && Parent(child) == t.cwd
    requires FixSteps(t, st) == Run(t, None)
    requires t.cwd + DeviceDir in t.dirs && !PathExists(t, child + DeviceDir)
    ensures MainRun(t.(cwd := child), st) == Run(t, None)
  {
    var s2 := t.(cwd := child);
    assert s2.(cwd := t.cwd) == t;
    MainResolvesRoot(s2, st);
  }

  /**
   * In the branch that moves up, the first run leaves a settled build top in the parent and
   * still no device directory in the starting directory.
   */
  lemma FirstRunFromChild(sys: Sys, st: Stubs)
    requires WellFormed(sys) && sys.cwd != []
    requires !PathExists(sys, sys.cwd + DeviceDir)
    ensures var pc := Parent(sys.cwd);
            var r := FixSteps(sys.(cwd := pc), st);
            r.raised.None? ==>
              && WellFormed(r.sys) && r.sys.cwd == pc
              && sys.cwd in r.sys.dirs && pc + DeviceDir in r.sys.dirs
              && !PathExists(r.sys, sys.cwd + DeviceDir)
  {
    var up := sys.(cwd := Parent(sys.cwd));
    var r := FixSteps(up, st);
    if r.raised.None? {
      FixStepsFootprint(up, st);
      ChildAfterParentSteps(sys, r.sys);
    }
  }

  /**
   * In the branch that moves up: a second invocation from the same directory again finds no
   * device directory there, moves up again and finds every step settled.
   */
  lemma RerunFromChild(sys: Sys, st: Stubs)
    requires WellFormed(sys) && sys.cwd != []
    requires !PathExists(sys, sys.cwd + DeviceDir)
    ensures var r := FixSteps(sys.(cwd := Parent(sys.cwd)), st);
            r.raised.None? ==> MainRun(r.sys.(cwd := sys.cwd), st) == Run(r.sys, None)
  {
    var up := sys.(cwd := Parent(sys.cwd));
    var r := FixSteps(up, st);
    if r.raised.None? {
      FirstRunFromChild(sys, st);
      FixStepsIdempotent(up, st);
      SettledRerunFromChild(r.sys, sys.cwd, st);
    }
  }

  /**
   * Invoking the whole script a second time, from the directory the first invocation started in,
   * after it succeeded changes nothing: the second run resolves the same build top and every step
   * is then a no-op.
   */
  lemma MainIdempotent(sys: Sys, st: Stubs)
    requires WellFormed(sys)
    ensures var r := MainRun(sys, st);
            r.raised.None? ==> MainRun(r.sys.(cwd := sys.cwd), st) == Run(r.sys, None)
  {
    var r := MainRun(sys, st);
    MainResolvesRoot(sys, st);
    if r.raised.None? {
      if PathExists(sys, sys.cwd + DeviceDir) {
        FixStepsEffect(sys, st);
        FilesAfterEntries(sys.files, sys.cwd, st);
        StubPaths(sys.cwd);
        FixStepsIdempotent(sys, st);
      } else if PathExists(sys, Parent(sys.cwd) + DeviceDir) {
        RerunFromChild(sys, st);
      }
    }
  }

  // ---------------------------------------------------------------------------
  // The script's functions, on the machine in place

  /** `create_directory_structure` */
  method CreateDirectoryStructure(fs: FileSystem) returns (raised: Option<IoError>)
    modifies fs
    ensures Run(fs.View(), raised) == MakeDirs(old(fs.View()), old(fs.cwd) + JavaDir)
  {
    raised := fs.Makedirs(fs.cwd + JavaDir);
  }

  /** `create_java_file` */
  method CreateJavaFile(fs: FileSystem) returns (raised: Option<IoError>)
    modifies fs
    ensures Run(fs.View(), raised) == WriteText(old(fs.View()), old(fs.cwd) + JavaFile, JavaContent)
  {
    raised := fs.Write(fs.cwd + JavaFile, JavaContent);
  }

  /** `create_bp_file` */
  method CreateBpFile(fs: FileSystem) returns (raised: Option<IoError>)
    modifies fs
    ensures Run(fs.View(), raised) == WriteText(old(fs.View()), old(fs.cwd) + BpFile, BpContent)
  {
    raised := fs.Write(fs.cwd + BpFile, BpContent);
  }

  /** `update_makefile` */
  method UpdateMakefile(fs: FileSystem) returns (raised: Option<IoError>)
    modifies fs
    ensures Run(fs.View(), raised) == UpdateMakefileRun(old(fs.View()))
  {
    var p := fs.cwd + Makefile;
    var present := fs.Exists(p);
    if !present {
      return None;
    }
    var read := fs.Read(p);
    if read.Raised? {
      return Some(read.error);
    }
    var appended := AppendFragment(read.value);
    if appended.None? {
      return None;
    }
    raised := fs.Write(p, appended.value);
  }

  /** `main` */
  method Fix(fs: FileSystem) returns (raised: Option<IoError>)
    modifies fs
    ensures Run(fs.View(), raised) == MainRun(old(fs.View()), Contents)
  {
    var here := fs.Exists(fs.cwd + DeviceDir);
    if !here {
      var up := fs.Exists(Parent(fs.cwd) + DeviceDir);
      if !up {
        return None;
      }
      raised := fs.Chdir(Parent(fs.cwd));
      if raised.Some? {
        return;
      }
    }
    raised := CreateDirectoryStructure(fs);
    if raised.Some? {
      return;
    }
    raised := CreateJavaFile(fs);
    if raised.Some? {
      return;
    }
    raised := CreateBpFile(fs);
    if raised.Some? {
      return;
    }
    raised := UpdateMakefile(fs);
  }
}
