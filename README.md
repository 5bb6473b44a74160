# Pixelos patch scripts, modelled in Dafny

Three Python scripts patch an Android tree before a PixelOS build for the Xiaomi `xaga` device:

- `scripts/fix_miui_camera.py` finds the repository root. It creates the `miuiframework` stub package: a directory, `ProcessManager.java` and `Android.bp`. It then adds `miui-framework` to `device/xiaomi/xaga/custom_xaga.mk` unless the makefile already names it.
- `scripts/fixes/fix_imms.py` moves to the build top. It rewrites `InputMethodManagerService.java` with nine substitutions that stub out `LineageHardwareManager`.
- `scripts/fixes/fix_sense_biometrics.py` moves to the build top. It rewrites `FaceService.java` (five substitutions, the last one deleting the whole `getSenseProviders()` method) and `AuthService.java` (two substitutions). Each file is patched independently.

The model has these parts:

| file | module | what it holds |
|---|---|---|
| `text.dfy` | `Text` | Python's `\s` (`str.isspace`), whitespace runs, substring occurrence and `in`. |
| `pipeline.dfy` | `Pipeline` | Running a sequence of steps in order, each on the previous output, and how runs compose. |
| `regex.dfy` | `Regex` | The four pattern shapes the scripts use, matched with Python's backtracking semantics. |
| `files.dfy` | `Files` | The machine state: files, directories and the working directory. |
| `rewrite.dfy` | `Rewrite` | The guarded read–substitute–write shape both fix scripts share. |
| `fix_imms.dfy` | `FixImms` | The IMMS script. |
| `fix_sense_biometrics.dfy` | `FixSense` | The biometrics script. |
| `fix_miui_camera.dfy` | `FixCamera` | The camera script. |

More detail on four of them:

- `Regex`:
  - the four shapes are an escaped literal, `\s*` then a literal, a literal then `\s*` then a literal, and the lazy block `\n\s*H[\s\S]*?\n\s{8}\}`;
  - `re.sub` / `str.replace` is a left-to-right scan, proved equal to a search-and-splice reference definition;
  - the rules of a pipeline are a sequence of pattern/replacement pairs.
- `Files`:
  - the machine state is files (path to text), directories and the working directory;
  - each file operation is a function giving the next state and the exception raised, if any; `os.path.exists`, `open(..., "r").read()`, `open(..., "w").write`, `os.makedirs(..., exist_ok=True)` and `os.chdir` are modelled;
  - a class `FileSystem` performs the same operations in place.
- The three script modules each hold:
  - the script's constants;
  - a function giving the whole run of `main`;
  - the lemmas about that function;
  - a method `Fix` that performs `main` on a `FileSystem` and is proved to agree with the function.
- Paths are sequences of components. A relative path in a script is the working directory followed by its components.

A raised exception ends the script, because none of the scripts catches one. So every run stops at the first step that raises.

The two rewrite scripts write each existing target back unconditionally, whether or not its content changed; `Rewrite.GuardedRewriteEffect` states this. The camera script always overwrites its two stubs, whether or not they exist, and writes the makefile only when the marker is absent; `FixCamera.FilesAfterEntries` and `FixCamera.UpdateMakefileEffect` state this. The only reporting is through `print`.

The camera script is idempotent (`FixCamera.MainIdempotent`): invoked a second time from the directory the first invocation started in, it changes nothing. This covers the case where the first invocation moved up from `scripts/`, because `os.chdir` changes only that process's working directory. The two rewrite scripts are not, in general: deleting an import line can join the text around it into the same import line, which a second run then deletes. `FixSense.AuthNotIdempotent` proves this for the whole AuthService pipeline, and `FixImms.ImportStepNotIdempotent` proves it for the IMMS import step.

## Model

| member | source | states |
|---|---|---|
| Text.IsSpace | scripts/fixes/fix_imms.py:17-18 | No contract of its own: Python's `\s` on text, the characters for which `str.isspace()` holds; Text.RunEnd and the greedy lemmas use it. |
| Text.Contains | scripts/fix_miui_camera.py:91 | No contract of its own: Python's `x in s` on strings, some index where x occurs; Regex.LitNoMatchIffAbsent ties it to the literal patterns and FixCamera.AppendFragment to the makefile guard. |
| Text.RunEnd | scripts/fixes/fix_imms.py:17-18 | A greedy `\s*` started at k first takes exactly the maximal whitespace run: every character up to the end is whitespace, and the next one is not. |
| Text.RunEndAt | scripts/fixes/fix_imms.py:17-18 | A whitespace run from k to a non-space at e is taken whole: the greedy run ends exactly at e. |
| Text.ContainsWithin | scripts/fixes/fix_imms.py:16-24 | Containment is transitive: whatever contains m contains everything that m contains. |
| Pipeline.RunAllAppend | scripts/fixes/fix_imms.py:16-24 | Running steps a then b is running a + b: consecutive rebinding of `content` composes in source order. |
| Pipeline.RunAllFixed | scripts/fixes/fix_imms.py:16-24 | If every step leaves a string alone, the whole sequence leaves it alone. |
| Regex.CloseFrom | scripts/fixes/fix_sense_biometrics.py:20 | The lazy `[\s\S]*?\n\s{8}\}` ends just past the first closer at or after k, and has no closer before it; it fails only when no closer follows. |
| Regex.Scan | scripts/fixes/fix_imms.py:16-24 | No contract of its own: the left-to-right scanning loop of `re.sub`; Regex.ScanIsSubstitute proves it equal to the search-and-splice definition. |
| Regex.ReplaceAll | scripts/fixes/fix_sense_biometrics.py:16-20 | No contract of its own: `re.sub(p, rep, s)`, and `s.replace(x, rep)` for a literal; Regex.ReplaceAllNoMatch, Regex.ReplaceAllAtLeftmost and the shape lemmas state it. |
| Regex.MatchLen | scripts/fixes/fix_imms.py:16-24 | Every match of a shape the script uses is non-empty and lies inside the text. |
| Regex.FirstMatch | scripts/fixes/fix_imms.py:16-24 | `re.search`: the returned index starts a match and no earlier index does; None means no index starts one. |
| Regex.ScanCopiesGap | scripts/fixes/fix_imms.py:16-24 | Text before the first match start is copied verbatim and in order. |
| Regex.ScanAtLeftmost | scripts/fixes/fix_imms.py:16-24 | The leftmost match is replaced by the replacement, and scanning resumes right after the match (non-overlapping). |
| Regex.ScanIsSubstitute | scripts/fixes/fix_imms.py:16-24 | The left-to-right scan equals the reference reading of `re.sub`: splice at the leftmost match, continue after it. |
| Regex.ReplaceAllNoMatch | scripts/fixes/fix_imms.py:16-24 | A step whose pattern matches nowhere is the identity. |
| Regex.ReplaceAllAtLeftmost | scripts/fixes/fix_imms.py:16-24 | At the leftmost match the text before it is kept, the match becomes the replacement, and the rest is substituted afresh. |
| Regex.LitNoMatchIffAbsent | scripts/fixes/fix_sense_biometrics.py:18-19 | A literal pattern matches nowhere exactly when the literal does not occur (both directions). |
| Regex.LitAbsentIdentity | scripts/fixes/fix_sense_biometrics.py:18-19 | `str.replace` / an escaped `re.sub` of an absent literal returns the text unchanged. |
| Regex.LitFirstOccurrence | scripts/fixes/fix_sense_biometrics.py:16-19 | The first occurrence of a literal is replaced together with exactly its own characters; the text before it is kept. |
| Regex.GreedyWholeRun | scripts/fixes/fix_imms.py:17-18 | A greedy `\s*` followed by a tail that starts with a non-space never gives back part of the run: the match is decided at the run's end. |
| Regex.SpacesLitTakesWholeRun | scripts/fixes/fix_imms.py:17-18 | `\s*x` replaces the entire whitespace run before the first x, together with x, when the text before the run does not end in whitespace. |
| Regex.LitSpacesLitAcceptsAnyRun | scripts/fixes/fix_imms.py:19-20 | `h\s*x` matches h, any whitespace run (newlines included), then x, with exactly that length. |
| Regex.LitSpacesLitMatchShape | scripts/fixes/fix_imms.py:19-20 | The converse: every `h\s*x` match is h, then the whole whitespace run after it, then x, and its length is the end of that run plus the length of x. |
| Regex.LitSpacesLitNoneWithoutHead | scripts/fixes/fix_imms.py:19-20 | No `h\s*x` match starts in any part of the text that lacks the first character of h. |
| Regex.LitSpacesLitReplacedFirst | scripts/fixes/fix_imms.py:19-20 | At the first match, the match becomes the replacement, whatever whitespace it holds. The text before it is kept even when it holds h followed by something other than x. The text after it is substituted afresh. |
| Regex.LitSpacesLitReplacedAfter | scripts/fixes/fix_imms.py:19-20 | The same result after a prefix where no match starts at its head and no first character of h occurs later. |
| Regex.BlockMatchShape | scripts/fixes/fix_sense_biometrics.py:20 | Every block match has this layout: a newline, the whole whitespace run, the header, then a body that ends at the first closer after the header. |
| Regex.BlockRemovedToFirstCloser | scripts/fixes/fix_sense_biometrics.py:20 | The block rule removes newline, indentation, header and body up to the first closer. The text before is kept (it may end in blanks or tabs, as long as no newline sits in its trailing whitespace), and everything after the closing brace is substituted as if the block had not been there. |
| Regex.BlockWithoutCloserIsIdentity | scripts/fixes/fix_sense_biometrics.py:20 | With no closer after any occurrence of the header, the block rule matches nowhere and changes nothing. |
| Regex.MatchHoldsKey | scripts/fixes/fix_imms.py:16-24 | Every match of a pattern contains the pattern's key literal. |
| Regex.AbsentKeyNoMatch | scripts/fixes/fix_imms.py:16-24 | A pattern whose key literal is absent matches nowhere. |
| Regex.Apply | scripts/fixes/fix_imms.py:16-24 | No contract of its own: one `content = re.sub(...)` rebinding. |
| Regex.ApplyRules | scripts/fixes/fix_imms.py:16-24 | No contract of its own: the rebindings in source order; Regex.ApplyRulesAppend and Regex.ApplyRulesNoMatch state it. |
| Regex.ApplyRulesAppend | scripts/fixes/fix_imms.py:16-24 | Applying rules a + b is applying b to the output of a. |
| Regex.ApplyRulesNoMatch | scripts/fixes/fix_imms.py:16-24 | A buffer none of the patterns matches comes out of the whole pipeline unchanged. |
| Files.Newlines | scripts/fixes/fix_imms.py:14-15 | Text-mode reading leaves no carriage return, never lengthens the text, and leaves text without `\r` as it is. |
| Rewrite.NewlinesTranslate | scripts/fixes/fix_imms.py:14-15 | Universal newlines are exactly `\r\n` replaced by `\n` and then every remaining `\r` replaced by `\n`, for every text. |
| Files.PathExists | scripts/fixes/fix_imms.py:12 | No contract of its own: `os.path.exists` holds for a file or a directory; Files.FileSystem.Exists answers it. |
| Files.ReadText | scripts/fixes/fix_imms.py:14-15 | Reading succeeds exactly on an existing file that is not a directory, and yields exactly its text with universal newlines applied (Newlines, pinned by Rewrite.NewlinesTranslate). |
| Files.WriteText | scripts/fixes/fix_imms.py:25-26 | Writing succeeds exactly when the path is not a directory and its directory exists. It then creates or truncates the file with exactly the text; otherwise nothing changes. |
| Files.MakeDirs | scripts/fix_miui_camera.py:14 | Succeeds exactly when the path is a directory already, or is not a file and has no file among its ancestors. On success the directories become exactly the old ones plus the path and all its ancestors; no file changes and the working directory stays. When the directory already exists nothing changes; when it raises nothing changes. |
| Files.ChangeDir | scripts/fixes/fix_imms.py:10 | `os.chdir` succeeds exactly on a directory and then changes only the working directory; otherwise nothing changes. |
| Files.RewriteSame | scripts/fixes/fix_imms.py:25-26 | Writing a file's own content back leaves the machine as it was. |
| Files.FileSystem.Exists | scripts/fixes/fix_imms.py:12 | Answers `os.path.exists` on the current state. |
| Files.FileSystem.Read | scripts/fixes/fix_imms.py:14-15 | Returns what ReadText gives on the current state. |
| Files.FileSystem.Write | scripts/fixes/fix_imms.py:25-26 | Leaves the state and exception that WriteText gives. |
| Files.FileSystem.Makedirs | scripts/fix_miui_camera.py:14 | Leaves the state and exception that MakeDirs gives. |
| Files.FileSystem.Chdir | scripts/fix_miui_camera.py:111 | Leaves the state and exception that ChangeDir gives. |
| Rewrite.GuardedRewrite | scripts/fixes/fix_imms.py:12-26 | No contract of its own: `if os.path.exists(p)`, read, substitute, write; Rewrite.GuardedRewriteEffect states it. |
| Rewrite.GuardedRewriteEffect | scripts/fixes/fix_imms.py:12-26 | A missing file is neither read nor created. A present one is written back unconditionally with the rules' output on its text; only a directory in its place raises; nothing else changes. |
| Rewrite.GuardedRewriteKeeps | scripts/fixes/fix_imms.py:25-26 | A file the rules leave alone, without carriage returns, is written back byte-identical, so the machine is unchanged. |
| Rewrite.PatchedEntries | scripts/fixes/fix_imms.py:25-26 | Patching one path keeps the set of files and every other entry; the patched entry holds the rules' output. |
| FixImms.Rules | scripts/fixes/fix_imms.py:16-24 | The nine patterns and replacements, in source order; FixImms.KeysMentionHardware states that each is valid and names `LineageHardware`. |
| FixImms.MainRun | scripts/fixes/fix_imms.py:8-26 | No contract of its own: `main` as a whole run; FixImms.MainEffect states it. |
| FixImms.Patch | scripts/fixes/fix_imms.py:16-24 | The nine rebindings of `content` give the nine rules applied in source order. |
| FixImms.Fix | scripts/fixes/fix_imms.py:8-26 | On the machine in place, `main` leaves exactly the state and exception MainRun gives. |
| FixImms.MainEffect | scripts/fixes/fix_imms.py:9-26 | If the build top is not a directory the script raises and changes nothing. Otherwise it moves there. A missing service file is neither read nor created. Only a directory in its place raises, and then the move is the only change. A present one is written back unconditionally with the nine steps' output; nothing else changes. |
| FixImms.KeysMentionHardware | scripts/fixes/fix_imms.py:16-24 | Every one of the nine patterns is well formed and its key literal contains `LineageHardware`. |
| FixImms.CleanSourceUnchanged | scripts/fixes/fix_imms.py:16-24 | A source that never mentions `LineageHardware` (so holds none of the nine patterns) comes out of the pipeline unchanged. |
| FixImms.StatementRemovedWithLeadingRun | scripts/fixes/fix_imms.py:17-18 | The field declaration and the assignment are removed with the whole whitespace run before them and their newline. One `\n` replaces all of it. |
| FixImms.QueryAcceptsAnyRun | scripts/fixes/fix_imms.py:19-20 | The polling-rate and sensitivity queries match with any whitespace, newlines included, after `(`. At the first match the query becomes `false`, the text before it is kept, and the rest is substituted afresh. |
| FixImms.OtherQueryNoMatch | scripts/fixes/fix_imms.py:19-21 | `mLineageHardware.isSupported(`, any whitespace, then the hovering feature is not a match of the polling-rate or the sensitivity step. |
| FixImms.QueryAfterHoveringQuery | scripts/fixes/fix_imms.py:19-21 | When a hovering query and `;` come before a polling-rate or sensitivity query, the step keeps the hovering query and turns the later query into `false`. |
| FixImms.ImportStepNotIdempotent | scripts/fixes/fix_imms.py:16 | The import step is not idempotent: on `i`, the import line, then the import line without its `i`, one application leaves the import line and a second leaves nothing. |
| FixImms.HoveringNeedsNoSpace | scripts/fixes/fix_imms.py:21 | The hovering query does not match when whitespace follows `(`. |
| FixImms.LiteralStepReplacesFirst | scripts/fixes/fix_imms.py:16-24 | In each literal step (import line, hovering query, the three `set` calls) the first occurrence becomes the step's fixed text, the text before it is kept, and the rest is substituted afresh. |
| FixSense.FaceRules | scripts/fixes/fix_sense_biometrics.py:16-20 | FaceService's five patterns and replacements, in source order; FixSense.KeysMentionSense states that each is valid and names `Sense`. |
| FixSense.AuthRules | scripts/fixes/fix_sense_biometrics.py:29-30 | AuthService's two patterns and replacements; FixSense.AuthUntouchedWithoutTargets states what they can change. |
| FixSense.MainRun | scripts/fixes/fix_sense_biometrics.py:8-33 | No contract of its own: `main` as a whole run; FixSense.MainEffect states it. |
| FixSense.PatchFace | scripts/fixes/fix_sense_biometrics.py:16-20 | The five rebindings of FaceService's `content` give its five rules applied in source order. |
| FixSense.PatchAuth | scripts/fixes/fix_sense_biometrics.py:29-30 | The two rebindings of AuthService's `content` give its two rules applied in order. |
| FixSense.Fix | scripts/fixes/fix_sense_biometrics.py:8-33 | On the machine in place, `main` leaves exactly the state and exception MainRun gives. |
| FixSense.MainEffect | scripts/fixes/fix_sense_biometrics.py:9-33 | If the build top is not a directory the script raises and changes nothing. Otherwise each service present is rewritten with its own pipeline's output, whether or not the other exists; a missing one is not created. Only a directory in place of a service raises, and one in place of FaceService stops the script before any write. No other file changes. |
| FixSense.KeysMentionSense | scripts/fixes/fix_sense_biometrics.py:16-20 | Every FaceService pattern is well formed and its key literal contains `Sense`. |
| FixSense.CleanFaceUnchanged | scripts/fixes/fix_sense_biometrics.py:16-20 | FaceService text that never mentions `Sense` comes out of its five steps unchanged. |
| FixSense.CleanAuthUnchanged | scripts/fixes/fix_sense_biometrics.py:29-30 | AuthService text that never mentions `Sense` comes out of its two steps unchanged. |
| FixSense.AuthUntouchedWithoutTargets | scripts/fixes/fix_sense_biometrics.py:29-30 | AuthService changes only through its two targets: text holding neither the SenseUtils import line nor a `canUseProvider()` call comes out unchanged. |
| FixSense.LiteralStepReplacesFirst | scripts/fixes/fix_sense_biometrics.py:16-19 | In each literal FaceService step, the first occurrence becomes the step's text and the text before it is kept. The import lines go with their newline, the call becomes `false`, and the `addAll` call becomes the comment. |
| FixSense.AuthNotIdempotent | scripts/fixes/fix_sense_biometrics.py:29-30 | The AuthService pipeline is not idempotent: one pass over `i`, the SenseUtils import line, then that line without its `i` leaves the import line, and a second pass leaves nothing. |
| FixSense.HeaderStartsSolid | scripts/fixes/fix_sense_biometrics.py:20 | The block step deletes (empty replacement) and its header starts with a non-space, as the block lemmas require. |
| FixSense.BlockStepRemovesMethod | scripts/fixes/fix_sense_biometrics.py:20 | The block step removes `getSenseProviders()` from the newline before its indentation to the first closer after the header. The text before is kept and the text after the brace is substituted afresh. |
| FixSense.BlockStepCutsMethod | scripts/fixes/fix_sense_biometrics.py:20 | When the header does not occur after the method, the block step's whole effect is the method cut out: the text before and after it joined unchanged. |
| FixSense.BlockStepWithoutHeader | scripts/fixes/fix_sense_biometrics.py:20 | Without the header the block step is the identity. |
| FixSense.BlockStepWithoutCloser | scripts/fixes/fix_sense_biometrics.py:20 | With the header present but no closer after it, nothing matches and the header stays. |
| FixCamera.AppendFragment | scripts/fix_miui_camera.py:91-97 | Nothing is appended exactly when the marker occurs in the text read. Otherwise the result is that text followed by exactly the fragment, so the old text is a prefix, and the result names the marker. |
| FixCamera.AppendFragmentIdempotent | scripts/fix_miui_camera.py:91-97 | Appending to an appended text does nothing: the fragment holds the marker. |
| FixCamera.UpdateMakefileRun | scripts/fix_miui_camera.py:81-101 | No contract of its own: `update_makefile` as a run; FixCamera.UpdateMakefileEffect and FixCamera.UpdateMakefileIdempotent state it. |
| FixCamera.UpdateMakefileEffect | scripts/fix_miui_camera.py:84-100 | A missing makefile is neither created nor written, and one already naming the marker is left as it is. Any other gets the fragment after the text read. Only a directory in its place raises; nothing else changes. |
| FixCamera.MakefileAfterIdempotent | scripts/fix_miui_camera.py:91-97 | The updated makefile text names the marker, so updating it again gives the same text. |
| FixCamera.UpdateMakefileIdempotent | scripts/fix_miui_camera.py:81-101 | Running `update_makefile` a second time after it succeeded changes nothing. |
| FixCamera.MainRun | scripts/fix_miui_camera.py:103-120 | No contract of its own: `main` as a whole run; FixCamera.MainResolvesRoot and FixCamera.MainIdempotent state it. |
| FixCamera.FixSteps | scripts/fix_miui_camera.py:117-120 | No contract of its own: the four steps in order, stopping at the first that raises; FixCamera.FixStepsSucceeds and FixCamera.FixStepsEffect state it. |
| FixCamera.MainResolvesRoot | scripts/fix_miui_camera.py:108-115 | With `device/xiaomi/xaga` here the steps run here. Otherwise, if it is in the parent, they run after moving up exactly once. Otherwise the script returns with nothing created. |
| FixCamera.FixStepsSucceeds | scripts/fix_miui_camera.py:117-120 | The four steps, run in order and stopping at the first that raises, succeed exactly when nothing is in their way. |
| FixCamera.FixStepsEffect | scripts/fix_miui_camera.py:117-120 | After success the working directory is unchanged, the directories are the old ones plus exactly the Java directory and its ancestors, and the files are FilesAfter of those before. |
| FixCamera.FilesAfterEntries | scripts/fix_miui_camera.py:66-100 | Both stubs hold exactly their texts, whatever they held before, and the makefile is as `update_makefile` leaves it. No other file changes, and no file other than the stubs appears. |
| FixCamera.StubStepsSettled | scripts/fix_miui_camera.py:12-79 | Once the directory exists and the stubs hold their texts, the directory and stub steps change nothing. |
| FixCamera.FixStepsIdempotent | scripts/fix_miui_camera.py:117-120 | Running the steps again after they succeeded changes nothing. |
| FixCamera.FixStepsFootprint | scripts/fix_miui_camera.py:117-120 | A successful run of the four steps adds exactly the two stub files and the ancestry of the Java directory, keeps the working directory and stays well formed. |
| FixCamera.FirstRunFromChild | scripts/fix_miui_camera.py:108-120 | After moving up and running the steps in the parent, the starting directory still exists and still has no `device/xiaomi/xaga`, while the parent now has one. |
| FixCamera.RerunFromChild | scripts/fix_miui_camera.py:108-120 | After a first invocation that moved up, a second invocation from the same starting directory moves up again and leaves the state exactly as the first one left it. |
| FixCamera.MainIdempotent | scripts/fix_miui_camera.py:103-120 | A second invocation from the directory the first one started in, after the first succeeded, raises nothing and ends in exactly the first invocation's final state: files, directories and working directory. |
| FixCamera.CreateDirectoryStructure | scripts/fix_miui_camera.py:12-14 | Leaves the state and exception of `os.makedirs` on the Java directory. |
| FixCamera.CreateJavaFile | scripts/fix_miui_camera.py:16-67 | Leaves the state and exception of writing the stub class to `ProcessManager.java`. |
| FixCamera.CreateBpFile | scripts/fix_miui_camera.py:69-79 | Leaves the state and exception of writing the module to `Android.bp`. |
| FixCamera.UpdateMakefile | scripts/fix_miui_camera.py:81-101 | Leaves exactly the state and exception UpdateMakefileRun gives. |
| FixCamera.Fix | scripts/fix_miui_camera.py:103-120 | On the machine in place, `main` leaves exactly the state and exception MainRun gives with the script's stub texts. |

## Left out

- Output: `print` messages are not modelled, and the scripts have no exit codes to model.
- Python's `re` module in general: only the four pattern shapes the scripts use are matched. `Regex.MatchLen` holds their semantics, and its own contract states only that a match is non-empty and inside the text; its meaning is given by the lemmas above.
- Encoding: files are modelled as decoded text. UTF-8 decoding and encoding, and a decode error on read, are not modelled. Reading applies universal newlines; writing translates nothing, as on POSIX.
- `ANDROID_BUILD_TOP` and `os.getcwd()` are inputs. The environment variable is the parameter `top: Option<Path>`; the working directory is part of the state.
- Paths: paths are absolute component lists, and `..` is the parent directory. Symbolic links, permissions and other OS errors (`PermissionError`, a full disk) are not modelled. Only the exceptions of a missing path, a directory, a file in the path and an existing file are.
- Concurrency: another process changing the tree while a script runs is not modelled.
- The stub bodies: the Java and Soong meaning of `ProcessManager.java` and `Android.bp` is not modelled. `FixCamera.FixSteps` and `FixCamera.MainRun` take the two texts as the parameter `st`, so their lemmas hold for any texts. `FixCamera.Fix` writes the script's own texts, `FixCamera.Contents`.
- Regex.Apply: a pattern outside the four modelled shapes, such as an empty literal (for which Python inserts the replacement at every position), is taken as the identity; none of the scripts' rules is such a pattern, as each script's `RulesValid` shows.
- Idempotence of the two rewrite scripts: it does not hold in general (see `FixSense.AuthNotIdempotent` and `FixImms.ImportStepNotIdempotent`), so no idempotence lemma is stated for them. The counterexample is proved for the whole AuthService pipeline and for the IMMS import step alone, not for the FaceService or the whole IMMS pipeline.
- Behaviour the scripts do not have is not modelled: skipping an unchanged write, atomic replacement, rollback across files.
