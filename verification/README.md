# The startup path and tools of mb, modelled in Dafny

`mb` is a Chromium product layer. A launch reads a TOML configuration that names *environments*, each with its own
root directory; it audits all roots against the file system, selects one environment, creates only its root, publishes
the result to the process, and remembers the selection for the next launch. Around it stand tools that stage the
product into a Chromium checkout and derive branding files, and a sidebar that applies configured values once.

This project models that behaviour and proves what it is for. Values, functions and lemmas stand for code made of
expressions; classes and methods with loops stand for code that changes things step by step, each method proved
against a function or predicate about which the theorems are then stated. Interleavings of several processes are state
machines whose steps are single system calls.

| file | models |
|---|---|
| Wrappers.dfy, Strings.dfy, Maps.dfy | optional values and results, searching in strings, names that keep their entry |
| Utf8.dfy, Text.dfy | the two UTF-8 decoders, the byte-level control check, the diagnostic printer |
| Paths.dfy | splitting, normalising and resolving environment paths |
| FileSystem.dfy, Growth.dfy, EnvironmentRoots.dfy | the aliased directory graph, the audit and the preparation of a root |
| Permissions.dfy | which users the permission bits of audited directories let in |
| RootRace.dfy | any number of processes auditing and preparing at once |
| StateText.dfy, StateRace.dfy, UserConfigState.dfy | the remembered-selection file: its grammar, its readers and writers at once, one process at a time |
| Shortcuts.dfy, Config.dfy, ConfigDocument.dfy, RuntimeConfig.dfy | shortcuts, the configuration schema and its parser, writing configurations out as documents, the selection |
| Arguments.dfy, ArgumentForms.dfy | the command line normaliser and its Chrome adapter, and the forms of switches they tell apart |
| BrowserGate.dfy | one launch from the command line to the published snapshot, and sequences of launches |
| Sidebar.dfy | the runtime UI state machine |
| Product.dfy | staging the product overlay |
| JsonLimits.dfy | the JSON limit scanner against the grammar of RFC 8259 |
| Tokens.dfy, BrandingStrings.dfy, MessageForms.dfy, MessageTree.dfy | the message rewriter, on values, told by names and texts, and in place |
| Branding.dfy | the managed branding directory |
| Descendants.dfy | the process-tree worklist |

A `std::string` is a Dafny `string` with one character per byte; a Python `str` is one with one character per code
point. `dafny verify dfyconfig.toml` checks the whole project.

## What turned out conditional

- `NormalizeStartupArguments` is not idempotent: `--config "x "` loses its space on a second pass
  (`Arguments.TrailingSpaceIsLost`). Normalising its result again returns it unchanged exactly when no value that the
  original command line gives as a separate token, before the terminator, ends in whitespace; a value written after `=`
  never does, being cut out of a trimmed token (`Arguments.IdempotentExactly`, `Arguments.CleanExactly`). The Chrome
  adapter's checks ensure that (`Arguments.AcceptedIsFixed`).
- The shortcut conflict check compares spellings, so two reordered spellings of one accelerator pass it
  (`Shortcuts.ReorderedShortcutsCollide`). The second action is reachable exactly when the modifiers are not merely
  reordered (`Shortcuts.SecondActionReachable`).
- `ParseShortcut`'s loop ends on an arbitrary string exactly when at most one character follows its last `+`
  (`Shortcuts.LoopEndsExactly`); every accepted shortcut meets that.
- Reporting a conflict of the two shortcuts reads the position of `toggle_tab_bar` (mb/config/config.cc:323), which may
  be absent: the check then dereferences the null result of `get`. That happens exactly when `toggle_tab_bar` is absent
  and `toggle_top_bar` is the other one's default, `Alt+H` (`Config.AbsentNodeIsRead`, with an input in
  `Config.AbsentNodeWitness`); for such a text the outcome of `Config.ParseConfig` is undefined, and for no other.
- A write of the state file that reports failure may have replaced the file (`StateRace.FailedWriteCanReplace` is such a
  run). It has done so exactly when the call that failed was the last one, the fsync of the directory
  (`StateRace.WritesArePublished` over all interleavings, `UserConfigState.Directory.WriteRemembered` for one process);
  after any other failure the file is as it was (`StateRace.FailedWriteAlone`).
- A sidebar width that was configured, not committed, and then taken back is not undone: the marker still holds the old
  value, so the native preference keeps the one in between and no window corrects it (`Sidebar.RevertedChangeStays`).
  What each process start leaves is exact: the configured value if the marker held another one, and what was there
  otherwise (`Sidebar.NativeIsApplied`). While the configured width stays the same and the user leaves it, the native
  width is the configured one, if it was so at first where the marker said so (`Sidebar.NativeIsConfigured`).
- After an accepted audit other users can neither use a root nor replace a directory on the way to one, but below a
  sticky directory of root they can still add entries (`Permissions.NobodyElse`): a component that does not exist yet
  can be taken by someone else's directory, which the next audit refuses.
- `verify` accepts what `prepare` staged exactly while the product sources are those it staged; right after `prepare`
  it fails if the payload puts other bytes under the name of a source (`Product.PreparedIsVerified`;
  `Product.ClashIsRefused` for any name and bytes, `Product.PreparedIsRefused` at one input).
- `branding.generate` cannot be run again after it stopped between writing an output that the old marker does not own
  and writing the marker (`Branding.RenameGetsStuck`); it can in exactly the other cases
  (`Branding.StoppedRunRestarts`).
- A protected message inside an ordinary one is rewritten (`BrandingStrings.NestedProtectedIsRewritten`). A protected
  text is kept exactly when no ordinary message reaches it or it does not hold the word
  (`BrandingStrings.KeptExactly`), which is always so where messages do not nest (`BrandingStrings.FlatIsNotReached`).

## Model

| member | source | states |
|---|---|---|
| Utf8.FrontIsSound | mb/browser/environment_paths.cc:42-62 | what the decoder takes for a character is a UTF8-char production of section 4 of RFC 3629 |
| Utf8.FrontIsComplete | mb/browser/environment_paths.cc:42-62 | every UTF8-char production is recognised, with the right length, whatever follows it |
| Utf8.FrontIsEncoding | mb/browser/environment_paths.cc:55-62 | a recognised character is the encoding of the scalar value that the shifts and masks compute |
| Utf8.EncodingAtFront | mb/browser/environment_paths.cc:42-62 | the encoding of every scalar value in front of anything decodes to that value and consumes exactly its bytes |
| Utf8.DecodeIsGrammar | mb/browser/environment_paths.cc:41-64 | a byte string decodes if and only if it is in the UTF8-octets grammar |
| Utf8.DecodeIsInverse | mb/browser/environment_paths.cc:41-64 | decoding gives vs if and only if the string is the encoding of vs |
| Utf8.DecodeAppend | mb/browser/environment_paths.cc:41-64 | nothing appended to a well-formed text can repair or spoil it |
| Utf8.DecodeAroundAscii | mb/browser/environment_paths.cc:67-77 | cutting at an ASCII byte, as splitting at `/` does, cuts between characters |
| Text.ValidText | mb/browser/environment_paths.cc:39-65 | the loop accepts exactly the nonempty UTF-8 texts without C0, DEL or C1 characters |
| Text.EncodedTextIsPlain | mb/browser/environment_paths.cc:39-65 | that condition is: nonempty, decodes, and holds no control character |
| Text.PlainAroundAscii | mb/browser/environment_paths.cc:67-101 | a text is valid if and only if its pieces around a printable ASCII byte are |
| Text.HasControl | mb/config/config.cc:47-60 | the byte scan finds a control byte or a C2 80..9F pair wherever one occurs |
| Text.ByteScanAgrees | mb/config/config.cc:47-60 | on well-formed text that byte scan finds a match exactly when a control character is encoded, although it never decodes |
| Text.DecodeAt | mb/app/control_main.cc:24-57 | the second, independently written decoder recognises exactly the same characters and computes the same value and length |
| Text.AppendEscaped | mb/app/control_main.cc:24-64 | the escaping loop appends the escapes of every byte of the character, in order |
| Text.SafeDiagnostic | mb/app/control_main.cc:16-66 | the printer outputs the escaped form of its input |
| Text.SafeIsDisplayable | mb/app/control_main.cc:16-66 | whatever bytes go in, the output is well-formed UTF-8 without control or listed bidi characters |
| Text.SafeIsIdempotent | mb/app/control_main.cc:16-66 | printing twice is printing once, and a text is left alone if and only if it is already displayable |
| Text.PrintedExactly | mb/app/control_main.cc:16-66 | the output holds code points from 0x20 on without the listed ranges only, and is the input exactly if that does |
| Text.SafeReadsBack | mb/app/control_main.cc:24-64 | reading every `\xHH` as the byte it spells gives the input back, for inputs without a backslash: no two of them print alike |
| Paths.SplitComponents | mb/browser/environment_paths.cc:67-77 | the loop returns the nonempty stretches between slashes, in order |
| Paths.ComponentsOfCanonical | mb/browser/environment_paths.cc:67-101 | splitting a joined list of names gives the list back |
| Paths.Normalize | mb/browser/environment_paths.cc:79-103 | succeeds exactly for valid absolute paths without `..` whose parts and total length meet NAME_MAX and PATH_MAX, and returns the path without dots and repeated slashes |
| Paths.NormalIsFixed | mb/browser/environment_paths.cc:79-103 | a normalised path is valid again, has the same components and normalises to itself |
| Paths.PrefixIsListPrefix | mb/browser/environment_paths.cc:105-108 | the string prefix test on joined paths is exactly the prefix order on component lists |
| Paths.ResolveEntry | mb/browser/environment_paths.cc:208-225 | one entry resolves exactly when its name and directory are valid, `~` is used as `~/`, and the expanded path is normalisable and not the root |
| Paths.OverlapsAccepted | mb/browser/environment_paths.cc:226-230 | the inner loop finds an overlap exactly when some accepted component list is a prefix of the new one or the reverse |
| Paths.ResolveEntries | mb/browser/environment_paths.cc:208-234 | the loop succeeds exactly for resolvable maps, for every iteration order |
| Paths.ResolveEnvironmentPaths | mb/browser/environment_paths.cc:192-235 | resolution succeeds if and only if anchors and all roots are valid and the component lists are pairwise prefix-free, independently of order; then an absolute directory keeps its components less the dots, `~/x` has those of the home directory and of x, any other those of the configuration file's directory and its own; a failure names a fault that is there |
| Paths.ComponentsAround | mb/browser/environment_paths.cc:67-77 | splitting commutes with joining around a slash |
| Paths.RootExactly | mb/browser/environment_paths.cc:208-225 | a directory is a valid root exactly if it is text, uses `~` as `~/`, does not climb, and means a nonempty list of names of at most 255 bytes that fits 4095 bytes joined |
| Paths.ResolvableExactly | mb/browser/environment_paths.cc:192-235 | a map resolves exactly if the anchors are good, every entry is such a root, and no meant list is on the way to another |
| Paths.ResolveIsIdempotent | mb/browser/environment_paths.cc:192-235 | resolving a resolved map, with any valid anchors, succeeds and returns it unchanged |
| FileSystem.TraceAfterCreate | mb/browser/environment_paths.cc:152-181 | making one directory anywhere leaves every walk as it was, or one step longer if it was waiting for that entry |
| FileSystem.PassableAfterCreate | mb/browser/environment_paths.cc:119-141 | a walk that met only safe directories still does after one more directory is made |
| FileSystem.SeparateAfterCreate | mb/browser/environment_paths.cc:264-270 | two walks that the audit keeps apart stay apart, although entries may alias |
| FileSystem.AuditAfterCreate | mb/browser/environment_paths.cc:251-275 | making any missing directory anywhere keeps an accepted audit accepted |
| FileSystem.RootIsOnNoOtherWalk | mb/browser/environment_paths.cc:264-270 | in an audited graph an existing root is neither equal to another root nor on its walk |
| Growth.AuditAfterReplay | mb/browser/environment_paths.cc:251-275 | the same for any sequence of creations |
| Growth.WalkAfterReplay | mb/browser/environment_paths.cc:143-184 | walks only grow, and a root that could be prepared still can |
| Growth.CompleteIsFrozen | mb/browser/environment_paths.cc:143-184 | a root that exists keeps its walk and its directory for good |
| Growth.GrownTransitive | mb/browser/environment_paths.cc:162-168 | growth along walks composes; with it a launch bounds what its several preparations made together |
| Permissions.AncestorIsGuarded | mb/browser/environment_paths.cc:133-140 | the check of an ancestor passes exactly if no user but root and the effective one owns it or can write to it, sticky directories of root excepted |
| Permissions.RootIsOwn | mb/browser/environment_paths.cc:128-132 | the check of a root passes exactly if the effective user owns it and may do everything in it and nobody else has any permission |
| Permissions.TraceExactly | mb/browser/environment_paths.cc:152-183 | the recorded walk is the only chain of directories that the path's components lead through, each looked up in the one before and opened, up to the first that cannot be |
| Permissions.PassableExactly | mb/browser/environment_paths.cc:143-184 | a walk that creates nothing succeeds exactly if all it meets is guarded, the root itself is the user's own, and nothing but a missing entry stops it |
| Permissions.CreatingWalkExactly | mb/browser/environment_paths.cc:152-181 | a creating walk succeeds, on any graph, exactly if that holds and the last directory can be added to |
| Permissions.AuditedExactly | mb/browser/environment_paths.cc:251-275 | the audit accepts exactly if that holds for every root and no two walks lead through one directory to or past each other's goal |
| Permissions.NobodyElse | mb/browser/environment_paths.cc:119-141 | after an accepted audit no other user can use an existing root, or rename or remove a directory on the way to one, or change its mode; entries can be added only under sticky directories of root |
| EnvironmentRoots.RemaindersAreLists | mb/browser/environment_paths.cc:186-188 | the string test on remaining paths is exactly comparability of the remaining component lists |
| EnvironmentRoots.Collides | mb/browser/environment_paths.cc:265-270 | the two inner loops find a collision exactly when some directory of one walk is in the other with overlapping remainders |
| EnvironmentRoots.MeetingIsOverlap | mb/browser/environment_paths.cc:265-270 | that comparison of strings fails exactly when the walks, as component lists, are separate |
| EnvironmentRoots.Disk.Inspect | mb/browser/environment_paths.cc:143-184 | a walk that creates nothing succeeds exactly when every directory met is safe and nothing is refused, and records device, inode and remainder of each |
| EnvironmentRoots.Disk.Create | mb/browser/environment_paths.cc:143-184 | a creating walk leaves the graph and the result that MakePath describes |
| EnvironmentRoots.Disk.OverlapsEarlier | mb/browser/environment_paths.cc:264-270 | comparison with the earlier walks finds exactly the collisions |
| EnvironmentRoots.Disk.Audit | mb/browser/environment_paths.cc:251-275 | accepts exactly resolvable maps whose roots can be walked and are pairwise separate, for every order (what that means is Permissions.AuditedExactly); a failure names a fault that is there |
| EnvironmentRoots.Disk.Prepare | mb/browser/environment_paths.cc:277-296 | succeeds exactly when the audit accepts, the name exists and its last directory can be extended; whenever it fails the graph is as it was; otherwise only private directories of that one path are added, the audit stays accepted, and the returned directory is safe and ends the path |
| EnvironmentRoots.MakePathOutcome | mb/browser/environment_paths.cc:152-181 | after an accepted audit a creating walk keeps the audit, adds only its own path, and fails only where the user may not write |
| EnvironmentRoots.NewPathSucceeds | mb/browser/environment_paths.cc:152-181 | inside a directory it has just made a creating walk cannot fail |
| EnvironmentRoots.FailedPathMakesNothing | mb/browser/environment_paths.cc:152-181 | a creating walk that fails anywhere has made no directory |
| EnvironmentRoots.MakePathExactly | mb/browser/environment_paths.cc:152-181 | on any graph a creating walk ends where an inspecting one would, or in as many new directories as components are missing, and says whether safety or permission stopped it |
| EnvironmentRoots.MakePathIsReplay | mb/browser/environment_paths.cc:162-170 | a creating walk is a sequence of single creations of missing entries |
| EnvironmentRoots.AnyOrder | mb/browser/environment_paths.cc:251-296 | roots can be prepared in any order, any number of times: the audit stays accepted, every root that could be prepared at the start is, and prepared roots keep their directories |
| RootRace.MoveStaysOnCourse | mb/browser/environment_paths.cc:152-181 | in an audited graph each system call of a walk keeps it where a walk of the whole current graph would be |
| RootRace.OnCourseAfterCreate | mb/browser/environment_paths.cc:164-170 | another process's mkdirat, also between ENOENT and mkdirat, does not push a walk off course |
| RootRace.RunKeepsInvariant | mb/browser/environment_paths.cc:143-184 | the invariant holds over every interleaving of any number of processes, each of which may crash at any call |
| RootRace.RaceKeepsAudit | mb/browser/environment_paths.cc:143-188 | in every reachable state the audit accepts the same roots, and the only additions are mode 0700 directories on the walks of the roots |
| RootRace.RaceAgrees | mb/browser/environment_paths.cc:162-170 | all processes that finish preparing one root hold the same safe directory, and no walk of another root passes it |
| RootRace.RaceNeverMisreports | mb/browser/environment_paths.cc:251-296 | an audit that reads the graph call by call while others create in it reports neither an overlap nor an unsafe directory, and a preparation fails only if it could not have succeeded at the start |
| RootRace.WalkTerminates | mb/browser/environment_paths.cc:152-183 | every call brings its own walk nearer to its end and no other process holds it up |
| RootRace.AloneIsMakePath | mb/browser/environment_paths.cc:152-181 | undisturbed, the single calls of a walk amount to the creating walk as one operation: same graph, same directory or error |
| RootRace.AloneIsInspect | mb/browser/environment_paths.cc:152-183 | undisturbed, the single calls of a walk that creates nothing record the whole walk if it is passable and fail as unsafe if not |
| StateText.IsPortableName | mb/browser/user_config_state.cc:31-48 | accepts exactly the names of 1 to 64 letters, digits, `_` and `-` that start with a letter or digit |
| StateText.ParseIsExact | mb/browser/user_config_state.cc:162-183 | ParseState accepts exactly the texts that StateText produces for portable names, including the wrapped length, and all of them fit the 512-byte limit |
| StateText.SharedQuoteIsRejected | mb/browser/user_config_state.cc:172-180 | the one text in which prefix and suffix share their quote, where the length wraps around, is rejected |
| StateRace.WriteKeeps | mb/browser/user_config_state.cc:388-422 | every call of a writer keeps the invariant of all writers and readers |
| StateRace.ReadKeeps | mb/browser/user_config_state.cc:324-368 | every call of a reader keeps it, whatever parts the reads transfer |
| StateRace.RunKeeps | mb/browser/user_config_state.cc:310-423 | the invariant holds over every interleaving, with failures and kills at any call |
| StateRace.StateFileIsNeverTorn | mb/browser/user_config_state.cc:388-422 | state.toml is always the untouched initial file or the complete private text of the portable name published last |
| StateRace.ReadsAreAtomic | mb/browser/user_config_state.cc:324-368 | a reader that meets no failing call reports the name published last before it opened the file; if none was, a name exactly if the initial file is private, within 512 bytes and the text of that name, nothing if there was no file, and malformed otherwise |
| StateRace.InitialReport | mb/browser/user_config_state.cc:324-368 | what a reader of the initial file reports, whatever is published meanwhile |
| StateRace.WritesArePublished | mb/browser/user_config_state.cc:388-423 | over every interleaving with failures and kills: a successful write has replaced the file, a failed one has if and only if the failing call was the fsync of the directory, and no write replaces the file twice or with another name than its own |
| StateRace.RunIsAttributed | mb/browser/user_config_state.cc:388-423 | every run keeps: the log of replacements holds each writer exactly if its rename took effect, once, with its own name |
| StateRace.FailedWriteAlone | mb/browser/user_config_state.cc:388-423 | a single writer that fails in any call but the fsync of the directory leaves state.toml, or its absence, as it was |
| StateRace.CallsInOrder | mb/browser/user_config_state.cc:388-423 | create, write, fsync, close, rename, fsync of the directory: a write skips none, goes on only when the last call has done all of its work, and reports the one that failed |
| StateRace.NoTemporaryIsLeft | mb/browser/user_config_state.cc:388-423 | once all writes have ended, none of them killed and no unlink failed, the directory holds the names it had and state.toml |
| StateRace.FailedWriteCanReplace | mb/browser/user_config_state.cc:412-422 | a run in which a write reports failure and has replaced the file with its complete text |
| StateRace.CompletedWriteIsRead | mb/browser/user_config_state.cc:310-423 | a reader that starts after a completed write reports its name or one published later |
| UserConfigState.RememberedIsObserved | mb/browser/user_config_state.cc:162-183 | a file holding the text of a portable name reads back as that name |
| UserConfigState.ObservedExactly | mb/browser/user_config_state.cc:324-368 | a read reports a name exactly if the file is private, within 512 bytes and the text of that portable name |
| UserConfigState.Directory.CreateExclusive | mb/browser/user_config_state.cc:393-401 | makes one new empty private file or nothing |
| UserConfigState.Directory.WriteAll | mb/browser/user_config_state.cc:107-122 | appends all of the text, in whatever portions, or fails having touched only that file |
| UserConfigState.Directory.FinishCreatedFile | mb/browser/user_config_state.cc:185-212 | the calls are the writes, fsync and close, in that order and up to the first that fails; then the file holds the whole contents, or its name has been removed unless removing it failed too, and no other file or name changed |
| UserConfigState.Directory.CreateTemporary | mb/browser/user_config_state.cc:388-407 | the loop ends with one new empty private file under a free temporary name, and fails, changing nothing, exactly if none of the names is free or a call fails |
| UserConfigState.Directory.WriteRemembered | mb/browser/user_config_state.cc:371-423 | makes exactly the calls of a replacement in order: writes, fsync, close, rename, fsync of the directory, with an unlink of the temporary after a failure before the last; says which failed; up to and including the rename state.toml is untouched, from then on it is the complete new text and reads back; refused exactly for names that are not portable, and without failing calls it fails otherwise only if no temporary name is free |
| UserConfigState.Directory.Replace | mb/browser/user_config_state.cc:412-422 | the last two calls: a failed rename leaves state.toml and removes the temporary, a done one has replaced it whatever the fsync says |
| UserConfigState.Directory.Unlink | mb/browser/user_config_state.cc:412-417 | one call, which drops that name or fails and drops none |
| UserConfigState.Directory.ReadRemembered | mb/browser/user_config_state.cc:324-368 | reports what the file says, or a failing call, and the latter only on a device that may fail |
| UserConfigState.Directory.EnsureDefaultConfig | mb/browser/user_config_state.cc:286-307 | never touches an existing file, accepts it exactly if it is private, and otherwise creates the template |
| Shortcuts.IsShortcut | mb/config/config.cc:88-117 | accepts exactly the empty string and a nonempty list of distinct modifiers followed by one key |
| Shortcuts.SpelledExactly | mb/config/config.cc:88-117 | a spelling starts with `Ctrl+`, `Alt+` or `Shift+` exactly if that is its first modifier, and goes on with the spelling of the rest |
| Shortcuts.OneKeyExactly | mb/config/config.cc:88-117 | of the characters after `Ctrl+` exactly upper-case letters and digits make a shortcut |
| Shortcuts.ParseShortcut | mb/browser/runtime_shortcuts.cc:13-32 | on every accepted shortcut the loop ends with exactly its modifiers, and the key's ASCII code as key code |
| Shortcuts.SameAccelerator | mb/browser/runtime_shortcuts.cc:13-32 | two accepted shortcuts are one accelerator exactly when their modifiers are permutations and their keys equal |
| Shortcuts.LoopEndsExactly | mb/browser/runtime_shortcuts.cc:15-30 | on an arbitrary string the loop ends if and only if at most one character follows the last `+` |
| Shortcuts.SecondActionReachable | mb/browser/runtime_shortcuts.cc:52-59 | with two different spellings enabled the first action always runs and the second is reachable exactly when the accelerators differ |
| Shortcuts.ReorderedShortcutsCollide | mb/config/config.cc:319-324 | a pair of spellings that passes the conflict check and still shares an accelerator |
| Config.CheckStartupUrl | mb/config/config.cc:119-150 | accepts exactly the startup URLs of the schema |
| Config.StartupUrlParts | mb/config/config.cc:119-150 | a startup URL is exactly, without control bytes or spaces, either `about:` and a nonempty remainder that holds no `@` and does not start with `//`, or `chrome:`, `http:` or `https:` and `//` with a host part |
| Config.AuthorityIsHost | mb/config/config.cc:134-149 | the check of the authority accepts exactly a nonempty host without user information, up to the path, query or fragment |
| Config.CheckUnknownKeys | mb/config/config.cc:157-171 | complains exactly if the table has a key outside the list |
| Config.ParseUi | mb/config/config.cc:249-296 | complains exactly if the table breaks its schema, and otherwise yields its values |
| Config.ParseKeybindings | mb/config/config.cc:298-325 | complains exactly if the table breaks its schema, with the conflict test on spellings, and returns which node the conflict message looks at, unless that node is absent |
| Config.AbsentNodeIsRead | mb/config/config.cc:319-324 | the conflict is reported at an absent node if and only if toggle_tab_bar is absent and toggle_top_bar is Alt+H |
| Config.AbsentNodeWitness | mb/config/config.cc:319-324 | such a table |
| Config.ParseApp | mb/config/config.cc:327-343 | the same |
| Config.ParseStartupUrls | mb/config/config.cc:381-410 | the same, with at most 100 URLs |
| Config.ParseEnvironment | mb/config/config.cc:345-411 | the same, with a required directory |
| Config.ParseEnvironments | mb/config/config.cc:455-484 | the same, with 1 to 256 portable names, keeping their order |
| Config.ParseSections | mb/config/config.cc:446-453 | complains exactly if one of the three sections breaks its schema, and otherwise yields their values |
| Config.ParseConfig | mb/config/config.cc:415-498 | returns a configuration if and only if the text fits 1 MiB, parses, and the tree satisfies the schema; every field then is the value of its own key, or that key's default; the outcome is undefined exactly where the conflict message reads an absent node, and in all other cases there is an error |
| Config.ConfigIsGiven | mb/config/config.cc:249-411 | key by key: where each field of a configuration comes from and what it is when the key is absent |
| ConfigDocument.ReadsBack | mb/config/config.cc:249-498 | every configuration within the documented bounds, written out as a document with all keys, conforms and reads back as itself |
| ConfigDocument.AcceptedIsValid | mb/config/config.cc:249-498 | and every configuration that is accepted is within those bounds |
| Config.EnvironmentNames | mb/config/config.cc:466-483 | environments keep the names and the order of the table |
| Config.DefaultIsNamed | mb/config/config.cc:486-493 | the default is among the environments exactly if it is a key of the table |
| RuntimeConfig.DirectoriesFrom | mb/config/runtime_config.cc:24-29 | the loop builds the map that keeps the first directory of each name |
| RuntimeConfig.FirstOfName | mb/config/runtime_config.cc:24-29 | a name has the directory of the first environment of that name |
| RuntimeConfig.NothingIsDropped | mb/config/runtime_config.cc:24-29 | with distinct names emplace drops no environment |
| RuntimeConfig.LoadRuntimeConfig | mb/config/runtime_config.cc:33-93 | succeeds exactly when the file parsed, the audit accepts and something is selected; that is the environment asked for, else the remembered one if restoring is on and it is configured, else the default; with file and audit good an unknown explicit name gives exactly that error; a stale remembered name is reported; the internal error needs an unnamed default |
| RuntimeConfig.ParsedConfigIsSelectable | mb/config/runtime_config.cc:55-86 | for every configuration the parser returns no environment is dropped, selection fails only for an unknown explicit name, so the internal error is unreachable, and every name can be remembered |
| RuntimeConfig.ConfiguredNameIsPortable | mb/browser/user_config_state.cc:371-381 | whatever is selected can be written to the state file |
| RuntimeConfig.SameNameRule | mb/config/config.cc:62-76 | the schema and the state file use one rule for names |
| Arguments.NormalizeStartupArguments | mb/app/startup_arguments.cc:32-94 | the loop computes Normalized, with its three errors and both spellings of each selector |
| ArgumentForms.TrimExactly | mb/app/startup_arguments.cc:20-29 | trimming cuts whitespace off both ends and leaves none there |
| ArgumentForms.SelectorForms | mb/app/startup_arguments.cc:60-68 | a token is a selector exactly if, trimmed, it is the name with one or two dashes, alone or followed by `=` and the value |
| ArgumentForms.FindTerminator | mb/app/startup_arguments.cc:46-53 | every token list has a place where its switches end: the first token that trims to `--`, or the end |
| ArgumentForms.ScanExactly | mb/app/startup_arguments.cc:46-93 | the loop accepts exactly the tokens before the terminator in which every selector occurs at most once and has a nonempty value, and finds those values |
| ArgumentForms.NormalizedExactly | mb/app/startup_arguments.cc:32-94 | which command lines are accepted, and which values and root switch are found in them, told by positions in the original tokens |
| Arguments.SpelledReadsBack | mb/app/startup_arguments.cc:79-91 | the canonical spelling of a selector reads back as that selector, with its value less trailing whitespace |
| Arguments.SecondPass | mb/app/startup_arguments.cc:46-93 | scanning what was scanned returns the same result if and only if the values end without whitespace |
| Arguments.CleanExactly | mb/app/startup_arguments.cc:46-93 | the selector values that scanning finds end without whitespace exactly if the separate values among the tokens do |
| Arguments.IdempotentExactly | mb/app/startup_arguments.cc:32-94 | normalising is idempotent on its own output if and only if no value given as a separate token before the terminator of the original command line ends in whitespace |
| Arguments.TrailingSpaceIsLost | mb/app/startup_arguments.cc:78-91 | an input that the normaliser changes twice |
| Arguments.OthersAreKept | mb/app/startup_arguments.cc:46-74 | every token that is no selector or its value is kept, in order and unchanged, and so is everything from the terminator on |
| Arguments.AcceptedIsFixed | mb/app/chrome_startup_arguments.cc:43-73 | values without boundary whitespace make the result a fixed point with the same selectors |
| ArgumentForms.BoundaryExactly | mb/app/chrome_startup_arguments.cc:12-14 | boundary whitespace is whitespace at either end |
| ArgumentForms.AcceptedExactly | mb/app/chrome_startup_arguments.cc:43-91 | the adapter lets through exactly the command lines whose selector values have no whitespace at their ends as typed, beside extra flags that name no selector, root or process type before a terminator |
| Arguments.NormalizeChromeStartupArguments | mb/app/chrome_startup_arguments.cc:19-94 | accepts a browser process exactly when the normaliser does, values are clean also as spelled, and the extra flags name no selector; the result is a fixed point that keeps all other tokens; an error is the first that applies |
| BrowserGate.Host.PrepareUser | mb/browser/user_config_state.cc:89-105 | prepares one user directory exactly when the three resolve, are audited and it can be extended; a failure leaves the graph as it was |
| BrowserGate.Host.EnsureDefaultConfig | mb/browser/user_config_state.cc:273-308 | returns the configuration that was there, or the template it created, and changes no remembered selection |
| BrowserGate.Host.InstallConfig | mb/browser/user_config_state.cc:286-307 | in one directory: returns the stored text or the template, and changes no remembered selection and no other directory |
| BrowserGate.Host.UpdateState | mb/browser/user_config_state.cc:388-423 | in one directory: the remembered selection is the new one exactly if the write succeeded or failed in the last call, and otherwise the old one; no other directory changes |
| BrowserGate.Host.ReadRemembered | mb/browser/user_config_state.cc:310-369 | audits the three directories and reports what the state file says, unless a call fails |
| BrowserGate.Host.WriteRemembered | mb/browser/user_config_state.cc:371-423 | the remembered selection is the new one exactly if the write succeeded or failed in its last call, and otherwise the old one; no other directory changes; without failing calls it succeeds exactly when the name is portable, the directory can be prepared and a temporary name is free |
| BrowserGate.Browser.CheckSwitches | mb/browser/browser_config_gate.cc:170-218 | which launches are children, native opt-outs or refused, told by the switches and variables themselves, and that all others go on |
| BrowserGate.Browser.Discover | mb/browser/browser_config_gate.cc:223-251 | finds the file, the graph and the remembered selection that Discovered describes; with `--config` nothing is created or consumed |
| BrowserGate.Browser.Accept | mb/browser/browser_config_gate.cc:253-291 | returns a snapshot exactly when Loaded has one; its fields are those of the file, its selection the environment asked for, else the remembered or the default one, and all its startup URLs are valid |
| BrowserGate.Browser.LoadedExactly | mb/browser/browser_config_gate.cc:253-291 | a file is accepted exactly if it is within 1 MiB, parses, conforms, its roots resolve and pass the audit, every startup URL is valid, the environment asked for, remembered or default is configured, and a root on the command line has that environment's components |
| BrowserGate.Host.ConfiguredIsGiven | mb/browser/browser_config_gate.cc:253-267 | the configuration of a text is the one its document gives, field by field |
| BrowserGate.Browser.DiscoveredFile | mb/browser/browser_config_gate.cc:223-251 | the file is the one given with `--config`, else the user's own if it is private, else the template; what is remembered counts only without `--config` |
| BrowserGate.Browser.NativeRootMatches | mb/browser/browser_config_gate.cc:120-132 | the supplied path is absolute and normalises to the selected root |
| BrowserGate.Browser.CheckUrls | mb/browser/browser_config_gate.cc:268-277 | every startup URL of every environment is valid |
| BrowserGate.Browser.Load | mb/browser/browser_config_gate.cc:223-291 | everything before the preparation: which file and which environment the snapshot has, when there is none, and that at most the default configuration is created |
| BrowserGate.Browser.Publish | mb/browser/browser_config_gate.cc:293-323 | publishes exactly when the selected root can be prepared; a failure leaves command line, snapshot, files and directory graph; success makes only private directories of the selected root and, if it records, of the state directory; the selection is recorded exactly for normal default-mode launches that restore |
| BrowserGate.Browser.Initialize | mb/browser/browser_config_gate.cc:168-325 | one launch: it publishes exactly when WillPublish says so; the snapshot is that of the file that counts, its selection the environment asked for, and the default if there is nothing else to go by; another process type, an override variable, a native root alone and a second call change nothing; a call that does not publish leaves command line and snapshot alone; published root, command line, prepared directory and a root given natively agree; only private directories are made, of the default configuration directory, and, only by a launch that publishes, of the selected root and, if it records, of the state directory; the remembered selection changes exactly by a recording launch whose write replaced the file, and without failing calls it is recorded |
| BrowserGate.Browser.DiscoveryKeeps | mb/browser/browser_config_gate.cc:236-243 | creating the default configuration does not keep the state directory from being prepared |
| BrowserGate.StaysPreparable | mb/browser/browser_config_gate.cc:295-315 | preparing the selected root does not keep the state directory from being prepared |
| BrowserGate.ResolvedAgain | mb/browser/browser_config_gate.cc:295-298 | preparing from the resolved map stands for the same roots |
| BrowserGate.HeldDirectoryStays | mb/browser/browser_config_gate.cc:306-315 | the published directory stays safe and reachable while the state directory is made |
| BrowserGate.RecallIsLatest | mb/browser/browser_config_gate.cc:312-323 | over any sequence of launches the file says what the latest launch that replaced it selected, whatever writes failed |
| BrowserGate.RestoresLatest | mb/config/runtime_config.cc:55-78 | over any sequence a default launch without `--environment` selects that environment if it is still configured and restoring is on, and the default otherwise |
| BrowserGate.LatestIsNormal | mb/browser/browser_config_gate.cc:309-323 | what is remembered is the selection of the last launch that replaced the file, or what was there at first if none did |
| BrowserGate.SeriesRestores | mb/browser/browser_config_gate.cc:309-323 | consecutive steps on the files of one host are a history for every state path, so restoring and recalling hold along them |
| BrowserGate.Start | mb/browser/browser_config_gate.cc:168-325 | one new process makes one step on the files of the host |
| BrowserGate.Series | mb/browser/browser_config_gate.cc:168-325 | launches run one after another on one host, each with its own command line, surroundings and configuration: a launch with `--environment` selects that one; every default launch without it selects what the latest launch recorded, if it is still configured and restoring is on, and the default otherwise |
| Sidebar.InitializeRuntimeUiConfig | mb/browser/runtime_ui_config.cc:64-91 | once per process: flags say which configured values differ from the marker, native preferences take just those (over runs: Sidebar.NativeIsApplied), a changed theme is returned |
| Sidebar.RecordRuntimeThemeApplied | mb/browser/runtime_ui_config.cc:92-100 | records a changed theme once |
| Sidebar.Profile.RecordSidebarApplied | mb/browser/runtime_ui_config.cc:46-59 | commits only when initialised and outside scopes |
| Sidebar.OverrideInitialSidebarConfig | mb/browser/runtime_ui_config.cc:101-117 | which window gets which fields, and that initialisation is then pending |
| Sidebar.DidInitializeSidebarConfig | mb/browser/runtime_ui_config.cc:118-126 | a pending initialisation completes and may commit |
| Sidebar.Scope.constructor | mb/browser/runtime_ui_config.cc:127-136 | a scope holds the profile exactly at the initial process startup of an initialised profile |
| Sidebar.Scope.Destroy | mb/browser/runtime_ui_config.cc:137-146 | leaving a scope lowers the depth and may commit |
| Sidebar.ChecksHold | mb/browser/runtime_ui_config.cc:141-143 | neither CHECK of the destructor can fail |
| Sidebar.RunIsConsistent | mb/browser/runtime_ui_config.cc:46-146 | in every run a flag is set exactly while marker and desired value differ, an initialised sidebar outside scopes has none set, and the depth is the number of live scopes |
| Sidebar.CommitIsFinal | mb/browser/runtime_ui_config.cc:46-59 | after the first commit the marker holds the desired values and no window is changed until the process ends |
| Sidebar.BeforeCommit | mb/browser/runtime_ui_config.cc:101-117 | before it the marker is untouched and every fresh window and every window inside a restore scope gets every changed field |
| Sidebar.OnlyTheUserResizes | mb/browser/runtime_ui_config.cc:73-86 | across any processes with the same configured width, once it has been applied only the user changes the width |
| Sidebar.NativeIsApplied | mb/browser/runtime_ui_config.cc:73-86 | from the start of a process until the user resizes or it ends, native width and collapsed state are the configured ones if the marker held other ones, and what they were before otherwise |
| Sidebar.NativeIsConfigured | mb/browser/runtime_ui_config.cc:73-86 | across any number of processes with one configured width, and until the user resizes, the native width is the configured one, if it was where the marker said so at first |
| Sidebar.RevertedChangeStays | mb/browser/runtime_ui_config.cc:71-82 | a run in which an uncommitted change that is taken back stays in the native preference |
| Sidebar.FreshWindowCommits | mb/browser/runtime_ui_config.cc:101-126 | once a fresh window has been overridden and its controller is ready, the marker holds the desired values whenever no scope is live |
| Sidebar.ThemeIsRecorded | mb/browser/runtime_ui_config.cc:92-100 | the configured theme is recorded once it has been applied, and not before |
| Sidebar.UncommittedIsRetried | mb/browser/runtime_ui_config.cc:71-78 | a process that ends before its commit leaves the change to the next one |
| Product.Checkout.CheckName | mb/tools/product.py:316-328 | a name is acceptable exactly if it is safe and is absent but not patched, or holds receipted, target or pinned bytes |
| Product.Checkout.CheckChanges | mb/tools/product.py:308-328 | passes exactly when nothing else is dirty and every given name is acceptable |
| Product.Checkout.MoveRetired | mb/tools/product.py:396-403 | moves the named files, unchanged, into the archive, all of them unless interrupted |
| Product.Checkout.WritePayload | mb/tools/product.py:331-343 | every name of the payload holds its bytes, unless interrupted, and no other name changes |
| Product.Checkout.Prepare | mb/tools/product.py:372-413 | refuses exactly when the guard fails and then touches nothing; otherwise, name by name: every payload name holds its bytes, retired outputs are back at the pinned ones or gone, all others are as they were; if interrupted, a tree between; whatever left the tree is in the archive |
| Product.ReadyExactly | mb/tools/product.py:346-357 | what the guard demands, name by name |
| Product.FinalAt | mb/tools/product.py:331-343 | what each name is in the final tree |
| Product.SafeExactly | mb/tools/product.py:157-163 | a name is safe exactly if it holds no backslash and is a list of parts joined by `/`, none of them empty, `.` or `..` |
| Product.Checkout.Verify | mb/tools/product.py:416-433 | accepts exactly when receipt, tree, sources and identity agree; then every receipted file is there as it was staged and nothing else is dirty |
| Product.VerifiedExactly | mb/tools/product.py:416-433 | name by name: every receipted name is safe and a regular file with the receipted digest, every other name as pinned, absent or ignored, and the sources are the receipted ones |
| Product.LaterTreeIsVerified | mb/tools/product.py:372-433 | for any later tree and the sources that were staged: verify accepts if and only if every payload name is a regular file with exactly its payload bytes and no other name is dirty |
| Product.CheckSources | mb/tools/product.py:360-369 | the sources are exactly the receipted set with the receipted digests |
| Product.RerunReachesTheSame | mb/tools/product.py:372-413 | after an interruption between any two steps the guard still passes and the same tree is reached |
| Product.MovedIsBetween | mb/tools/product.py:393-406 | moves and writes, each as far as it got, lead to a tree between, and all of them to the final tree |
| Product.FinalIsClear | mb/tools/product.py:308-328 | after prepare only receipted files are dirty and each holds the receipted bytes |
| Product.PreparedIsVerified | mb/tools/product.py:416-433 | verify accepts the prepared tree if and only if the sources are those that were staged |
| Product.ClashIsRefused | mb/tools/product.py:360-369 | for every safe name and every two different contents there is a job that verify refuses right after prepare |
| Product.PreparedIsRefused | mb/tools/product.py:360-369 | that job at one name and two contents |
| Product.RepeatChangesNothing | mb/tools/product.py:372-413 | preparing again passes the guard and changes nothing |
| Product.NextPrepareIsReady | mb/tools/product.py:346-357 | on the same pin an unedited staged tree is ready for another payload exactly unless a new name is unsafe or taken |
| Product.OnlyKnownBytesChange | mb/tools/product.py:316-328 | only pinned, receipted or target bytes are ever replaced, and only receipted untracked files are moved |
| JsonLimits.ValidateJsonLimits | mb/tools/check_upstream.py:108-140 | the two loops compute Scan |
| JsonLimits.ScanString | mb/tools/check_upstream.py:116-128 | whatever a string holds, the scanner is back where it was after it |
| JsonLimits.ScanNumber | mb/tools/check_upstream.py:133-139 | a number is one token of which exactly its own digits are counted |
| JsonLimits.ScanValue | mb/tools/check_upstream.py:108-140 | in front of a delimiter every value is passed exactly if its nesting and its numbers are within the limits |
| JsonLimits.ScannerAgreesWithGrammar | mb/tools/check_upstream.py:108-140 | for every text of sections 2 to 7 of RFC 8259 the scanner accepts if and only if nesting is at most 64 and every number has at most 1000 digits |
| JsonLimits.DepthIsBalance | mb/tools/check_upstream.py:127-132 | outside the grammar: a text without strings and numbers is refused exactly if some beginning leaves more than 64 brackets open, closing ones counting even where none is open |
| Tokens.SubIsFree | mb/tools/branding_strings.py:36 | replacing leaves no whole word, if the new name holds none, whatever stands around it |
| Tokens.SubIsIdempotent | mb/tools/branding_strings.py:36 | replacing twice is replacing once, and it changes nothing exactly where there is no match |
| Tokens.SubKeepsTheRest | mb/tools/branding_strings.py:36 | only the word itself is replaced |
| MessageForms.SubAtWord | mb/tools/branding_strings.py:36 | the text up to the first whole word is kept, the word is replaced, and the search goes on behind it |
| MessageForms.FreeExactly | mb/tools/branding_strings.py:36 | a text without the whole word anywhere, and only such a text, counts as free and is kept |
| BrandingStrings.RewrittenAt | mb/tools/branding_strings.py:103-111 | what rewrite does to the text and the tail of every node |
| BrandingStrings.TransformedAt | mb/tools/branding_strings.py:80-114 | what transform does to every node: tags, attributes and order stay, and text and tail change exactly as the messages around and at the node say |
| BrandingStrings.KeptExactly | mb/tools/branding_strings.py:80-111 | exactly when a text outside changing messages, or a tail, is kept |
| BrandingStrings.NestedProtectedIsRewritten | mb/tools/branding_strings.py:83-86 | a protected message that is rewritten because it lies in an ordinary one |
| BrandingStrings.FlatIsNotReached | mb/tools/branding_strings.py:83-86 | where messages do not nest none is reached by another |
| BrandingStrings.SubtreeIsKept | mb/tools/branding_strings.py:103-111 | protected messages that none reaches, and every ph, ex and comment, are kept whole but for their own tail if they hold no message that is changed |
| BrandingStrings.NoTokenIsLeft | mb/tools/branding_strings.py:103-111 | no whole word is left in ordinary message text outside what rewrite does not enter |
| BrandingStrings.RewrittenIsFixed | mb/tools/branding_strings.py:103-111 | rewriting an ordinary message is idempotent |
| BrandingStrings.OnlyTheLeadingName | mb/tools/branding_strings.py:95-101 | a license message changes only in its leading name |
| MessageForms.KindExactly | mb/tools/branding_strings.py:28-35 | which names are protected, the product's own, licenses or ordinary |
| MessageForms.MessageText | mb/tools/branding_strings.py:83-111 | what each message that none reaches ends with: protected text as it was, the full or short name between the blank edges, or the text with each word replaced |
| MessageForms.LicenseText | mb/tools/branding_strings.py:94-100 | a license that starts with the word, after whitespace, changes in just that word |
| MessageForms.EnteredIsRenamed | mb/tools/branding_strings.py:103-111 | below an ordinary message no whole word is left outside ph, ex and comments and messages of other kinds |
| MessageForms.PlaceholderIsKept | mb/tools/branding_strings.py:103-105 | every ph, ex and comment without messages in it is kept but for its own tail |
| MessageForms.ChangedExactly | mb/tools/branding_strings.py:83-114 | where messages do not nest the returned list names exactly the changed messages in document order, and the tool fails exactly if a product name has children or a license does not start with the word |
| MessageTree.Element.Rewrite | mb/tools/branding_strings.py:103-111 | the recursive update in place yields the rewritten tree |
| MessageTree.Element.RewriteChild | mb/tools/branding_strings.py:107-111 | one turn of the loop rewrites the child and then its tail |
| MessageTree.Element.Process | mb/tools/branding_strings.py:83-111 | one round changes its element as Processed says, or raises and changes nothing |
| MessageTree.Element.Transform | mb/tools/branding_strings.py:80-114 | the loop in document order yields the transformed tree and the names of the changed messages, or its error |
| MessageTree.Element.TransformChildren | mb/tools/branding_strings.py:80-83 | going through the subtrees in order transforms each of them and collects their names, or stops at the first error |
| Branding.CheckMarker | mb/tools/branding.py:162-178 | accepts exactly schema 1 or 2 with the static outputs and one desktop file, once each |
| Branding.MarkerExactly | mb/tools/branding.py:162-178 | counted by occurrences: five fixed names in schema 1 and six in schema 2, each once, and one more that ends in `.desktop` and has no slash |
| Branding.Output.CheckManagedDirectory | mb/tools/branding.py:150-191 | returns the owned names exactly for accepted directories |
| Branding.Output.Generate | mb/tools/branding.py:208-221 | refuses exactly unaccepted directories and then changes nothing; otherwise every output holds its text, the marker lists the outputs, what the old marker owned and is no longer planned is gone, and everything else is as it was; a stopped run leaves the old marker |
| Branding.FinalIsAccepted | mb/tools/branding.py:150-221 | the marker it writes is accepted next time, for any outputs whose new names are free |
| Branding.RepeatChangesNothing | mb/tools/branding.py:208-221 | generating again changes nothing |
| Branding.UnownedIsUntouched | mb/tools/branding.py:208-221 | only the marker and regular files it owned change or go |
| Branding.SchemaOneMigrates | mb/tools/branding.py:162-185 | a schema 1 directory is taken over exactly if BRANDING is free, and then owns it |
| Branding.StoppedRunRestarts | mb/tools/branding.py:179-221 | a stopped run can be repeated, with the same end, exactly if it wrote nothing that the old marker does not own |
| Branding.RenameGetsStuck | mb/tools/branding.py:185-186 | a run that stops between writing a renamed desktop file and the marker is refused from then on |
| Descendants.Descendants | mb/tools/upstream_smoke.py:44-58 | ends on every finite relation, cyclic ones included, with exactly the processes reachable by one or more edges, once each |
| Descendants.ClosedHoldsChain | mb/tools/upstream_smoke.py:46-57 | what is closed under children holds everything reachable |

## Left out

- Message wording, line numbers and quoting of diagnostics (`QuoteDiagnostic`, `TomlString`, message texts): they would add only easy members.
- The TOML parser, XML parsing and serialisation, Python's `re` and `str` character classes, hashing and git are parameters, or taken to be injective where they identify contents.
- URL canonicalisation (mb/browser/browser_config_gate.cc:134-160) and Chromium's own command line parser are parameters; the command line is a map of switches, and order among published switches is not modelled.
- `ResolveUserConfigPaths` and the XDG variables are a parameter of a launch; so is the text of the default configuration.
- The order in which a map or a set is iterated is a parameter, or arbitrary; results do not depend on it.
- Permissions: group membership is a parameter of each user, and access control lists, capabilities and root's own powers are left out.
- Device and inode are one identity; what the kernel lets the user do with a directory is given by three flags per directory. Mount changes during a run, a umask (which could take owner bits from a new directory), set-group-id directories, and other users' processes are left out. `EINTR` retries are not distinguished from success.
- FileSystem.OpenAt: names are looked up exactly. On a directory that folds case, roots that differ only in case pass the audit while neither exists, and are one directory once one of them has been made.
- EnvironmentRoots.Disk.Prepare: system calls fail in it only for lack of permission or an unsafe object; transient failures of one process are covered as crashes in RootRace.
- Durability: which calls a write makes, in which order, and what it reports are proved; what survives a power loss is not modelled. `config.toml` is written in place after it was created exclusively, so only `state.toml` has the atomicity theorems; a reader of a half-written `config.toml` is not modelled.
- UserConfigState.Directory.EnsureDefaultConfig: inspecting an existing file never fails in it.
- BrowserGate.Browser.Initialize: between the check of a user directory and the use of its files nothing else runs; concurrent launches are modelled for the directory graph in RootRace and for the state file in StateRace. The files of a user directory are kept apart from the directory graph.
- BrowserGate.Browser.Initialize: when calls on the user's files may fail, it states what is published, but not when.
- BrowserGate.Browser.Initialize: a launch whose configuration makes the parser read an absent node is modelled as one that is refused.
- Arguments.NormalizeChromeStartupArguments: the branch for child processes, which returns the tokens unchanged, is left out.
- Sidebar.OnlyTheUserResizes: the same is true of the collapsed state and is not stated again. The depth counter is unbounded.
- Product.Checkout.Prepare: file modes, conflicts between a file and a directory of one name, leftover `.product-*` temporaries (which make the next run refuse), the git index, and receipts older than the list of sources are left out; what the payload is built from is a parameter.
- MessageForms.ChangedExactly: where messages nest, the list of changed names is that of MessageTree.Element.Transform and is not told from the trees alone.
- Branding.Output.Generate: leftover temporaries of a stopped replacement, and the contents of the rendered files, are left out.
- Descendants.Descendants: the process tree does not change during the walk.
- `parse_version`, `tag_url`, `is_official_metadata_url` and `compare` of mb/tools/check_upstream.py, and `prepare` and `check_output` of mb/tools/branding_strings.py, would add only easy members.
- UI adapters, build, fetch, packaging and smoke plumbing, and process-group cleanup are not part of this model.
