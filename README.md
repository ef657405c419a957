# MacroCheck, modelled in Dafny

MacroCheck is an IntelliJ plugin for C/C++ sources. Its inspection walks the
elements of a file and records every `#define NAME` and `#undef NAME`. It then
reports each defined name that is never undefined in the same file, unless
whitelisting is on and the name is on the whitelist. The whitelist lives in a
persisted configuration: a list of `(name, enabled)` entries plus an on/off
switch. The configuration cleans the list whenever it is loaded or replaced:
names are trimmed, blank names are dropped, and of names equal ignoring case only
the first is kept. A settings page edits the list in a table and exchanges it
with the configuration.

The model has one module per part of the program:

- `Wrappers` (`wrappers.dfy`): the `Option` type.
- `TextUtil` (`text_util.dfy`): the Kotlin/JVM string operations the program
  relies on, written out. It has `trim()` and `isBlank()`, whose whitespace is
  `Char.isWhitespace`, and `trim { it <= ' ' }`. It splits on the regular
  expression `\s+`, keeping empty pieces and then dropping trailing empty ones.
  It also has `lowercase()`, `equals(ignoreCase = true)`, `substringBefore`,
  `split(",")` and `String.hashCode()`, the last wrapping at 32 bits.
- `Config` (`config.dfy`): `MacroCheckConfig`. The entries and the state are
  values. The component is a class holding the current state; `loadState` and
  `setAllMacros` are loops proved against one pure cleaning function, `Dedup`.
  The cleaning is also given a second, index-by-index definition ("keep entry
  *i* exactly when it is the first non-blank one with its key"), and the two are
  proved equal.
- `Inspection` (`inspection.dfy`): `MacroDefineUndefInspection`. The PSI tree
  becomes a `Node` datatype, and an element is identified by its path of child
  indices from the file. The visitor is a class whose fields are the map of
  defines and the set of undefs. `collectMacros` is a recursive method proved
  against a fold over the pre-order list of descendants. `visitFile` is proved
  to report exactly the right names, each once, at the element of the name's
  last `#define`.
- `ConfigUi` (`config_ui.dfy`): `MacroCheckConfigurable` and its
  `WhitelistTableModel`. The table is a class whose field is its list of rows;
  `setValueAt` is proved against a pure function of the old rows. `isModified`,
  `reset` and `apply` are modelled over the configuration class.

Behaviour that the code has, and that the model keeps:

- `#define (x)` records the empty name. The name is the second token cut before
  `(`, and nothing checks that what is left is non-empty.
- The directives are recognised by prefix, so `#defined X` counts as a define of
  `X` and `#undefine X` as an undef of `X`.
- When a name is defined several times, the problem is attached to its last
  define.
- The inspection's whitelist lookup is case-sensitive, although the
  configuration treats names that differ only in case as one.
- `addMacro` appends without checking for duplicates. Only a rename through
  `setValueAt` refuses a name another row has, ignoring case.

## Model

| member | source | states |
|---|---|---|
| Config.EqualsIsEquivalence | src/main/kotlin/core/macrocheck/config/MacroCheckConfig.kt:49-56 | entry equality is reflexive, symmetric and transitive, and ignores the enabled flag |
| Config.HashCodeAgreesWithEquals | src/main/kotlin/core/macrocheck/config/MacroCheckConfig.kt:49-60 | equal entries have equal hash codes (the Java hash of the lower-cased name) |
| TextUtil.JavaStringHash | src/main/kotlin/core/macrocheck/config/MacroCheckConfig.kt:58-60 | the hash is a signed 32-bit value |
| TextUtil.HashAccumulateIsPoly | src/main/kotlin/core/macrocheck/config/MacroCheckConfig.kt:58-60 | the running `31 * h + c` hash, kept to 32 bits, is the unbounded sum `s[0]*31^(n-1) + ... + s[n-1]` reduced modulo 2^32 |
| TextUtil.PolySnoc | src/main/kotlin/core/macrocheck/config/MacroCheckConfig.kt:58-60 | appending a character to a name multiplies the polynomial sum by 31 and adds the character |
| TextUtil.JavaStringHashIsWrappedPoly | src/main/kotlin/core/macrocheck/config/MacroCheckConfig.kt:58-60 | `hashCode()` is the one signed 32-bit value that agrees with the polynomial sum modulo 2^32 |
| Config.DefaultEntries | src/main/kotlin/core/macrocheck/config/MacroCheckConfig.kt:20-40 | the default state has whitelisting on and the ten listed names, all enabled, in order |
| Config.DefaultNamesDistinct | src/main/kotlin/core/macrocheck/config/MacroCheckConfig.kt:24-35 | no two default names are equal ignoring case |
| Config.DefaultNamesTrimmed | src/main/kotlin/core/macrocheck/config/MacroCheckConfig.kt:24-35 | every default name is non-empty and trimmed |
| Config.DefaultStateIsClean | src/main/kotlin/core/macrocheck/config/MacroCheckConfig.kt:20-40 | the default list is already clean, and its enabled names are exactly the ten default names |
| Config.EnabledDefaultNames | src/main/kotlin/core/macrocheck/config/MacroCheckConfig.kt:24-35 | a list holding exactly the default names, all enabled, has those names as its enabled names |
| Config.MacroCheckConfig.constructor | src/main/kotlin/core/macrocheck/config/MacroCheckConfig.kt:63 | a new component holds the default state, which is clean |
| Config.MacroCheckConfig.LoadState | src/main/kotlin/core/macrocheck/config/MacroCheckConfig.kt:69-88 | the stored list is the incoming list cleaned (trimmed, non-blank, first of each name ignoring case, in order), the switch is the incoming one, and the stored list is clean |
| Config.MacroCheckConfig.SetAllMacros | src/main/kotlin/core/macrocheck/config/MacroCheckConfig.kt:104-116 | the stored list is the given pairs cleaned in the same way, no longer than the input and clean; the switch is unchanged |
| Config.MacroCheckConfig.SetEnableWhitelist | src/main/kotlin/core/macrocheck/config/MacroCheckConfig.kt:119-123 | the switch reads back as set, and the list and its cleanliness are untouched |
| Config.EntriesToPairs | src/main/kotlin/core/macrocheck/config/MacroCheckConfig.kt:99-101 | `getAllMacros` gives one `(name, enabled)` pair per stored entry, in order |
| Config.PairsToEntries | src/main/kotlin/core/macrocheck/config/MacroCheckConfig.kt:108-111 | one entry per pair, in order, before cleaning |
| Config.CleanFromShape | src/main/kotlin/core/macrocheck/config/MacroCheckConfig.kt:71-86 | the cleaning never lengthens the list, leaves it clean, and keeps no name already seen |
| Config.DedupIsClean | src/main/kotlin/core/macrocheck/config/MacroCheckConfig.kt:104-116 | a cleaned list has only non-empty trimmed names, pairwise different ignoring case |
| Config.DedupNoLonger | src/main/kotlin/core/macrocheck/config/MacroCheckConfig.kt:104-116 | cleaning never adds entries |
| Config.KeySetStep | src/main/kotlin/core/macrocheck/config/MacroCheckConfig.kt:75-76 | the set of seen keys grows by the entry's key exactly when its trimmed name is non-empty |
| Config.IsFirstIffNewKey | src/main/kotlin/core/macrocheck/config/MacroCheckConfig.kt:76 | `seenNames.add` succeeds exactly for the first non-blank entry with its key |
| Config.CleanFromStep | src/main/kotlin/core/macrocheck/config/MacroCheckConfig.kt:74-84 | one loop iteration keeps the trimmed entry exactly when it is the first with its key |
| Config.CleanFromIsKeptFrom | src/main/kotlin/core/macrocheck/config/MacroCheckConfig.kt:74-84 | from any position on, the loop's cleaning equals the index-by-index definition |
| Config.DedupKeepsFirsts | src/main/kotlin/core/macrocheck/config/MacroCheckConfig.kt:69-88 | the cleaning keeps exactly the first non-blank entry of each name ignoring case, trimmed, with its flag, in input order |
| Config.CleanFromCovers | src/main/kotlin/core/macrocheck/config/MacroCheckConfig.kt:74-84 | every non-blank input name is either already seen or kept under its key |
| Config.DedupCovers | src/main/kotlin/core/macrocheck/config/MacroCheckConfig.kt:104-116 | for every non-blank input name, the cleaned list holds an entry with the same key (its trimmed name, lower-cased); `DedupKeepsFirsts` says which entry that is |
| Config.CleanFromOfClean | src/main/kotlin/core/macrocheck/config/MacroCheckConfig.kt:74-84 | a clean list none of whose keys is already seen passes through unchanged |
| Config.DedupIdempotent | src/main/kotlin/core/macrocheck/config/MacroCheckConfig.kt:69-116 | cleaning a clean list changes nothing, and cleaning twice is cleaning once |
| Config.AllMacrosRoundTrip | src/main/kotlin/core/macrocheck/config/MacroCheckConfig.kt:99-116 | `setAllMacros(getAllMacros())` leaves a clean stored list as it is |
| Config.CleanPrefix | src/main/kotlin/core/macrocheck/config/MacroCheckConfig.kt:71-79 | every prefix of a clean list is clean |
| Config.EnabledNamesSnoc | src/main/kotlin/core/macrocheck/config/MacroCheckConfig.kt:91-96 | the enabled names of a list grow by the last entry's name exactly when it is enabled |
| Config.LastNameIsNew | src/main/kotlin/core/macrocheck/config/MacroCheckConfig.kt:91-96 | in a clean list, the last name is not among the earlier enabled names |
| Config.EnabledNamesCount | src/main/kotlin/core/macrocheck/config/MacroCheckConfig.kt:91-96 | for a clean list, `getEnabledMacros` has exactly as many names as there are enabled entries, so `toSet` drops nothing |
| TextUtil.TrimEmptyIffBlank | src/main/kotlin/core/macrocheck/config/MacroCheckConfig.kt:75-76 | `trim()` is empty exactly when the name is blank |
| TextUtil.TrimIsTrimmed | src/main/kotlin/core/macrocheck/config/MacroCheckConfig.kt:75 | a trimmed name neither starts nor ends with whitespace |
| TextUtil.TrimIdempotent | src/main/kotlin/core/macrocheck/config/MacroCheckConfig.kt:75 | trimming twice is trimming once |
| TextUtil.EqualsIgnoreCaseIsEquivalence | src/main/kotlin/core/macrocheck/config/MacroCheckConfig.kt:55 | comparing names ignoring case is an equivalence |
| TextUtil.LowerIdempotent | src/main/kotlin/core/macrocheck/config/MacroCheckConfig.kt:59 | lower-casing twice is lower-casing once |
| TextUtil.TrimWithShape | src/main/kotlin/core/macrocheck/inspections/MacroDefineUndefInspection.kt:108 | trimming removes a margin of the trimmed class at each end and leaves a middle that neither starts nor ends in it |
| TextUtil.SplitOnSpaceRunsShape | src/main/kotlin/core/macrocheck/inspections/MacroDefineUndefInspection.kt:105-106 | splitting on `\s+` yields pieces without `\s`, inner pieces non-empty, and a non-empty first piece when the text does not start with `\s` |
| TextUtil.DropTrailingEmpty | src/main/kotlin/core/macrocheck/inspections/MacroDefineUndefInspection.kt:106 | `dropLastWhile { it.isEmpty() }` keeps a prefix that ends in a non-empty piece and drops only empty pieces |
| TextUtil.FirstTwoTokens | src/main/kotlin/core/macrocheck/inspections/MacroDefineUndefInspection.kt:105-107 | a line `head sep name tail` splits into at least two tokens, the first `head` and the second `name` |
| TextUtil.SingleWordTokens | src/main/kotlin/core/macrocheck/inspections/MacroDefineUndefInspection.kt:105-107 | a single word followed only by spaces splits into just that word, or nothing when it is empty, so fewer than two tokens |
| TextUtil.SubstringBefore | src/main/kotlin/core/macrocheck/inspections/MacroDefineUndefInspection.kt:111 | the result is the prefix up to the first `(`, or the whole name when there is none |
| Inspection.CutAtParen | src/main/kotlin/core/macrocheck/inspections/MacroDefineUndefInspection.kt:110-112 | the name is cut just before its first `(`, is a prefix of the original and holds no `(` |
| Inspection.ParseDirective | src/main/kotlin/core/macrocheck/inspections/MacroDefineUndefInspection.kt:101-123 | a define is only recognised on text starting `#define`, and its name holds no `(`; an undef only on text starting `#undef` and not `#define`; other text records nothing |
| Inspection.DefineLine | src/main/kotlin/core/macrocheck/inspections/MacroDefineUndefInspection.kt:103-114 | a `#define…` line with a second token records that token, trimmed of control characters and cut at `(` |
| Inspection.UndefLine | src/main/kotlin/core/macrocheck/inspections/MacroDefineUndefInspection.kt:115-122 | an `#undef…` line with a second token records that token, trimmed of control characters |
| Inspection.ShortLine | src/main/kotlin/core/macrocheck/inspections/MacroDefineUndefInspection.kt:107 | a line of one word (e.g. a bare `#define`) records nothing |
| Inspection.DefineOfFunctionLike | src/main/kotlin/core/macrocheck/inspections/MacroDefineUndefInspection.kt:109-113 | `#define NAME(params) …` records `NAME` without its parameter list |
| Inspection.DefineOfParenthesisOnly | src/main/kotlin/core/macrocheck/inspections/MacroDefineUndefInspection.kt:107-113 | `#define (x)` records the empty name |
| Inspection.DefinedCountsAsDefine | src/main/kotlin/core/macrocheck/inspections/MacroDefineUndefInspection.kt:103 | `#defined X` is taken as a define of `X`, since the test is a prefix test |
| Inspection.UndefineCountsAsUndef | src/main/kotlin/core/macrocheck/inspections/MacroDefineUndefInspection.kt:115 | `#undefine X` is taken as an undef of `X` |
| Inspection.SubtreeStep | src/main/kotlin/core/macrocheck/inspections/MacroDefineUndefInspection.kt:100 | the element at path `[i] + q` is the element at `q` below child `i` |
| Inspection.ChildrenVisitsBelow | src/main/kotlin/core/macrocheck/inspections/MacroDefineUndefInspection.kt:100-127 | every element visited through the first children lies strictly below the element, at the path it is recorded under |
| Inspection.ChildrenVisitsGrow | src/main/kotlin/core/macrocheck/inspections/MacroDefineUndefInspection.kt:100-128 | visiting more children only extends the run of visits |
| Inspection.ChildVisited | src/main/kotlin/core/macrocheck/inspections/MacroDefineUndefInspection.kt:100-128 | each child is visited, and so is everything visited below it |
| Inspection.DescendantsComplete | src/main/kotlin/core/macrocheck/inspections/MacroDefineUndefInspection.kt:98-129 | every element strictly below the start is visited, at its path, with its text, so the walk misses nothing |
| Inspection.DescendantsBelow | src/main/kotlin/core/macrocheck/inspections/MacroDefineUndefInspection.kt:98-129 | every visited element, and hence every recorded define location, is a real element strictly below the file |
| Inspection.StepsAppend | src/main/kotlin/core/macrocheck/inspections/MacroDefineUndefInspection.kt:100-128 | parsing a run of visits split in two is parsing each part |
| Inspection.ReplayAppend | src/main/kotlin/core/macrocheck/inspections/MacroDefineUndefInspection.kt:100-128 | recording two runs in order is recording the first, then the second |
| Inspection.ReplayChildrenStep | src/main/kotlin/core/macrocheck/inspections/MacroDefineUndefInspection.kt:100-128 | one iteration of the children loop records the child, then its whole subtree |
| Inspection.LastDefineIsLast | src/main/kotlin/core/macrocheck/inspections/MacroDefineUndefInspection.kt:113 | the last define of a name exists exactly when some step defines it, and no later step defines it again |
| Inspection.ReplayDefines | src/main/kotlin/core/macrocheck/inspections/MacroDefineUndefInspection.kt:113 | after recording, a name is in the map exactly when it was before or some step defines it, and maps to its last define |
| Inspection.ReplayUndefs | src/main/kotlin/core/macrocheck/inspections/MacroDefineUndefInspection.kt:121 | after recording, a name is in the undef set exactly when it was before or some step undefines it |
| Inspection.ReportedStep | src/main/kotlin/core/macrocheck/inspections/MacroDefineUndefInspection.kt:77-88 | a reported name passed over by the loop gets its finding appended, and the findings stay exact and distinct |
| Inspection.UnreportedStep | src/main/kotlin/core/macrocheck/inspections/MacroDefineUndefInspection.kt:74-76 | a whitelisted or undefined name is passed over without a finding |
| Inspection.ReportsAmongStep | src/main/kotlin/core/macrocheck/inspections/MacroDefineUndefInspection.kt:69-90 | one iteration of the report loop registers the name exactly when it is reported, keeping the findings exact and distinct |
| Inspection.FindingNamesCount | src/main/kotlin/core/macrocheck/inspections/MacroDefineUndefInspection.kt:69-90 | findings with distinct names have one name each |
| Inspection.ReportCount | src/main/kotlin/core/macrocheck/inspections/MacroDefineUndefInspection.kt:69-90 | a visit registers exactly as many problems as there are reported names |
| Inspection.FindingIff | src/main/kotlin/core/macrocheck/inspections/MacroDefineUndefInspection.kt:63-129 | for a file, a name is reported exactly when some step of the walk defines it, no step undefines it, and it is not whitelisted (with whitelisting on); the problem is at its last define |
| Inspection.StepsMatchElements | src/main/kotlin/core/macrocheck/inspections/MacroDefineUndefInspection.kt:98-129 | some step of the walk records a directive exactly when some element below the file holds it |
| Inspection.FileFindingIff | src/main/kotlin/core/macrocheck/inspections/MacroDefineUndefInspection.kt:63-129 | for a file, a name is reported exactly when some element below the file defines it, no element below the file undefines it, and it is not whitelisted (with whitelisting on) |
| Inspection.WhitelistIsCaseSensitive | src/main/kotlin/core/macrocheck/inspections/MacroDefineUndefInspection.kt:74 | a defined, never undefined name that matches an enabled whitelist entry only ignoring case is still reported |
| Inspection.ProblemsHolder.RegisterProblem | src/main/kotlin/core/macrocheck/inspections/MacroDefineUndefInspection.kt:82-86 | a problem is appended to those already registered |
| Inspection.MacroDefineUndefVisitor.constructor | src/main/kotlin/core/macrocheck/inspections/MacroDefineUndefInspection.kt:55-61 | a new visitor keeps its holder, switch and whitelist, and starts with no defines and no undefs |
| Inspection.MacroDefineUndefVisitor.RecordChild | src/main/kotlin/core/macrocheck/inspections/MacroDefineUndefInspection.kt:101-123 | one child's text updates the collections as its parsed directive says: a define overwrites, an undef adds |
| Inspection.MacroDefineUndefVisitor.CollectMacros | src/main/kotlin/core/macrocheck/inspections/MacroDefineUndefInspection.kt:98-129 | the collections afterwards are the old ones with every element below `element` recorded in pre-order |
| Inspection.MacroDefineUndefVisitor.RegisterUnmatched | src/main/kotlin/core/macrocheck/inspections/MacroDefineUndefInspection.kt:69-90 | earlier problems are kept, and the new ones report exactly the defined, never undefined, non-whitelisted names, once each, at their recorded define |
| Inspection.MacroDefineUndefVisitor.VisitFile | src/main/kotlin/core/macrocheck/inspections/MacroDefineUndefInspection.kt:63-96 | the problems added for a file are exactly those for the file's defines and undefs, and both collections are empty again afterwards |
| Inspection.BuildVisitor | src/main/kotlin/core/macrocheck/inspections/MacroDefineUndefInspection.kt:19-27 | the visitor uses the configuration's switch and its enabled names as whitelist, and starts empty |
| Inspection.ParseWhitelistShape | src/main/kotlin/core/macrocheck/inspections/MacroDefineUndefInspection.kt:48-53 | every parsed name is non-empty, trimmed and free of commas |
| Inspection.ParseWhitelistOfJoin | src/main/kotlin/core/macrocheck/inspections/MacroDefineUndefInspection.kt:48-53 | parsing names joined by commas gives back exactly those names |
| TextUtil.SplitOnCharJoin | src/main/kotlin/core/macrocheck/inspections/MacroDefineUndefInspection.kt:49 | joining the pieces of `split(",")` with commas gives back the string |
| TextUtil.JoinSplitOnChar | src/main/kotlin/core/macrocheck/inspections/MacroDefineUndefInspection.kt:49 | splitting comma-free pieces joined by commas gives back the pieces |
| ConfigUi.RemoveAt | src/main/kotlin/core/macrocheck/ui/MacroCheckConfigurable.kt:201-205 | removing row `i` keeps the rows before it and shifts the rows after it down by one |
| ConfigUi.NonBlankRows | src/main/kotlin/core/macrocheck/ui/MacroCheckConfigurable.kt:227 | the filtered rows are no more than the given ones, and none has a blank name |
| ConfigUi.EnabledRowNames | src/main/kotlin/core/macrocheck/ui/MacroCheckConfigurable.kt:211-213 | there are at most as many enabled names as rows |
| ConfigUi.WhitelistTableModel.constructor | src/main/kotlin/core/macrocheck/ui/MacroCheckConfigurable.kt:132 | a new table has no rows |
| ConfigUi.WhitelistTableModel.SetValueAt | src/main/kotlin/core/macrocheck/ui/MacroCheckConfigurable.kt:160-194 | the rows after an edit are those the edit function gives for the old rows, including the duplicate check over every other row |
| ConfigUi.WhitelistTableModel.AddMacro | src/main/kotlin/core/macrocheck/ui/MacroCheckConfigurable.kt:196-199 | the row is appended, with no check against the names already there |
| ConfigUi.WhitelistTableModel.RemoveMacro | src/main/kotlin/core/macrocheck/ui/MacroCheckConfigurable.kt:201-205 | an index in range removes that row; any other index changes nothing |
| ConfigUi.WhitelistTableModel.SetMacros | src/main/kotlin/core/macrocheck/ui/MacroCheckConfigurable.kt:225-229 | the table holds the given rows with blank names dropped, in order |
| ConfigUi.MacroCheckConfigurable.constructor | src/main/kotlin/core/macrocheck/ui/MacroCheckConfigurable.kt:25-29 | the page is bound to its configuration and its table |
| ConfigUi.MacroCheckConfigurable.AddAction | src/main/kotlin/core/macrocheck/ui/MacroCheckConfigurable.kt:67-71 | the add button appends an enabled `NEW_MACRO` row |
| ConfigUi.MacroCheckConfigurable.RemoveAction | src/main/kotlin/core/macrocheck/ui/MacroCheckConfigurable.kt:72-78 | the remove button drops the selected row, and nothing when no row is selected |
| ConfigUi.MacroCheckConfigurable.Reset | src/main/kotlin/core/macrocheck/ui/MacroCheckConfigurable.kt:104-111 | the page shows the stored switch and the stored rows, and then reports no modification |
| ConfigUi.MacroCheckConfigurable.Apply | src/main/kotlin/core/macrocheck/ui/MacroCheckConfigurable.kt:114-118 | the store takes the check box and the cleaned table rows, and stays clean |
| ConfigUi.SetValueOutOfRange | src/main/kotlin/core/macrocheck/ui/MacroCheckConfigurable.kt:161 | an edit of a row outside the table changes nothing |
| ConfigUi.SetValueBlankRemoves | src/main/kotlin/core/macrocheck/ui/MacroCheckConfigurable.kt:166-169 | renaming a row to null or a blank text removes exactly that row |
| ConfigUi.SetValueRename | src/main/kotlin/core/macrocheck/ui/MacroCheckConfigurable.kt:170-184 | a rename to a name another row has, ignoring case, changes nothing; otherwise only that row's name changes, to the trimmed text, and its flag is kept |
| ConfigUi.SetValueEnabled | src/main/kotlin/core/macrocheck/ui/MacroCheckConfigurable.kt:186-191 | editing the second column sets the flag (false for a non-Boolean value) and changes nothing else |
| ConfigUi.SetValueKeepsNamesDistinct | src/main/kotlin/core/macrocheck/ui/MacroCheckConfigurable.kt:160-194 | cell edits never make two row names equal ignoring case |
| ConfigUi.AddMacroAllowsDuplicates | src/main/kotlin/core/macrocheck/ui/MacroCheckConfigurable.kt:196-199 | adding a name that a row already has, ignoring case, leaves two rows with that name |
| ConfigUi.RemoveAtKeepsOthers | src/main/kotlin/core/macrocheck/ui/MacroCheckConfigurable.kt:201-205 | after removing row `i`, every other row is still there, at its index or one below |
| ConfigUi.NonBlankRowsExactly | src/main/kotlin/core/macrocheck/ui/MacroCheckConfigurable.kt:225-229 | a row is in the table after `setMacros` exactly when it was given and its name is not blank |
| ConfigUi.NonBlankRowsAppend | src/main/kotlin/core/macrocheck/ui/MacroCheckConfigurable.kt:227 | the filter keeps order: filtering a concatenation filters each part |
| ConfigUi.NonBlankRowsOfNonBlank | src/main/kotlin/core/macrocheck/ui/MacroCheckConfigurable.kt:227 | rows with no blank name pass through `setMacros` unchanged |
| ConfigUi.EnabledRowNamesExactly | src/main/kotlin/core/macrocheck/ui/MacroCheckConfigurable.kt:211-213 | a name is among the table's enabled names exactly when an enabled row has it |
| ConfigUi.ResetShowsStored | src/main/kotlin/core/macrocheck/ui/MacroCheckConfigurable.kt:104-111 | a stored (clean) list has no blank names, so `reset` shows it row for row |
| ConfigUi.ApplySettlesCleanRows | src/main/kotlin/core/macrocheck/ui/MacroCheckConfigurable.kt:88-118 | rows that are already clean are stored as they are, so after `apply` the page is not modified |
| ConfigUi.ApplyKeepsCaseTwinsModified | src/main/kotlin/core/macrocheck/ui/MacroCheckConfigurable.kt:88-118 | two rows whose names differ only in case are stored as one, so after `apply` the page still reports a modification |
| ConfigUi.TrimOfCaseTwin | src/main/kotlin/core/macrocheck/config/MacroCheckConfig.kt:109-110 | a name equal ignoring case to a trimmed name trims to the same key |

## Left out

- `MacroCheckConfig.loadState` also renames the caller's entry objects in place and then copies the bean into the component's state. The model works on entry values and sets the state to the cleaned list, so the aliasing is not modelled.
- The `println` for skipped names in `loadState` is output only and is not modelled.
- `MacroCheckConfig.getInstance` and the project service lookup: the configuration is passed in as a parameter.
- Swing: the panel, the renderers, the cell editors, column names, column classes, `editCellAt`, `getValueAt`, and the `fireTable…` notifications are not modelled. Only the table's rows are.
- `setValueAt` values other than null, strings and Booleans are not modelled. Their `toString()` is arbitrary.
- `AddUndefQuickFix`, `MacroCheckBundle` messages, the inspection registrar, the display names and the build script are not part of this model.
- `TextUtil.Lower`: lower-casing and `equals(ignoreCase = true)` are modelled for ASCII letters only. The JVM folds every Unicode letter, and its two operations do not agree outside ASCII: `equals(ignoreCase = true)` compares upper-cased and then lower-cased characters, while the hash and the de-duplication key use `lowercase()`. For example, `ſ` (U+017F) and `s` are equal ignoring case, yet `lowercase()` keeps them apart.
- `Config.HashCodeAgreesWithEquals` holds only under ASCII folding. On the JVM, `MacroEntry("ſ")` equals `MacroEntry("s")` while their hash codes are 383 and 115, so `MacroEntry` breaks the equals/hashCode contract for such names. The model does not capture this.
- `Config.DedupIsClean` holds only under ASCII folding. On the JVM, `loadState` and `setAllMacros` key names by `lowercase()`, so they keep both `ſ` and `s`, and the stored list then holds two entries that are equal under `MacroEntry.equals`. The model does not capture this.
- `TextUtil.JavaStringHash`: the hash is taken over the characters as code points. Characters outside the Basic Multilingual Plane are not split into UTF-16 surrogate pairs.
- `Inspection.MacroDefineUndefVisitor.VisitFile`: every define element is taken to have a text range, so the `range != null` test always passes. The map's keys are never null, since the parser always yields a string.
- `Inspection.MacroDefineUndefVisitor.RegisterUnmatched`: the order of the findings is not fixed, just as `HashMap` iteration order is not. The loop over the map and the per-child update (`RecordChild`) are separate methods in the model; in the source they are inline in `visitFile` and `collectMacros`.
- `Inspection.ParseWhitelist` is private and unused in the source. It is modelled as a function returning a set.
- `ConfigUi.MacroCheckConfigurable.IsModified` compares the rows with the stored pairs as sets, as the source does. Its results are stated through `Reset`, `ApplySettlesCleanRows` and `ApplyKeepsCaseTwinsModified`.
