# cppcheck Visual Studio add-in: argument synthesis and suppression file, in Dafny

This project models the two pieces of logic in `AnalyzerCppcheck` of the
cppcheck Visual Studio add-in, and proves properties about them:

- **Suppression file reader** (`readSuppressions`), in `suppressions.dfy`. It
  scans the lines of a project's `suppressions.cfg` and tracks the current
  group. A line that contains `[` is a header. It sets the group to the line
  with every `[` and `]` removed. Lines read while the group is exactly
  `cppcheck` become suppression records, in three steps:
  - the line is split on `:`;
  - field 1 gets a leading `*` unless it already has one;
  - fields 0 to 2 are joined again, and every pair of backslashes becomes one.

  Empty records are dropped. A missing file (`None`) gives no suppressions.
  `ReadSuppressions` is the loop, with its one piece of state `currentGroup`.
  It is proved equal to the function `Suppressions`, and the properties are
  lemmas about that function.
- **Argument synthesis** (the part of `analyze` that builds `cppheckargs`), in
  `arguments.dfy`. The argument string is built up step by step. Each loop of
  the source is one method, proved against a set or string function, and
  `Analyze` chains them in the source's order.
  - The hash sets (projects, suppressions, include paths, macros) are `set`s.
  - A loop over a hash set picks each element with `:|`.
  - It returns the order it used, and the contract states that this order
    lists every element of the set exactly once (`Enumerates`).

  `Arguments` gives the whole string for those enumeration orders.
- `text.dfy` holds the .NET string operations used, each with an inverse or an
  independent characterisation:
  - `Split(':')` with `Join`;
  - `Replace("\\\\", "\\")` with doubling every backslash;
  - `Int32.ToString` with reading the digits back;
  - `ToLower().Contains("qt")` with a case-by-case definition.

External state is passed in as parameters:
- the user's default arguments;
- the inconclusive-checks setting;
- the worker count;
- the contents of each project's `suppressions.cfg` (a map from project path to
  lines; a project with no entry has no file).

## Model

| member | source | states |
|---|---|---|
| SuppressionFile.ReadSuppressions | CPPCheckPlugin/AnalyzerCppcheck.cs:114-152 | the line loop with its `currentGroup` state returns exactly `Suppressions(file)`; a missing file gives the empty set |
| SuppressionFile.SuppressionsMembers | CPPCheckPlugin/AnalyzerCppcheck.cs:123-147 | a string is in the result iff some line is a non-header line read while the group is `cppcheck` and yields that record |
| SuppressionFile.PresentMembers | CPPCheckPlugin/AnalyzerCppcheck.cs:124-147 | a record is in the accumulated set exactly when some line contributed it |
| SuppressionFile.GroupIsLastHeader | CPPCheckPlugin/AnalyzerCppcheck.cs:123-130 | `GroupAt`, the current group when a line is read, is the name of the last header before that line |
| SuppressionFile.GroupName | CPPCheckPlugin/AnalyzerCppcheck.cs:128 | a header's group contains no `[` or `]` and every other character of the line |
| SuppressionFile.NoRecordBeforeFirstHeader | CPPCheckPlugin/AnalyzerCppcheck.cs:123-131 | lines before the first header are read in the group "" and yield nothing |
| SuppressionFile.NeverInTarget | CPPCheckPlugin/AnalyzerCppcheck.cs:126-131 | if no header's name is `cppcheck`, the current group is never `cppcheck` |
| SuppressionFile.NoTargetHeaderNoSuppressions | CPPCheckPlugin/AnalyzerCppcheck.cs:126-131 | a file with no `cppcheck` header declares no suppressions |
| SuppressionFile.SingleGroupFile | CPPCheckPlugin/AnalyzerCppcheck.cs:123-147 | a file whose first line opens `cppcheck` and has no other header declares exactly the records of its other lines |
| SuppressionFile.BracketedGroupName | CPPCheckPlugin/AnalyzerCppcheck.cs:128 | the header `[name]` opens the group `name` |
| SuppressionFile.Wildcard | CPPCheckPlugin/AnalyzerCppcheck.cs:136-137 | field 1 always starts with `*`; it ends with the original field and gains at most one character; a field already starting with `*` is kept |
| SuppressionFile.ReassembleFields | CPPCheckPlugin/AnalyzerCppcheck.cs:133-143 | `Reassemble`, the record text before the backslash rewrite, splits into field 0, the wildcard of field 1 (if present) and field 2 (if present), and nothing more |
| SuppressionFile.RecordFieldOne | CPPCheckPlugin/AnalyzerCppcheck.cs:136-141 | `Reassemble(line)`, the text before the backslash rewrite, has min(#colons+1, 3) fields; its field 1 starts with `*`, and is the line's field 1 if that already did, `"*"` + it otherwise |
| SuppressionFile.NoColonLine | CPPCheckPlugin/AnalyzerCppcheck.cs:139 | a line without `:` gives just its field 0, the line itself |
| SuppressionFile.RecordOf | CPPCheckPlugin/AnalyzerCppcheck.cs:133-146 | the record a line of the `cppcheck` group stores: none exactly for the empty line, and a stored record is never empty |
| SuppressionFile.StoredFields | CPPCheckPlugin/AnalyzerCppcheck.cs:133-146 | the fields of a stored record are the reassembled fields, each with its backslash pairs rewritten |
| SuppressionFile.ExtraFieldsDropped | CPPCheckPlugin/AnalyzerCppcheck.cs:139-143 | whatever follows a third `:` does not change the record |
| SuppressionFile.LineScopedRecord | CPPCheckPlugin/AnalyzerCppcheck.cs:133-146 | a line `id:path:n` with no two adjacent backslashes yields `id:` + wildcard(path) + `:n` |
| SuppressionFile.WildcardCollapse | CPPCheckPlugin/AnalyzerCppcheck.cs:136-146 | adding the `*` prefix commutes with the backslash rewrite |
| SuppressionFile.ScopedRecord | CPPCheckPlugin/AnalyzerCppcheck.cs:133-146 | a line `id:path` with no two adjacent backslashes (single backslashes allowed) yields `id:*path`, or `id:path` if path already starts with `*` |
| SuppressionFile.WildcardEscape | CPPCheckPlugin/AnalyzerCppcheck.cs:136-137 | adding the `*` prefix commutes with doubling backslashes |
| SuppressionFile.EscapedRecord | CPPCheckPlugin/AnalyzerCppcheck.cs:133-146 | a line `id:path` written with every backslash doubled yields `id:` + wildcard(path) with single backslashes |
| Text.Split | CPPCheckPlugin/AnalyzerCppcheck.cs:133 | `Split(':')` gives one more field than there are separators, and no field contains one |
| Text.SplitJoin | CPPCheckPlugin/AnalyzerCppcheck.cs:133 | splitting the join of separator-free fields gives the fields back |
| Text.JoinSplit | CPPCheckPlugin/AnalyzerCppcheck.cs:133 | joining the fields of a split gives the string back |
| Text.RemoveChar | CPPCheckPlugin/AnalyzerCppcheck.cs:128 | `Replace(c, "")` leaves no `c` and keeps every other character; it is the identity when `c` is absent |
| Text.CollapseBackslashes | CPPCheckPlugin/AnalyzerCppcheck.cs:146 | the pair-to-one backslash rewrite never lengthens a string and empties only the empty string |
| Text.CollapseEscape | CPPCheckPlugin/AnalyzerCppcheck.cs:146 | collapsing backslash pairs undoes doubling every backslash |
| Text.CollapseSplit | CPPCheckPlugin/AnalyzerCppcheck.cs:146 | the backslash rewrite commutes with splitting on `:`: it changes each field and never a separator |
| Text.CollapseNoPairs | CPPCheckPlugin/AnalyzerCppcheck.cs:146 | a string without two adjacent backslashes is unchanged |
| Text.ContainsQtByCase | CPPCheckPlugin/AnalyzerCppcheck.cs:53 | the lower-cased path contains `qt` iff some `q`/`Q` is immediately followed by `t`/`T` |
| Text.NatToString | CPPCheckPlugin/AnalyzerCppcheck.cs:34 | the worker count is rendered as a non-empty digit string with no leading zero |
| Text.NatToStringValue | CPPCheckPlugin/AnalyzerCppcheck.cs:34 | the rendered digits read back as the number |
| CppcheckArguments.CollectProjectPaths | CPPCheckPlugin/AnalyzerCppcheck.cs:22-26 | the loop collects exactly the distinct project paths of the files |
| CppcheckArguments.CollectSuppressions | CPPCheckPlugin/AnalyzerCppcheck.cs:19-32 | the loop over projects gives the nine defaults united with the suppressions of every project's file |
| CppcheckArguments.AppendFlags | CPPCheckPlugin/AnalyzerCppcheck.cs:38-95 | one flag per element of the set, each element once, appended to the arguments; it models both the suppression loop (lines 38-41) and the macro loop (lines 91-95) |
| CppcheckArguments.CollectIncludePaths | CPPCheckPlugin/AnalyzerCppcheck.cs:44-49 | the nested loop collects exactly the distinct include paths of all files |
| CppcheckArguments.AppendIncludeFlags | CPPCheckPlugin/AnalyzerCppcheck.cs:51-58 | one `"  -I\"path\""` flag (two leading spaces) for each distinct include path whose lower-cased form lacks `qt`, and none for the others |
| CppcheckArguments.AppendFileArgs | CPPCheckPlugin/AnalyzerCppcheck.cs:60-63 | one quoted path per file, in input order, duplicates included |
| CppcheckArguments.CollectMacros | CPPCheckPlugin/AnalyzerCppcheck.cs:68-89 | the macros are those of all files plus the identity macros, the 64-bit or 32-bit platform macros, and `_DEBUG` for debug |
| CppcheckArguments.Analyze | CPPCheckPlugin/AnalyzerCppcheck.cs:13-96 | the argument string is defaults, ` -j N`, the optional ` --inconclusive `, the suppression flags, the include flags, the file paths, then macro flags only for more than one file |
| CppcheckArguments.SuppressionSet | CPPCheckPlugin/AnalyzerCppcheck.cs:19-32 | the nine default suppressions are always included |
| CppcheckArguments.DefaultsAlwaysSuppressed | CPPCheckPlugin/AnalyzerCppcheck.cs:19 | every default suppression gets a flag whatever the input, so there is always at least one suppression flag |
| CppcheckArguments.SuppressionSetMembers | CPPCheckPlugin/AnalyzerCppcheck.cs:19-32 | a suppression is passed iff it is a default or is declared by the file of some input file's project |
| CppcheckArguments.SuppressionSetFromLines | CPPCheckPlugin/AnalyzerCppcheck.cs:29-32 | a suppression is passed iff it is a default or some line of some input file's project configuration yields it |
| CppcheckArguments.ParsedSuppressionsAdd | CPPCheckPlugin/AnalyzerCppcheck.cs:31 | adding a project to the union adds exactly the suppressions of its file |
| CppcheckArguments.EnumerationSize | CPPCheckPlugin/AnalyzerCppcheck.cs:38-41 | an enumeration of a set has as many entries as the set has elements: one flag per distinct value |
| CppcheckArguments.EmittedIncludeMembers | CPPCheckPlugin/AnalyzerCppcheck.cs:44-58 | an include path gets a flag iff some file lists it and it has no `q`/`Q` followed by `t`/`T` |
| CppcheckArguments.FileMacrosMembers | CPPCheckPlugin/AnalyzerCppcheck.cs:69-73 | a macro is among the files' macros iff some file defines it |
| CppcheckArguments.MacroSetMembers | CPPCheckPlugin/AnalyzerCppcheck.cs:74-89 | the identity macros are always defined; `_M_X64`/`_WIN64` iff 64-bit, `_M_IX86` iff not, `_DEBUG` iff debug, in each case unless a file already defines it |
| CppcheckArguments.ConfigurationMacros | CPPCheckPlugin/AnalyzerCppcheck.cs:74-89 | the four identity macros always; `_M_X64` and `_WIN64` iff 64-bit; `_M_IX86` iff not; `_DEBUG` iff debug; nothing else |
| CppcheckArguments.RenderAllConcat | CPPCheckPlugin/AnalyzerCppcheck.cs:38-41 | `RenderAll`, the flags of an enumeration, of two runs of elements is the flags of the first run followed by those of the second |
| CppcheckArguments.RenderAllFirst | CPPCheckPlugin/AnalyzerCppcheck.cs:38-41 | `RenderAll` of a non-empty enumeration begins with the flag of its first element |
| CppcheckArguments.FileArgsAppend | CPPCheckPlugin/AnalyzerCppcheck.cs:60-63 | `FileArgs`: the quoted paths of two runs of files come one after the other |
| CppcheckArguments.WorkerFlag | CPPCheckPlugin/AnalyzerCppcheck.cs:16-34 | `Arguments`, the whole string, begins with the user's defaults and ` -j N`, and N reads back as the worker count |
| CppcheckArguments.InconclusiveFlag | CPPCheckPlugin/AnalyzerCppcheck.cs:34-36 | in `Arguments`, the text after ` -j N` starts with ` --inconclusive ` iff inconclusive checks are enabled |

## Left out

- File access in `readSuppressions` (AnalyzerCppcheck.cs:116-124) is not modelled. This covers building the `\suppressions.cfg` path, `File.Exists`, `File.OpenText` and `ReadLine`. A file is its sequence of lines, and a missing file is `None`. An exception from opening or reading an existing file is not modelled, and neither is the reader that is never closed.
- Discovering the cppcheck executable, the file dialog and saving the settings (AnalyzerCppcheck.cs:98-110) are user interface and persistence.
- `run` and the output window (AnalyzerCppcheck.cs:111) launch a process; that code is not part of this model.
- `Properties.Settings.Default.DefaultArguments` and `InconclusiveChecksEnabled` are parameters (`defaultArguments`, `inconclusive`), and `_numCores` is the parameter `numCores`.
- `Debug.Assert(_numCores > 0)` becomes the precondition `numCores > 0` of `Analyze`. No error value is returned.
- Hash-set enumeration order is not modelled. Suppression, include and macro flags are in whatever order the loop picks, and only the file paths have a fixed order.
- `ContainsQtByCase`: `ToLower` is modelled for the ASCII letters only; culture-specific lower-casing of other characters is not modelled.
- `Wildcard`: `StartsWith("*")` is modelled as an ordinal comparison; the culture-sensitive comparison of .NET (ignorable characters) is not modelled.
- `ICodeAnalyzer`, `SourceFile` and the EnvDTE types are not part of this model; `SourceFile` is a plain datatype with the four attributes used here.
- Three details of the code that the model keeps as written:
  - A header's group is the whole line with every `[` and `]` removed (AnalyzerCppcheck.cs:128), not only the text between the brackets.
  - The emptiness test (line 145) comes before the backslash rewrite (line 146). The two orders agree, because the rewrite empties only the empty string (`CollapseBackslashes`).
  - An include flag is appended as `" " + " -I\"path\""` (lines 55-56), with two leading spaces.
