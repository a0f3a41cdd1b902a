/**
 * The argument string the plug-in hands to cppcheck (the part of
 * AnalyzerCppcheck.analyze that builds `cppheckargs`).
 *
 * The string is built by appending, in this order: the user's default
 * arguments, " -j N", optionally " --inconclusive ", one " --suppress=" per
 * suppression, one include flag per include path that does not mention Qt, one
 * quoted path per input file in input order and, only for more than one file,
 * one " -D" per macro. Suppressions, include paths and macros are hash sets
 * whose enumeration order is unspecified: each loop over one of them picks its
 * elements in some order and returns that order, and the contracts say that
 * the order lists each element of the set exactly once.
 */
module CppcheckArguments {
  import opened Text
  import opened SuppressionFile

  /** One file to analyse, as the development environment describes it. */
  datatype SourceFile = SourceFile(
    filePath: string,
    baseProjectPath: string,
    includePaths: seq<string>,
    macros: seq<string>)

  /** Checks that are always suppressed. */
  const DefaultSuppressions: set<string> := {
    "passedByValue", "cstyleCast", "missingIncludeSystem", "unusedStructMember",
    "unmatchedSuppression", "class_X_Y", "missingInclude", "constStatement",
    "unusedPrivateFunction"
  }

  /** Macros that identify the compiler and platform in a multi-file analysis. */
  const IdentityMacros: set<string> := {"_MSC_VER", "WIN32", "_WIN32", "__cplusplus"}

  // ---------------------------------------------------------------------------
  // What goes into the arguments, as sets
  // ---------------------------------------------------------------------------

  /**
   * The suppressions.cfg of a project, from the contents of the configuration
   * files of the projects that have one (keyed by project path).
   */
  function ConfigFile(configs: map<string, seq<string>>, projectPath: string): Option<seq<string>> {
    if projectPath in configs then Some(configs[projectPath]) else None
  }

  /** The distinct project paths of the files. */
  function ProjectPaths(files: seq<SourceFile>): set<string> {
    set f | f in files :: f.baseProjectPath
  }

  /** The suppressions declared by the configuration files of the given projects. */
  function ParsedSuppressions(projectPaths: set<string>, configs: map<string, seq<string>>): set<string> {
    set p, r | p in projectPaths && r in Suppressions(ConfigFile(configs, p)) :: r
  }

  /** Every suppression passed to cppcheck: the defaults and those of every project. */
  function SuppressionSet(files: seq<SourceFile>, configs: map<string, seq<string>>): (r: set<string>)
    ensures DefaultSuppressions <= r
  {
    DefaultSuppressions + ParsedSuppressions(ProjectPaths(files), configs)
  }

  /** The distinct include paths of all files. */
  function IncludePaths(files: seq<SourceFile>): set<string> {
    set f, p | f in files && p in f.includePaths :: p
  }

  /** The include paths that get a flag: those whose lower-cased form does not contain "qt". */
  function EmittedIncludes(includePaths: set<string>): set<string> {
    set p | p in includePaths && !ContainsQt(p)
  }

  /** The distinct macros of all files. */
  function FileMacros(files: seq<SourceFile>): set<string> {
    set f, m | f in files && m in f.macros :: m
  }

  /** The macros a multi-file analysis defines besides those of the files. */
  function ConfigurationMacros(is64bit: bool, isDebug: bool): (r: set<string>)
    ensures IdentityMacros <= r
    ensures ("_M_X64" in r <==> is64bit) && ("_WIN64" in r <==> is64bit)
    ensures "_M_IX86" in r <==> !is64bit
    ensures "_DEBUG" in r <==> isDebug
    ensures r - IdentityMacros <= {"_M_X64", "_WIN64", "_M_IX86", "_DEBUG"}
  {
    IdentityMacros
    + (if is64bit then {"_M_X64", "_WIN64"} else {"_M_IX86"})
    + (if isDebug then {"_DEBUG"} else {})
  }

  /** Every macro of a multi-file analysis. */
  function MacroSet(files: seq<SourceFile>, is64bit: bool, isDebug: bool): set<string> {
    FileMacros(files) + ConfigurationMacros(is64bit, isDebug)
  }

  // ---------------------------------------------------------------------------
  // How the arguments are spelled
  // ---------------------------------------------------------------------------

  datatype Flag = Suppress | Include | Define

  /** One flag as appended to the arguments (an include flag carries two leading spaces). */
  function Render(flag: Flag, x: string): string {
    match flag
    case Suppress => " --suppress=" + x
    case Include => " " + " -I\"" + x + "\""
    case Define => " -D" + x
  }

  /** The flags for the elements of `xs`, in that order. */
  function RenderAll(flag: Flag, xs: seq<string>): string {
    if xs == [] then "" else RenderAll(flag, xs[..|xs| - 1]) + Render(flag, xs[|xs| - 1])
  }

  /** One quoted path per file, in the order of the files. */
  function FileArgs(files: seq<SourceFile>): string {
    if files == [] then "" else FileArgs(files[..|files| - 1]) + " \"" + files[|files| - 1].filePath + "\""
  }

  /** `order` lists every element of `s` exactly once. */
  ghost predicate Enumerates(order: seq<string>, s: set<string>) {
    (forall i, j :: 0 <= i < j < |order| ==> order[i] != order[j])
    && (forall x :: x in order <==> x in s)
  }

  /**
   * The whole argument string, given the order in which the suppression,
   * include-path and macro sets were enumerated.
   */
  function Arguments(
    defaultArguments: string, numCores: nat, inconclusive: bool,
    suppressionOrder: seq<string>, includeOrder: seq<string>,
    files: seq<SourceFile>, macroOrder: seq<string>): string
  {
    defaultArguments
    + " -j " + NatToString(numCores)
    + (if inconclusive then " --inconclusive " else "")
    + RenderAll(Suppress, suppressionOrder)
    + RenderAll(Include, includeOrder)
    + FileArgs(files)
    + RenderAll(Define, macroOrder)
  }

  // ---------------------------------------------------------------------------
  // The steps of analyze, one loop each
  // ---------------------------------------------------------------------------

  /** Collects the distinct project paths of the files. */
  method CollectProjectPaths(files: seq<SourceFile>) returns (projectPaths: set<string>)
    ensures projectPaths == ProjectPaths(files)
  {
    projectPaths := {};
    for i := 0 to |files|
      invariant projectPaths == ProjectPaths(files[..i])
    {
      assert files[..i + 1] == files[..i] + [files[i]];
      projectPaths := projectPaths + {files[i].baseProjectPath};
    }
    assert files[..|files|] == files;
  }

  /** Unites the default suppressions with those read from each project's configuration file. */
  method CollectSuppressions(projectPaths: set<string>, configs: map<string, seq<string>>)
    returns (suppressions: set<string>)
    ensures suppressions == DefaultSuppressions + ParsedSuppressions(projectPaths, configs)
  {
    suppressions := DefaultSuppressions;
    var remaining := projectPaths;
    while remaining != {}
      invariant remaining <= projectPaths
      invariant suppressions == DefaultSuppressions + ParsedSuppressions(projectPaths - remaining, configs)
      decreases remaining
    {
      var path :| path in remaining;
      var read := ReadSuppressions(ConfigFile(configs, path));
      ParsedSuppressionsAdd(projectPaths - remaining, path, configs);
      assert projectPaths - (remaining - {path}) == (projectPaths - remaining) + {path};
      suppressions := suppressions + read;
      remaining := remaining - {path};
    }
  }

  /** Appends one flag per element of a set, in the order the set is enumerated. */
  method AppendFlags(args: string, flag: Flag, items: set<string>) returns (result: string, order: seq<string>)
    ensures Enumerates(order, items)
    ensures result == args + RenderAll(flag, order)
  {
    result, order := args, [];
    var remaining := items;
    while remaining != {}
      invariant remaining <= items
      invariant forall i, j :: 0 <= i < j < |order| ==> order[i] != order[j]
      invariant forall x :: x in order <==> x in items && x !in remaining
      invariant result == args + RenderAll(flag, order)
      decreases remaining
    {
      var x :| x in remaining;
      RenderAllAppend(args, flag, order, x);
      result := result + Render(flag, x);
      order := order + [x];
      remaining := remaining - {x};
    }
  }

  /** Collects the distinct include paths of all files. */
  method CollectIncludePaths(files: seq<SourceFile>) returns (includePaths: set<string>)
    ensures includePaths == IncludePaths(files)
  {
    includePaths := {};
    for i := 0 to |files|
      invariant includePaths == IncludePaths(files[..i])
    {
      var paths := files[i].includePaths;
      for k := 0 to |paths|
        invariant includePaths == IncludePaths(files[..i]) + set p | p in paths[..k]
      {
        assert paths[..k + 1] == paths[..k] + [paths[k]];
        includePaths := includePaths + {paths[k]};
      }
      assert paths[..|paths|] == paths;
      assert files[..i + 1] == files[..i] + [files[i]];
    }
    assert files[..|files|] == files;
  }

  /** Appends one include flag per include path whose lower-cased form does not contain "qt". */
  method AppendIncludeFlags(args: string, includePaths: set<string>) returns (result: string, emitted: seq<string>)
    ensures Enumerates(emitted, EmittedIncludes(includePaths))
    ensures result == args + RenderAll(Include, emitted)
  {
    result, emitted := args, [];
    var remaining := includePaths;
    while remaining != {}
      invariant remaining <= includePaths
      invariant forall i, j :: 0 <= i < j < |emitted| ==> emitted[i] != emitted[j]
      invariant forall x :: x in emitted <==> x in includePaths && x !in remaining && !ContainsQt(x)
      invariant result == args + RenderAll(Include, emitted)
      decreases remaining
    {
      var path :| path in remaining;
      if !Contains(ToLower(path), "qt") {
        RenderAllAppend(args, Include, emitted, path);
        result := result + Render(Include, path);
        emitted := emitted + [path];
      }
      remaining := remaining - {path};
    }
  }

  /** Appends the quoted path of every file, in input order. */
  method AppendFileArgs(args: string, files: seq<SourceFile>) returns (result: string)
    ensures result == args + FileArgs(files)
  {
    result := args;
    for i := 0 to |files|
      invariant result == args + FileArgs(files[..i])
    {
      result := result + " \"" + files[i].filePath + "\"";
      assert files[..i + 1][..i] == files[..i];
    }
    assert files[..|files|] == files;
  }

  /** Collects the macros of a multi-file analysis. */
  method CollectMacros(files: seq<SourceFile>, is64bit: bool, isDebug: bool) returns (macros: set<string>)
    ensures macros == MacroSet(files, is64bit, isDebug)
  {
    macros := {};
    for i := 0 to |files|
      invariant macros == FileMacros(files[..i])
    {
      var fileMacros := files[i].macros;
      for k := 0 to |fileMacros|
        invariant macros == FileMacros(files[..i]) + set m | m in fileMacros[..k]
      {
        assert fileMacros[..k + 1] == fileMacros[..k] + [fileMacros[k]];
        macros := macros + {fileMacros[k]};
      }
      assert fileMacros[..|fileMacros|] == fileMacros;
      assert files[..i + 1] == files[..i] + [files[i]];
    }
    assert files[..|files|] == files;
    ghost var fromFiles := macros;
    macros := macros + {"_MSC_VER"};
    macros := macros + {"WIN32"};
    macros := macros + {"_WIN32"};
    macros := macros + {"__cplusplus"};
    assert macros == fromFiles + IdentityMacros;
    ghost var identified := macros;
    if is64bit {
      macros := macros + {"_M_X64"};
      macros := macros + {"_WIN64"};
    } else {
      macros := macros + {"_M_IX86"};
    }
    assert macros == identified + (if is64bit then {"_M_X64", "_WIN64"} else {"_M_IX86"});
    if isDebug {
      macros := macros + {"_DEBUG"};
    }
  }

  /**
   * Builds the argument string for cppcheck. `configs` holds the contents of
   * the suppressions.cfg of every project that has one.
   */
  method Analyze(
    files: seq<SourceFile>, configs: map<string, seq<string>>,
    defaultArguments: string, numCores: int, inconclusive: bool,
    is64bit: bool, isDebug: bool)
    returns (args: string, suppressionOrder: seq<string>, includeOrder: seq<string>, macroOrder: seq<string>)
    requires numCores > 0
    ensures Enumerates(suppressionOrder, SuppressionSet(files, configs))
    ensures Enumerates(includeOrder, EmittedIncludes(IncludePaths(files)))
    ensures |files| > 1 ==> Enumerates(macroOrder, MacroSet(files, is64bit, isDebug))
    ensures |files| <= 1 ==> macroOrder == []
    ensures args == Arguments(defaultArguments, numCores, inconclusive,
                              suppressionOrder, includeOrder, files, macroOrder)
  {
    args := defaultArguments;

    var projectPaths := CollectProjectPaths(files);
    var suppressions := CollectSuppressions(projectPaths, configs);

    args := args + " -j " + NatToString(numCores);
    if inconclusive {
      args := args + " --inconclusive ";
    }
    ghost var head := defaultArguments + " -j " + NatToString(numCores)
      + (if inconclusive then " --inconclusive " else "");
    assert args == head;

    args, suppressionOrder := AppendFlags(args, Suppress, suppressions);

    var includePaths := CollectIncludePaths(files);
    args, includeOrder := AppendIncludeFlags(args, includePaths);

    args := AppendFileArgs(args, files);
    ghost var body := head + RenderAll(Suppress, suppressionOrder)
      + RenderAll(Include, includeOrder) + FileArgs(files);
    assert args == body;

    macroOrder := [];
    if |files| > 1 {
      var macros := CollectMacros(files, is64bit, isDebug);
      args, macroOrder := AppendFlags(args, Define, macros);
    } else {
      assert args == body + RenderAll(Define, []);
    }
  }

  // ---------------------------------------------------------------------------
  // Properties
  // ---------------------------------------------------------------------------

  /** Appending one more flag to an argument string built from `xs`. */
  lemma RenderAllAppend(args: string, flag: Flag, xs: seq<string>, x: string)
    ensures args + RenderAll(flag, xs) + Render(flag, x) == args + RenderAll(flag, xs + [x])
  {
    var ys := xs + [x];
    assert ys[..|ys| - 1] == xs;
    assert RenderAll(flag, ys) == RenderAll(flag, xs) + Render(flag, x);
    Regroup(args, RenderAll(flag, xs), Render(flag, x));
  }

  /** Adding one project to the set adds the suppressions of its configuration file. */
  lemma ParsedSuppressionsAdd(done: set<string>, path: string, configs: map<string, seq<string>>)
    ensures ParsedSuppressions(done + {path}, configs)
      == ParsedSuppressions(done, configs) + Suppressions(ConfigFile(configs, path))
  {
  }

  /** An enumeration of a set has one entry per element: one flag per distinct value. */
  lemma {:induction false} EnumerationSize(order: seq<string>, s: set<string>)
    requires Enumerates(order, s)
    ensures |order| == |s|
  {
    if order == [] {
      assert forall x :: x !in s;
      assert s == {};
    } else {
      var last, init := order[|order| - 1], order[..|order| - 1];
      assert order == init + [last];
      forall x
        ensures x in init <==> x in s - {last}
      {
        if x in init {
          var k :| 0 <= k < |init| && init[k] == x;
          assert order[k] != order[|order| - 1];
        }
      }
      EnumerationSize(init, s - {last});
    }
  }

  /**
   * Whatever the input, every default suppression gets a flag, so there is at
   * least one suppression flag.
   */
  lemma DefaultsAlwaysSuppressed(files: seq<SourceFile>, configs: map<string, seq<string>>, order: seq<string>)
    requires Enumerates(order, SuppressionSet(files, configs))
    ensures forall d :: d in DefaultSuppressions ==> d in order
    ensures order != []
  {
    assert "passedByValue" in DefaultSuppressions;
  }

  /** The suppressions passed to cppcheck, characterised file by file. */
  lemma SuppressionSetMembers(files: seq<SourceFile>, configs: map<string, seq<string>>, r: string)
    ensures r in SuppressionSet(files, configs) <==>
      r in DefaultSuppressions
      || exists i :: 0 <= i < |files| && r in Suppressions(ConfigFile(configs, files[i].baseProjectPath))
  {
    if r in ParsedSuppressions(ProjectPaths(files), configs) {
      var p :| p in ProjectPaths(files) && r in Suppressions(ConfigFile(configs, p));
      var f :| f in files && f.baseProjectPath == p;
      var i :| 0 <= i < |files| && files[i] == f;
    }
    if i :| 0 <= i < |files| && r in Suppressions(ConfigFile(configs, files[i].baseProjectPath)) {
      assert files[i].baseProjectPath in ProjectPaths(files);
    }
  }

  /**
   * A non-default suppression is passed exactly when some line of the
   * suppressions.cfg of some input file's project yields it.
   */
  lemma SuppressionSetFromLines(files: seq<SourceFile>, configs: map<string, seq<string>>, r: string)
    ensures r in SuppressionSet(files, configs) <==>
      r in DefaultSuppressions
      || (exists i, k :: 0 <= i < |files| && files[i].baseProjectPath in configs
            && 0 <= k < |configs[files[i].baseProjectPath]|
            && Yields(configs[files[i].baseProjectPath], k, r))
  {
    SuppressionSetMembers(files, configs, r);
    if i :| 0 <= i < |files| && r in Suppressions(ConfigFile(configs, files[i].baseProjectPath)) {
      var p := files[i].baseProjectPath;
      SuppressionsMembers(configs[p], r);
      var k :| 0 <= k < |configs[p]| && Yields(configs[p], k, r);
    }
    if i, k :| (0 <= i < |files| && files[i].baseProjectPath in configs
                && 0 <= k < |configs[files[i].baseProjectPath]|
                && Yields(configs[files[i].baseProjectPath], k, r)) {
      SuppressionsMembers(configs[files[i].baseProjectPath], r);
    }
  }

  /**
   * An include path gets a flag exactly when some file lists it and it has no
   * letter q or Q immediately followed by t or T.
   */
  lemma EmittedIncludeMembers(files: seq<SourceFile>, p: string)
    ensures p in EmittedIncludes(IncludePaths(files)) <==>
      (exists i :: 0 <= i < |files| && p in files[i].includePaths)
      && !(exists k :: 0 <= k < |p| - 1 && p[k] in "qQ" && p[k + 1] in "tT")
  {
    ContainsQtByCase(p);
    if p in IncludePaths(files) {
      var f :| f in files && p in f.includePaths;
      var i :| 0 <= i < |files| && files[i] == f;
    }
    if i :| 0 <= i < |files| && p in files[i].includePaths {
      assert files[i] in files;
    }
  }

  /**
   * The macros of a multi-file analysis: the compiler-identity macros always;
   * the 64-bit or the 32-bit platform macros by configuration; _DEBUG for a
   * debug configuration; and any of them when a file defines it.
   */
  lemma MacroSetMembers(files: seq<SourceFile>, is64bit: bool, isDebug: bool)
    ensures IdentityMacros <= MacroSet(files, is64bit, isDebug)
    ensures "_M_X64" in MacroSet(files, is64bit, isDebug) <==> is64bit || "_M_X64" in FileMacros(files)
    ensures "_WIN64" in MacroSet(files, is64bit, isDebug) <==> is64bit || "_WIN64" in FileMacros(files)
    ensures "_M_IX86" in MacroSet(files, is64bit, isDebug) <==> !is64bit || "_M_IX86" in FileMacros(files)
    ensures "_DEBUG" in MacroSet(files, is64bit, isDebug) <==> isDebug || "_DEBUG" in FileMacros(files)
    ensures forall m :: m in FileMacros(files) ==> m in MacroSet(files, is64bit, isDebug)
  {
    assert "_M_X64" !in IdentityMacros && "_WIN64" !in IdentityMacros;
    assert "_M_IX86" !in IdentityMacros && "_DEBUG" !in IdentityMacros;
  }

  /** A macro belongs to FileMacros exactly when some file defines it. */
  lemma FileMacrosMembers(files: seq<SourceFile>, m: string)
    ensures m in FileMacros(files) <==> exists i :: 0 <= i < |files| && m in files[i].macros
  {
    if m in FileMacros(files) {
      var f :| f in files && m in f.macros;
      var i :| 0 <= i < |files| && files[i] == f;
    }
    if i :| 0 <= i < |files| && m in files[i].macros {
      assert files[i] in files;
    }
  }

  /** The flags for a non-empty sequence begin with the flag of its first element. */
  lemma {:induction false} RenderAllFirst(flag: Flag, xs: seq<string>)
    requires xs != []
    ensures StartsWith(RenderAll(flag, xs), Render(flag, xs[0]))
  {
    if |xs| > 1 {
      RenderAllFirst(flag, xs[..|xs| - 1]);
    }
  }

  /** The flags for two runs of elements, one after the other. */
  lemma {:induction false} RenderAllConcat(flag: Flag, a: seq<string>, b: seq<string>)
    ensures RenderAll(flag, a + b) == RenderAll(flag, a) + RenderAll(flag, b)
  {
    if b == [] {
      assert a + b == a;
    } else {
      var init, last := b[..|b| - 1], b[|b| - 1];
      assert (a + b)[..|a + b| - 1] == a + init;
      assert (a + b)[|a + b| - 1] == last;
      RenderAllConcat(flag, a, init);
      Regroup(RenderAll(flag, a), RenderAll(flag, init), Render(flag, last));
    }
  }

  /** The quoted paths of two runs of files, one after the other. */
  lemma {:induction false} FileArgsAppend(a: seq<SourceFile>, b: seq<SourceFile>)
    ensures FileArgs(a + b) == FileArgs(a) + FileArgs(b)
  {
    if b == [] {
      assert a + b == a;
    } else {
      var init, last := b[..|b| - 1], b[|b| - 1];
      assert (a + b)[..|a + b| - 1] == a + init;
      FileArgsAppend(a, init);
    }
  }

  /** The arguments are the head " -j N" followed by everything else. */
  lemma ArgumentsAfterHead(
    defaultArguments: string, numCores: nat, inconclusive: bool,
    suppressionOrder: seq<string>, includeOrder: seq<string>,
    files: seq<SourceFile>, macroOrder: seq<string>)
    ensures Arguments(defaultArguments, numCores, inconclusive,
                      suppressionOrder, includeOrder, files, macroOrder)
      == (defaultArguments + " -j " + NatToString(numCores))
         + ((if inconclusive then " --inconclusive " else "")
            + (RenderAll(Suppress, suppressionOrder) + RenderAll(Include, includeOrder)
               + FileArgs(files) + RenderAll(Define, macroOrder)))
  {
    var h := defaultArguments + " -j " + NatToString(numCores);
    var f := if inconclusive then " --inconclusive " else "";
    var s, i, a, d := RenderAll(Suppress, suppressionOrder), RenderAll(Include, includeOrder),
                      FileArgs(files), RenderAll(Define, macroOrder);
    Regroup(h, f, s);
    Regroup(h, f + s, i);
    Regroup(h, f + s + i, a);
    Regroup(h, f + s + i + a, d);
    Regroup(f, s, i);
    Regroup(f, s + i, a);
    Regroup(f, s + i + a, d);
  }

  /**
   * The arguments begin with the user's default arguments and " -j N", where the
   * digits after "-j" read back as the worker count.
   */
  lemma WorkerFlag(
    defaultArguments: string, numCores: nat, inconclusive: bool,
    suppressionOrder: seq<string>, includeOrder: seq<string>,
    files: seq<SourceFile>, macroOrder: seq<string>)
    ensures StartsWith(Arguments(defaultArguments, numCores, inconclusive,
                                 suppressionOrder, includeOrder, files, macroOrder),
                       defaultArguments + " -j " + NatToString(numCores))
    ensures DigitsValue(NatToString(numCores)) == numCores
  {
    NatToStringValue(numCores);
    var head := defaultArguments + " -j " + NatToString(numCores);
    var args := Arguments(defaultArguments, numCores, inconclusive,
                          suppressionOrder, includeOrder, files, macroOrder);
    ArgumentsAfterHead(defaultArguments, numCores, inconclusive,
                       suppressionOrder, includeOrder, files, macroOrder);
    assert args[..|head|] == head;
  }

  /**
   * The text after " -j N" starts with " --inconclusive " exactly when
   * inconclusive checks are enabled: otherwise a suppression flag comes next,
   * and there is always at least one.
   */
  lemma InconclusiveFlag(
    defaultArguments: string, numCores: nat, inconclusive: bool,
    suppressionOrder: seq<string>, includeOrder: seq<string>,
    files: seq<SourceFile>, macroOrder: seq<string>)
    requires suppressionOrder != []
    ensures var args := Arguments(defaultArguments, numCores, inconclusive,
                                  suppressionOrder, includeOrder, files, macroOrder);
      var n := |defaultArguments + " -j " + NatToString(numCores)|;
      StartsWith(args[n..], " --inconclusive ") <==> inconclusive
  {
    var head := defaultArguments + " -j " + NatToString(numCores);
    var suppress := RenderAll(Suppress, suppressionOrder);
    var rest := RenderAll(Include, includeOrder) + FileArgs(files) + RenderAll(Define, macroOrder);
    var flag := if inconclusive then " --inconclusive " else "";
    ArgumentsAfterHead(defaultArguments, numCores, inconclusive,
                       suppressionOrder, includeOrder, files, macroOrder);
    Regroup(suppress, RenderAll(Include, includeOrder), FileArgs(files));
    Regroup(suppress, RenderAll(Include, includeOrder) + FileArgs(files), RenderAll(Define, macroOrder));
    var args := Arguments(defaultArguments, numCores, inconclusive,
                          suppressionOrder, includeOrder, files, macroOrder);
    assert args == head + (flag + (suppress + rest));
    assert args[|head|..] == flag + (suppress + rest);
    RenderAllFirst(Suppress, suppressionOrder);
    SuppressFlagFirst(suppress, Render(Suppress, suppressionOrder[0]), rest);
    OptionalFlag(flag, suppress + rest, inconclusive);
  }

  /** Text that begins with a suppression flag has 's' at index 3 (" --s..."). */
  lemma SuppressFlagFirst(suppress: string, first: string, rest: string)
    requires StartsWith(suppress, first)
    requires StartsWith(first, " --suppress=")
    ensures |suppress + rest| > 3 && (suppress + rest)[3] == 's'
  {
    assert first[3] == first[..12][3] == 's';
    assert suppress[3] == suppress[..|first|][3];
  }

  /** The optional inconclusive flag can be recognised in front of text with 's' at index 3. */
  lemma OptionalFlag(flag: string, tail: string, inconclusive: bool)
    requires flag == if inconclusive then " --inconclusive " else ""
    requires |tail| > 3 && tail[3] == 's'
    ensures StartsWith(flag + tail, " --inconclusive ") <==> inconclusive
  {
    if inconclusive {
      assert (flag + tail)[..|flag|] == flag;
    } else {
      assert flag + tail == tail;
      assert " --inconclusive "[3] == 'i';
      assert !StartsWith(tail, " --inconclusive ");
    }
  }
}
