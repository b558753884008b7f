/**
 * The merge_vars action (merge_vars.py:85-214): validate the options, load
 * the `files` sources in order into `hostvars_to_update`, let extra-vars
 * prevail, diff against the task_vars values the files started from, then
 * apply the `literals` one by one. The filesystem, `merge_hash` and the
 * templar are inputs; the result is reported in the action's fields.
 */
module MergeVars {
  import opened Common
  import opened Values
  import opened Text
  import opened Sources
  import Diffs
  import Literals

  /** The accepted option names (merge_vars.py:86). */
  const ValidArguments: set<string> := {"files", "literals", "ignore_missing_files", "extensions"}

  /** The option checks of merge_vars.py:111-117: unknown names first, then one of files/literals. */
  function Validate(args: Vars): (r: Option<Failure>)
    ensures r == None <==> args.Keys <= ValidArguments && ("files" in args || "literals" in args)
  {
    var invalid := set a | a in args && a !in ValidArguments;
    if invalid != {} then Some(InvalidOptions(invalid))
    else if "files" !in args && "literals" !in args then Some(NoFilesOrLiterals)
    else None
  }

  /** An unknown option is reported before a missing files/literals, naming exactly the unknown options. */
  lemma InvalidOptionsReported(args: Vars, a: string)
    requires a in args && a !in ValidArguments
    ensures Validate(args).Some? && Validate(args).value.InvalidOptions?
    ensures forall n :: n in Validate(args).value.names <==> n in args && n !in ValidArguments
  {
    var invalid := set n | n in args && n !in ValidArguments;
    assert a in invalid;
  }

  /** The task_vars entries a file pre-seeds (merge_vars.py:153-157): its top-level keys not yet collected. */
  function NewFromTaskVars(h: Vars, cur: Vars, taskVars: Vars): Vars
  {
    map k | k in cur && k !in h && k in taskVars :: taskVars[k]
  }

  /** After pre-seeding, every top-level key of the file that task_vars defines is present, and nothing collected is overwritten. */
  lemma PreseedFromTaskVars(h: Vars, cur: Vars, taskVars: Vars)
    ensures forall k :: k in cur && k in taskVars ==> k in h + NewFromTaskVars(h, cur, taskVars)
    ensures forall k :: k in h ==> (h + NewFromTaskVars(h, cur, taskVars))[k] == h[k]
    ensures forall k :: k in h + NewFromTaskVars(h, cur, taskVars) && k !in h ==>
      k in cur && k in taskVars && (h + NewFromTaskVars(h, cur, taskVars))[k] == taskVars[k]
  {
  }

  /** The pre-seeding loop of merge_vars.py:153-157, over the file's top-level keys in any order. */
  method Preseed(h: Vars, orig: Vars, cur: Vars, taskVars: Vars) returns (h': Vars, orig': Vars)
    ensures h' == h + NewFromTaskVars(h, cur, taskVars)
    ensures orig' == orig + NewFromTaskVars(h, cur, taskVars)
  {
    h', orig' := h, orig;
    var todo := cur.Keys;
    while todo != {}
      invariant todo <= cur.Keys
      invariant forall k :: k in h' <==> k in h || (k in cur && k !in todo && k !in h && k in taskVars)
      invariant forall k :: k in h' ==> h'[k] == if k in cur && k !in todo && k !in h && k in taskVars then taskVars[k] else h[k]
      invariant forall k :: k in orig' <==> k in orig || (k in cur && k !in todo && k !in h && k in taskVars)
      invariant forall k :: k in orig' ==> orig'[k] == if k in cur && k !in todo && k !in h && k in taskVars then taskVars[k] else orig[k]
      decreases |todo|
    {
      var k :| k in todo;
      if k !in h' && k in taskVars {
        orig' := orig'[k := taskVars[k]];
        h' := h'[k := taskVars[k]];
      }
      todo := todo - {k};
    }
    SeededEntries(h, h', h, cur, taskVars);
    SeededEntries(orig, orig', h, cur, taskVars);
  }

  /** A map that agrees with `base` except on exactly the pre-seeded keys, which hold task_vars values. */
  lemma SeededEntries(base: Vars, m: Vars, h: Vars, cur: Vars, taskVars: Vars)
    requires forall k :: k in m <==> k in base || (k in cur && k !in h && k in taskVars)
    requires forall k :: k in m ==> m[k] == if k in cur && k !in h && k in taskVars then taskVars[k] else base[k]
    ensures m == base + NewFromTaskVars(h, cur, taskVars)
  {
    var seeded := NewFromTaskVars(h, cur, taskVars);
    assert m.Keys == (base + seeded).Keys;
  }

  /** What the file loop has built: the variables, the task_vars values they started from, and the loaded files. */
  datatype Loaded = Loaded(vars: Vars, orig: Vars, included: seq<string>)

  /** Loading one file (merge_vars.py:148-162): pre-seed from task_vars, then `merge_hash` the file in. */
  function LoadOne(st: Loaded, f: string, fs: FileSystem, taskVars: Vars, merge: (Vars, Vars) -> Vars): Loaded
    requires IsFile(fs, f)
  {
    var cur := fs[f].contents;
    var seeded := NewFromTaskVars(st.vars, cur, taskVars);
    Loaded(merge(st.vars + seeded, cur), st.orig + seeded, st.included + [f])
  }

  /** The loop of merge_vars.py:141-164 from state `st`: files that fail the extension test are skipped. */
  function LoadAll(files: seq<string>, pass: string -> bool, fs: FileSystem, taskVars: Vars, merge: (Vars, Vars) -> Vars, st: Loaded): Loaded
    requires forall i :: 0 <= i < |files| ==> IsFile(fs, files[i])
    decreases |files|
  {
    if files == [] then st
    else
      var next := if pass(files[0]) then LoadOne(st, files[0], fs, taskVars, merge) else st;
      LoadAll(files[1..], pass, fs, taskVars, merge, next)
  }

  /** The files reported as included are exactly the ones loaded: those that pass the extension test, in order. */
  lemma {:induction false} LoadAllIncludesFiltered(files: seq<string>, pass: string -> bool, fs: FileSystem, taskVars: Vars,
                                                   merge: (Vars, Vars) -> Vars, st: Loaded)
    requires forall i :: 0 <= i < |files| ==> IsFile(fs, files[i])
    ensures LoadAll(files, pass, fs, taskVars, merge, st).included == st.included + Filter(files, pass)
    decreases |files|
  {
    if files == [] {
      assert st.included + [] == st.included;
    } else {
      var keep := if pass(files[0]) then [files[0]] else [];
      var next := if pass(files[0]) then LoadOne(st, files[0], fs, taskVars, merge) else st;
      assert next.included == st.included + keep;
      LoadAllIncludesFiltered(files[1..], pass, fs, taskVars, merge, next);
      assert st.included + keep + Filter(files[1..], pass) == st.included + (keep + Filter(files[1..], pass));
    }
  }

  /** Every value recorded as an original is the task_vars value of its key. */
  ghost predicate FromTaskVars(orig: Vars, taskVars: Vars)
  {
    forall k :: k in orig ==> k in taskVars && orig[k] == taskVars[k]
  }

  /** The originals the diff is taken against are exactly task_vars values, whatever `merge_hash` does. */
  lemma {:induction false} LoadAllOrigFromTaskVars(files: seq<string>, pass: string -> bool, fs: FileSystem, taskVars: Vars,
                                                   merge: (Vars, Vars) -> Vars, st: Loaded)
    requires forall i :: 0 <= i < |files| ==> IsFile(fs, files[i])
    requires FromTaskVars(st.orig, taskVars)
    ensures FromTaskVars(LoadAll(files, pass, fs, taskVars, merge, st).orig, taskVars)
    decreases |files|
  {
    if files != [] {
      var next := if pass(files[0]) then LoadOne(st, files[0], fs, taskVars, merge) else st;
      assert FromTaskVars(next.orig, taskVars);
      LoadAllOrigFromTaskVars(files[1..], pass, fs, taskVars, merge, next);
    }
  }

  /**
   * The loading loop. A truthy `extensions` that supports no `in` makes
   * the first extension test raise, before anything is loaded; the test is
   * made once up front, which is the same.
   */
  method LoadFiles(files: seq<string>, exts: Value, fs: FileSystem, taskVars: Vars, merge: (Vars, Vars) -> Vars)
    returns (r: Result<Loaded, Failure>)
    requires forall i :: 0 <= i < |files| ==> IsFile(fs, files[i])
    ensures files != [] && !ExtensionsUsable(exts) ==> r == Err(ExtensionsNotAContainer)
    ensures files == [] || ExtensionsUsable(exts) ==>
      r == Ok(LoadAll(files, ExtensionTest(exts), fs, taskVars, merge, Loaded(map[], map[], [])))
  {
    if files != [] && !ExtensionsUsable(exts) {
      return Err(ExtensionsNotAContainer);
    }
    var st := Loaded(map[], map[], []);
    var i := 0;
    assert files[0..] == files;
    while i < |files|
      invariant 0 <= i <= |files|
      invariant LoadAll(files[i..], ExtensionTest(exts), fs, taskVars, merge, st)
             == LoadAll(files, ExtensionTest(exts), fs, taskVars, merge, Loaded(map[], map[], []))
    {
      var f := files[i];
      assert files[i..][0] == f && files[i..][1..] == files[i + 1..];
      if Allowed(exts, f) {
        var cur := fs[f].contents;
        var h, orig := Preseed(st.vars, st.orig, cur, taskVars);
        st := Loaded(merge(h, cur), orig, st.included + [f]);
      }
      i := i + 1;
    }
    r := Ok(st);
  }

  /** merge_vars.py:166-168: a collected top-level key that is also an extra-var takes the extra-var's value. */
  function Overridden(h: Vars, extraVars: Vars): Vars
  {
    map k | k in h :: if k in extraVars then extraVars[k] else h[k]
  }

  method OverrideExtraVars(h: Vars, extraVars: Vars) returns (r: Vars)
    ensures r.Keys == h.Keys
    ensures forall k :: k in r && k in extraVars ==> r[k] == extraVars[k]
    ensures forall k :: k in r && k !in extraVars ==> r[k] == h[k]
  {
    var unmergable := set k | k in h && k in extraVars;
    r := h;
    while unmergable != {}
      invariant unmergable <= h.Keys * extraVars.Keys
      invariant r.Keys == h.Keys
      invariant forall k :: k in r && k in extraVars ==> r[k] == (if k in unmergable then h[k] else extraVars[k])
      invariant forall k :: k in r && k !in extraVars ==> r[k] == h[k]
      decreases |unmergable|
    {
      var k :| k in unmergable;
      r := r[k := extraVars[k]];
      unmergable := unmergable - {k};
    }
  }

  /** What the `files` part of the run produces. */
  datatype FileReport = FileReport(vars: Vars, included: seq<string>, changed: bool)

  /**
   * merge_vars.py:125-175. `changed` is set when the deep diff between the
   * task_vars originals and the final variables is non-empty, which is to
   * say when they differ (`Diffs.DiffEmptyIffEqual`).
   */
  function FilePhase(files: Value, exts: Value, ignoreMissing: bool, taskVars: Vars, extraVars: Vars,
                     fs: FileSystem, merge: (Vars, Vars) -> Vars): Result<FileReport, Failure>
  {
    if !files.List? then Err(FilesNotAList)
    else match Assemble(files.items, fs, ignoreMissing)
      case Err(e) => Err(e)
      case Ok(assembled) =>
        if assembled != [] && !ExtensionsUsable(exts) then Err(ExtensionsNotAContainer)
        else
          AssembledAreFiles(files.items, fs, ignoreMissing);
          var loaded := LoadAll(assembled, ExtensionTest(exts), fs, taskVars, merge, Loaded(map[], map[], []));
          var vars := Overridden(loaded.vars, extraVars);
          Ok(FileReport(vars, loaded.included, loaded.orig != vars))
  }

  /** merge_vars.py:181-211 for the items from `items` on, with the variables and `changed` so far. */
  function ApplyLiterals(items: seq<Value>, vars: Vars, changed: bool, taskVars: Vars, extraVars: Vars,
                         template: Value -> Value): Result<(Vars, bool), Failure>
    decreases |items|
  {
    if items == [] then Ok((vars, changed))
    else
      var item := items[0];
      if !item.Dict? || "path" !in item.entries || "value" !in item.entries then Err(MalformedLiteral)
      else
        var path := template(item.entries["path"]);
        if !path.Str? then Err(PathNotAString)
        else
          var effect := Literals.LiteralEffect(vars, taskVars, extraVars, Split(path.s, '.'), template(item.entries["value"]));
          ApplyLiterals(items[1..], effect.0, changed || effect.1, taskVars, extraVars, template)
  }

  /** The literal loop: each item checked, templated, split on '.', and written. */
  method ApplyLiteralItems(items: seq<Value>, vars: Vars, changed: bool, taskVars: Vars, extraVars: Vars,
                           template: Value -> Value) returns (r: Result<(Vars, bool), Failure>)
    ensures r == ApplyLiterals(items, vars, changed, taskVars, extraVars, template)
  {
    var current, ch := vars, changed;
    var i := 0;
    assert items[0..] == items;
    while i < |items|
      invariant 0 <= i <= |items|
      invariant ApplyLiterals(items[i..], current, ch, taskVars, extraVars, template)
             == ApplyLiterals(items, vars, changed, taskVars, extraVars, template)
    {
      var item := items[i];
      assert items[i..][0] == item && items[i..][1..] == items[i + 1..];
      if !item.Dict? || "path" !in item.entries || "value" !in item.entries {
        return Err(MalformedLiteral);
      }
      var path := template(item.entries["path"]);
      var value := template(item.entries["value"]);
      if !path.Str? {
        return Err(PathNotAString);
      }
      var keys := Split(path.s, '.');
      var literalChanged;
      current, literalChanged := Literals.ApplyLiteral(current, taskVars, extraVars, keys, value);
      ch := ch || literalChanged;
      i := i + 1;
    }
    r := Ok((current, ch));
  }

  /**
   * The literals report `changed` exactly when it was already set or one of
   * them reports a change; whether it was set does not affect the variables.
   */
  lemma {:induction false} LiteralsChangedFlag(items: seq<Value>, vars: Vars, changed: bool, taskVars: Vars,
                                               extraVars: Vars, template: Value -> Value)
    ensures ApplyLiterals(items, vars, changed, taskVars, extraVars, template).Ok?
        == ApplyLiterals(items, vars, false, taskVars, extraVars, template).Ok?
    ensures ApplyLiterals(items, vars, changed, taskVars, extraVars, template).Ok? ==>
      && ApplyLiterals(items, vars, changed, taskVars, extraVars, template).value.0
           == ApplyLiterals(items, vars, false, taskVars, extraVars, template).value.0
      && (ApplyLiterals(items, vars, changed, taskVars, extraVars, template).value.1 <==>
            changed || ApplyLiterals(items, vars, false, taskVars, extraVars, template).value.1)
    decreases |items|
  {
    if items != [] {
      var item := items[0];
      if item.Dict? && "path" in item.entries && "value" in item.entries && template(item.entries["path"]).Str? {
        var path := template(item.entries["path"]);
        var effect := Literals.LiteralEffect(vars, taskVars, extraVars, Split(path.s, '.'), template(item.entries["value"]));
        LiteralsChangedFlag(items[1..], effect.0, changed || effect.1, taskVars, extraVars, template);
        LiteralsChangedFlag(items[1..], effect.0, effect.1, taskVars, extraVars, template);
      }
    }
  }

  /** Every top-level key that is an extra-var holds the extra-var's value. */
  ghost predicate ExtraVarsHeld(vars: Vars, extraVars: Vars)
  {
    forall k :: k in vars && k in extraVars ==> vars[k] == extraVars[k]
  }

  /** A literal never writes under a top-level key that is an extra-var. */
  lemma LiteralKeepsExtraVars(vars: Vars, taskVars: Vars, extraVars: Vars, keys: seq<string>, v: Value)
    requires |keys| >= 1 && ExtraVarsHeld(vars, extraVars)
    ensures ExtraVarsHeld(Literals.LiteralEffect(vars, taskVars, extraVars, keys, v).0, extraVars)
  {
    if keys[0] !in extraVars {
      Literals.SetPathTopLevel(Literals.Seeded(vars, taskVars, keys[0]), keys, v);
    }
  }

  lemma {:induction false} LiteralsKeepExtraVars(items: seq<Value>, vars: Vars, changed: bool, taskVars: Vars,
                                                 extraVars: Vars, template: Value -> Value)
    requires ExtraVarsHeld(vars, extraVars)
    requires ApplyLiterals(items, vars, changed, taskVars, extraVars, template).Ok?
    ensures ExtraVarsHeld(ApplyLiterals(items, vars, changed, taskVars, extraVars, template).value.0, extraVars)
    decreases |items|
  {
    if items != [] {
      var item := items[0];
      var path := template(item.entries["path"]);
      var keys := Split(path.s, '.');
      var v := template(item.entries["value"]);
      LiteralKeepsExtraVars(vars, taskVars, extraVars, keys, v);
      var effect := Literals.LiteralEffect(vars, taskVars, extraVars, keys, v);
      LiteralsKeepExtraVars(items[1..], effect.0, changed || effect.1, taskVars, extraVars, template);
    }
  }

  /** What a successful run reports: `changed`, `ansible_included_var_files` (only with `files`), `ansible_facts`. */
  datatype Report = Report(changed: bool, includedVarFiles: Option<seq<string>>, facts: Vars)

  /** `ignore_missing_files`, read with `get(..., False)` and used for its truth value. */
  function IgnoreMissing(args: Vars): bool
  {
    "ignore_missing_files" in args && Truthy(args["ignore_missing_files"])
  }

  /** `extensions`, read with `get`: None when absent. */
  function Extensions(args: Vars): Value
  {
    if "extensions" in args then args["extensions"] else Null
  }

  /** The literal part of the run, from the variables and `changed` the file part left. */
  function LiteralPhase(args: Vars, vars: Vars, changed: bool, taskVars: Vars, extraVars: Vars,
                        template: Value -> Value): Result<(Vars, bool), Failure>
  {
    if "literals" !in args then Ok((vars, changed))
    else if !args["literals"].List? then Err(LiteralsNotAList)
    else ApplyLiterals(args["literals"].items, vars, changed, taskVars, extraVars, template)
  }

  /** The whole of `run` (merge_vars.py:93-214): a report, or the failure that stops it. */
  function Outcome(args: Vars, taskVars: Vars, extraVars: Vars, fs: FileSystem,
                   merge: (Vars, Vars) -> Vars, template: Value -> Value): Result<Report, Failure>
  {
    if Validate(args).Some? then Err(Validate(args).value)
    else
      var files :=
        if "files" !in args then Ok(FileReport(map[], [], false))
        else FilePhase(args["files"], Extensions(args), IgnoreMissing(args), taskVars, extraVars, fs, merge);
      if files.Err? then Err(files.error)
      else
        var included := if "files" in args then Some(files.value.included) else None;
        match LiteralPhase(args, files.value.vars, files.value.changed, taskVars, extraVars, template)
        case Err(e) => Err(e)
        case Ok(result) => Ok(Report(result.1, included, result.0))
  }

  /** Both option checks come before anything is read: a rejected option set fails whatever the files and variables. */
  lemma ValidationBeforeLoading(args: Vars, taskVars: Vars, extraVars: Vars, fs: FileSystem,
                                merge: (Vars, Vars) -> Vars, template: Value -> Value)
    requires !(args.Keys <= ValidArguments && ("files" in args || "literals" in args))
    ensures Validate(args).Some?
    ensures Outcome(args, taskVars, extraVars, fs, merge, template) == Err(Validate(args).value)
  {
  }

  /** In the facts of a successful run, every top-level key that is an extra-var holds the extra-var's value. */
  lemma ExtraVarsPrevail(args: Vars, taskVars: Vars, extraVars: Vars, fs: FileSystem,
                         merge: (Vars, Vars) -> Vars, template: Value -> Value)
    requires Outcome(args, taskVars, extraVars, fs, merge, template).Ok?
    ensures var facts := Outcome(args, taskVars, extraVars, fs, merge, template).value.facts;
      forall k :: k in facts && k in extraVars ==> facts[k] == extraVars[k]
  {
    var files :=
      if "files" !in args then Ok(FileReport(map[], [], false))
      else FilePhase(args["files"], Extensions(args), IgnoreMissing(args), taskVars, extraVars, fs, merge);
    assert ExtraVarsHeld(files.value.vars, extraVars);
    if "literals" in args {
      LiteralsKeepExtraVars(args["literals"].items, files.value.vars, files.value.changed, taskVars, extraVars, template);
    }
  }

  /**
   * The included files of a successful run are the assembled files that pass
   * the extension test, each a regular file; a run without `files` reports none.
   */
  lemma IncludedAreLoadedFiles(args: Vars, taskVars: Vars, extraVars: Vars, fs: FileSystem,
                               merge: (Vars, Vars) -> Vars, template: Value -> Value)
    requires Outcome(args, taskVars, extraVars, fs, merge, template).Ok?
    ensures var rep := Outcome(args, taskVars, extraVars, fs, merge, template).value;
      && ("files" !in args ==> rep.includedVarFiles == None)
      && ("files" in args ==>
            && args["files"].List?
            && Assemble(args["files"].items, fs, IgnoreMissing(args)).Ok?
            && rep.includedVarFiles.Some?
            && rep.includedVarFiles == Some(Filter(Assemble(args["files"].items, fs, IgnoreMissing(args)).value, ExtensionTest(Extensions(args))))
            && forall f :: f in rep.includedVarFiles.value ==>
                 IsFile(fs, f) && ExtensionsUsable(Extensions(args)) && Allowed(Extensions(args), f))
  {
    if "files" in args {
      var items := args["files"].items;
      var assembled := Assemble(items, fs, IgnoreMissing(args)).value;
      var exts := Extensions(args);
      AssembledAreFiles(items, fs, IgnoreMissing(args));
      var pass := ExtensionTest(exts);
      LoadAllIncludesFiltered(assembled, pass, fs, taskVars, merge, Loaded(map[], map[], []));
      assert [] + Filter(assembled, pass) == Filter(assembled, pass);
      FilterKeepsPassing(assembled, pass);
    }
  }

  /** The `files` part of `run` (merge_vars.py:125-175). */
  method RunFiles(files: Value, exts: Value, ignoreMissing: bool, taskVars: Vars, extraVars: Vars,
                  fs: FileSystem, merge: (Vars, Vars) -> Vars) returns (r: Result<FileReport, Failure>)
    ensures r == FilePhase(files, exts, ignoreMissing, taskVars, extraVars, fs, merge)
  {
    if !files.List? {
      return Err(FilesNotAList);
    }
    var assembled := AssembleFiles(files.items, fs, ignoreMissing);
    if assembled.Err? {
      return Err(assembled.error);
    }
    AssembledAreFiles(files.items, fs, ignoreMissing);
    var loaded := LoadFiles(assembled.value, exts, fs, taskVars, merge);
    if loaded.Err? {
      return Err(loaded.error);
    }
    var report := ReportFiles(loaded.value, extraVars);
    r := Ok(report);
  }

  /** merge_vars.py:166-175: the extra_vars override, then `changed` from the deep diff against the originals. */
  method ReportFiles(loaded: Loaded, extraVars: Vars) returns (report: FileReport)
    ensures report.vars == Overridden(loaded.vars, extraVars)
    ensures report.included == loaded.included
    ensures report.changed <==> loaded.orig != report.vars
  {
    var vars := OverrideExtraVars(loaded.vars, extraVars);
    assert vars == Overridden(loaded.vars, extraVars);
    var diffs := Diffs.DeepDiff(loaded.orig, vars, "");
    Diffs.DiffEmptyIffEqual(loaded.orig, vars, "");
    assert |diffs| > 0 <==> multiset(diffs) != multiset{};
    report := FileReport(vars, loaded.included, |diffs| > 0);
  }

  /**
   * The `literals` part of `run` (merge_vars.py:177-211), as statements;
   * `LiteralPhase` is the same branching as a function, which the lemmas use.
   */
  method RunLiterals(args: Vars, vars: Vars, changed: bool, taskVars: Vars, extraVars: Vars, template: Value -> Value)
    returns (r: Result<(Vars, bool), Failure>)
    ensures r == LiteralPhase(args, vars, changed, taskVars, extraVars, template)
  {
    if "literals" !in args {
      return Ok((vars, changed));
    }
    if !args["literals"].List? {
      return Err(LiteralsNotAList);
    }
    r := ApplyLiteralItems(args["literals"].items, vars, changed, taskVars, extraVars, template);
  }

  /** The body of `run`, with the report it builds or the failure it raises. */
  method Perform(args: Vars, taskVars: Vars, extraVars: Vars, fs: FileSystem,
                 merge: (Vars, Vars) -> Vars, template: Value -> Value) returns (r: Result<Report, Failure>)
    ensures r == Outcome(args, taskVars, extraVars, fs, merge, template)
  {
    var invalid := Validate(args);
    if invalid.Some? {
      return Err(invalid.value);
    }
    var files := Ok(FileReport(map[], [], false));
    if "files" in args {
      files := RunFiles(args["files"], Extensions(args), IgnoreMissing(args), taskVars, extraVars, fs, merge);
      if files.Err? {
        return Err(files.error);
      }
    }
    var included := if "files" in args then Some(files.value.included) else None;
    var literals := RunLiterals(args, files.value.vars, files.value.changed, taskVars, extraVars, template);
    if literals.Err? {
      return Err(literals.error);
    }
    r := Ok(Report(literals.value.1, included, literals.value.0));
  }

  /** The action: the options it was given and the result fields `run` fills in. */
  class ActionModule {
    const args: Vars
    var changed: bool
    var includedVarFiles: Option<seq<string>>
    var facts: Vars

    constructor(args: Vars)
      ensures this.args == args
      ensures !changed && includedVarFiles == None && facts == map[]
    {
      this.args := args;
      changed := false;
      includedVarFiles := None;
      facts := map[];
    }

    /**
     * `run`: on success the fields hold the report and `err` is None; on a
     * failure `err` names it and the fields hold the fresh result `run`
     * starts from, since the raised error discards the result.
     */
    method Run(taskVars: Vars, extraVars: Vars, fs: FileSystem, merge: (Vars, Vars) -> Vars, template: Value -> Value)
      returns (err: Option<Failure>)
      modifies this
      ensures match Outcome(args, taskVars, extraVars, fs, merge, template)
        case Ok(rep) => err == None && changed == rep.changed && includedVarFiles == rep.includedVarFiles && facts == rep.facts
        case Err(e) => err == Some(e) && !changed && includedVarFiles == None && facts == map[]
    {
      changed, includedVarFiles, facts := false, None, map[];
      var outcome := Perform(args, taskVars, extraVars, fs, merge, template);
      match outcome
      case Err(e) =>
        err := Some(e);
      case Ok(rep) =>
        err := None;
        changed, includedVarFiles, facts := rep.changed, rep.includedVarFiles, rep.facts;
    }
  }
}
