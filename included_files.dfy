/**
 * The list reported as `ansible_included_var_files`, as merge_vars.py:126-162
 * builds it. Line 126 makes the reported list and the local `files` one and
 * the same list object; a plain file is appended to that shared object
 * (line 129), while a directory source rebinds `files` to a fresh list
 * (line 133), after which the two are separate. The loading loop (line 141)
 * iterates `files` and appends every loaded file to the reported list
 * (line 162). This module follows that sharing exactly, with a fuel bound on
 * the loading loop, so that what the code does can be set against what it
 * is evidently meant to do: report the loaded files, `Filter(files, pass)`.
 */
module IncludedFiles {
  import opened Common
  import opened Values
  import opened Sources
  import opened Text

  /**
   * The two lists after the assembly loop: `reported` is the object bound to
   * `_result['ansible_included_var_files']`, `files` the local variable, and
   * `shared` says whether both names still denote the same object.
   */
  datatype Lists = Lists(reported: seq<string>, files: seq<string>, shared: bool)

  predicate Coherent(l: Lists)
  {
    l.shared ==> l.reported == l.files
  }

  /** The assembly loop of merge_vars.py:127-137 with the object sharing of line 126 kept. */
  function AssembleAsWritten(sources: seq<Value>, fs: FileSystem, ignoreMissing: bool, l: Lists): Result<Lists, Failure>
    decreases |sources|
  {
    if sources == [] then Ok(l)
    else if !sources[0].Str? then Err(SourceNotAString)
    else
      var p := sources[0].s;
      if IsFile(fs, p) then
        AssembleAsWritten(sources[1..], fs, ignoreMissing,
          Lists(if l.shared then l.reported + [p] else l.reported, l.files + [p], l.shared))
      else if IsDir(fs, p) then
        AssembleAsWritten(sources[1..], fs, ignoreMissing, Lists(l.reported, l.files + DirFiles(fs, p), false))
      else if ignoreMissing then AssembleAsWritten(sources[1..], fs, ignoreMissing, l)
      else Err(MissingSource(p))
  }

  /** A source that is a directory. */
  predicate IsDirSource(fs: FileSystem, v: Value)
  {
    v.Str? && IsDir(fs, v.s)
  }

  /**
   * The local `files` always ends as the intended assembly, and the two names
   * stay one object exactly when no source is a directory.
   */
  lemma {:induction false} AssembleAsWrittenFiles(sources: seq<Value>, fs: FileSystem, ignoreMissing: bool, l: Lists)
    requires Coherent(l)
    ensures AssembleAsWritten(sources, fs, ignoreMissing, l).Ok? == Assemble(sources, fs, ignoreMissing).Ok?
    ensures AssembleAsWritten(sources, fs, ignoreMissing, l).Ok? ==>
      var l' := AssembleAsWritten(sources, fs, ignoreMissing, l).value;
      && Coherent(l')
      && l'.files == l.files + Assemble(sources, fs, ignoreMissing).value
      && (l'.shared <==> l.shared && NoDirSource(fs, sources))
    decreases |sources|
  {
    if sources == [] {
      assert l.files + [] == l.files;
    } else if sources[0].Str? {
      var p := sources[0].s;
      var next := if IsFile(fs, p) then Lists(if l.shared then l.reported + [p] else l.reported, l.files + [p], l.shared)
                  else if IsDir(fs, p) then Lists(l.reported, l.files + DirFiles(fs, p), false)
                  else l;
      if IsFile(fs, p) || IsDir(fs, p) || ignoreMissing {
        AssembleAsWrittenFiles(sources[1..], fs, ignoreMissing, next);
        if Assemble(sources, fs, ignoreMissing).Ok? {
          var c := Contribution(sources[0], fs, ignoreMissing).value;
          assert next.files == l.files + c;
          assert l.files + c + Assemble(sources[1..], fs, ignoreMissing).value
              == l.files + (c + Assemble(sources[1..], fs, ignoreMissing).value);
        }
        NoDirSourceStep(fs, sources);
      }
    }
  }

  /** No source is a directory. */
  predicate NoDirSource(fs: FileSystem, sources: seq<Value>)
  {
    forall i :: 0 <= i < |sources| ==> !IsDirSource(fs, sources[i])
  }

  /** No source is a directory exactly when the first is not and none of the rest is. */
  lemma NoDirSourceStep(fs: FileSystem, sources: seq<Value>)
    requires sources != []
    ensures NoDirSource(fs, sources) <==> !IsDirSource(fs, sources[0]) && NoDirSource(fs, sources[1..])
  {
    assert forall i :: 1 <= i < |sources| ==> sources[i] == sources[1..][i - 1];
  }

  /** The index of the first directory source, or the number of sources when there is none. */
  function FirstDir(fs: FileSystem, sources: seq<Value>): (d: nat)
    ensures d <= |sources|
    ensures forall i :: 0 <= i < d ==> !IsDirSource(fs, sources[i])
    ensures d < |sources| ==> IsDirSource(fs, sources[d])
  {
    if sources == [] then 0
    else if IsDirSource(fs, sources[0]) then 0
    else 1 + FirstDir(fs, sources[1..])
  }

  /**
   * While the names are shared, the reported list receives the sources
   * before the first directory, expanded as the assembly expands them; after
   * that, nothing more.
   */
  lemma {:induction false} AssembleAsWrittenReported(sources: seq<Value>, fs: FileSystem, ignoreMissing: bool, l: Lists)
    requires AssembleAsWritten(sources, fs, ignoreMissing, l).Ok?
    ensures Assemble(sources[..FirstDir(fs, sources)], fs, ignoreMissing).Ok?
    ensures AssembleAsWritten(sources, fs, ignoreMissing, l).value.reported
         == if l.shared then l.reported + Assemble(sources[..FirstDir(fs, sources)], fs, ignoreMissing).value
            else l.reported
    decreases |sources|
  {
    var d := FirstDir(fs, sources);
    if sources == [] || IsDirSource(fs, sources[0]) {
      assert sources[..d] == [];
      assert l.reported + [] == l.reported;
      if sources != [] {
        var p := sources[0].s;
        assert !IsFile(fs, p);
        AssembleAsWrittenReported(sources[1..], fs, ignoreMissing, Lists(l.reported, l.files + DirFiles(fs, p), false));
      }
    } else {
      var p := sources[0].s;
      var next := if IsFile(fs, p) then Lists(if l.shared then l.reported + [p] else l.reported, l.files + [p], l.shared)
                  else l;
      var rest := sources[1..];
      AssembleAsWrittenReported(rest, fs, ignoreMissing, next);
      assert d == 1 + FirstDir(fs, rest);
      assert sources[..d] == [sources[0]] + rest[..FirstDir(fs, rest)];
      AssembleStep(sources[0], rest[..FirstDir(fs, rest)], fs, ignoreMissing);
      var c := Contribution(sources[0], fs, ignoreMissing).value;
      var a := Assemble(rest[..FirstDir(fs, rest)], fs, ignoreMissing).value;
      assert c == if IsFile(fs, p) then [p] else [];
      assert l.reported + c + a == l.reported + (c + a);
    }
  }

  /** The assembly of a source followed by more: the source's contribution first. */
  lemma AssembleStep(x: Value, rest: seq<Value>, fs: FileSystem, ignoreMissing: bool)
    requires Contribution(x, fs, ignoreMissing).Ok? && Assemble(rest, fs, ignoreMissing).Ok?
    ensures Assemble([x] + rest, fs, ignoreMissing)
         == Ok(Contribution(x, fs, ignoreMissing).value + Assemble(rest, fs, ignoreMissing).value)
  {
    assert ([x] + rest)[0] == x && ([x] + rest)[1..] == rest;
  }

  /** The state of the loading loop of merge_vars.py:141-164. */
  datatype LoopState = LoopState(iterated: seq<string>, reported: seq<string>, shared: bool, index: nat)

  /** One pass of the loop body: a file that passes the extension test is appended to the reported list. */
  function LoopStep(st: LoopState, pass: string -> bool): LoopState
    requires st.index < |st.iterated|
  {
    var f := st.iterated[st.index];
    if pass(f) then
      var reported := st.reported + [f];
      LoopState(if st.shared then reported else st.iterated, reported, st.shared, st.index + 1)
    else st.(index := st.index + 1)
  }

  /**
   * The loading loop with at most `fuel` passes: the reported list when the
   * iteration reaches the end of the list it walks, None when the fuel runs out.
   */
  function LoadLoopAsWritten(st: LoopState, pass: string -> bool, fuel: nat): Option<seq<string>>
    decreases fuel
  {
    if st.index >= |st.iterated| then Some(st.reported)
    else if fuel == 0 then None
    else LoadLoopAsWritten(LoopStep(st, pass), pass, fuel - 1)
  }

  /** The loop at the start of `files`, as the assembly left the two lists. */
  function LoopStart(l: Lists): LoopState
  {
    LoopState(l.files, l.reported, l.shared, 0)
  }

  /**
   * While the walked list is the reported list itself and a file still ahead
   * of the iteration passes the test, no amount of fuel ends the loop: each
   * loaded file is appended behind the iteration and will be met again.
   */
  lemma {:induction false} SharedLoopNeverEnds(st: LoopState, pass: string -> bool, fuel: nat, k: nat)
    requires st.shared && st.iterated == st.reported
    requires st.index <= k < |st.iterated| && pass(st.iterated[k])
    ensures LoadLoopAsWritten(st, pass, fuel) == None
    decreases fuel
  {
    if fuel > 0 {
      var next := LoopStep(st, pass);
      if k == st.index {
        SharedLoopNeverEnds(next, pass, fuel - 1, |st.iterated|);
      } else {
        SharedLoopNeverEnds(next, pass, fuel - 1, k);
      }
    }
  }

  /** Once the lists are separate, the loop ends after one pass per file and appends exactly the files that pass. */
  lemma {:induction false} SeparateLoopEnds(st: LoopState, pass: string -> bool, fuel: nat)
    requires !st.shared && st.index <= |st.iterated| && fuel >= |st.iterated| - st.index
    ensures LoadLoopAsWritten(st, pass, fuel) == Some(st.reported + Filter(st.iterated[st.index..], pass))
    decreases |st.iterated| - st.index
  {
    var rest := st.iterated[st.index..];
    if st.index == |st.iterated| {
      assert st.reported + Filter(rest, pass) == st.reported;
    } else {
      var next := LoopStep(st, pass);
      var keep := if pass(rest[0]) then [rest[0]] else [];
      StepAppends(st, pass);
      calc {
        LoadLoopAsWritten(st, pass, fuel);
        LoadLoopAsWritten(next, pass, fuel - 1);
        { SeparateLoopEnds(next, pass, fuel - 1); }
        Some(next.reported + Filter(next.iterated[next.index..], pass));
        { assert rest[0] == st.iterated[st.index];
          assert next.iterated[next.index..] == rest[1..]; }
        Some(st.reported + keep + Filter(rest[1..], pass));
        { FilterStep(rest, pass);
          assert st.reported + keep + Filter(rest[1..], pass) == st.reported + (keep + Filter(rest[1..], pass)); }
        Some(st.reported + Filter(rest, pass));
      }
    }
  }

  /** One pass appends the file at the index exactly when it passes, and moves on. */
  lemma StepAppends(st: LoopState, pass: string -> bool)
    requires st.index < |st.iterated|
    ensures var f := st.iterated[st.index];
      LoopStep(st, pass).reported == st.reported + (if pass(f) then [f] else [])
    ensures LoopStep(st, pass).index == st.index + 1
    ensures LoopStep(st, pass).shared == st.shared
    ensures !st.shared ==> LoopStep(st, pass).iterated == st.iterated
  {
  }

  lemma FilterStep(s: seq<string>, pass: string -> bool)
    requires s != []
    ensures Filter(s, pass) == (if pass(s[0]) then [s[0]] else []) + Filter(s[1..], pass)
  {
  }

  /** A shared walk over files none of which passes the test ends with every assembled file reported. */
  lemma {:induction false} SharedLoopNothingLoaded(st: LoopState, pass: string -> bool, fuel: nat)
    requires st.shared && st.iterated == st.reported && st.index <= |st.iterated|
    requires forall i :: st.index <= i < |st.iterated| ==> !pass(st.iterated[i])
    requires fuel >= |st.iterated| - st.index
    ensures LoadLoopAsWritten(st, pass, fuel) == Some(st.iterated)
    decreases |st.iterated| - st.index
  {
    if st.index < |st.iterated| {
      SharedLoopNothingLoaded(LoopStep(st, pass), pass, fuel - 1);
    }
  }

  /** Whatever the sources, when none is a directory and some assembled file passes the test, the loop never ends. */
  lemma NoDirectoryLoopNeverEnds(sources: seq<Value>, fs: FileSystem, ignoreMissing: bool, pass: string -> bool, fuel: nat)
    requires Assemble(sources, fs, ignoreMissing).Ok?
    requires NoDirSource(fs, sources)
    requires Filter(Assemble(sources, fs, ignoreMissing).value, pass) != []
    ensures AssembleAsWritten(sources, fs, ignoreMissing, Lists([], [], true)).Ok?
    ensures LoadLoopAsWritten(LoopStart(AssembleAsWritten(sources, fs, ignoreMissing, Lists([], [], true)).value), pass, fuel) == None
  {
    AssembleAsWrittenFiles(sources, fs, ignoreMissing, Lists([], [], true));
    var l := AssembleAsWritten(sources, fs, ignoreMissing, Lists([], [], true)).value;
    var files := Assemble(sources, fs, ignoreMissing).value;
    assert l.files == files;
    var f := Filter(files, pass)[0];
    FilterKeepsPassing(files, pass);
    assert f in files && pass(f);
    var k :| 0 <= k < |files| && files[k] == f;
    SharedLoopNeverEnds(LoopStart(l), pass, fuel, k);
  }

  /**
   * With a directory among the sources the loop ends, but the reported list
   * starts with the files of the sources before the first directory, and
   * then lists the loaded files.
   */
  lemma WithDirectoryReportsTwice(sources: seq<Value>, fs: FileSystem, ignoreMissing: bool, pass: string -> bool)
    requires Assemble(sources, fs, ignoreMissing).Ok?
    requires exists i :: 0 <= i < |sources| && IsDirSource(fs, sources[i])
    ensures AssembleAsWritten(sources, fs, ignoreMissing, Lists([], [], true)).Ok?
    ensures Assemble(sources[..FirstDir(fs, sources)], fs, ignoreMissing).Ok?
    ensures var l := AssembleAsWritten(sources, fs, ignoreMissing, Lists([], [], true)).value;
      LoadLoopAsWritten(LoopStart(l), pass, |l.files|)
        == Some(Assemble(sources[..FirstDir(fs, sources)], fs, ignoreMissing).value
                + Filter(Assemble(sources, fs, ignoreMissing).value, pass))
  {
    AssembleAsWrittenFiles(sources, fs, ignoreMissing, Lists([], [], true));
    AssembleAsWrittenReported(sources, fs, ignoreMissing, Lists([], [], true));
    var l := AssembleAsWritten(sources, fs, ignoreMissing, Lists([], [], true)).value;
    assert l.reported == [] + Assemble(sources[..FirstDir(fs, sources)], fs, ignoreMissing).value;
    assert l.reported == Assemble(sources[..FirstDir(fs, sources)], fs, ignoreMissing).value;
    assert l.files == Assemble(sources, fs, ignoreMissing).value;
    SeparateLoopEnds(LoopStart(l), pass, |l.files|);
    assert l.files[0..] == l.files;
  }

  /** A file `a.yml` followed by a directory `d` holding `b.yml`. */
  function ExampleFs(): FileSystem
  {
    map["a.yml" := RegularFile(map[]), "d" := Directory(["b.yml"]), "d/b.yml" := RegularFile(map[])]
  }

  /** `files: [a.yml, d]` reports `a.yml` twice, although each file is loaded once. */
  lemma DuplicateReportExample()
    ensures AssembleAsWritten([Str("a.yml"), Str("d")], ExampleFs(), false, Lists([], [], true))
         == Ok(Lists(["a.yml"], ["a.yml", "d/b.yml"], false))
    ensures LoadLoopAsWritten(LoopStart(Lists(["a.yml"], ["a.yml", "d/b.yml"], false)), ExtensionTest(Null), 2)
         == Some(["a.yml", "a.yml", "d/b.yml"])
    ensures Assemble([Str("a.yml"), Str("d")], ExampleFs(), false) == Ok(["a.yml", "d/b.yml"])
    ensures Filter(["a.yml", "d/b.yml"], ExtensionTest(Null)) == ["a.yml", "d/b.yml"]
  {
    ExampleAssembly();
    ExampleLoop();
    NoExtensionsKeepsAll(["a.yml", "d/b.yml"], Null);
  }

  /** How the example's sources are assembled, as written and as meant. */
  lemma ExampleAssembly()
    ensures AssembleAsWritten([Str("a.yml"), Str("d")], ExampleFs(), false, Lists([], [], true))
         == Ok(Lists(["a.yml"], ["a.yml", "d/b.yml"], false))
    ensures Assemble([Str("a.yml"), Str("d")], ExampleFs(), false) == Ok(["a.yml", "d/b.yml"])
  {
    var fs := ExampleFs();
    var a, d, b, db := "a.yml", "d", "b.yml", "d/b.yml";
    assert a != d && d != db && a != db by { assert |a| != |d| && |d| != |db| && |a| != |db|; }
    assert IsFile(fs, a) && !IsFile(fs, d) && IsDir(fs, d) && IsFile(fs, db);
    assert JoinPath(d, b) == db;
    assert FilesIn(fs, d, [b]) == [db];
    assert Sort([db]) == [db];
    assert DirFiles(fs, d) == [db];
    var sources := [Str(a), Str(d)];
    assert sources[1..] == [Str(d)] && [Str(d)][1..] == [];
    assert [a] + [db] == [a, db] && [] + [a] == [a];
    assert AssembleAsWritten([], fs, false, Lists([a], [a, db], false)) == Ok(Lists([a], [a, db], false));
    assert AssembleAsWritten([Str(d)], fs, false, Lists([a], [a], true)) == Ok(Lists([a], [a, db], false));
    assert AssembleAsWritten(sources, fs, false, Lists([], [], true))
        == AssembleAsWritten([Str(d)], fs, false, Lists([a], [a], true));
    assert Contribution(Str(d), fs, false) == Ok([db]);
    assert Assemble([Str(d)], fs, false) == Ok([db]);
    assert Contribution(Str(a), fs, false) == Ok([a]);
  }

  /** The example's loop over separate lists: two passes, each appending its file. */
  lemma ExampleLoop()
    ensures LoadLoopAsWritten(LoopStart(Lists(["a.yml"], ["a.yml", "d/b.yml"], false)), ExtensionTest(Null), 2)
         == Some(["a.yml", "a.yml", "d/b.yml"])
  {
    var a, db := "a.yml", "d/b.yml";
    var pass := ExtensionTest(Null);
    var st0 := LoopStart(Lists([a], [a, db], false));
    StepAppends(st0, pass);
    var st1 := LoopStep(st0, pass);
    assert st1 == LoopState([a, db], [a, a], false, 1);
    StepAppends(st1, pass);
    assert LoopStep(st1, pass) == LoopState([a, db], [a, a, db], false, 2);
  }

  /** `files: [a.txt]` with `extensions: [yml]` loads nothing, yet reports `a.txt` as included. */
  lemma NothingLoadedReportedExample()
    ensures AssembleAsWritten([Str("a.txt")], map["a.txt" := RegularFile(map[])], false, Lists([], [], true))
         == Ok(Lists(["a.txt"], ["a.txt"], true))
    ensures LoadLoopAsWritten(LoopStart(Lists(["a.txt"], ["a.txt"], true)), ExtensionTest(List([Str("yml")])), 1) == Some(["a.txt"])
    ensures Filter(["a.txt"], ExtensionTest(List([Str("yml")]))) == []
  {
    var t := "a.txt";
    assert IsFile(map[t := RegularFile(map[])], t);
    assert Extension(t) == "txt" by {
      assert RFind(t, '/') == -1;
      assert RFind(t, '.') == 1;
      assert t[0] != '.';
      assert ExtSuffix(t) == ".txt";
    }
    assert Str("txt") != Str("yml") by { assert "txt"[0] != "yml"[0]; }
    assert !ExtensionTest(List([Str("yml")]))(t);
    assert LoopStep(LoopStart(Lists([t], [t], true)), ExtensionTest(List([Str("yml")]))) == LoopState([t], [t], true, 1);
    assert [Str(t)][1..] == [] && [] + [t] == [t];
    assert AssembleAsWritten([Str(t)], map[t := RegularFile(map[])], false, Lists([], [], true))
        == AssembleAsWritten([], map[t := RegularFile(map[])], false, Lists([t], [t], true));
  }
}
