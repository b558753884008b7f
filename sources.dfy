/**
 * The `files` option: each source is a file, a directory (expanded to its
 * regular files, sorted) or missing (skipped or an error), and an optional
 * extension list decides which of the assembled files are loaded. The
 * filesystem is an input: a map from path to what is found there.
 */
module Sources {
  import opened Common
  import opened Values
  import opened Text

  /** What `path.isfile` / `path.isdir` / `listdir` / `load_from_file` see at a path. */
  datatype Entry =
    | RegularFile(contents: Vars)       // a vars file, already parsed
    | Directory(names: seq<string>)     // `listdir`, in the order the OS returns it
    | OtherKind                         // neither a regular file nor a directory

  type FileSystem = map<string, Entry>

  predicate IsFile(fs: FileSystem, p: string)
  {
    p in fs && fs[p].RegularFile?
  }

  predicate IsDir(fs: FileSystem, p: string)
  {
    p in fs && fs[p].Directory?
  }

  /** The listed names joined to `dir`, keeping those that are regular files, in listing order. */
  function FilesIn(fs: FileSystem, dir: string, names: seq<string>): seq<string>
  {
    if names == [] then []
    else
      var rest := FilesIn(fs, dir, names[1..]);
      var p := JoinPath(dir, names[0]);
      if IsFile(fs, p) then [p] + rest else rest
  }

  /** Exactly the listed names that are regular files are kept. */
  lemma {:induction false} FilesInAreFiles(fs: FileSystem, dir: string, names: seq<string>)
    ensures forall f :: f in FilesIn(fs, dir, names) ==> IsFile(fs, f)
    ensures forall n :: n in names && IsFile(fs, JoinPath(dir, n)) ==> JoinPath(dir, n) in FilesIn(fs, dir, names)
    ensures forall f :: f in FilesIn(fs, dir, names) ==> exists n :: n in names && f == JoinPath(dir, n)
  {
    if names != [] {
      FilesInAreFiles(fs, dir, names[1..]);
    }
  }

  lemma {:induction false} FilesInAppend(fs: FileSystem, dir: string, a: seq<string>, b: seq<string>)
    ensures FilesIn(fs, dir, a + b) == FilesIn(fs, dir, a) + FilesIn(fs, dir, b)
  {
    if a != [] {
      FilesInAppend(fs, dir, a[1..], b);
      assert (a + b)[1..] == a[1..] + b;
    } else {
      assert a + b == b;
    }
  }

  /** Reordering the listing only reorders the files found. */
  lemma {:induction false} FilesInPermutation(fs: FileSystem, dir: string, a: seq<string>, b: seq<string>)
    requires multiset(a) == multiset(b)
    ensures multiset(FilesIn(fs, dir, a)) == multiset(FilesIn(fs, dir, b))
    decreases |a|
  {
    if a == [] {
      assert |b| == |multiset(b)| == 0;
    } else {
      var j := RemovedMatch(a, b);
      var rest := b[..j] + b[j + 1..];
      FilesInPermutation(fs, dir, a[1..], rest);
      FilesInRemove(fs, dir, b, j);
      FilesInRemove(fs, dir, a, 0);
      assert a[..0] + a[1..] == a[1..];
    }
  }

  /** The first element of `a` sits at some index of its permutation `b`; the rest are permutations too. */
  lemma RemovedMatch(a: seq<string>, b: seq<string>) returns (j: nat)
    requires a != [] && multiset(a) == multiset(b)
    ensures j < |b| && b[j] == a[0]
    ensures multiset(a[1..]) == multiset(b[..j] + b[j + 1..])
  {
    assert a[0] in multiset(b);
    j :| 0 <= j < |b| && b[j] == a[0];
    var x := a[0];
    var tb := multiset(b[..j]) + multiset(b[j + 1..]);
    assert b == b[..j] + [x] + b[j + 1..];
    assert multiset(b) == multiset{x} + tb;
    assert a == [x] + a[1..];
    assert multiset(a) == multiset{x} + multiset(a[1..]);
    forall y ensures multiset(a[1..])[y] == tb[y] {
      assert (multiset{x} + multiset(a[1..]))[y] == (multiset{x} + tb)[y];
    }
  }

  /** Taking one name out of the listing takes its file (if any) out of what is found. */
  lemma FilesInRemove(fs: FileSystem, dir: string, s: seq<string>, j: nat)
    requires j < |s|
    ensures multiset(FilesIn(fs, dir, s))
         == multiset(FilesIn(fs, dir, [s[j]])) + multiset(FilesIn(fs, dir, s[..j] + s[j + 1..]))
  {
    var left, right := s[..j], s[j + 1..];
    assert s == left + ([s[j]] + right);
    FilesInAppend(fs, dir, left, [s[j]] + right);
    FilesInAppend(fs, dir, [s[j]], right);
    FilesInAppend(fs, dir, left, right);
  }

  /** The files a directory source contributes (merge_vars.py:131-132): its regular files, sorted. */
  function DirFiles(fs: FileSystem, dir: string): (r: seq<string>)
    requires IsDir(fs, dir)
    ensures Sorted(r)
    ensures multiset(r) == multiset(FilesIn(fs, dir, fs[dir].names))
    ensures forall f :: f in r ==> IsFile(fs, f)
  {
    var found := FilesIn(fs, dir, fs[dir].names);
    var r := Sort(found);
    FilesInAreFiles(fs, dir, fs[dir].names);
    assert forall f :: f in r ==> f in multiset(found);
    r
  }

  /** The order in which the OS lists a directory does not show in what it contributes. */
  lemma DirFilesIgnoreListingOrder(fs: FileSystem, dir: string, names: seq<string>)
    requires IsDir(fs, dir) && multiset(names) == multiset(fs[dir].names)
    ensures DirFiles(fs[dir := Directory(names)], dir) == DirFiles(fs, dir)
  {
    var fs' := fs[dir := Directory(names)];
    assert forall p :: IsFile(fs', p) == IsFile(fs, p);
    FilesInSameFiles(fs', fs, dir, names);
    FilesInPermutation(fs, dir, names, fs[dir].names);
    SortedUnique(DirFiles(fs', dir), DirFiles(fs, dir));
  }

  lemma {:induction false} FilesInSameFiles(fs1: FileSystem, fs2: FileSystem, dir: string, names: seq<string>)
    requires forall p :: IsFile(fs1, p) == IsFile(fs2, p)
    ensures FilesIn(fs1, dir, names) == FilesIn(fs2, dir, names)
  {
    if names != [] {
      FilesInSameFiles(fs1, fs2, dir, names[1..]);
    }
  }

  /** What one entry of `files` contributes (merge_vars.py:128-137). */
  function Contribution(source: Value, fs: FileSystem, ignoreMissing: bool): Result<seq<string>, Failure>
  {
    if !source.Str? then Err(SourceNotAString)
    else if IsFile(fs, source.s) then Ok([source.s])
    else if IsDir(fs, source.s) then Ok(DirFiles(fs, source.s))
    else if ignoreMissing then Ok([])
    else Err(MissingSource(source.s))
  }

  /** `prefix` put before a successful result; a failure passes through. */
  function Prepend(prefix: seq<string>, r: Result<seq<string>, Failure>): Result<seq<string>, Failure>
  {
    match r
    case Ok(files) => Ok(prefix + files)
    case Err(e) => Err(e)
  }

  lemma PrependTwice(a: seq<string>, b: seq<string>, r: Result<seq<string>, Failure>)
    ensures Prepend(a, Prepend(b, r)) == Prepend(a + b, r)
  {
    if r.Ok? {
      assert a + (b + r.value) == (a + b) + r.value;
    }
  }

  /** The file list of merge_vars.py:127-137: contributions in source order, or the first failure. */
  function Assemble(sources: seq<Value>, fs: FileSystem, ignoreMissing: bool): Result<seq<string>, Failure>
  {
    if sources == [] then Ok([])
    else
      var first := Contribution(sources[0], fs, ignoreMissing);
      if first.Err? then Err(first.error)
      else Prepend(first.value, Assemble(sources[1..], fs, ignoreMissing))
  }

  /** The loop of merge_vars.py:127-137. */
  method AssembleFiles(sources: seq<Value>, fs: FileSystem, ignoreMissing: bool)
    returns (r: Result<seq<string>, Failure>)
    ensures r == Assemble(sources, fs, ignoreMissing)
  {
    var files: seq<string> := [];
    var i := 0;
    assert sources[0..] == sources;
    assert Prepend([], Assemble(sources, fs, ignoreMissing)) == Assemble(sources, fs, ignoreMissing) by {
      if Assemble(sources, fs, ignoreMissing).Ok? {
        assert [] + Assemble(sources, fs, ignoreMissing).value == Assemble(sources, fs, ignoreMissing).value;
      }
    }
    while i < |sources|
      invariant 0 <= i <= |sources|
      invariant Prepend(files, Assemble(sources[i..], fs, ignoreMissing)) == Assemble(sources, fs, ignoreMissing)
    {
      assert sources[i..][0] == sources[i] && sources[i..][1..] == sources[i + 1..];
      var source := sources[i];
      if !source.Str? {
        assert Assemble(sources[i..], fs, ignoreMissing) == Err(SourceNotAString);
        return Err(SourceNotAString);
      }
      var p := source.s;
      ghost var before := files;
      if IsFile(fs, p) {
        files := files + [p];
      } else if IsDir(fs, p) {
        var dirfiles := Sort(FilesIn(fs, p, fs[p].names));
        files := files + dirfiles;
      } else if ignoreMissing {
      } else {
        assert Assemble(sources[i..], fs, ignoreMissing) == Err(MissingSource(p));
        return Err(MissingSource(p));
      }
      ghost var added := Contribution(source, fs, ignoreMissing).value;
      assert files == before + added;
      PrependTwice(before, added, Assemble(sources[i + 1..], fs, ignoreMissing));
      i := i + 1;
    }
    assert sources[i..] == [];
    assert files + [] == files;
    r := Ok(files);
  }

  /** Every assembled path is a regular file, so `load_from_file` is only asked for files. */
  lemma {:induction false} AssembledAreFiles(sources: seq<Value>, fs: FileSystem, ignoreMissing: bool)
    requires Assemble(sources, fs, ignoreMissing).Ok?
    ensures forall f :: f in Assemble(sources, fs, ignoreMissing).value ==> IsFile(fs, f)
  {
    if sources != [] {
      AssembledAreFiles(sources[1..], fs, ignoreMissing);
    }
  }

  /** Assembly fails exactly when some source is not a string, or is missing while missing sources are not ignored. */
  lemma {:induction false} AssembleFailsIff(sources: seq<Value>, fs: FileSystem, ignoreMissing: bool)
    ensures Assemble(sources, fs, ignoreMissing).Err? <==>
      exists i :: 0 <= i < |sources| &&
        (!sources[i].Str? || (!ignoreMissing && !IsFile(fs, sources[i].s) && !IsDir(fs, sources[i].s)))
  {
    if sources != [] {
      AssembleFailsIff(sources[1..], fs, ignoreMissing);
      if Contribution(sources[0], fs, ignoreMissing).Ok? {
        forall i | 1 <= i < |sources|
          ensures sources[i] == sources[1..][i - 1]
        {
        }
      }
    }
  }

  /** A directory source on its own contributes its regular files in sorted order. */
  lemma DirectorySourceSorted(dir: string, fs: FileSystem, ignoreMissing: bool)
    requires IsDir(fs, dir)
    ensures Assemble([Str(dir)], fs, ignoreMissing) == Ok(DirFiles(fs, dir))
    ensures Sorted(Assemble([Str(dir)], fs, ignoreMissing).value)
  {
    assert [Str(dir)][1..] == [];
    assert DirFiles(fs, dir) + [] == DirFiles(fs, dir);
  }

  /** With `ignore_missing_files`, no source is ever reported missing. */
  lemma {:induction false} IgnoredSourcesNeverMissing(sources: seq<Value>, fs: FileSystem)
    ensures !Assemble(sources, fs, true).Err? || Assemble(sources, fs, true).error == SourceNotAString
  {
    if sources != [] {
      IgnoredSourcesNeverMissing(sources[1..], fs);
    }
  }

  /** `extensions` can be tested with `in`: it is falsy, or a list, a string or a dict. */
  predicate ExtensionsUsable(exts: Value)
  {
    !Truthy(exts) || exts.List? || exts.Str? || exts.Dict?
  }

  /** Python's `a in b` on strings. */
  predicate IsSubstring(a: string, b: string)
    decreases |b|
  {
    (|a| <= |b| && b[..|a|] == a) || (b != [] && IsSubstring(a, b[1..]))
  }

  /**
   * The extension test of merge_vars.py:142: a falsy `extensions` admits every file; otherwise
   * the extension without its dot must be `in` it, and
   * Python's `in` is list membership, substring or dict-key membership.
   */
  function Allowed(exts: Value, f: string): bool
    requires ExtensionsUsable(exts)
  {
    if !Truthy(exts) then true
    else match exts
      case List(items) => Str(Extension(f)) in items
      case Str(s) => IsSubstring(Extension(f), s)
      case Dict(m) => Extension(f) in m
  }

  /** With a list of extension names, `dir/stem.ext` is loaded exactly when `ext` is listed. */
  lemma ListedExtensionAllowed(names: seq<string>, dir: string, stem: string, ext: string)
    requires names != []
    requires '/' !in stem && '/' !in ext && '.' !in ext
    requires exists i :: 0 <= i < |stem| && stem[i] != '.'
    ensures Allowed(List(seq(|names|, i requires 0 <= i < |names| => Str(names[i]))), dir + "/" + stem + "." + ext)
        <==> ext in names
  {
    ExtensionOfNamed(dir, stem, ext);
    var items := seq(|names|, i requires 0 <= i < |names| => Str(names[i]));
    if ext in names {
      var k :| 0 <= k < |names| && names[k] == ext;
      assert items[k] == Str(ext);
    }
  }

  /**
   * With `extensions` given as a string, the test is a substring test, and
   * the empty extension is a substring of any string: a file without an
   * extension (`d/Makefile`, `./d/Makefile`, `d/.profile`) always passes.
   */
  lemma StringExtensionsAdmitExtensionless(s: string, f: string)
    requires s != "" && Extension(f) == ""
    ensures Allowed(Str(s), f)
  {
    assert s[..0] == Extension(f);
  }

  /** The extension test as a predicate on file names; it admits nothing when `in` would raise. */
  function ExtensionTest(exts: Value): string -> bool
  {
    f => ExtensionsUsable(exts) && Allowed(exts, f)
  }

  /** The files of `files` that pass `pass`, in order. */
  function Filter(files: seq<string>, pass: string -> bool): seq<string>
  {
    if files == [] then []
    else (if pass(files[0]) then [files[0]] else []) + Filter(files[1..], pass)
  }

  /** Exactly the files that pass are kept. */
  lemma {:induction false} FilterKeepsPassing(files: seq<string>, pass: string -> bool)
    ensures forall f :: f in Filter(files, pass) <==> f in files && pass(f)
  {
    if files != [] {
      FilterKeepsPassing(files[1..], pass);
      assert files == [files[0]] + files[1..];
    }
  }

  /** When every file passes, all are kept in order. */
  lemma {:induction false} FilterAllPass(files: seq<string>, pass: string -> bool)
    requires forall i :: 0 <= i < |files| ==> pass(files[i])
    ensures Filter(files, pass) == files
  {
    if files != [] {
      FilterAllPass(files[1..], pass);
      assert files == [files[0]] + files[1..];
    }
  }

  /** Without a truthy `extensions`, every assembled file is loaded. */
  lemma NoExtensionsKeepsAll(files: seq<string>, exts: Value)
    requires !Truthy(exts)
    ensures Filter(files, ExtensionTest(exts)) == files
  {
    FilterAllPass(files, ExtensionTest(exts));
  }
}
