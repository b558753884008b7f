/**
 * deep_diff: the structural difference of two nested dicts, as a list of
 * (dotted path, old, new) entries. Python walks `d1.keys() | d2.keys()`, a
 * set whose iteration order is unspecified, so the specification is a
 * multiset and the method's result is compared with it as one.
 */
module Diffs {
  import opened Values

  /** One entry of the diff; a side on which the key is missing reads as None. */
  datatype Diff = Diff(path: string, before: Value, after: Value)

  /** The dotted path of `key` below `parent`; a top-level key is its own path. */
  function ChildPath(parent: string, key: string): string
  {
    if parent != "" then parent + "." + key else key
  }

  predicate IsPrefix(p: string, s: string)
  {
    |p| <= |s| && s[..|p|] == p
  }

  /** What one key of `d1.keys() | d2.keys()` contributes to the diff. */
  ghost function KeyDiff(d1: Vars, d2: Vars, path: string, key: string): multiset<Diff>
    requires key in d1.Keys + d2.Keys
    decreases Dict(d1), 0
  {
    var p := ChildPath(path, key);
    if key !in d1 then multiset{Diff(p, Null, d2[key])}
    else if key !in d2 then multiset{Diff(p, d1[key], Null)}
    else if d1[key].Dict? && d2[key].Dict? then
      DiffOver(d1[key].entries, d2[key].entries, p, d1[key].entries.Keys + d2[key].entries.Keys)
    else if d1[key] != d2[key] then multiset{Diff(p, d1[key], d2[key])}
    else multiset{}
  }

  /** The contributions of the keys in `keys`, taken in no particular order. */
  ghost function DiffOver(d1: Vars, d2: Vars, path: string, keys: set<string>): multiset<Diff>
    requires keys <= d1.Keys + d2.Keys
    decreases Dict(d1), |keys| + 1
  {
    if keys == {} then multiset{}
    else
      var key :| key in keys;
      KeyDiff(d1, d2, path, key) + DiffOver(d1, d2, path, keys - {key})
  }

  /** `deep_diff(d1, d2, path)` as a multiset of entries. */
  ghost function DeepDiffSpec(d1: Vars, d2: Vars, path: string): multiset<Diff>
  {
    DiffOver(d1, d2, path, d1.Keys + d2.Keys)
  }

  /** Any key may be taken first: the diff does not depend on the iteration order. */
  lemma {:induction false} DiffOverPick(d1: Vars, d2: Vars, path: string, keys: set<string>, key: string)
    requires keys <= d1.Keys + d2.Keys && key in keys
    ensures DiffOver(d1, d2, path, keys) == KeyDiff(d1, d2, path, key) + DiffOver(d1, d2, path, keys - {key})
    decreases |keys|
  {
    var first :| first in keys && DiffOver(d1, d2, path, keys)
      == KeyDiff(d1, d2, path, first) + DiffOver(d1, d2, path, keys - {first});
    if first != key {
      DiffOverPick(d1, d2, path, keys - {first}, key);
      DiffOverPick(d1, d2, path, keys - {key}, first);
      assert keys - {first} - {key} == keys - {key} - {first};
    }
  }

  /** deep_diff (merge_vars.py:65-82): a loop over the union of the keys, recursing into pairs of dicts. */
  method DeepDiff(d1: Vars, d2: Vars, path: string) returns (diffs: seq<Diff>)
    ensures multiset(diffs) == DeepDiffSpec(d1, d2, path)
    decreases Dict(d1), 1
  {
    diffs := [];
    var keys := d1.Keys + d2.Keys;
    var todo := keys;
    while todo != {}
      invariant todo <= keys
      invariant multiset(diffs) + DiffOver(d1, d2, path, todo) == DiffOver(d1, d2, path, keys)
      decreases |todo|
    {
      var key :| key in todo;
      var found := KeyEntries(d1, d2, path, key);
      DiffOverStep(d1, d2, path, keys, todo, key, multiset(diffs), multiset(found));
      diffs := diffs + found;
      todo := todo - {key};
    }
  }

  /** Handling one more key keeps the entries found plus those still to come equal to the whole diff. */
  lemma DiffOverStep(d1: Vars, d2: Vars, path: string, keys: set<string>, todo: set<string>, key: string,
                     acc: multiset<Diff>, found: multiset<Diff>)
    requires todo <= keys <= d1.Keys + d2.Keys && key in todo
    requires acc + DiffOver(d1, d2, path, todo) == DiffOver(d1, d2, path, keys)
    requires found == KeyDiff(d1, d2, path, key)
    ensures (acc + found) + DiffOver(d1, d2, path, todo - {key}) == DiffOver(d1, d2, path, keys)
  {
    DiffOverPick(d1, d2, path, todo, key);
  }

  /**
   * The body of deep_diff's loop for one key (merge_vars.py:69-80), as
   * statements; `KeyDiff` is the same branching as a multiset, which the
   * lemmas about the diff use.
   */
  method KeyEntries(d1: Vars, d2: Vars, path: string, key: string) returns (found: seq<Diff>)
    requires key in d1.Keys + d2.Keys
    ensures multiset(found) == KeyDiff(d1, d2, path, key)
    decreases Dict(d1), 0
  {
    var newPath := ChildPath(path, key);
    if key !in d1 {
      found := [Diff(newPath, Null, d2[key])];
    } else if key !in d2 {
      found := [Diff(newPath, d1[key], Null)];
    } else {
      var v1, v2 := d1[key], d2[key];
      if v1.Dict? && v2.Dict? {
        found := DeepDiff(v1.entries, v2.entries, newPath);
      } else if v1 != v2 {
        found := [Diff(newPath, v1, v2)];
      } else {
        found := [];
      }
    }
  }

  /** Equal values and equal sub-dicts contribute nothing. */
  lemma {:induction false} DiffOverSelf(d: Vars, path: string, keys: set<string>)
    requires keys <= d.Keys
    ensures DiffOver(d, d, path, keys) == multiset{}
    decreases Dict(d), |keys|
  {
    if keys != {} {
      var key :| key in keys;
      DiffOverPick(d, d, path, keys, key);
      DiffOverSelf(d, path, keys - {key});
      if d[key].Dict? {
        var child := d[key].entries;
        DiffOverSelf(child, ChildPath(path, key), child.Keys + child.Keys);
      }
    }
  }

  /** `deep_diff(d, d)` is empty. */
  lemma DiffOfSelfEmpty(d: Vars, path: string)
    ensures DeepDiffSpec(d, d, path) == multiset{}
  {
    assert d.Keys + d.Keys == d.Keys;
    DiffOverSelf(d, path, d.Keys);
  }

  /** The diff is empty exactly when the two dicts are equal. */
  lemma {:induction false} DiffEmptyIffEqual(d1: Vars, d2: Vars, path: string)
    ensures DeepDiffSpec(d1, d2, path) == multiset{} <==> d1 == d2
    decreases Dict(d1)
  {
    if d1 == d2 {
      DiffOfSelfEmpty(d1, path);
    } else {
      var key: string;
      if d1.Keys != d2.Keys {
        key :| key in (d1.Keys - d2.Keys) + (d2.Keys - d1.Keys);
      } else {
        key :| key in d1 && d1[key] != d2[key];
      }
      DiffOverPick(d1, d2, path, d1.Keys + d2.Keys, key);
      if key in d1 && key in d2 && d1[key].Dict? && d2[key].Dict? {
        DiffEmptyIffEqual(d1[key].entries, d2[key].entries, ChildPath(path, key));
      }
      assert KeyDiff(d1, d2, path, key) != multiset{};
    }
  }

  /**
   * A key only in `d1` yields exactly `(path, d1[key], None)` and a key only
   * in `d2` exactly `(path, None, d2[key])`; the other keys give the rest.
   */
  lemma OneSidedKey(d1: Vars, d2: Vars, path: string, key: string)
    requires key in d1.Keys + d2.Keys
    ensures key in d1 && key !in d2 ==>
      DeepDiffSpec(d1, d2, path)
        == multiset{Diff(ChildPath(path, key), d1[key], Null)} + DiffOver(d1, d2, path, d1.Keys + d2.Keys - {key})
    ensures key !in d1 && key in d2 ==>
      DeepDiffSpec(d1, d2, path)
        == multiset{Diff(ChildPath(path, key), Null, d2[key])} + DiffOver(d1, d2, path, d1.Keys + d2.Keys - {key})
  {
    DiffOverPick(d1, d2, path, d1.Keys + d2.Keys, key);
  }

  /**
   * A key on both sides whose values are not both dicts contributes exactly
   * one entry when the values differ and none when they are equal; when both
   * are dicts it contributes exactly their inner diff.
   */
  lemma SharedKey(d1: Vars, d2: Vars, path: string, key: string)
    requires key in d1 && key in d2
    ensures var rest := DiffOver(d1, d2, path, d1.Keys + d2.Keys - {key});
      && (d1[key].Dict? && d2[key].Dict? ==>
            DeepDiffSpec(d1, d2, path)
              == DeepDiffSpec(d1[key].entries, d2[key].entries, ChildPath(path, key)) + rest)
      && (!(d1[key].Dict? && d2[key].Dict?) && d1[key] != d2[key] ==>
            DeepDiffSpec(d1, d2, path) == multiset{Diff(ChildPath(path, key), d1[key], d2[key])} + rest)
      && (d1[key] == d2[key] ==> DeepDiffSpec(d1, d2, path) == rest)
  {
    DiffOverPick(d1, d2, path, d1.Keys + d2.Keys, key);
    if d1[key] == d2[key] && d1[key].Dict? {
      DiffOfSelfEmpty(d1[key].entries, ChildPath(path, key));
    }
  }

  /** Below a non-empty parent path, every entry's path is the parent followed by a dot. */
  lemma {:induction false} DiffOverPaths(d1: Vars, d2: Vars, path: string, keys: set<string>)
    requires path != "" && keys <= d1.Keys + d2.Keys
    ensures forall e :: e in DiffOver(d1, d2, path, keys) ==> IsPrefix(path + ".", e.path)
    decreases Dict(d1), |keys| + 1
  {
    if keys != {} {
      var key :| key in keys;
      DiffOverPick(d1, d2, path, keys, key);
      DiffOverPaths(d1, d2, path, keys - {key});
      KeyDiffPaths(d1, d2, path, key);
    }
  }

  lemma {:induction false} KeyDiffPaths(d1: Vars, d2: Vars, path: string, key: string)
    requires path != "" && key in d1.Keys + d2.Keys
    ensures forall e :: e in KeyDiff(d1, d2, path, key) ==> IsPrefix(path + ".", e.path)
    decreases Dict(d1), 0
  {
    var p := ChildPath(path, key);
    assert p == path + "." + key;
    assert IsPrefix(path + ".", p);
    if key in d1 && key in d2 && d1[key].Dict? && d2[key].Dict? {
      var c1, c2 := d1[key].entries, d2[key].entries;
      DiffOverPaths(c1, c2, p, c1.Keys + c2.Keys);
      forall e | e in KeyDiff(d1, d2, path, key)
        ensures IsPrefix(path + ".", e.path)
      {
        PrefixOfPrefix(path + ".", p + ".", e.path);
      }
    }
  }

  lemma PrefixOfPrefix(a: string, b: string, s: string)
    requires IsPrefix(a, b) && IsPrefix(b, s)
    ensures IsPrefix(a, s)
  {
    assert s[..|a|] == b[..|a|];
  }

  /** Every entry of a diff below a non-empty path sits under that path, joined with '.'. */
  lemma DiffPathsExtendParent(d1: Vars, d2: Vars, path: string)
    requires path != ""
    ensures forall e :: e in DeepDiffSpec(d1, d2, path) ==> IsPrefix(path + ".", e.path)
  {
    DiffOverPaths(d1, d2, path, d1.Keys + d2.Keys);
  }

  /**
   * An empty top-level key drops out of the nested paths: the parent path and
   * a dot are put before a key only when the parent path is non-empty, so the entry for `{"": {"a": 1}}`
   * against `{"": {"a": 2}}` has path "a".
   */
  lemma EmptyKeyPathQuirk()
    ensures DeepDiffSpec(map["" := Dict(map["a" := Int(1)])], map["" := Dict(map["a" := Int(2)])], "")
         == multiset{Diff("a", Int(1), Int(2))}
  {
    var d1, d2 := map["" := Dict(map["a" := Int(1)])], map["" := Dict(map["a" := Int(2)])];
    var c1, c2 := map["a" := Int(1)], map["a" := Int(2)];
    assert d1.Keys + d2.Keys == {""};
    DiffOverPick(d1, d2, "", {""}, "");
    assert c1.Keys + c2.Keys == {"a"};
    DiffOverPick(c1, c2, "", {"a"}, "a");
  }

  /**
   * Paths are not unique: a key containing a dot collides with the nested
   * path it spells, so two entries can carry the path "a.b".
   */
  lemma DottedKeyPathsCollide()
    ensures DeepDiffSpec(map["a.b" := Int(1), "a" := Dict(map["b" := Int(1)])],
                         map["a.b" := Int(2), "a" := Dict(map["b" := Int(3)])], "")
         == multiset{Diff("a.b", Int(1), Int(2)), Diff("a.b", Int(1), Int(3))}
  {
    var dotted, top := "a.b", "a";
    assert dotted != top by { assert |dotted| != |top|; }
    var d1 := map[dotted := Int(1), top := Dict(map["b" := Int(1)])];
    var d2 := map[dotted := Int(2), top := Dict(map["b" := Int(3)])];
    assert d1.Keys + d2.Keys == {dotted, top};
    TwoKeys(d1, d2, "", dotted, top);
    SingleLeafDiff(map["b" := Int(1)], map["b" := Int(3)], top, "b");
    assert ChildPath(top, "b") == dotted;
    assert KeyDiff(d1, d2, "", top) == multiset{Diff(dotted, Int(1), Int(3))};
    assert KeyDiff(d1, d2, "", dotted) == multiset{Diff(dotted, Int(1), Int(2))};
  }

  /** The diff of dicts over exactly two keys is the sum of their contributions. */
  lemma TwoKeys(d1: Vars, d2: Vars, path: string, k1: string, k2: string)
    requires d1.Keys + d2.Keys == {k1, k2} && k1 != k2
    ensures DeepDiffSpec(d1, d2, path) == KeyDiff(d1, d2, path, k1) + KeyDiff(d1, d2, path, k2)
  {
    DiffOverPick(d1, d2, path, {k1, k2}, k1);
    assert {k1, k2} - {k1} == {k2};
    DiffOverPick(d1, d2, path, {k2}, k2);
    assert {k2} - {k2} == {};
  }

  /** Two one-key dicts whose leaves differ give the one entry for that key. */
  lemma SingleLeafDiff(c1: Vars, c2: Vars, path: string, key: string)
    requires c1.Keys == c2.Keys == {key}
    requires !c1[key].Dict? && c1[key] != c2[key]
    ensures DiffOver(c1, c2, path, c1.Keys + c2.Keys) == multiset{Diff(ChildPath(path, key), c1[key], c2[key])}
  {
    DiffOverPick(c1, c2, path, {key}, key);
    assert {key} - {key} == {};
  }
}
