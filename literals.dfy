/**
 * A literal `{path: "a.b.c", value: v}`: the path is split on '.', the walk
 * goes down the nested dict replacing any missing or non-dict intermediate
 * with `{}`, and the last key receives the value.
 */
module Literals {
  import opened Common
  import opened Values
  import Text

  /** The dict after writing `v` at the end of `keys`. */
  function SetPath(m: Vars, keys: seq<string>, v: Value): Vars
    requires |keys| >= 1
    decreases |keys|
  {
    if |keys| == 1 then m[keys[0] := v]
    else m[keys[0] := Dict(SetPath(ChildDict(m, keys[0]), keys[1..], v))]
  }

  /** Following the keys after the write yields the new value. */
  lemma {:induction false} SetPathReadsBack(m: Vars, keys: seq<string>, v: Value)
    requires |keys| >= 1
    ensures Lookup(SetPath(m, keys, v), keys) == Some(v)
    decreases |keys|
  {
    if |keys| > 1 {
      SetPathReadsBack(ChildDict(m, keys[0]), keys[1..], v);
    }
  }

  /** Every path that leaves `keys` at some position reads as before. */
  lemma {:induction false} SetPathFrame(m: Vars, keys: seq<string>, v: Value, q: seq<string>, i: nat)
    requires |keys| >= 1 && |q| >= 1
    requires i < |q| && i < |keys| && q[i] != keys[i]
    ensures Lookup(SetPath(m, keys, v), q) == Lookup(m, q)
    decreases i
  {
    if q[0] == keys[0] {
      SetPathFrame(ChildDict(m, keys[0]), keys[1..], v, q[1..], i - 1);
    }
  }

  /** Every proper prefix of `keys` leads to a dict afterwards (a replaced intermediate becomes one). */
  lemma {:induction false} SetPathPrefixIsDict(m: Vars, keys: seq<string>, v: Value, n: nat)
    requires 1 <= n < |keys|
    ensures Lookup(SetPath(m, keys, v), keys[..n]).Some?
    ensures Lookup(SetPath(m, keys, v), keys[..n]).value.Dict?
    decreases n
  {
    if n > 1 {
      SetPathPrefixIsDict(ChildDict(m, keys[0]), keys[1..], v, n - 1);
      assert keys[..n][1..] == keys[1..][..n - 1];
    }
  }

  /** Writing the value a path already holds changes nothing. */
  lemma {:induction false} SetPathExisting(m: Vars, keys: seq<string>, v: Value)
    requires |keys| >= 1
    requires Lookup(m, keys) == Some(v)
    ensures SetPath(m, keys, v) == m
    decreases |keys|
  {
    if |keys| > 1 {
      SetPathExisting(ChildDict(m, keys[0]), keys[1..], v);
    }
  }

  /** Writing the same literal twice is the same as writing it once. */
  lemma SetPathIdempotent(m: Vars, keys: seq<string>, v: Value)
    requires |keys| >= 1
    ensures SetPath(SetPath(m, keys, v), keys, v) == SetPath(m, keys, v)
  {
    SetPathReadsBack(m, keys, v);
    SetPathExisting(SetPath(m, keys, v), keys, v);
  }

  /** Only the first key is added at the top level; all other top-level keys keep their values. */
  lemma SetPathTopLevel(m: Vars, keys: seq<string>, v: Value)
    requires |keys| >= 1
    ensures SetPath(m, keys, v).Keys == m.Keys + {keys[0]}
    ensures forall k :: k in m && k != keys[0] ==> SetPath(m, keys, v)[k] == m[k]
  {
  }

  /** The dict the walk has reached after following `keys[..j]`, creating dicts as it goes. */
  function Reached(m: Vars, keys: seq<string>, j: nat): Vars
    requires j < |keys|
  {
    if j == 0 then m else ChildDict(Reached(m, keys, j - 1), keys[j - 1])
  }

  /** One step down does not change what the rest of the path reads (`get` semantics). */
  lemma StepDown(m: Vars, keys: seq<string>, j: nat)
    requires j + 1 < |keys|
    ensures LookupOrNull(Reached(m, keys, j), keys[j..]) == LookupOrNull(Reached(m, keys, j + 1), keys[j + 1..])
  {
    assert keys[j..][1..] == keys[j + 1..];
  }

  /** Carrying the write up one level. */
  lemma StepUp(m: Vars, keys: seq<string>, j: nat, v: Value)
    requires j + 1 < |keys|
    ensures SetPath(Reached(m, keys, j), keys[j..], v)
         == Reached(m, keys, j)[keys[j] := Dict(SetPath(Reached(m, keys, j + 1), keys[j + 1..], v))]
  {
    assert keys[j..][1..] == keys[j + 1..];
  }

  /**
   * The in-place walk (merge_vars.py:200-211): descend through `keys[:-1]`
   * replacing a missing or non-dict intermediate by `{}`, write the last key,
   * and report whether the value previously read there (None if absent)
   * differs. Each dict passed on the way down is kept so that the write can
   * be carried back up to the root.
   */
  method AssignPath(root: Vars, keys: seq<string>, v: Value) returns (r: Vars, changed: bool)
    requires |keys| >= 1
    ensures r == SetPath(root, keys, v)
    ensures changed <==> LookupOrNull(root, keys) != v
  {
    var parents, current := Descend(root, keys);
    var last := keys[|keys| - 1];
    assert keys[|keys| - 1..] == [last];
    var previous := if last in current then current[last] else Null;
    changed := previous != v;
    r := Ascend(root, keys, v, parents, current[last := v]);
  }

  /** The walk down `keys[:-1]`: the dicts passed on the way, and the one the last key is written into. */
  method Descend(root: Vars, keys: seq<string>) returns (parents: seq<Vars>, current: Vars)
    requires |keys| >= 1
    ensures |parents| == |keys| - 1
    ensures forall j :: 0 <= j < |parents| ==> parents[j] == Reached(root, keys, j)
    ensures current == Reached(root, keys, |keys| - 1)
    ensures LookupOrNull(root, keys) == LookupOrNull(current, keys[|keys| - 1..])
  {
    parents := [];
    current := root;
    var i := 0;
    while i < |keys| - 1
      invariant 0 <= i <= |keys| - 1
      invariant |parents| == i
      invariant forall j :: 0 <= j < i ==> parents[j] == Reached(root, keys, j)
      invariant current == Reached(root, keys, i)
      invariant LookupOrNull(root, keys) == LookupOrNull(current, keys[i..])
    {
      StepDown(root, keys, i);
      parents := parents + [current];
      if keys[i] !in current || !current[keys[i]].Dict? {
        current := map[];
      } else {
        current := current[keys[i]].entries;
      }
      i := i + 1;
    }
  }

  /** Carries the written dict back up through the parents to the root. */
  method Ascend(root: Vars, keys: seq<string>, v: Value, parents: seq<Vars>, leaf: Vars) returns (r: Vars)
    requires |keys| >= 1 && |parents| == |keys| - 1
    requires forall j :: 0 <= j < |parents| ==> parents[j] == Reached(root, keys, j)
    requires leaf == Reached(root, keys, |keys| - 1)[keys[|keys| - 1] := v]
    ensures r == SetPath(root, keys, v)
  {
    var i := |keys| - 1;
    r := leaf;
    assert keys[i..] == [keys[i]];
    while i > 0
      invariant 0 <= i <= |keys| - 1
      invariant r == SetPath(Reached(root, keys, i), keys[i..], v)
    {
      i := i - 1;
      StepUp(root, keys, i, v);
      r := parents[i][keys[i] := Dict(r)];
    }
  }

  /** The variables with `key` copied from task_vars when it is not there yet (merge_vars.py:196-197). */
  function Seeded(vars: Vars, taskVars: Vars, key: string): (r: Vars)
    ensures key in taskVars ==> key in r
    ensures forall k :: k in vars ==> k in r && r[k] == vars[k]
    ensures forall k :: k in r && k !in vars ==> k == key && k in taskVars && r[k] == taskVars[k]
  {
    if key !in vars && key in taskVars then vars[key := taskVars[key]] else vars
  }

  /** The effect of one literal: the new variables and whether it set `changed`. */
  function LiteralEffect(vars: Vars, taskVars: Vars, extraVars: Vars, keys: seq<string>, v: Value): (Vars, bool)
    requires |keys| >= 1
  {
    if keys[0] in extraVars then (vars, false)
    else
      var seeded := Seeded(vars, taskVars, keys[0]);
      (SetPath(seeded, keys, v), LookupOrNull(seeded, keys) != v)
  }

  /**
   * One literal (merge_vars.py:192-211), with the path already split into
   * keys. The seeding of lines 196-197 is written out as the statement it is;
   * `Seeded` is its specification, reached through `LiteralEffect`.
   */
  method ApplyLiteral(vars: Vars, taskVars: Vars, extraVars: Vars, keys: seq<string>, v: Value)
    returns (r: Vars, changed: bool)
    requires |keys| >= 1
    ensures (r, changed) == LiteralEffect(vars, taskVars, extraVars, keys, v)
    ensures keys[0] in extraVars ==> r == vars && !changed
    ensures keys[0] !in extraVars ==> Lookup(r, keys) == Some(v)
    ensures forall k :: k in vars && k != keys[0] ==> k in r && r[k] == vars[k]
  {
    if keys[0] in extraVars {
      r, changed := vars, false;
    } else {
      var seeded := vars;
      if keys[0] !in vars && keys[0] in taskVars {
        seeded := vars[keys[0] := taskVars[keys[0]]];
      }
      r, changed := AssignPath(seeded, keys, v);
      SetPathReadsBack(seeded, keys, v);
    }
  }

  /** A literal that sets `changed` really alters the variables. */
  lemma ChangedLiteralAlters(vars: Vars, taskVars: Vars, extraVars: Vars, keys: seq<string>, v: Value)
    requires |keys| >= 1
    requires LiteralEffect(vars, taskVars, extraVars, keys, v).1
    ensures LiteralEffect(vars, taskVars, extraVars, keys, v).0 != vars
  {
    var seeded := Seeded(vars, taskVars, keys[0]);
    var r := SetPath(seeded, keys, v);
    SetPathReadsBack(seeded, keys, v);
    if keys[0] in vars {
      assert seeded == vars;
      assert Lookup(seeded, keys) != Some(v);
    } else {
      assert keys[0] in r;
    }
  }

  /** A literal that rewrites the value already there neither alters the variables nor sets `changed`. */
  lemma SameValueLiteralIsNoop(vars: Vars, taskVars: Vars, extraVars: Vars, keys: seq<string>, v: Value)
    requires |keys| >= 1
    requires Lookup(Seeded(vars, taskVars, keys[0]), keys) == Some(v)
    ensures LiteralEffect(vars, taskVars, extraVars, keys, v).1 == false
    ensures keys[0] in vars ==> LiteralEffect(vars, taskVars, extraVars, keys, v).0 == vars
  {
    SetPathExisting(Seeded(vars, taskVars, keys[0]), keys, v);
  }

  /**
   * The comparison with the old value reads a missing key as None, so a literal
   * whose value is None on a missing path adds the key without setting
   * `changed`.
   */
  lemma NullOnMissingPathUnreported()
    ensures LiteralEffect(map[], map[], map[], ["x"], Null) == (map["x" := Null], false)
  {
  }

  /** An empty path is a single empty key: `"".split('.') == [""]`, so the `if not keys` branch never fires. */
  lemma EmptyPathIsOneEmptyKey()
    ensures Text.Split("", '.') == [""]
    ensures LiteralEffect(map[], map[], map[], Text.Split("", '.'), Int(1)) == (map["" := Int(1)], true)
  {
  }
}
