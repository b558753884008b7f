/**
 * The string operations merge_vars relies on: `str.split('.')`, the extension
 * returned by `os.path.splitext`, `os.path.join`, and `list.sort()` on strings.
 */
module Text {

  /** Python's `s.split(sep)` for a one-character separator. */
  function Split(s: string, sep: char): (r: seq<string>)
    ensures |r| >= 1
  {
    if s == [] then [""]
    else
      var rest := Split(s[1..], sep);
      if s[0] == sep then [""] + rest
      else [[s[0]] + rest[0]] + rest[1..]
  }

  /** Python's `sep.join(parts)`. */
  function Join(parts: seq<string>, sep: char): string
    requires |parts| >= 1
  {
    if |parts| == 1 then parts[0] else parts[0] + [sep] + Join(parts[1..], sep)
  }

  /** No piece of a split contains the separator. */
  lemma {:induction false} SplitPiecesFree(s: string, sep: char)
    ensures forall i :: 0 <= i < |Split(s, sep)| ==> sep !in Split(s, sep)[i]
  {
    if s != [] {
      SplitPiecesFree(s[1..], sep);
    }
  }

  /** Joining the pieces again gives back the string. */
  lemma {:induction false} JoinSplit(s: string, sep: char)
    ensures Join(Split(s, sep), sep) == s
  {
    if s != [] {
      var rest := Split(s[1..], sep);
      JoinSplit(s[1..], sep);
      if s[0] == sep {
        assert Split(s, sep) == [""] + rest;
        assert Split(s, sep)[1..] == rest;
      } else {
        var r := Split(s, sep);
        assert r == [[s[0]] + rest[0]] + rest[1..];
        if |rest| == 1 {
          assert Join(r, sep) == [s[0]] + rest[0];
        } else {
          assert r[1..] == rest[1..];
          assert Join(rest, sep) == rest[0] + [sep] + Join(rest[1..], sep);
        }
      }
    }
  }

  /** Splitting a join of separator-free pieces gives back the pieces. */
  lemma {:induction false} SplitJoin(parts: seq<string>, sep: char)
    requires |parts| >= 1
    requires forall i :: 0 <= i < |parts| ==> sep !in parts[i]
    ensures Split(Join(parts, sep), sep) == parts
  {
    if |parts| == 1 {
      SplitFree(parts[0], sep);
    } else {
      SplitJoin(parts[1..], sep);
      SplitPrefix(parts[0], Join(parts[1..], sep), sep);
      assert [parts[0]] + parts[1..] == parts;
    }
  }

  /** A string without the separator splits into itself. */
  lemma {:induction false} SplitFree(s: string, sep: char)
    requires sep !in s
    ensures Split(s, sep) == [s]
  {
    if s != [] {
      SplitFree(s[1..], sep);
      assert [s[0]] + s[1..] == s;
    }
  }

  /** A separator-free prefix followed by the separator becomes the first piece. */
  lemma {:induction false} SplitPrefix(a: string, b: string, sep: char)
    requires sep !in a
    ensures Split(a + [sep] + b, sep) == [a] + Split(b, sep)
  {
    if a == [] {
      assert a + [sep] + b == [sep] + b;
      assert ([sep] + b)[1..] == b;
    } else {
      SplitPrefix(a[1..], b, sep);
      assert (a + [sep] + b)[1..] == a[1..] + [sep] + b;
      assert [a[0]] + a[1..] == a;
    }
  }

  /** Index of the last occurrence of `c` in `s`, or -1 (Python's `str.rfind`). */
  function RFind(s: string, c: char): (r: int)
    ensures -1 <= r < |s|
    ensures r == -1 ==> c !in s
    ensures r >= 0 ==> s[r] == c && c !in s[r + 1..]
  {
    if s == [] then -1
    else if s[|s| - 1] == c then |s| - 1
    else
      var r := RFind(s[..|s| - 1], c);
      assert s[r + 1..] == s[..|s| - 1][r + 1..] + [s[|s| - 1]];
      r
  }

  /** Every character of `s` is a dot. */
  predicate AllDots(s: string)
  {
    s == [] || (s[0] == '.' && AllDots(s[1..]))
  }

  lemma {:induction false} AllDotsEvery(s: string)
    ensures AllDots(s) <==> forall i :: 0 <= i < |s| ==> s[i] == '.'
  {
    if s != [] {
      AllDotsEvery(s[1..]);
      assert forall i :: 1 <= i < |s| ==> s[i] == s[1..][i - 1];
    }
  }

  /**
   * The suffix `os.path.splitext(p)[-1]` returns: from the last '.' of the
   * last path component, unless every character of that component before
   * the dot is itself a dot (leading dots do not start an extension).
   */
  function ExtSuffix(p: string): string
  {
    var sepIndex := RFind(p, '/');
    var dotIndex := RFind(p, '.');
    if dotIndex > sepIndex && !AllDots(p[sepIndex + 1..dotIndex]) then p[dotIndex..] else ""
  }

  /** The extension merge_vars compares: `os.path.splitext(p)[-1][1:]`. */
  function Extension(p: string): string
  {
    var suffix := ExtSuffix(p);
    if suffix == "" then "" else suffix[1..]
  }

  /** The extension holds no dot and no '/', and is what follows the last dot of the path. */
  lemma ExtensionShape(p: string)
    ensures '.' !in Extension(p) && '/' !in Extension(p)
    ensures Extension(p) != "" ==> |Extension(p)| < |p| && p[|p| - |Extension(p)| - 1..] == "." + Extension(p)
  {
    if Extension(p) != "" {
      var sepIndex := RFind(p, '/');
      var dotIndex := RFind(p, '.');
      ExtensionAfterLastDot(p);
      SlashFreeAfter(p, sepIndex, dotIndex);
      assert p[|p| - |Extension(p)| - 1..] == p[dotIndex..];
    }
  }

  /** A non-empty extension is everything after the last dot, which comes after the last '/'. */
  lemma ExtensionAfterLastDot(p: string)
    requires Extension(p) != ""
    ensures RFind(p, '/') < RFind(p, '.')
    ensures Extension(p) == p[RFind(p, '.') + 1..]
  {
    var suffix := ExtSuffix(p);
    assert suffix != "";
    var dotIndex := RFind(p, '.');
    assert suffix == p[dotIndex..];
    assert suffix[1..] == p[dotIndex + 1..];
  }

  /** Past the last '/', no later stretch of the string holds one. */
  lemma SlashFreeAfter(p: string, sepIndex: int, dotIndex: int)
    requires sepIndex == RFind(p, '/') && sepIndex < dotIndex < |p|
    ensures '/' !in p[dotIndex + 1..]
  {
    if sepIndex >= 0 {
      assert p[dotIndex + 1..] == p[sepIndex + 1..][dotIndex - sepIndex..];
    }
  }

  /** A path whose last component is `stem.ext`, where `stem` holds a non-dot character, has extension `ext`. */
  lemma ExtensionOfNamed(dir: string, stem: string, ext: string)
    requires '/' !in stem && '/' !in ext && '.' !in ext
    requires exists i :: 0 <= i < |stem| && stem[i] != '.'
    ensures Extension(dir + "/" + stem + "." + ext) == ext
  {
    var p := dir + "/" + stem + "." + ext;
    var dotIndex := |dir| + 1 + |stem|;
    var sepIndex := |dir|;
    assert p[dotIndex] == '.' && p[dotIndex + 1..] == ext;
    RFindLast(p, '.', dotIndex);
    assert p[sepIndex] == '/' && p[sepIndex + 1..] == stem + "." + ext;
    RFindLast(p, '/', sepIndex);
    assert p[sepIndex + 1..dotIndex] == stem;
    AllDotsEvery(stem);
  }

  /** An occurrence of `c` with none after it is the one `rfind` returns. */
  lemma {:induction false} RFindLast(s: string, c: char, i: int)
    requires 0 <= i < |s| && s[i] == c && c !in s[i + 1..]
    ensures RFind(s, c) == i
  {
    if i < |s| - 1 {
      assert s[|s| - 1] in s[i + 1..];
      var t := s[..|s| - 1];
      assert t[i + 1..] <= s[i + 1..];
      assert forall k :: i + 1 <= k < |t| ==> t[k] == s[k];
      RFindLast(t, c, i);
    }
  }

  /** A path without a dot has no extension. */
  lemma ExtensionOfDotless(p: string)
    requires '.' !in p
    ensures Extension(p) == ""
  {
  }

  /**
   * Python's `os.path.join(a, b)`: an absolute `b` replaces `a`; otherwise a
   * '/' is inserted unless `a` is empty or already ends with one.
   */
  function JoinPath(a: string, b: string): string
  {
    if b != [] && b[0] == '/' then b
    else if a == [] || a[|a| - 1] == '/' then a + b
    else a + "/" + b
  }

  /**
   * The joined path ends with `b`; it is `b` itself when `b` is absolute, and
   * otherwise `a` followed by `b` with exactly one '/' between them when `a`
   * is not empty.
   */
  lemma JoinPathShape(a: string, b: string)
    ensures |JoinPath(a, b)| >= |b| && JoinPath(a, b)[|JoinPath(a, b)| - |b|..] == b
    ensures b != [] && b[0] == '/' ==> JoinPath(a, b) == b
    ensures (b == [] || b[0] != '/') && a != [] ==>
      exists sep :: && (sep == "" || sep == "/") && JoinPath(a, b) == a + sep + b && (a + sep)[|a + sep| - 1] == '/'
                    && (sep == "/" <==> a[|a| - 1] != '/')
    ensures (b == [] || b[0] != '/') && a == [] ==> JoinPath(a, b) == b
  {
    var j := JoinPath(a, b);
    if b != [] && b[0] == '/' {
      assert j[|j| - |b|..] == j;
    } else if a == [] || a[|a| - 1] == '/' {
      assert j[|j| - |b|..] == (a + b)[|a|..];
      if a != [] {
        assert a + "" + b == j && (a + "")[|a + ""| - 1] == '/';
      } else {
        assert j == b;
      }
    } else {
      assert j == (a + "/") + b;
      assert j[|j| - |b|..] == ((a + "/") + b)[|a + "/"|..];
      assert (a + "/")[|a + "/"| - 1] == '/';
    }
  }

  /** Python's ordering of strings: lexicographic by code point, a prefix first. */
  predicate Below(a: string, b: string)
    decreases |a|
  {
    if a == [] then true
    else if b == [] then false
    else if a[0] != b[0] then a[0] < b[0]
    else Below(a[1..], b[1..])
  }

  lemma {:induction false} BelowTotal(a: string, b: string)
    ensures Below(a, b) || Below(b, a)
    decreases |a|
  {
    if a != [] && b != [] && a[0] == b[0] {
      BelowTotal(a[1..], b[1..]);
    }
  }

  lemma {:induction false} BelowReflexive(a: string)
    ensures Below(a, a)
    decreases |a|
  {
    if a != [] {
      BelowReflexive(a[1..]);
    }
  }

  lemma {:induction false} BelowTransitive(a: string, b: string, c: string)
    requires Below(a, b) && Below(b, c)
    ensures Below(a, c)
    decreases |a|
  {
    if a != [] && b != [] && c != [] && a[0] == b[0] && b[0] == c[0] {
      BelowTransitive(a[1..], b[1..], c[1..]);
    }
  }

  lemma {:induction false} BelowAntisymmetric(a: string, b: string)
    requires Below(a, b) && Below(b, a)
    ensures a == b
    decreases |a|
  {
    if a != [] {
      BelowAntisymmetric(a[1..], b[1..]);
      assert a == [a[0]] + a[1..] && b == [b[0]] + b[1..];
    }
  }

  ghost predicate Sorted(s: seq<string>)
  {
    forall i, j :: 0 <= i < j < |s| ==> Below(s[i], s[j])
  }

  /** Inserts `x` before the first element it is below. */
  function Insert(x: string, s: seq<string>): (r: seq<string>)
    requires Sorted(s)
    ensures Sorted(r)
    ensures multiset(r) == multiset(s) + multiset{x}
  {
    if s == [] then [x]
    else if Below(x, s[0]) then
      BelowAllOfSorted(x, s);
      [x] + s
    else
      BelowTotal(x, s[0]);
      var rest := Insert(x, s[1..]);
      assert s == [s[0]] + s[1..];
      HeadBelowInserted(x, s, rest);
      [s[0]] + rest
  }

  /** What is below the head of a sorted sequence is below all of it. */
  lemma BelowAllOfSorted(x: string, s: seq<string>)
    requires Sorted(s) && s != [] && Below(x, s[0])
    ensures forall j :: 0 <= j < |s| ==> Below(x, s[j])
  {
    forall j | 0 < j < |s| { BelowTransitive(x, s[0], s[j]); }
  }

  /** The head of a sorted sequence stays below everything after `x` is inserted into its tail. */
  lemma HeadBelowInserted(x: string, s: seq<string>, rest: seq<string>)
    requires Sorted(s) && s != [] && Below(s[0], x)
    requires multiset(rest) == multiset(s[1..]) + multiset{x}
    ensures forall j :: 0 <= j < |rest| ==> Below(s[0], rest[j])
  {
    forall j | 0 <= j < |rest|
      ensures Below(s[0], rest[j])
    {
      assert rest[j] in multiset(rest);
      if rest[j] != x {
        assert rest[j] in multiset(s[1..]);
        var k :| 0 <= k < |s[1..]| && s[1..][k] == rest[j];
        assert s[k + 1] == rest[j];
      }
    }
  }

  /** Python's `list.sort()` on strings: a sorted permutation of the input. */
  function Sort(s: seq<string>): (r: seq<string>)
    ensures Sorted(r)
    ensures multiset(r) == multiset(s)
  {
    if s == [] then []
    else
      assert s == [s[0]] + s[1..];
      Insert(s[0], Sort(s[1..]))
  }

  /** The head of a sorted sequence is below each of its elements. */
  lemma SortedHeadBelow(s: seq<string>, x: string)
    requires Sorted(s) && x in multiset(s)
    ensures s != [] && Below(s[0], x)
  {
    var i :| 0 <= i < |s| && s[i] == x;
    if i == 0 { BelowReflexive(x); }
  }

  /** There is only one sorted arrangement of a multiset of strings: the listing order cannot show through. */
  lemma {:induction false} SortedUnique(a: seq<string>, b: seq<string>)
    requires Sorted(a) && Sorted(b) && multiset(a) == multiset(b)
    ensures a == b
    decreases |a|
  {
    if a != [] {
      assert a[0] in multiset(a);
      SortedHeadBelow(b, a[0]);
      assert b[0] in multiset(b);
      SortedHeadBelow(a, b[0]);
      BelowAntisymmetric(a[0], b[0]);
      assert a == [a[0]] + a[1..] && b == [b[0]] + b[1..];
      var ta, tb := multiset(a[1..]), multiset(b[1..]);
      assert multiset(a) == multiset{a[0]} + ta;
      assert multiset(b) == multiset{a[0]} + tb;
      assert ta == tb by {
        forall y ensures ta[y] == tb[y] {
          assert (multiset{a[0]} + ta)[y] == (multiset{a[0]} + tb)[y];
        }
      }
      SortedUnique(a[1..], b[1..]);
    }
  }
}
