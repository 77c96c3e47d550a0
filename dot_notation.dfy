/** Laravel's dot notation for nested arrays: `Arr::dot` flattens a tree of
    translations into dotted keys, `Arr::set` writes one dotted key back into a
    tree. Both are library code called by the pipeline; they are defined here
    as the library behaves, including its edge cases (empty arrays are leaves,
    a later key overwrites whatever an earlier one left on its path). */
module DotNotation {
  import opened PhpArrays

  /** A PHP value in a translation file: a string, null, or a nested array. */
  datatype Value = Str(s: string) | Null | Arr(entries: PArray<Value>)

  /** `Arr::dot` descends only into non-empty arrays; everything else is a leaf. */
  predicate IsLeaf(v: Value)
  {
    !v.Arr? || v.entries == []
  }

  /** `Arr::dot($array, $prepend)`. */
  function Dot(es: PArray<Value>, prepend: string): PArray<Value>
    decreases es, 1
  {
    DotLoop([], es, prepend)
  }

  /** The foreach of `Arr::dot`: a leaf is assigned under its dotted key, a
      non-empty array is flattened and merged into the results. */
  function DotLoop(results: PArray<Value>, es: seq<(string, Value)>, prepend: string): PArray<Value>
    decreases es, 0
  {
    if es == [] then results
    else
      var e := es[0];
      assert e in es && e.1 < e;
      var next :=
        if IsLeaf(e.1) then Put(results, prepend + e.0, e.1)
        else Merge(results, Dot(e.1.entries, prepend + e.0 + "."));
      DotLoop(next, es[1..], prepend)
  }

  /** `explode('.', $key)`. */
  function Split(s: string): (r: seq<string>)
    ensures |r| >= 1
  {
    if s == [] then [""]
    else
      var rest := Split(s[1..]);
      if s[0] == '.' then [""] + rest else [[s[0]] + rest[0]] + rest[1..]
  }

  /** `implode('.', $segments)`. */
  function Join(path: seq<string>): string
  {
    if path == [] then "" else if |path| == 1 then path[0] else path[0] + "." + Join(path[1..])
  }

  predicate DotFreeSegments(path: seq<string>)
  {
    forall i :: 0 <= i < |path| ==> '.' !in path[i]
  }

  /** The entry under `k` when it is an array, and an empty array otherwise,
      which is what `Arr::set` descends into. */
  function Child(t: PArray<Value>, k: string): PArray<Value>
  {
    var found := Get(t, k);
    if found.Some? && found.value.Arr? then found.value.entries else []
  }

  /** `Arr::set($array, $key, $value)` with `$key` already split at the dots:
      every intermediate entry that is missing or not an array becomes an
      array, and the last segment is assigned. */
  function SetPath(t: PArray<Value>, path: seq<string>, v: Value): PArray<Value>
    requires |path| >= 1
    decreases |path|
  {
    if |path| == 1 then Put(t, path[0], v)
    else Put(t, path[0], Arr(SetPath(Child(t, path[0]), path[1..], v)))
  }

  /** The value found by following `path`, if every step exists. */
  function GetPath(t: PArray<Value>, path: seq<string>): Option<Value>
    requires |path| >= 1
    decreases |path|
  {
    if |path| == 1 then Get(t, path[0])
    else
      var found := Get(t, path[0]);
      if found.Some? && found.value.Arr? then GetPath(found.value.entries, path[1..]) else None
  }

  /** `Arr::set` of each dotted entry in turn, starting from `initial`. */
  function Undot(dotted: seq<(string, Value)>, initial: PArray<Value>): PArray<Value>
  {
    if dotted == [] then initial
    else
      var last := dotted[|dotted| - 1];
      SetPath(Undot(dotted[..|dotted| - 1], initial), Split(last.0), last.1)
  }

  // ---------------------------------------------------------------------------
  // explode and implode

  lemma {:induction false} SplitNoDot(a: string)
    requires '.' !in a
    ensures Split(a) == [a]
  {
    if a != [] {
      assert '.' !in a[1..] by {
        forall c | c in a[1..] ensures c != '.' { assert c in a; }
      }
      SplitNoDot(a[1..]);
      assert a[0] != '.';
      assert [a[0]] + a[1..] == a;
    }
  }

  lemma {:induction false} SplitCons(a: string, b: string)
    requires '.' !in a
    ensures Split(a + "." + b) == [a] + Split(b)
  {
    if a == [] {
      assert a + "." + b == "." + b;
      assert ("." + b)[1..] == b;
    } else {
      SplitCons(a[1..], b);
      assert (a + "." + b)[1..] == a[1..] + "." + b;
      assert [a[0]] + a[1..] == a;
    }
  }

  /** Exploding an imploded path gives the path back when no segment holds a dot. */
  lemma {:induction false} SplitJoin(path: seq<string>)
    requires |path| >= 1 && DotFreeSegments(path)
    ensures Split(Join(path)) == path
  {
    if |path| == 1 {
      SplitNoDot(path[0]);
    } else {
      SplitJoin(path[1..]);
      SplitCons(path[0], Join(path[1..]));
      assert [path[0]] + path[1..] == path;
    }
  }

  /** Imploding an exploded key always gives the key back. */
  lemma {:induction false} JoinSplit(s: string)
    ensures Join(Split(s)) == s
  {
    if s != [] {
      JoinSplit(s[1..]);
      var rest := Split(s[1..]);
      if s[0] == '.' {
        assert Split(s) == [""] + rest;
        assert s == "." + s[1..];
      } else {
        var r := Split(s);
        assert r == [[s[0]] + rest[0]] + rest[1..];
        if |rest| == 1 {
          assert s == [s[0]] + s[1..];
        } else {
          assert r[1..] == rest[1..];
          assert Join(rest) == rest[0] + "." + Join(rest[1..]);
          assert s == [s[0]] + s[1..];
        }
      }
    }
  }

  // ---------------------------------------------------------------------------
  // The leaves of a tree, as paths of segments

  /** Every leaf of the tree with the path of keys that leads to it, depth first. */
  function Leaves(es: seq<(string, Value)>): seq<(seq<string>, Value)>
    decreases es
  {
    if es == [] then []
    else
      assert es[0] in es;
      EntryLeaves(es[0]) + Leaves(es[1..])
  }

  /** The leaves below one entry of an array. */
  function EntryLeaves(e: (string, Value)): seq<(seq<string>, Value)>
    decreases e
  {
    assert e.1 < e;
    if IsLeaf(e.1) then [([e.0], e.1)] else Prepend(e.0, Leaves(e.1.entries))
  }

  function Prepend(k: string, l: seq<(seq<string>, Value)>): seq<(seq<string>, Value)>
  {
    seq(|l|, i requires 0 <= i < |l| => ([k] + l[i].0, l[i].1))
  }

  /** The flat entries named by joining each path onto `prepend`. */
  function Joined(prepend: string, l: seq<(seq<string>, Value)>): seq<(string, Value)>
  {
    seq(|l|, i requires 0 <= i < |l| => (prepend + Join(l[i].0), l[i].1))
  }

  function Paths(l: seq<(seq<string>, Value)>): seq<seq<string>>
  {
    seq(|l|, i requires 0 <= i < |l| => l[i].0)
  }

  /** No key anywhere in the tree holds a dot. */
  predicate DotFreeKeys(es: seq<(string, Value)>)
    decreases es
  {
    es == [] ||
    (var e := es[0];
     assert e in es && e.1 < e;
     '.' !in e.0 && (e.1.Arr? ==> DotFreeKeys(e.1.entries)) && DotFreeKeys(es[1..]))
  }

  /** Every leaf path is non-empty, starts with a key of the array, and ends at a leaf. */
  lemma {:induction false} LeavesPathShape(es: seq<(string, Value)>)
    ensures es != [] ==> Leaves(es) != []
    ensures forall i :: 0 <= i < |Leaves(es)| ==>
      |Leaves(es)[i].0| >= 1 && Leaves(es)[i].0[0] in Keys(es) && IsLeaf(Leaves(es)[i].1)
    decreases es
  {
    if es != [] {
      var e := es[0];
      assert e in es && e.1 < e;
      var rest := Leaves(es[1..]);
      LeavesPathShape(es[1..]);
      KeysCons(es);
      if IsLeaf(e.1) {
        assert Leaves(es) == [([e.0], e.1)] + rest;
      } else {
        var inner := Leaves(e.1.entries);
        LeavesPathShape(e.1.entries);
        var h := Prepend(e.0, inner);
        assert Leaves(es) == h + rest;
        forall i | 0 <= i < |Leaves(es)|
          ensures |Leaves(es)[i].0| >= 1 && Leaves(es)[i].0[0] in Keys(es) && IsLeaf(Leaves(es)[i].1)
        {
          if i < |h| {
            assert Leaves(es)[i] == h[i] == ([e.0] + inner[i].0, inner[i].1);
          } else {
            assert Leaves(es)[i] == rest[i - |h|];
          }
        }
      }
    }
  }

  /** In a tree whose keys hold no dot, no segment of a leaf path holds one. */
  lemma {:induction false} LeavesPathDotFree(es: seq<(string, Value)>)
    requires DotFreeKeys(es)
    ensures forall i :: 0 <= i < |Leaves(es)| ==> DotFreeSegments(Leaves(es)[i].0)
    decreases es
  {
    if es != [] {
      var e := es[0];
      assert e in es && e.1 < e;
      var rest := Leaves(es[1..]);
      LeavesPathDotFree(es[1..]);
      if IsLeaf(e.1) {
        assert Leaves(es) == [([e.0], e.1)] + rest;
      } else {
        var inner := Leaves(e.1.entries);
        LeavesPathDotFree(e.1.entries);
        var h := Prepend(e.0, inner);
        assert Leaves(es) == h + rest;
        forall i | 0 <= i < |Leaves(es)|
          ensures DotFreeSegments(Leaves(es)[i].0)
        {
          if i < |h| {
            assert Leaves(es)[i] == h[i] == ([e.0] + inner[i].0, inner[i].1);
          } else {
            assert Leaves(es)[i] == rest[i - |h|];
          }
        }
      }
    }
  }

  lemma LeavesShape(es: seq<(string, Value)>)
    ensures es != [] ==> Leaves(es) != []
    ensures forall i :: 0 <= i < |Leaves(es)| ==>
      |Leaves(es)[i].0| >= 1 && Leaves(es)[i].0[0] in Keys(es) && IsLeaf(Leaves(es)[i].1)
    ensures DotFreeKeys(es) ==> forall i :: 0 <= i < |Leaves(es)| ==> DotFreeSegments(Leaves(es)[i].0)
  {
    LeavesPathShape(es);
    if DotFreeKeys(es) {
      LeavesPathDotFree(es);
    }
  }

  lemma PathsPrependDistinct(k: string, l: seq<(seq<string>, Value)>)
    requires Distinct(Paths(l))
    ensures Distinct(Paths(Prepend(k, l)))
  {
    var ps := Paths(Prepend(k, l));
    forall i, j | 0 <= i < j < |ps| ensures ps[i] != ps[j] {
      assert ps[i] == [k] + l[i].0 && ps[j] == [k] + l[j].0;
      assert ps[i][1..] == l[i].0 && ps[j][1..] == l[j].0;
      assert Paths(l)[i] != Paths(l)[j];
    }
  }

  /** Distinct keys at every level give distinct leaf paths. */
  lemma {:induction false} LeavesPathsDistinct(es: seq<(string, Value)>)
    requires Distinct(Keys(es))
    ensures Distinct(Paths(Leaves(es)))
    decreases es
  {
    if es != [] {
      var e := es[0];
      assert e in es && e.1 < e;
      var h := EntryLeaves(e);
      var rest := Leaves(es[1..]);
      assert Keys(es[1..]) == Keys(es)[1..];
      LeavesPathsDistinct(es[1..]);
      LeavesShape(es[1..]);
      if !IsLeaf(e.1) {
        LeavesPathsDistinct(e.1.entries);
        PathsPrependDistinct(e.0, Leaves(e.1.entries));
      }
      EntryLeavesFirst(e);
      PathsAppend(h, rest);
      forall i, j | 0 <= i < |h| && 0 <= j < |rest| ensures Paths(h)[i] != Paths(rest)[j] {
        assert Paths(h)[i][0] == e.0;
        assert Paths(rest)[j][0] in Keys(es[1..]);
        assert e.0 == Keys(es)[0];
      }
      DistinctConcat(Paths(h), Paths(rest));
    }
  }

  lemma EntryLeavesFirst(e: (string, Value))
    ensures forall i :: 0 <= i < |EntryLeaves(e)| ==> |EntryLeaves(e)[i].0| >= 1 && EntryLeaves(e)[i].0[0] == e.0
  {
  }

  lemma PathsAppend(a: seq<(seq<string>, Value)>, b: seq<(seq<string>, Value)>)
    ensures Paths(a + b) == Paths(a) + Paths(b)
  {
  }

  /** Joining dot-free paths onto one prefix keeps them apart. */
  lemma JoinedDistinct(prepend: string, l: seq<(seq<string>, Value)>)
    requires Distinct(Paths(l))
    requires forall i :: 0 <= i < |l| ==> |l[i].0| >= 1 && DotFreeSegments(l[i].0)
    ensures Distinct(Keys(Joined(prepend, l)))
  {
    var ks := Keys(Joined(prepend, l));
    forall i, j | 0 <= i < j < |ks| ensures ks[i] != ks[j] {
        assert l[i].0 != l[j].0 by {
        assert Paths(l)[i] == l[i].0 && Paths(l)[j] == l[j].0;
      }
      SplitJoin(l[i].0);
      SplitJoin(l[j].0);
      assert Join(l[i].0) != Join(l[j].0);
      assert ks[i][|prepend|..] == Join(l[i].0);
      assert ks[j][|prepend|..] == Join(l[j].0);
    }
  }

  // ---------------------------------------------------------------------------
  // Arr::dot of a tree whose keys hold no dot

  lemma JoinedAppend(prepend: string, a: seq<(seq<string>, Value)>, b: seq<(seq<string>, Value)>)
    ensures Joined(prepend, a + b) == Joined(prepend, a) + Joined(prepend, b)
  {
  }

  lemma JoinedPrepend(prepend: string, k: string, l: seq<(seq<string>, Value)>)
    requires forall i :: 0 <= i < |l| ==> |l[i].0| >= 1
    ensures Joined(prepend + k + ".", l) == Joined(prepend, Prepend(k, l))
  {
    var x, y := Joined(prepend + k + ".", l), Joined(prepend, Prepend(k, l));
    forall i | 0 <= i < |l| ensures x[i] == y[i] {
      var path := [k] + l[i].0;
      assert path[1..] == l[i].0;
      assert Join(path) == k + "." + Join(l[i].0);
      assert Prepend(k, l)[i] == (path, l[i].1);
      assert y[i] == (prepend + Join(path), l[i].1);
      assert prepend + k + "." + Join(l[i].0) == prepend + (k + "." + Join(l[i].0));
    }
  }

  lemma {:induction false} DotLoopAppends(results: PArray<Value>, es: seq<(string, Value)>, prepend: string)
    requires Distinct(Keys(results + Joined(prepend, Leaves(es))))
    ensures DotLoop(results, es, prepend) == results + Joined(prepend, Leaves(es))
    decreases es
  {
    if es != [] {
      var e := es[0];
      assert e in es && e.1 < e;
      var h, rest := EntryLeaves(e), Leaves(es[1..]);
      JoinedAppend(prepend, h, rest);
      var jh, jr := Joined(prepend, h), Joined(prepend, rest);
      assert results + Joined(prepend, Leaves(es)) == (results + jh) + jr;
      DistinctPrefix(results + jh, jr);
      if IsLeaf(e.1) {
        assert jh == [(prepend + e.0, e.1)];
        FirstKeyFresh(results, jh);
        PutFresh(results, prepend + e.0, e.1);
      } else {
        LeavesShape(e.1.entries);
        JoinedPrepend(prepend, e.0, Leaves(e.1.entries));
        DistinctSuffix(results, jh);
        assert [] + jh == jh;
        DotLoopAppends([], e.1.entries, prepend + e.0 + ".");
        MergeFresh(results, jh);
      }
      var next: PArray<Value> := results + jh;
      DotLoopAppends(next, es[1..], prepend);
    }
  }

  /** For a tree whose keys hold no dot, `Arr::dot` lists every leaf once,
      depth first, under its path joined with dots. */
  lemma DotIsJoinedLeaves(es: PArray<Value>, prepend: string)
    requires DotFreeKeys(es)
    ensures Dot(es, prepend) == Joined(prepend, Leaves(es))
  {
    LeavesShape(es);
    LeavesPathsDistinct(es);
    JoinedDistinct(prepend, Leaves(es));
    assert [] + Joined(prepend, Leaves(es)) == Joined(prepend, Leaves(es));
    DotLoopAppends([], es, prepend);
  }

  // ---------------------------------------------------------------------------
  // Setting leaves back by path

  predicate NonEmptyPaths(l: seq<(seq<string>, Value)>)
  {
    forall i :: 0 <= i < |l| ==> |l[i].0| >= 1
  }

  /** `Arr::set` of each (path, value) in turn. */
  function UndotPaths(t: PArray<Value>, l: seq<(seq<string>, Value)>): PArray<Value>
    requires NonEmptyPaths(l)
  {
    if l == [] then t
    else SetPath(UndotPaths(t, l[..|l| - 1]), l[|l| - 1].0, l[|l| - 1].1)
  }

  lemma ChildPut(t: PArray<Value>, k: string, es: PArray<Value>)
    ensures Child(Put(t, k, Arr(es)), k) == es
  {
    GetPut(t, k, Arr(es), k);
  }

  /** Setting paths that all start with `k` builds one array under `k`. */
  lemma {:induction false} UndotPathsPrepend(t: PArray<Value>, k: string, l: seq<(seq<string>, Value)>)
    requires NonEmptyPaths(l) && l != []
    ensures NonEmptyPaths(Prepend(k, l))
    ensures UndotPaths(t, Prepend(k, l)) == Put(t, k, Arr(UndotPaths(Child(t, k), l)))
    decreases |l|
  {
    var n := |l|;
    var pl := Prepend(k, l);
    var (p, v) := l[n - 1];
    assert pl[n - 1] == ([k] + p, v);
    assert ([k] + p)[1..] == p;
    if n == 1 {
      assert pl[..0] == [] && l[..0] == [];
    } else {
      var l' := l[..n - 1];
      assert pl[..n - 1] == Prepend(k, l');
      UndotPathsPrepend(t, k, l');
      var x := UndotPaths(Child(t, k), l');
      var t1 := Put(t, k, Arr(x));
      calc {
        UndotPaths(t, pl);
        SetPath(t1, [k] + p, v);
        Put(t1, k, Arr(SetPath(Child(t1, k), p, v)));
        { ChildPut(t, k, x); }
        Put(t1, k, Arr(SetPath(x, p, v)));
        { PutPut(t, k, Arr(x), Arr(SetPath(x, p, v))); }
        Put(t, k, Arr(SetPath(x, p, v)));
      }
    }
  }

  lemma {:induction false} UndotPathsAppend(t: PArray<Value>, a: seq<(seq<string>, Value)>, b: seq<(seq<string>, Value)>)
    requires NonEmptyPaths(a) && NonEmptyPaths(b)
    ensures NonEmptyPaths(a + b)
    ensures UndotPaths(t, a + b) == UndotPaths(UndotPaths(t, a), b)
    decreases |b|
  {
    if b == [] {
      assert a + b == a;
    } else {
      var b' := b[..|b| - 1];
      assert (a + b)[..|a + b| - 1] == a + b';
      UndotPathsAppend(t, a, b');
    }
  }

  /** Setting the leaves of `es` in order onto an array that has none of its
      keys appends `es` unchanged. */
  lemma {:induction false} UndotPathsLeaves(t: PArray<Value>, es: seq<(string, Value)>)
    requires Distinct(Keys(t + es))
    ensures NonEmptyPaths(Leaves(es))
    ensures UndotPaths(t, Leaves(es)) == t + es
    decreases es
  {
    if es == [] {
      assert t + es == t;
    } else {
      var e := es[0];
      assert e in es;
      var h, r := EntryLeaves(e), Leaves(es[1..]);
      FirstKeyFresh(t, es);
      UndotEntryLeaves(t, e);
      var t': PArray<Value> := t + [e];
      ShiftFirst(t, es);
      UndotPathsLeaves(t', es[1..]);
      assert Leaves(es) == h + r;
      UndotPathsAppend(t, h, r);
    }
  }

  lemma {:induction false} UndotEntryLeaves(t: PArray<Value>, e: (string, Value))
    requires e.0 !in Keys(t)
    ensures NonEmptyPaths(EntryLeaves(e))
    ensures Distinct(Keys(t + [e]))
    ensures UndotPaths(t, EntryLeaves(e)) == t + [e]
    decreases e
  {
    assert e.1 < e;
    EntryLeavesFirst(e);
    PutFresh(t, e.0, e.1);
    if IsLeaf(e.1) {
      assert EntryLeaves(e)[..0] == [];
    } else {
      var inner := e.1.entries;
      LeavesShape(inner);
      UndotPathsPrepend(t, e.0, Leaves(inner));
      assert Get(t, e.0) == None;
      assert [] + inner == inner;
      UndotPathsLeaves([], inner);
      assert Arr(inner) == e.1;
    }
  }

  lemma {:induction false} UndotJoined(t: PArray<Value>, l: seq<(seq<string>, Value)>)
    requires NonEmptyPaths(l)
    requires forall i :: 0 <= i < |l| ==> DotFreeSegments(l[i].0)
    ensures Undot(Joined("", l), t) == UndotPaths(t, l)
    decreases |l|
  {
    if l != [] {
      var n := |l|;
      assert Joined("", l)[..n - 1] == Joined("", l[..n - 1]);
      UndotJoined(t, l[..n - 1]);
      assert Joined("", l)[n - 1].0 == Join(l[n - 1].0);
      SplitJoin(l[n - 1].0);
    }
  }

  /** Round trip: setting back every entry that `Arr::dot` produced rebuilds
      the tree, order included, when no key holds a dot. */
  lemma UndotDot(es: PArray<Value>)
    requires DotFreeKeys(es)
    ensures Undot(Dot(es, ""), []) == es
  {
    DotIsJoinedLeaves(es, "");
    LeavesShape(es);
    UndotJoined([], Leaves(es));
    assert [] + es == es;
    UndotPathsLeaves([], es);
  }

  // ---------------------------------------------------------------------------
  // Arr::set and Arr::get

  /** `Arr::set` writes its value where `Arr::get` finds it, whatever was on the path before. */
  lemma {:induction false} GetSetPath(t: PArray<Value>, path: seq<string>, v: Value)
    requires |path| >= 1
    ensures GetPath(SetPath(t, path, v), path) == Some(v)
    decreases |path|
  {
    if |path| == 1 {
      GetPut(t, path[0], v, path[0]);
    } else {
      var inner := SetPath(Child(t, path[0]), path[1..], v);
      GetPut(t, path[0], Arr(inner), path[0]);
      GetSetPath(Child(t, path[0]), path[1..], v);
    }
  }

  /** `Arr::set` leaves every path under another top-level key as it was. */
  lemma GetSetPathOther(t: PArray<Value>, path: seq<string>, v: Value, other: seq<string>)
    requires |path| >= 1 && |other| >= 1 && path[0] != other[0]
    ensures GetPath(SetPath(t, path, v), other) == GetPath(t, other)
  {
    if |path| == 1 {
      GetPut(t, path[0], v, other[0]);
    } else {
      GetPut(t, path[0], Arr(SetPath(Child(t, path[0]), path[1..], v)), other[0]);
    }
  }

  lemma GetPathEmpty(path: seq<string>)
    requires |path| >= 1
    ensures GetPath([], path) == None
  {
  }

  /** `Arr::set` leaves every path that parts from its own path at some depth
      as it was: it descends along its path and rewrites only the entry under
      the next segment at each level, so siblings keep their values at every
      depth. */
  lemma {:induction false} GetSetPathSibling(t: PArray<Value>, path: seq<string>, v: Value, other: seq<string>, n: nat)
    requires n < |path| && n < |other|
    requires forall j :: 0 <= j < n ==> path[j] == other[j]
    requires path[n] != other[n]
    ensures GetPath(SetPath(t, path, v), other) == GetPath(t, other)
    decreases n
  {
    if n == 0 {
      GetSetPathOther(t, path, v, other);
    } else {
      var k := path[0];
      assert other[0] == k;
      var inner := SetPath(Child(t, k), path[1..], v);
      GetPut(t, k, Arr(inner), k);
      assert forall j :: 0 <= j < n - 1 ==> path[1..][j] == other[1..][j] by {
        forall j | 0 <= j < n - 1 ensures path[1..][j] == other[1..][j] {
          assert path[j + 1] == other[j + 1];
        }
      }
      GetSetPathSibling(Child(t, k), path[1..], v, other[1..], n - 1);
      GetPathEmpty(other[1..]);
    }
  }

  /** In `array_undot`, the last entry written under a dotted key wins. */
  lemma UndotLast(dotted: seq<(string, Value)>, initial: PArray<Value>)
    requires dotted != []
    ensures GetPath(Undot(dotted, initial), Split(dotted[|dotted| - 1].0)) == Some(dotted[|dotted| - 1].1)
  {
    var last := dotted[|dotted| - 1];
    GetSetPath(Undot(dotted[..|dotted| - 1], initial), Split(last.0), last.1);
  }

  // ---------------------------------------------------------------------------
  // The keys Arr::dot produces

  /** Arr::dot over a flat array of leaves keeps every entry as it is. */
  lemma {:induction false} DotLoopFlat(results: PArray<Value>, es: seq<(string, Value)>)
    requires Distinct(Keys(results + es))
    requires forall i :: 0 <= i < |es| ==> IsLeaf(es[i].1)
    ensures DotLoop(results, es, "") == results + es
    decreases |es|
  {
    if es != [] {
      FirstKeyFresh(results, es);
      assert "" + es[0].0 == es[0].0;
      PutFresh(results, es[0].0, es[0].1);
      ShiftFirst(results, es);
      DistinctPrefix(results + [es[0]], es[1..]);
      var next: PArray<Value> := results + [es[0]];
      DotLoopFlat(next, es[1..]);
    }
  }

  /** A flat array whose values are all leaves is already in dot form. */
  lemma DotFlat(f: PArray<Value>)
    requires forall i :: 0 <= i < |f| ==> IsLeaf(f[i].1)
    ensures Dot(f, "") == f
  {
    assert [] + f == f;
    DotLoopFlat([], f);
  }

  /** The dotted keys of a list of entries, as a set: a leaf gives its key
      after the prefix, a non-empty array the keys of its own entries under
      the prefix extended by the key and a dot. */
  function FlatKeys(es: seq<(string, Value)>, prepend: string): set<string>
    decreases es
  {
    if es == [] then {}
    else
      assert es[0] in es;
      EntryFlatKeys(es[0], prepend) + FlatKeys(es[1..], prepend)
  }

  function EntryFlatKeys(e: (string, Value), prepend: string): set<string>
    decreases e
  {
    assert e.1 < e;
    if IsLeaf(e.1) then {prepend + e.0} else FlatKeys(e.1.entries, prepend + e.0 + ".")
  }

  lemma {:induction false} DotLoopKeys(results: PArray<Value>, es: seq<(string, Value)>, prepend: string)
    ensures forall k :: k in Keys(DotLoop(results, es, prepend)) <==> k in Keys(results) || k in FlatKeys(es, prepend)
    decreases es
  {
    if es != [] {
      var e := es[0];
      assert e in es && e.1 < e;
      if IsLeaf(e.1) {
        KeysPut(results, prepend + e.0, e.1);
        DotLoopKeys(Put(results, prepend + e.0, e.1), es[1..], prepend);
      } else {
        var inner := Dot(e.1.entries, prepend + e.0 + ".");
        assert inner == DotLoop([], e.1.entries, prepend + e.0 + ".");
        assert FlatKeys(es, prepend) == FlatKeys(e.1.entries, prepend + e.0 + ".") + FlatKeys(es[1..], prepend);
        DotLoopKeys([], e.1.entries, prepend + e.0 + ".");
        KeysMerge(results, inner);
        DotLoopKeys(Merge(results, inner), es[1..], prepend);
      }
    }
  }

  /** The keys of `Arr::dot` are exactly the dotted keys of the tree, even
      when keys hold dots and collide. */
  lemma DotKeys(es: PArray<Value>, prepend: string)
    ensures forall k :: k in Keys(Dot(es, prepend)) <==> k in FlatKeys(es, prepend)
  {
    DotLoopKeys([], es, prepend);
  }

  lemma {:induction false} EntryFlatKeysWithin(e: (string, Value), b: seq<(string, Value)>, prepend: string)
    requires e in b
    ensures EntryFlatKeys(e, prepend) <= FlatKeys(b, prepend)
  {
    if b[0] != e {
      EntryFlatKeysWithin(e, b[1..], prepend);
    }
  }

  /** An array whose entries all occur in another has no dotted key the other lacks. */
  lemma {:induction false} FlatKeysMonotone(a: seq<(string, Value)>, b: seq<(string, Value)>, prepend: string)
    requires forall e :: e in a ==> e in b
    ensures FlatKeys(a, prepend) <= FlatKeys(b, prepend)
  {
    if a != [] {
      EntryFlatKeysWithin(a[0], b, prepend);
      FlatKeysMonotone(a[1..], b, prepend);
    }
  }

  /** A key without a dot does not start with `a + "."`. */
  lemma NoDotPrefix(a: string, y: string)
    requires '.' !in y
    ensures !(a + "." <= y)
  {
    assert forall i :: 0 <= i < |y| ==> y[i] != '.' by {
      forall i | 0 <= i < |y| ensures y[i] != '.' {
        assert y[i] in y;
      }
    }
    assert |y| <= |a| || y[|a|] != (a + ".")[|a|];
  }

  /** `a + "."` and `b + "."` start the same key only when `a == b`, if
      neither holds a dot. */
  lemma DotHeads(a: string, b: string, x: string)
    requires '.' !in a && '.' !in b
    ensures a + "." <= x && b + "." <= x ==> a == b
  {
    if a + "." <= x && b + "." <= x {
      assert forall i :: 0 <= i < |a| ==> x[i] == a[i] && a[i] in a;
      assert forall i :: 0 <= i < |b| ==> x[i] == b[i] && b[i] in b;
      assert x[|a|] == '.' && x[|b|] == '.';
      assert |a| == |b|;
      assert a == x[..|a|] && b == x[..|b|];
    }
  }

  /** When no top-level key holds a dot and `d` is not one of them, no dotted
      key of the tree is `d` or starts with `d + "."`. */
  lemma {:induction false} FlatKeysOutside(es: seq<(string, Value)>, d: string)
    requires '.' !in d
    requires forall i :: 0 <= i < |es| ==> '.' !in es[i].0 && es[i].0 != d
    ensures forall x :: x in FlatKeys(es, "") ==> x != d && !(d + "." <= x)
    decreases es
  {
    if es != [] {
      var e := es[0];
      assert e in es && e.1 < e;
      FlatKeysOutside(es[1..], d);
      assert FlatKeys(es, "") == EntryFlatKeys(e, "") + FlatKeys(es[1..], "");
      if IsLeaf(e.1) {
        assert "" + e.0 == e.0;
        NoDotPrefix(d, e.0);
      } else {
        var p := "" + e.0 + ".";
        assert p == e.0 + ".";
        FlatKeysPrefix(e.1.entries, p);
        NoDotPrefix(e.0, d);
        forall x | x in EntryFlatKeys(e, "") ensures x != d && !(d + "." <= x) {
          DotHeads(d, e.0, x);
        }
      }
    }
  }

  /** Every dotted key starts with the prefix it was built under. */
  lemma {:induction false} FlatKeysPrefix(es: seq<(string, Value)>, prepend: string)
    ensures forall x :: x in FlatKeys(es, prepend) ==> prepend <= x
    decreases es
  {
    if es != [] {
      var e := es[0];
      assert e in es && e.1 < e;
      FlatKeysPrefix(es[1..], prepend);
      assert FlatKeys(es, prepend) == EntryFlatKeys(e, prepend) + FlatKeys(es[1..], prepend);
      if !IsLeaf(e.1) {
        var p := prepend + e.0 + ".";
        FlatKeysPrefix(e.1.entries, p);
        forall x | x in FlatKeys(e.1.entries, p) ensures prepend <= x {
          assert p <= x;
          assert x[..|prepend|] == p[..|prepend|];
        }
      }
    }
  }

  // ---------------------------------------------------------------------------
  // Rewriting the leaves of a tree

  /** `f` sends leaves to leaves. */
  ghost predicate LeafPreserving(f: Value -> Value)
  {
    forall v :: IsLeaf(v) ==> IsLeaf(f(v))
  }

  /** The values of a flat array, each rewritten by `f`. */
  function MapValues(f: Value -> Value, m: seq<(string, Value)>): (r: seq<(string, Value)>)
    ensures |r| == |m| && Keys(r) == Keys(m)
    ensures forall i :: 0 <= i < |m| ==> r[i] == (m[i].0, f(m[i].1))
  {
    seq(|m|, i requires 0 <= i < |m| => (m[i].0, f(m[i].1)))
  }

  function MapPaths(f: Value -> Value, l: seq<(seq<string>, Value)>): seq<(seq<string>, Value)>
  {
    seq(|l|, i requires 0 <= i < |l| => (l[i].0, f(l[i].1)))
  }

  /** The tree with every leaf rewritten by `f` and its shape kept. */
  function MapLeaves(f: Value -> Value, es: seq<(string, Value)>): (r: seq<(string, Value)>)
    ensures |r| == |es| && Keys(r) == Keys(es)
    decreases es
  {
    seq(|es|, i requires 0 <= i < |es| => (es[i].0, (assert es[i] in es && es[i].1 < es[i]; MapLeaf(f, es[i].1))))
  }

  /** A leaf rewritten by `f`, or a non-empty array with its leaves rewritten. */
  function MapLeaf(f: Value -> Value, v: Value): Value
    decreases v
  {
    if IsLeaf(v) then f(v) else Arr(MapLeaves(f, v.entries))
  }

  lemma MapLeavesAt(f: Value -> Value, es: seq<(string, Value)>, i: nat)
    requires i < |es|
    ensures MapLeaves(f, es)[i] == (es[i].0, MapLeaf(f, es[i].1))
  {
  }

  lemma PrependMapPaths(f: Value -> Value, k: string, l: seq<(seq<string>, Value)>)
    ensures Prepend(k, MapPaths(f, l)) == MapPaths(f, Prepend(k, l))
  {
  }

  lemma MapPathsAppend(f: Value -> Value, a: seq<(seq<string>, Value)>, b: seq<(seq<string>, Value)>)
    ensures MapPaths(f, a + b) == MapPaths(f, a) + MapPaths(f, b)
  {
  }

  /** Rewriting the leaves of a tree rewrites the values of its leaf list and nothing else. */
  lemma {:induction false} LeavesMapLeaves(f: Value -> Value, es: seq<(string, Value)>)
    requires LeafPreserving(f)
    ensures Leaves(MapLeaves(f, es)) == MapPaths(f, Leaves(es))
    decreases es
  {
    if es != [] {
      var e := es[0];
      assert e in es && e.1 < e;
      var r := MapLeaves(f, es);
      MapLeavesAt(f, es, 0);
      assert r[1..] == MapLeaves(f, es[1..]) by {
        forall i | 0 <= i < |es| - 1 ensures r[1..][i] == MapLeaves(f, es[1..])[i] {
          MapLeavesAt(f, es, i + 1);
          MapLeavesAt(f, es[1..], i);
        }
      }
      LeavesMapLeaves(f, es[1..]);
      if IsLeaf(e.1) {
        assert r[0] == (e.0, f(e.1)) && IsLeaf(f(e.1));
        assert EntryLeaves(r[0]) == MapPaths(f, EntryLeaves(e));
      } else {
        LeavesMapLeaves(f, e.1.entries);
        var inner := MapLeaves(f, e.1.entries);
        assert r[0] == (e.0, Arr(inner));
        PrependMapPaths(f, e.0, Leaves(e.1.entries));
        assert EntryLeaves(r[0]) == MapPaths(f, EntryLeaves(e));
      }
      MapPathsAppend(f, EntryLeaves(e), Leaves(es[1..]));
    }
  }

  /** Rewriting leaves introduces no key, so no dot. */
  lemma {:induction false} DotFreeMapLeaves(f: Value -> Value, es: seq<(string, Value)>)
    requires LeafPreserving(f) && DotFreeKeys(es)
    ensures DotFreeKeys(MapLeaves(f, es))
    decreases es
  {
    if es != [] {
      var e := es[0];
      assert e in es && e.1 < e;
      var r := MapLeaves(f, es);
      MapLeavesAt(f, es, 0);
      assert r[1..] == MapLeaves(f, es[1..]) by {
        forall i | 0 <= i < |es| - 1 ensures r[1..][i] == MapLeaves(f, es[1..])[i] {
          MapLeavesAt(f, es, i + 1);
          MapLeavesAt(f, es[1..], i);
        }
      }
      DotFreeMapLeaves(f, es[1..]);
      if IsLeaf(e.1) {
        assert IsLeaf(f(e.1));
      } else {
        DotFreeMapLeaves(f, e.1.entries);
        assert r[0].1 == Arr(MapLeaves(f, e.1.entries));
      }
    }
  }

  lemma JoinedMapPaths(f: Value -> Value, prepend: string, l: seq<(seq<string>, Value)>)
    ensures Joined(prepend, MapPaths(f, l)) == MapValues(f, Joined(prepend, l))
  {
  }

  /** For a tree whose keys hold no dot, rewriting the values of its dot form
      and setting them back gives the tree with its leaves rewritten. */
  lemma UndotMapDot(f: Value -> Value, es: PArray<Value>)
    requires LeafPreserving(f) && DotFreeKeys(es)
    ensures Undot(MapValues(f, Dot(es, "")), []) == MapLeaves(f, es)
  {
    var r: PArray<Value> := MapLeaves(f, es);
    DotIsJoinedLeaves(es, "");
    LeavesMapLeaves(f, es);
    JoinedMapPaths(f, "", Leaves(es));
    DotFreeMapLeaves(f, es);
    DotIsJoinedLeaves(r, "");
    UndotDot(r);
  }

  // ---------------------------------------------------------------------------
  // Restricting a tree to some of its dotted keys

  /** The leaves whose dotted key, after `prepend`, is listed in `keys`. */
  function FilterPaths(l: seq<(seq<string>, Value)>, prepend: string, keys: seq<string>): seq<(seq<string>, Value)>
  {
    if l == [] then []
    else (if prepend + Join(l[0].0) in keys then [l[0]] else []) + FilterPaths(l[1..], prepend, keys)
  }

  /** The tree cut down to the leaves whose dotted key is listed; arrays left
      with no leaf are dropped. */
  function Prune(es: seq<(string, Value)>, prepend: string, keys: seq<string>): (r: seq<(string, Value)>)
    ensures forall k :: k in Keys(r) ==> k in Keys(es)
    ensures Distinct(Keys(es)) ==> Distinct(Keys(r))
    decreases es
  {
    if es == [] then []
    else
      var e := es[0];
      assert e in es && e.1 < e;
      var rest := Prune(es[1..], prepend, keys);
      KeysCons(es);
      var inner := if e.1.Arr? then Prune(e.1.entries, prepend + e.0 + ".", keys) else [];
      var head: seq<(string, Value)> :=
        if IsLeaf(e.1) then (if prepend + e.0 in keys then [e] else [])
        else if inner == [] then []
        else [(e.0, Arr(inner))];
      KeysAppend(head, rest);
      assert forall k :: k in Keys(head) ==> k == e.0;
      assert Distinct(Keys(es)) ==> Distinct(Keys(head) + Keys(rest)) by {
        if Distinct(Keys(es)) {
          forall j | 0 <= j < |es| - 1 ensures Keys(es[1..])[j] != e.0 {
            assert Keys(es)[j + 1] == Keys(es[1..])[j];
            assert Keys(es)[0] == e.0;
          }
          assert es == [e] + es[1..];
          DistinctSuffix([e], es[1..]);
          forall i, j | 0 <= i < |head| && 0 <= j < |rest| ensures Keys(head)[i] != Keys(rest)[j] {
            assert Keys(rest)[j] in Keys(rest);
          }
          DistinctConcat(Keys(head), Keys(rest));
        }
      }
      head + rest
  }

  lemma {:induction false} FilterPathsAppend(a: seq<(seq<string>, Value)>, b: seq<(seq<string>, Value)>, prepend: string, keys: seq<string>)
    ensures FilterPaths(a + b, prepend, keys) == FilterPaths(a, prepend, keys) + FilterPaths(b, prepend, keys)
  {
    if a != [] {
      assert (a + b)[0] == a[0];
      assert (a + b)[1..] == a[1..] + b;
      FilterPathsAppend(a[1..], b, prepend, keys);
      var h: seq<(seq<string>, Value)> := if prepend + Join(a[0].0) in keys then [a[0]] else [];
      assert FilterPaths(a + b, prepend, keys) == h + FilterPaths(a[1..] + b, prepend, keys);
      assert FilterPaths(a, prepend, keys) == h + FilterPaths(a[1..], prepend, keys);
      assert h + (FilterPaths(a[1..], prepend, keys) + FilterPaths(b, prepend, keys)) ==
        (h + FilterPaths(a[1..], prepend, keys)) + FilterPaths(b, prepend, keys);
    } else {
      assert a + b == b;
    }
  }

  lemma {:induction false} FilterPathsPrepend(k: string, l: seq<(seq<string>, Value)>, prepend: string, keys: seq<string>)
    requires NonEmptyPaths(l)
    ensures FilterPaths(Prepend(k, l), prepend, keys) == Prepend(k, FilterPaths(l, prepend + k + ".", keys))
  {
    if l != [] {
      var path := l[0].0;
      assert Join([k] + path) == k + "." + Join(path) by {
        assert ([k] + path)[1..] == path;
      }
      assert prepend + (k + "." + Join(path)) == (prepend + k + ".") + Join(path);
      assert Prepend(k, l)[1..] == Prepend(k, l[1..]);
      FilterPathsPrepend(k, l[1..], prepend, keys);
      var h: seq<(seq<string>, Value)> := if prepend + k + "." + Join(path) in keys then [l[0]] else [];
      assert Prepend(k, h + FilterPaths(l[1..], prepend + k + ".", keys)) ==
        Prepend(k, h) + Prepend(k, FilterPaths(l[1..], prepend + k + ".", keys));
    }
  }

  lemma LeavesCons(e: (string, Value), rest: seq<(string, Value)>)
    ensures Leaves([e] + rest) == EntryLeaves(e) + Leaves(rest)
  {
    assert ([e] + rest)[1..] == rest;
  }

  /** The leaves of the pruned tree are the listed leaves of the tree, in order. */
  lemma {:induction false} LeavesPrune(es: seq<(string, Value)>, prepend: string, keys: seq<string>)
    ensures Leaves(Prune(es, prepend, keys)) == FilterPaths(Leaves(es), prepend, keys)
    decreases es
  {
    if es != [] {
      var e := es[0];
      assert e in es && e.1 < e;
      var rest := Prune(es[1..], prepend, keys);
      LeavesPrune(es[1..], prepend, keys);
      FilterPathsAppend(EntryLeaves(e), Leaves(es[1..]), prepend, keys);
      if IsLeaf(e.1) {
        assert EntryLeaves(e) == [([e.0], e.1)];
        assert FilterPaths(EntryLeaves(e), prepend, keys) == if prepend + e.0 in keys then EntryLeaves(e) else [];
        if prepend + e.0 in keys {
          LeavesCons(e, rest);
        } else {
          assert Prune(es, prepend, keys) == rest;
        }
      } else {
        var inner := Prune(e.1.entries, prepend + e.0 + ".", keys);
        LeavesPrune(e.1.entries, prepend + e.0 + ".", keys);
        LeavesShape(e.1.entries);
        FilterPathsPrepend(e.0, Leaves(e.1.entries), prepend, keys);
        if inner == [] {
          assert Prune(es, prepend, keys) == rest;
        } else {
          var x := (e.0, Arr(inner));
          assert Prune(es, prepend, keys) == [x] + rest;
          LeavesCons(x, rest);
          assert EntryLeaves(x) == Prepend(e.0, Leaves(inner));
        }
      }
    }
  }

  /** Pruning introduces no key, so no dot. */
  lemma {:induction false} DotFreePrune(es: seq<(string, Value)>, prepend: string, keys: seq<string>)
    requires DotFreeKeys(es)
    ensures DotFreeKeys(Prune(es, prepend, keys))
    decreases es
  {
    if es != [] {
      var e := es[0];
      assert e in es && e.1 < e;
      var rest := Prune(es[1..], prepend, keys);
      DotFreePrune(es[1..], prepend, keys);
      if !IsLeaf(e.1) {
        DotFreePrune(e.1.entries, prepend + e.0 + ".", keys);
      }
      var r := Prune(es, prepend, keys);
      if r != rest {
        assert r[1..] == rest;
      }
    }
  }

  /** `Arr::only` on dotted leaves keeps the listed ones. */
  lemma {:induction false} OnlyJoined(l: seq<(seq<string>, Value)>, keys: seq<string>)
    requires Distinct(Keys(Joined("", l)))
    ensures Only(Joined("", l), keys) == Joined("", FilterPaths(l, "", keys))
  {
    if l != [] {
      var m: PArray<Value> := Joined("", l);
      assert m[1..] == Joined("", l[1..]);
      assert Keys(m[1..]) == Keys(m)[1..];
      OnlyJoined(l[1..], keys);
      var h: seq<(seq<string>, Value)> := if "" + Join(l[0].0) in keys then [l[0]] else [];
      JoinedAppend("", h, FilterPaths(l[1..], "", keys));
    }
  }

  /** Every value in a list of entries is a leaf. */
  predicate AllLeaves(es: seq<(string, Value)>)
  {
    forall e :: e in es ==> IsLeaf(e.1)
  }

  lemma {:induction false} DotAllLeaves(es: PArray<Value>, prepend: string)
    ensures AllLeaves(Dot(es, prepend))
    decreases es, 1
  {
    DotLoopLeaves([], es, prepend);
  }

  /** Each step of the loop of `Arr::dot` assigns a leaf or merges entries that
      are all leaves. */
  lemma {:induction false} DotLoopLeaves(results: PArray<Value>, es: seq<(string, Value)>, prepend: string)
    requires AllLeaves(results)
    ensures AllLeaves(DotLoop(results, es, prepend))
    decreases es, 0
  {
    if es != [] {
      var e := es[0];
      assert e in es && e.1 < e;
      if IsLeaf(e.1) {
        PutEntries(results, prepend + e.0, e.1);
        DotLoopLeaves(Put(results, prepend + e.0, e.1), es[1..], prepend);
      } else {
        var inner := Dot(e.1.entries, prepend + e.0 + ".");
        DotAllLeaves(e.1.entries, prepend + e.0 + ".");
        MergeEntries(results, inner);
        DotLoopLeaves(Merge(results, inner), es[1..], prepend);
      }
    }
  }

  /** Every value `Arr::dot` produces is a leaf, whatever the keys hold. */
  lemma DotLeaves(es: PArray<Value>)
    ensures forall i :: 0 <= i < |Dot(es, "")| ==> IsLeaf(Dot(es, "")[i].1)
  {
    DotAllLeaves(es, "");
    var d := Dot(es, "");
    forall i | 0 <= i < |d| ensures IsLeaf(d[i].1) {
      assert d[i] in d;
    }
  }

  /** Restricting the dotted entries to some keys is flattening the pruned tree. */
  lemma DotPrune(es: PArray<Value>, keys: seq<string>)
    requires DotFreeKeys(es)
    ensures Distinct(Keys(Prune(es, "", keys))) && DotFreeKeys(Prune(es, "", keys))
    ensures Dot(Prune(es, "", keys), "") == Only(Dot(es, ""), keys)
  {
    var p: PArray<Value> := Prune(es, "", keys);
    DotFreePrune(es, "", keys);
    DotIsJoinedLeaves(p, "");
    LeavesPrune(es, "", keys);
    DotIsJoinedLeaves(es, "");
    OnlyJoined(Leaves(es), keys);
  }
}
