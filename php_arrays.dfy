/** PHP arrays with string keys, as the translation pipeline uses them.
    A PHP array is an ordered map: assigning to a key that is present
    overwrites the value in place, assigning to a new key appends it.
    Integer-like keys, which PHP renumbers in array_merge, are not modelled. */
module PhpArrays {

  datatype Option<T> = None | Some(value: T)

  /** The keys of an association list, in order. */
  function Keys<V>(m: seq<(string, V)>): (ks: seq<string>)
    ensures |ks| == |m|
    ensures forall i {:trigger ks[i]} :: 0 <= i < |m| ==> ks[i] == m[i].0
  {
    seq(|m|, i requires 0 <= i < |m| => m[i].0)
  }

  predicate Distinct<T(==)>(xs: seq<T>)
  {
    forall i, j :: 0 <= i < j < |xs| ==> xs[i] != xs[j]
  }

  /** A PHP array: an ordered association list whose keys are distinct. */
  type PArray<V> = m: seq<(string, V)> | Distinct(Keys(m)) witness []

  function IndexOf(ks: seq<string>, k: string): (i: nat)
    requires k in ks
    ensures i < |ks| && ks[i] == k
    ensures forall j :: 0 <= j < i ==> ks[j] != k
  {
    if ks[0] == k then 0 else 1 + IndexOf(ks[1..], k)
  }

  /** `$m[$k]` read through `isset`: the value under `k`, if any. */
  function Get<V>(m: PArray<V>, k: string): Option<V>
  {
    if k in Keys(m) then Some(m[IndexOf(Keys(m), k)].1) else None
  }

  /** `$m[$k] = $v`: overwrite in place, or append a new key at the end. */
  function Put<V>(m: PArray<V>, k: string, v: V): PArray<V>
  {
    if k in Keys(m) then
      var i := IndexOf(Keys(m), k);
      assert Keys(m[i := (k, v)]) == Keys(m);
      m[i := (k, v)]
    else
      assert Keys(m + [(k, v)]) == Keys(m) + [k];
      m + [(k, v)]
  }

  /** `array_merge($a, $b)` for string keys: the entries of `b` are put into `a` in order. */
  function Merge<V>(a: PArray<V>, b: seq<(string, V)>): PArray<V>
    decreases |b|
  {
    if b == [] then a else Merge(Put(a, b[0].0, b[0].1), b[1..])
  }

  /** `Arr::only($m, $keys)`: the entries of `m` whose key is listed, in the order of `m`. */
  function Only<V(!new)>(m: PArray<V>, keys: seq<string>): (r: PArray<V>)
    ensures forall e :: e in r <==> e in m && e.0 in keys
    ensures forall k :: k in Keys(r) <==> k in Keys(m) && k in keys
    ensures IsSubsequence(r, m)
  {
    if m == [] then []
    else
      var rest: PArray<V> := (assert Keys(m[1..]) == Keys(m)[1..]; m[1..]);
      assert Keys(m) == [m[0].0] + Keys(rest);
      var tail := Only(rest, keys);
      if m[0].0 in keys then
        assert m[0].0 !in Keys(rest) by {
          forall j | 0 <= j < |rest| ensures Keys(rest)[j] != m[0].0 {
            assert Keys(m)[j + 1] == Keys(rest)[j];
            assert Keys(m)[0] == m[0].0;
            assert Keys(m)[0] != Keys(m)[j + 1];
          }
        }
        assert Keys([m[0]] + tail) == [m[0].0] + Keys(tail);
        assert ([m[0]] + tail)[1..] == tail;
        [m[0]] + tail
      else tail
  }

  /** `array_diff($xs, $ys)`: the elements of `xs` that do not occur in `ys`, in order. */
  function ArrayDiff(xs: seq<string>, ys: seq<string>): (r: seq<string>)
    ensures forall x :: x in r <==> x in xs && x !in ys
  {
    if xs == [] then []
    else (if xs[0] in ys then [] else [xs[0]]) + ArrayDiff(xs[1..], ys)
  }

  /** `r` lists some of the entries of `m`, in the order they have in `m`. */
  predicate IsSubsequence<T(==)>(r: seq<T>, m: seq<T>)
    decreases |m|
  {
    r == [] || (m != [] && (IsSubsequence(r, m[1..]) || (r[0] == m[0] && IsSubsequence(r[1..], m[1..]))))
  }

  // Facts about PHP array assignment used by the rest of the model.

  lemma KeysPut<V>(m: PArray<V>, k: string, v: V)
    ensures forall x :: x in Keys(Put(m, k, v)) <==> x == k || x in Keys(m)
  {
    if k !in Keys(m) {
      assert Keys(m + [(k, v)]) == Keys(m) + [k];
    } else {
      var i := IndexOf(Keys(m), k);
      assert Keys(m[i := (k, v)]) == Keys(m);
    }
  }

  lemma GetAt<V>(m: PArray<V>, i: nat)
    requires i < |m|
    ensures Get(m, m[i].0) == Some(m[i].1)
  {
    var ks := Keys(m);
    assert ks[i] == m[i].0;
    var j := IndexOf(ks, m[i].0);
    assert j == i by {
      assert ks[j] == ks[i];
      assert !(j < i) && !(i < j);
    }
  }

  lemma GetPut<V>(m: PArray<V>, k: string, v: V, x: string)
    ensures Get(Put(m, k, v), x) == if x == k then Some(v) else Get(m, x)
  {
    var r := Put(m, k, v);
    KeysPut(m, k, v);
    if k in Keys(m) {
      var i := IndexOf(Keys(m), k);
      assert Keys(r) == Keys(m);
      if x in Keys(m) {
        var j := IndexOf(Keys(m), x);
        assert IndexOf(Keys(r), x) == j;
      }
    } else {
      assert Keys(r) == Keys(m) + [k];
      if x == k {
        GetAt(r, |m|);
      } else if x in Keys(m) {
        var j := IndexOf(Keys(m), x);
        GetAt(r, j);
        GetAt(m, j);
      }
    }
  }

  lemma PutPut<V>(m: PArray<V>, k: string, v1: V, v2: V)
    ensures Put(Put(m, k, v1), k, v2) == Put(m, k, v2)
  {
    var m1 := Put(m, k, v1);
    if k in Keys(m) {
      var i := IndexOf(Keys(m), k);
      assert m1 == m[i := (k, v1)];
      assert Keys(m1) == Keys(m);
      assert IndexOf(Keys(m1), k) == i;
    } else {
      assert m1 == m + [(k, v1)];
      assert Keys(m1) == Keys(m) + [k];
      GetAt(m1, |m|);
      assert IndexOf(Keys(m1), k) == |m|;
    }
  }

  lemma FirstKeyFresh<V>(a: PArray<V>, b: seq<(string, V)>)
    requires Distinct(Keys(a + b)) && b != []
    ensures b[0].0 !in Keys(a)
  {
    var ks := Keys(a + b);
    assert ks[|a|] == b[0].0;
    forall j | 0 <= j < |a| ensures Keys(a)[j] != b[0].0 {
      assert ks[j] == Keys(a)[j];
    }
  }

  lemma PutFresh<V>(a: PArray<V>, k: string, v: V)
    requires k !in Keys(a)
    ensures Put(a, k, v) == a + [(k, v)]
  {
  }

  lemma KeysAppend<V>(x: seq<(string, V)>, y: seq<(string, V)>)
    ensures Keys(x + y) == Keys(x) + Keys(y)
  {
    var l, r := Keys(x + y), Keys(x) + Keys(y);
    assert |l| == |r|;
    forall i | 0 <= i < |l| ensures l[i] == r[i] {
      assert l[i] == (x + y)[i].0;
      if i < |x| { assert r[i] == Keys(x)[i]; } else { assert r[i] == Keys(y)[i - |x|]; }
    }
  }

  lemma DistinctPrefix<V>(x: seq<(string, V)>, y: seq<(string, V)>)
    requires Distinct(Keys(x + y))
    ensures Distinct(Keys(x))
  {
    KeysAppend(x, y);
    var ks := Keys(x + y);
    forall i, j | 0 <= i < j < |x| ensures Keys(x)[i] != Keys(x)[j] {
      assert ks[i] == Keys(x)[i] && ks[j] == Keys(x)[j];
    }
  }

  lemma DistinctSuffix<V>(x: seq<(string, V)>, y: seq<(string, V)>)
    requires Distinct(Keys(x + y))
    ensures Distinct(Keys(y))
  {
    KeysAppend(x, y);
    var ks := Keys(x + y);
    forall i, j | 0 <= i < j < |y| ensures Keys(y)[i] != Keys(y)[j] {
      assert ks[|x| + i] == Keys(y)[i] && ks[|x| + j] == Keys(y)[j];
    }
  }

  /** Merging entries whose keys are new and distinct appends them. */
  lemma MergeFresh<V>(a: PArray<V>, b: seq<(string, V)>)
    requires Distinct(Keys(a + b))
    ensures Merge(a, b) == a + b
    decreases |b|
  {
    if b != [] {
      FirstKeyFresh(a, b);
      PutFresh(a, b[0].0, b[0].1);
      ShiftFirst(a, b);
      DistinctPrefix(a + [b[0]], b[1..]);
      var a': PArray<V> := a + [b[0]];
      MergeFresh(a', b[1..]);
    }
  }

  lemma KeysMerge<V>(a: PArray<V>, b: seq<(string, V)>)
    ensures forall x :: x in Keys(Merge(a, b)) <==> x in Keys(a) || x in Keys(b)
    decreases |b|
  {
    if b != [] {
      KeysPut(a, b[0].0, b[0].1);
      KeysMerge(Put(a, b[0].0, b[0].1), b[1..]);
      assert b == [b[0]] + b[1..];
      KeysAppend([b[0]], b[1..]);
      assert Keys([b[0]]) == [b[0].0];
    }
  }

  lemma DistinctConcat<T>(a: seq<T>, b: seq<T>)
    requires Distinct(a) && Distinct(b)
    requires forall i, j :: 0 <= i < |a| && 0 <= j < |b| ==> a[i] != b[j]
    ensures Distinct(a + b)
  {
    forall i, j | 0 <= i < j < |a + b| ensures (a + b)[i] != (a + b)[j] {
      if j < |a| {
      } else if i < |a| {
        assert (a + b)[j] == b[j - |a|];
      } else {
        assert (a + b)[i] == b[i - |a|] && (a + b)[j] == b[j - |a|];
      }
    }
  }

  /** Assigning to the key at position `i` overwrites that position. */
  lemma PutAt<V>(m: PArray<V>, i: nat, v: V)
    requires i < |m|
    ensures Put(m, m[i].0, v) == m[i := (m[i].0, v)]
  {
    var ks := Keys(m);
    assert ks[i] == m[i].0;
    var j := IndexOf(ks, m[i].0);
    assert j == i by {
      assert ks[j] == ks[i];
      assert !(j < i) && !(i < j);
    }
  }

  /** A key that `Get` finds is present with that value. */
  lemma GetIn<V>(m: PArray<V>, k: string, v: V)
    requires Get(m, k) == Some(v)
    ensures (k, v) in m
  {
    var i := IndexOf(Keys(m), k);
    assert m[i] == (k, v);
  }

  /** `Arr::only` with every key of the array keeps the array. */
  lemma {:induction false} OnlyAll<V(!new)>(m: PArray<V>, keys: seq<string>)
    requires forall k :: k in Keys(m) ==> k in keys
    ensures Only(m, keys) == m
  {
    if m != [] {
      var rest: PArray<V> := (assert Keys(m[1..]) == Keys(m)[1..]; m[1..]);
      assert Keys(m) == [m[0].0] + Keys(rest);
      OnlyAll(rest, keys);
      assert m == [m[0]] + rest;
    }
  }

  lemma {:induction false} ArrayDiffNone(xs: seq<string>)
    ensures ArrayDiff(xs, []) == xs
  {
    if xs != [] {
      ArrayDiffNone(xs[1..]);
      assert xs == [xs[0]] + xs[1..];
    }
  }

  lemma EntryKeys<V>(m: seq<(string, V)>)
    ensures forall e :: e in m ==> e.0 in Keys(m)
  {
    forall e | e in m ensures e.0 in Keys(m) {
      var i :| 0 <= i < |m| && m[i] == e;
      assert Keys(m)[i] == e.0;
    }
  }

  /** A non-empty list holds its first element. */
  lemma HeadIn<T>(r: seq<T>)
    ensures r != [] ==> r[0] in r
  {
  }

  /** Moving the first element of `b` to the end of `a`. */
  lemma ShiftFirst<T>(a: seq<T>, b: seq<T>)
    requires b != []
    ensures (a + [b[0]]) + b[1..] == a + b
  {
    assert b == [b[0]] + b[1..];
  }

  /** The keys of a non-empty list: its first key, then the keys of the rest. */
  lemma KeysCons<V>(m: seq<(string, V)>)
    requires m != []
    ensures Keys(m) == [m[0].0] + Keys(m[1..])
  {
    assert m == [m[0]] + m[1..];
    KeysAppend([m[0]], m[1..]);
    assert Keys([m[0]]) == [m[0].0];
  }

  /** Every entry after `$m[$k] = $v` is the assigned one or was already there. */
  lemma PutEntries<V>(m: PArray<V>, k: string, v: V)
    ensures forall e :: e in Put(m, k, v) ==> e == (k, v) || e in m
  {
    if k in Keys(m) {
      var i := IndexOf(Keys(m), k);
      forall e | e in m[i := (k, v)] ensures e == (k, v) || e in m {
        var j :| 0 <= j < |m| && m[i := (k, v)][j] == e;
        if j != i {
          assert e == m[j];
        }
      }
    }
  }

  /** Every entry after `array_merge($a, $b)` comes from `a` or from `b`. */
  lemma {:induction false} MergeEntries<V>(a: PArray<V>, b: seq<(string, V)>)
    ensures forall e :: e in Merge(a, b) ==> e in a || e in b
    decreases |b|
  {
    if b != [] {
      PutEntries(a, b[0].0, b[0].1);
      MergeEntries(Put(a, b[0].0, b[0].1), b[1..]);
      assert b == [b[0]] + b[1..];
    }
  }
}
