/**
 * The pandas semantics the pipeline relies on: missing cells, the column
 * aggregates `mean`, `min`, `count`, `unique` and `nunique`, the comma join of
 * a list of names, and `concat` of a list of tables.
 *
 * Cell values are exact: a float column holds reals, a timedelta column holds
 * durations in seconds as reals.  Floating-point rounding is not modelled.
 */
module Frames {

  /** One cell of a column: pandas' missing value (NaN, NaT) or a value. */
  datatype Cell<+T> = Na | Val(value: T)

  /**
   * `Series.dropna()`: the present values, each as often as it occurs
   * (DropNaCopies), in column order (DropNaAppend).
   */
  function DropNa<T(!new)>(xs: seq<Cell<T>>): (r: seq<T>)
    ensures |r| <= |xs|
    ensures forall v :: v in r <==> Val(v) in xs
  {
    if xs == [] then []
    else
      var init := DropNa(xs[..|xs| - 1]);
      assert xs == xs[..|xs| - 1] + [xs[|xs| - 1]];
      match xs[|xs| - 1]
      case Na => init
      case Val(v) => init + [v]
  }

  /** `dropna()` keeps every present value as often as the column holds it. */
  lemma {:induction false} DropNaCopies<T(!new)>(xs: seq<Cell<T>>, v: T)
    ensures multiset(DropNa(xs))[v] == multiset(xs)[Val(v)]
  {
    if xs != [] {
      var init, last := xs[..|xs| - 1], xs[|xs| - 1];
      assert xs == init + [last];
      assert multiset(xs) == multiset(init) + multiset{last};
      DropNaCopies(init, v);
    }
  }

  /** Dropping missing cells keeps column order: it distributes over concatenation. */
  lemma {:induction false} DropNaAppend<T(!new)>(xs: seq<Cell<T>>, ys: seq<Cell<T>>)
    ensures DropNa(xs + ys) == DropNa(xs) + DropNa(ys)
  {
    if ys != [] {
      var init := ys[..|ys| - 1];
      assert (xs + ys)[..|xs + ys| - 1] == xs + init;
      assert (xs + ys)[|xs + ys| - 1] == ys[|ys| - 1];
      DropNaAppend(xs, init);
    } else {
      assert xs + ys == xs;
    }
  }

  /** True when every cell of the column is missing (also for an empty column). */
  predicate AllNa<T>(xs: seq<Cell<T>>) {
    forall i :: 0 <= i < |xs| ==> xs[i].Na?
  }

  lemma DropNaEmpty<T(!new)>(xs: seq<Cell<T>>)
    ensures DropNa(xs) == [] <==> AllNa(xs)
  {
    if DropNa(xs) != [] {
      assert Val(DropNa(xs)[0]) in xs;
    }
    if !AllNa(xs) {
      var i :| 0 <= i < |xs| && xs[i].Val?;
      assert xs[i].value in DropNa(xs);
    }
  }

  function Sum(vs: seq<real>): real {
    if vs == [] then 0.0 else Sum(vs[..|vs| - 1]) + vs[|vs| - 1]
  }

  /** If every value exceeds `c`, the sum exceeds `|vs| * c`. */
  lemma {:induction false} SumAbove(vs: seq<real>, c: real)
    requires vs != []
    requires forall v :: v in vs ==> v > c
    ensures Sum(vs) > |vs| as real * c
  {
    var init := vs[..|vs| - 1];
    assert vs == init + [vs[|vs| - 1]];
    if init != [] {
      forall v | v in init ensures v > c { assert v in vs; }
      SumAbove(init, c);
    }
    assert vs[|vs| - 1] in vs;
    assert |vs| as real * c == |init| as real * c + c;
  }

  /** If every value is below `c`, the sum is below `|vs| * c`. */
  lemma {:induction false} SumBelow(vs: seq<real>, c: real)
    requires vs != []
    requires forall v :: v in vs ==> v < c
    ensures Sum(vs) < |vs| as real * c
  {
    var init := vs[..|vs| - 1];
    assert vs == init + [vs[|vs| - 1]];
    if init != [] {
      forall v | v in init ensures v < c { assert v in vs; }
      SumBelow(init, c);
    }
    assert vs[|vs| - 1] in vs;
    assert |vs| as real * c == |init| as real * c + c;
  }

  /** The arithmetic mean of non-empty values lies between two of the values. */
  lemma MeanWithinValues(vs: seq<real>)
    requires vs != []
    ensures exists v :: v in vs && v <= Sum(vs) / |vs| as real
    ensures exists v :: v in vs && Sum(vs) / |vs| as real <= v
  {
    var n := |vs| as real;
    var m := Sum(vs) / n;
    assert n * m == Sum(vs);
    if forall v :: v in vs ==> v > m {
      SumAbove(vs, m);
      assert false;
    }
    if forall v :: v in vs ==> v < m {
      SumBelow(vs, m);
      assert false;
    }
  }

  /**
   * `Series.mean()`: the mean of the present values, NaN when none is
   * present.  A present mean lies between the smallest and the largest value.
   */
  function Mean(xs: seq<Cell<real>>): (m: Cell<real>)
    ensures m.Na? <==> AllNa(xs)
    ensures m.Val? ==> exists v :: v in DropNa(xs) && v <= m.value
    ensures m.Val? ==> exists v :: v in DropNa(xs) && m.value <= v
  {
    var vs := DropNa(xs);
    DropNaEmpty(xs);
    if vs == [] then Na
    else
      MeanWithinValues(vs);
      Val(Sum(vs) / |vs| as real)
  }

  /** `Series.min()`: the least present value, NaN when none is present. */
  function Minimum(xs: seq<Cell<real>>): (m: Cell<real>)
    ensures m.Na? <==> AllNa(xs)
    ensures m.Val? ==> Val(m.value) in xs
    ensures m.Val? ==> forall i :: 0 <= i < |xs| && xs[i].Val? ==> m.value <= xs[i].value
  {
    if xs == [] then Na
    else
      var init := xs[..|xs| - 1];
      var least := Minimum(init);
      assert xs == init + [xs[|xs| - 1]];
      match xs[|xs| - 1]
      case Na => least
      case Val(v) => if least.Na? || v < least.value then Val(v) else least
  }

  /** Only a column without missing cells keeps its length under `dropna()`. */
  lemma {:induction false} DropNaFull<T(!new)>(xs: seq<Cell<T>>)
    ensures |DropNa(xs)| == |xs| <==> forall i :: 0 <= i < |xs| ==> xs[i].Val?
  {
    if xs != [] {
      var init, last := xs[..|xs| - 1], xs[|xs| - 1];
      assert |DropNa(xs)| == |DropNa(init)| + (if last.Val? then 1 else 0);
      DropNaFull(init);
      if |DropNa(xs)| == |xs| {
        forall i | 0 <= i < |xs| ensures xs[i].Val? {
          if i < |init| {
            assert init[i] == xs[i];
          }
        }
      }
      if forall i :: 0 <= i < |xs| ==> xs[i].Val? {
        assert forall i :: 0 <= i < |init| ==> init[i] == xs[i];
      }
    }
  }

  /** `Series.count()`: the number of present cells, the length of `dropna()`. */
  function Count<T(!new)>(xs: seq<Cell<T>>): (n: nat)
    ensures n <= |xs|
    ensures n == 0 <==> AllNa(xs)
    ensures n == |xs| <==> forall i :: 0 <= i < |xs| ==> xs[i].Val?
  {
    DropNaEmpty(xs);
    DropNaFull(xs);
    |DropNa(xs)|
  }

  predicate NoDuplicates<T(==)>(s: seq<T>) {
    forall i, j :: 0 <= i < j < |s| ==> s[i] != s[j]
  }

  function Elements<T(==)>(s: seq<T>): set<T> {
    set x | x in s
  }

  /** Every occurrence of `b` in `xs` comes after some occurrence of `a`. */
  predicate SeenBefore<T(==)>(xs: seq<T>, a: T, b: T) {
    forall k :: 0 <= k < |xs| && xs[k] == b ==> a in xs[..k]
  }

  /** `Series.unique()`: each value once, in order of first appearance. */
  function Unique<T(==,!new)>(xs: seq<T>): (r: seq<T>)
    ensures forall x :: x in r <==> x in xs
    ensures NoDuplicates(r)
    ensures |r| <= |xs|
    ensures forall i, j :: 0 <= i < j < |r| ==> SeenBefore(xs, r[i], r[j])
  {
    if xs == [] then []
    else
      var init := xs[..|xs| - 1];
      var seen := Unique(init);
      var x := xs[|xs| - 1];
      assert xs == init + [x];
      var r := if x in seen then seen else seen + [x];
      forall i, j | 0 <= i < j < |r| ensures SeenBefore(xs, r[i], r[j]) {
        forall k | 0 <= k < |xs| && xs[k] == r[j] ensures r[i] in xs[..k] {
          assert r[i] in init;
          if k < |init| {
            if j < |seen| {
              assert SeenBefore(init, seen[i], seen[j]);
              assert init[k] == r[j];
              assert init[..k] == xs[..k];
            } else {
              assert false;
            }
          } else {
            assert xs[..k] == init;
          }
        }
      }
      r
  }

  /** A sequence without repetitions has as many elements as distinct values. */
  lemma {:induction false} DistinctCardinality<T>(s: seq<T>)
    requires NoDuplicates(s)
    ensures |Elements(s)| == |s|
  {
    if s != [] {
      var init := s[..|s| - 1];
      var x := s[|s| - 1];
      assert s == init + [x];
      assert NoDuplicates(init);
      DistinctCardinality(init);
      assert x !in init;
      assert Elements(s) == Elements(init) + {x};
    }
  }

  /** A subset is no larger than its superset. */
  lemma {:induction false} SubsetCardinality<T>(a: set<T>, b: set<T>)
    requires a <= b
    ensures |a| <= |b|
  {
    if a != {} {
      var x :| x in a;
      SubsetCardinality(a - {x}, b - {x});
    }
  }

  /**
   * `Series.nunique()`: the number of distinct present values, which is the
   * length of the list `dropna().unique()`.
   */
  function NUnique<T(==,!new)>(xs: seq<Cell<T>>): (n: nat)
    ensures n == |Unique(DropNa(xs))|
    ensures n == 0 <==> AllNa(xs)
  {
    var u := Unique(DropNa(xs));
    DistinctCardinality(u);
    assert Elements(u) == Elements(DropNa(xs));
    DropNaEmpty(xs);
    |Elements(DropNa(xs))|
  }

  /** `','.join(names)`. */
  function JoinComma(names: seq<string>): string {
    if names == [] then ""
    else if |names| == 1 then names[0]
    else names[0] + "," + JoinComma(names[1..])
  }

  /** The position of the first comma of `s`. */
  function FirstComma(s: string): (k: nat)
    requires ',' in s
    ensures k < |s| && s[k] == ','
    ensures ',' !in s[..k]
  {
    if s[0] == ',' then 0
    else
      assert ',' in s[1..];
      var k := 1 + FirstComma(s[1..]);
      assert s[..k] == [s[0]] + s[1..][..k - 1];
      k
  }

  /** `s.split(',')`: the comma-separated entries of `s` (one entry for ""). */
  function Split(s: string): (parts: seq<string>)
    ensures |parts| >= 1
    decreases |s|
  {
    if ',' !in s then [s]
    else
      var k := FirstComma(s);
      [s[..k]] + Split(s[k + 1..])
  }

  /** Joining names that hold no comma and splitting again gives the names back. */
  lemma {:induction false} SplitJoinComma(names: seq<string>)
    requires names != []
    requires forall n :: n in names ==> ',' !in n
    ensures Split(JoinComma(names)) == names
  {
    if |names| > 1 {
      var head, rest := names[0], JoinComma(names[1..]);
      var s := JoinComma(names);
      assert s == head + "," + rest;
      assert ',' !in head;
      assert s[|head|] == ',';
      assert s[..|head|] == head;
      var k := FirstComma(s);
      assert k == |head|;
      assert s[k + 1..] == rest;
      assert Split(s) == [head] + Split(rest);
      SplitJoinComma(names[1..]);
      assert names == [head] + names[1..];
    }
  }

  /** A prefix one element longer. */
  lemma PrefixStep<T>(xs: seq<T>, i: nat)
    requires i < |xs|
    ensures xs[..i + 1] == xs[..i] + [xs[i]]
  {
  }

  lemma PrefixAll<T>(xs: seq<T>)
    ensures xs[..|xs|] == xs
  {
  }

  /** The head and tail of a concatenation whose first part is not empty. */
  lemma TailAppend<T>(a: seq<T>, b: seq<T>)
    requires a != []
    ensures (a + b)[0] == a[0] && (a + b)[1..] == a[1..] + b
  {
  }

  lemma AppendAssociative<T>(a: seq<T>, b: seq<T>, c: seq<T>)
    ensures a + (b + c) == (a + b) + c
  {
  }

  /** A two-element sequence, built by appending one element at a time. */
  lemma PairAppend<T>(a: T, b: T)
    ensures [] + [a] == [a] && [a] + [b] == [a, b]
  {
  }

  /** `pd.concat(tables)`: the rows of every table, table after table. */
  function Flatten<T>(tables: seq<seq<T>>): seq<T> {
    if tables == [] then []
    else Flatten(tables[..|tables| - 1]) + tables[|tables| - 1]
  }

  function TotalLength<T>(tables: seq<seq<T>>): nat {
    if tables == [] then 0
    else TotalLength(tables[..|tables| - 1]) + |tables[|tables| - 1]|
  }

  /** The concatenation is as long as all tables together. */
  lemma {:induction false} FlattenLength<T>(tables: seq<seq<T>>)
    ensures |Flatten(tables)| == TotalLength(tables)
  {
    if tables != [] {
      FlattenLength(tables[..|tables| - 1]);
    }
  }

  /** A row is in the concatenation exactly when it is in one of the tables. */
  lemma {:induction false} FlattenMember<T>(tables: seq<seq<T>>, x: T)
    ensures x in Flatten(tables) <==> exists i :: 0 <= i < |tables| && x in tables[i]
  {
    if tables != [] {
      var n := |tables| - 1;
      var init := tables[..n];
      FlattenMember(init, x);
      if x in Flatten(tables) && x !in tables[n] {
        var i :| 0 <= i < |init| && x in init[i];
        assert tables[i] == init[i];
      }
      if exists i :: 0 <= i < |tables| && x in tables[i] {
        var i :| 0 <= i < |tables| && x in tables[i];
        if i < n {
          assert init[i] == tables[i];
        }
      }
    }
  }

  /** The concatenation of a single table is that table. */
  lemma FlattenSingle<T>(t: seq<T>)
    ensures Flatten([t]) == t
  {
    assert [t][..0] == [];
  }

  /** Concatenation distributes over appending one more table. */
  lemma FlattenAppend<T>(tables: seq<seq<T>>, t: seq<T>)
    ensures Flatten(tables + [t]) == Flatten(tables) + t
  {
    assert (tables + [t])[..|tables|] == tables;
  }
}
