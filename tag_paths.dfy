/** Splitting series paths into segments, and collecting the distinct
    segment values seen at each path index, in first-seen order. */
module TagPaths {

  // ---------------------------------------------------------------------
  // Splitting on '.'
  // ---------------------------------------------------------------------

  /** The pieces between the dots of `s`, empty pieces included. */
  function SplitAll(s: string): (r: seq<string>)
    ensures |r| >= 1
    ensures forall i :: 0 <= i < |r| ==> '.' !in r[i]
  {
    if s == [] then [""]
    else
      var rest := SplitAll(s[1..]);
      if s[0] == '.' then [""] + rest else [[s[0]] + rest[0]] + rest[1..]
  }

  /** Joins pieces with a '.' between neighbours. */
  function Join(ps: seq<string>): string
    requires |ps| >= 1
  {
    if |ps| == 1 then ps[0] else ps[0] + "." + Join(ps[1..])
  }

  /** Joining the pieces gives back the string. */
  lemma {:induction false} JoinSplitAll(s: string)
    ensures Join(SplitAll(s)) == s
  {
    if s != [] {
      var rest := SplitAll(s[1..]);
      JoinSplitAll(s[1..]);
      if s[0] == '.' {
        assert ([""] + rest)[1..] == rest;
      } else if |rest| > 1 {
        var r := [[s[0]] + rest[0]] + rest[1..];
        assert r[1..] == rest[1..];
        assert Join(rest) == rest[0] + "." + Join(rest[1..]);
      }
    }
  }

  lemma {:induction false} SplitAllNoDot(a: string)
    requires '.' !in a
    ensures SplitAll(a) == [a]
  {
    if a != [] {
      assert '.' !in a[1..] by {
        forall i | 0 <= i < |a[1..]| ensures a[1..][i] != '.' { assert a[1..][i] == a[i + 1]; }
      }
      SplitAllNoDot(a[1..]);
      assert [a[0]] + a[1..] == a;
    }
  }

  lemma {:induction false} SplitAllDot(a: string, b: string)
    requires '.' !in a
    ensures SplitAll(a + "." + b) == [a] + SplitAll(b)
  {
    if a == [] {
      assert a + "." + b == "." + b;
      assert ("." + b)[1..] == b;
    } else {
      assert '.' !in a[1..] by {
        forall i | 0 <= i < |a[1..]| ensures a[1..][i] != '.' { assert a[1..][i] == a[i + 1]; }
      }
      SplitAllDot(a[1..], b);
      assert (a + "." + b)[1..] == a[1..] + "." + b;
      assert [a[0]] + a[1..] == a;
    }
  }

  /** Splitting pieces that hold no '.' after joining them gives the pieces back. */
  lemma {:induction false} SplitAllJoin(ps: seq<string>)
    requires |ps| >= 1
    requires forall i :: 0 <= i < |ps| ==> '.' !in ps[i]
    ensures SplitAll(Join(ps)) == ps
  {
    if |ps| == 1 {
      SplitAllNoDot(ps[0]);
    } else {
      SplitAllJoin(ps[1..]);
      SplitAllDot(ps[0], Join(ps[1..]));
    }
  }

  /** Drops the empty pieces at the end. */
  function DropTrailingEmpty(ps: seq<string>): (r: seq<string>)
    ensures |r| <= |ps| && r == ps[..|r|]
    ensures forall i :: |r| <= i < |ps| ==> ps[i] == ""
    ensures r == [] || r[|r| - 1] != ""
  {
    if ps != [] && ps[|ps| - 1] == "" then DropTrailingEmpty(ps[..|ps| - 1]) else ps
  }

  /** Java's `s.split("\\.")`: with no '.' in `s` the whole string, otherwise
      the pieces between the dots with the trailing empty ones removed. */
  function JavaSplit(s: string): (r: seq<string>)
    ensures forall i :: 0 <= i < |r| ==> '.' !in r[i]
    ensures '.' !in s ==> r == [s]
    ensures '.' in s ==>
      && |r| <= |SplitAll(s)| && r == SplitAll(s)[..|r|]
      && (forall i :: |r| <= i < |SplitAll(s)| ==> SplitAll(s)[i] == "")
      && (r == [] || r[|r| - 1] != "")
  {
    if '.' !in s then [s] else DropTrailingEmpty(SplitAll(s))
  }

  // ---------------------------------------------------------------------
  // Keeping the first occurrence of each value
  // ---------------------------------------------------------------------

  predicate NoDup<T(==)>(s: seq<T>) {
    forall i, j :: 0 <= i < j < |s| ==> s[i] != s[j]
  }

  /** Adds `v` at the end unless it is already present. */
  function Step<T(==)>(l: seq<T>, v: T): seq<T> {
    if v in l then l else l + [v]
  }

  /** The values of `s`, each once, in the order they are first seen. */
  function Dedup<T(==)>(s: seq<T>): seq<T> {
    if s == [] then [] else Step(Dedup(s[..|s| - 1]), s[|s| - 1])
  }

  lemma DedupSnoc<T>(s: seq<T>, x: T)
    ensures Dedup(s + [x]) == Step(Dedup(s), x)
  {
    assert (s + [x])[..|s|] == s;
  }

  lemma {:induction false} DedupNoDup<T>(s: seq<T>)
    ensures NoDup(Dedup(s))
  {
    if s != [] {
      DedupNoDup(s[..|s| - 1]);
    }
  }

  lemma {:induction false} DedupElements<T>(s: seq<T>)
    ensures forall x :: x in Dedup(s) <==> x in s
  {
    if s != [] {
      var init := s[..|s| - 1];
      DedupElements(init);
      assert s == init + [s[|s| - 1]];
    }
  }

  /** Where `x` first occurs in `s`. */
  function FirstIndex<T(==)>(s: seq<T>, x: T): (i: nat)
    requires x in s
    ensures i < |s| && s[i] == x && x !in s[..i]
  {
    if s[0] == x then 0
    else
      var k := FirstIndex(s[1..], x);
      assert s[..k + 1] == [s[0]] + s[1..][..k];
      k + 1
  }

  lemma FirstIndexIs<T>(s: seq<T>, x: T, i: nat)
    requires i < |s| && s[i] == x && x !in s[..i]
    ensures FirstIndex(s, x) == i
  {
  }

  lemma FirstIndexPrefix<T>(a: seq<T>, b: seq<T>, x: T)
    requires x in a
    ensures FirstIndex(a + b, x) == FirstIndex(a, x)
  {
    var k := FirstIndex(a, x);
    assert (a + b)[..k] == a[..k];
    FirstIndexIs(a + b, x, k);
  }

  /** Dedup keeps values in the order of their first occurrence in `s`. */
  lemma {:induction false} DedupFirstSeenOrder<T>(s: seq<T>)
    ensures forall x :: x in Dedup(s) ==> x in s
    ensures forall i, j :: 0 <= i < j < |Dedup(s)| ==>
      FirstIndex(s, Dedup(s)[i]) < FirstIndex(s, Dedup(s)[j])
  {
    DedupElements(s);
    if s != [] {
      var init, v := s[..|s| - 1], s[|s| - 1];
      var d := Dedup(init);
      assert s == init + [v];
      assert Dedup(s) == Step(d, v);
      DedupFirstSeenOrder(init);
      DedupElements(init);
      forall i, j | 0 <= i < j < |Dedup(s)|
        ensures FirstIndex(s, Dedup(s)[i]) < FirstIndex(s, Dedup(s)[j])
      {
        assert Dedup(s)[i] == d[i];
        FirstIndexPrefix(init, [v], d[i]);
        if j < |d| {
          assert Dedup(s)[j] == d[j];
          FirstIndexPrefix(init, [v], d[j]);
        } else {
          assert Dedup(s)[j] == v && v !in init;
          assert s[..|init|] == init;
          FirstIndexIs(s, v, |init|);
        }
      }
    }
  }

  // ---------------------------------------------------------------------
  // Collecting the values per path index
  // ---------------------------------------------------------------------

  /** The list held for index `j`, empty when there is none. */
  function Get<T(==)>(m: map<nat, seq<T>>, j: int): seq<T> {
    if j in m then m[j] else []
  }

  /** One step of the collection: the list for `j` is created when missing,
      and `v` is added to it unless already present. */
  function AddSlot<T(==)>(m: map<nat, seq<T>>, j: nat, v: T): map<nat, seq<T>> {
    if j in m then (if v in m[j] then m else m[j := m[j] + [v]]) else m[j := [v]]
  }

  /** The collection of the segments of `p` at indices 2 .. n - 1. */
  function AddUpTo<T(==)>(m: map<nat, seq<T>>, p: seq<T>, n: int): map<nat, seq<T>>
    requires n <= 2 || n <= |p|
    decreases n
  {
    if n <= 2 then m else AddSlot(AddUpTo(m, p, n - 1), n - 1, p[n - 1])
  }

  /** Collecting one more index sets its list to one Step of the list
      collected so far. */
  lemma AddUpToNext<T>(m: map<nat, seq<T>>, p: seq<T>, j: nat)
    requires 2 <= j < |p|
    ensures AddUpTo(m, p, j + 1) == AddUpTo(m, p, j)[j := Step(Get(AddUpTo(m, p, j), j), p[j])]
  {
    var prev := AddUpTo(m, p, j);
    assert AddUpTo(m, p, j + 1) == AddSlot(prev, j, p[j]);
    if j !in prev {
      assert Step(Get(prev, j), p[j]) == [p[j]];
    } else if p[j] in prev[j] {
      assert prev[j := prev[j]] == prev;
    }
  }

  /** Collecting indices 2 .. n - 1 of `p` touches exactly the lists of those
      indices, each by one Step with the segment found there. */
  lemma {:induction false} AddUpToGet<T>(m: map<nat, seq<T>>, p: seq<T>, n: int, i: int)
    requires n <= 2 || n <= |p|
    ensures i in AddUpTo(m, p, n) <==> i in m || 2 <= i < n
    ensures Get(AddUpTo(m, p, n), i) == if 2 <= i < n then Step(Get(m, i), p[i]) else Get(m, i)
    decreases n
  {
    if n > 2 {
      AddUpToGet(m, p, n - 1, i);
    }
  }

  /** The collection of one path: its segments at indices 2 .. |p| - 2,
      the first two (root and metric) and the last (the sensor) left out. */
  function AddPath<T(==)>(m: map<nat, seq<T>>, p: seq<T>): map<nat, seq<T>> {
    AddUpTo(m, p, |p| - 1)
  }

  /** The segments seen at index `j`, path by path. */
  function ValuesAt<T(==)>(ps: seq<seq<T>>, j: int): seq<T> {
    if ps == [] then []
    else
      var p := ps[|ps| - 1];
      ValuesAt(ps[..|ps| - 1], j) + (if 2 <= j < |p| - 1 then [p[j]] else [])
  }

  /** A value is seen at index `j` exactly when some path has it there. */
  lemma {:induction false} ValuesAtMembers<T>(ps: seq<seq<T>>, j: int, v: T)
    ensures v in ValuesAt(ps, j) <==>
      exists k :: 0 <= k < |ps| && 2 <= j < |ps[k]| - 1 && ps[k][j] == v
  {
    if ps != [] {
      var init := ps[..|ps| - 1];
      ValuesAtMembers(init, j, v);
      if v in ValuesAt(init, j) {
        var k :| 0 <= k < |init| && 2 <= j < |init[k]| - 1 && init[k][j] == v;
        assert ps[k] == init[k];
      }
      if exists k :: 0 <= k < |ps| && 2 <= j < |ps[k]| - 1 && ps[k][j] == v {
        var k :| 0 <= k < |ps| && 2 <= j < |ps[k]| - 1 && ps[k][j] == v;
        if k < |init| {
          assert init[k] == ps[k];
        }
      }
    }
  }

  /** The map the executor builds from the split paths, in path order. */
  function Collect<T(==)>(ps: seq<seq<T>>): map<nat, seq<T>> {
    if ps == [] then map[] else AddPath(Collect(ps[..|ps| - 1]), ps[|ps| - 1])
  }

  /** The list for every index is the first-seen deduplication of what the
      paths hold there, and an index has a list exactly when some path
      reaches it. */
  lemma {:induction false} CollectGet<T>(ps: seq<seq<T>>, j: int)
    ensures Get(Collect(ps), j) == Dedup(ValuesAt(ps, j))
    ensures j in Collect(ps) <==> ValuesAt(ps, j) != []
  {
    if ps != [] {
      var init, p := ps[..|ps| - 1], ps[|ps| - 1];
      CollectGet(init, j);
      AddUpToGet(Collect(init), p, |p| - 1, j);
      if 2 <= j < |p| - 1 {
        assert ValuesAt(ps, j) == ValuesAt(init, j) + [p[j]];
        DedupSnoc(ValuesAt(init, j), p[j]);
      } else {
        assert ValuesAt(ps, j) == ValuesAt(init, j);
      }
    }
  }

  /** What the executor reports for index `j`: no value twice, exactly the
      values seen there, and in the order they were first seen. */
  lemma CollectedSlot<T>(ps: seq<seq<T>>, j: int)
    requires j in Collect(ps)
    ensures NoDup(Collect(ps)[j])
    ensures forall v :: v in Collect(ps)[j] ==> v in ValuesAt(ps, j)
    ensures forall v :: v in Collect(ps)[j] <==>
      exists k :: 0 <= k < |ps| && 2 <= j < |ps[k]| - 1 && ps[k][j] == v
    ensures forall a, b :: 0 <= a < b < |Collect(ps)[j]| ==>
      FirstIndex(ValuesAt(ps, j), Collect(ps)[j][a]) < FirstIndex(ValuesAt(ps, j), Collect(ps)[j][b])
  {
    var vs := ValuesAt(ps, j);
    CollectGet(ps, j);
    assert Collect(ps)[j] == Dedup(vs);
    DedupNoDup(vs);
    DedupElements(vs);
    DedupFirstSeenOrder(vs);
    forall v ensures v in Collect(ps)[j] <==>
      exists k :: 0 <= k < |ps| && 2 <= j < |ps[k]| - 1 && ps[k][j] == v
    {
      ValuesAtMembers(ps, j, v);
    }
  }
}
