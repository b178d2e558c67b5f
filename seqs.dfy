/** The array methods the pages build their state from: `filter`,
    `findIndex`, `splice`, flattening a list of rows, and the guarded
    percentage `total > 0 ? part / total * 100 : 0`. */
module Seqs {

  /** `r` keeps some of the elements of `s`, in their original order. */
  predicate IsSubsequence<T(==)>(r: seq<T>, s: seq<T>)
    decreases |s|
  {
    r == [] || (s != [] && ((r[0] == s[0] && IsSubsequence(r[1..], s[1..])) || IsSubsequence(r, s[1..])))
  }

  /** `s.filter(p)`: the elements that satisfy `p`, in their original order. */
  function Filter<T(==,!new)>(s: seq<T>, p: T -> bool): (r: seq<T>)
    ensures |r| <= |s|
  {
    if s == [] then []
    else
      var rest := Filter(s[1..], p);
      if p(s[0]) then [s[0]] + rest else rest
  }

  /** A filter keeps exactly the elements that satisfy `p`, each as often
      as in `s`, in their original order. */
  lemma {:induction false} FilterSpec<T(!new)>(s: seq<T>, p: T -> bool)
    ensures forall x :: x in Filter(s, p) <==> x in s && p(x)
    ensures forall x :: multiset(Filter(s, p))[x] == if p(x) then multiset(s)[x] else 0
    ensures IsSubsequence(Filter(s, p), s)
    decreases |s|
  {
    if s != [] {
      FilterSpec(s[1..], p);
      assert s == [s[0]] + s[1..];
      var rest := Filter(s[1..], p);
      if p(s[0]) {
        assert ([s[0]] + rest)[1..] == rest;
      }
    }
  }

  lemma {:induction false} FilterAppend<T(!new)>(s: seq<T>, t: seq<T>, p: T -> bool)
    ensures Filter(s + t, p) == Filter(s, p) + Filter(t, p)
    decreases |s|
  {
    if s == [] {
      assert s + t == t;
    } else {
      var head := if p(s[0]) then [s[0]] else [];
      var u := s + t;
      assert u[0] == s[0] && u[1..] == s[1..] + t;
      assert u == [u[0]] + u[1..];
      assert s == [s[0]] + s[1..];
      FilterAppend(s[1..], t, p);
      FilterCons(s[0], u[1..], p);
      FilterCons(s[0], s[1..], p);
      assert Filter(u, p) == head + (Filter(s[1..], p) + Filter(t, p));
    }
  }

  lemma FilterCons<T(!new)>(x: T, r: seq<T>, p: T -> bool)
    ensures Filter([x] + r, p) == (if p(x) then [x] else []) + Filter(r, p)
  {
    var u := [x] + r;
    assert u[0] == x && u[1..] == r;
  }

  /** Filtering with a condition that every element meets keeps them all. */
  lemma {:induction false} FilterAll<T(!new)>(s: seq<T>, p: T -> bool)
    requires forall i :: 0 <= i < |s| ==> p(s[i])
    ensures Filter(s, p) == s
    decreases |s|
  {
    if s != [] {
      FilterAll(s[1..], p);
    }
  }

  /** A filter keeps every element exactly when it is as long as its input. */
  lemma {:induction false} FilterLength<T(!new)>(s: seq<T>, p: T -> bool)
    ensures |Filter(s, p)| == |s| <==> forall x :: x in s ==> p(x)
    decreases |s|
  {
    if s != [] {
      FilterLength(s[1..], p);
      var rest := Filter(s[1..], p);
      assert Filter(s, p) == if p(s[0]) then [s[0]] + rest else rest;
      assert forall x :: x in s <==> x == s[0] || x in s[1..];
    }
  }

  /** Filtering with a condition that no element meets keeps none. */
  lemma {:induction false} FilterNone<T(!new)>(s: seq<T>, p: T -> bool)
    requires forall i :: 0 <= i < |s| ==> !p(s[i])
    ensures Filter(s, p) == []
    decreases |s|
  {
    if s != [] {
      FilterNone(s[1..], p);
    }
  }

  /** `s.findIndex(p)`: the first index whose element satisfies `p`, or -1. */
  function FindIndex<T>(s: seq<T>, p: T -> bool): (i: int)
    ensures -1 <= i < |s|
    ensures i >= 0 ==> p(s[i])
    ensures forall j :: 0 <= j < |s| && (i < 0 || j < i) ==> !p(s[j])
  {
    if s == [] then -1
    else if p(s[0]) then 0
    else
      var k := FindIndex(s[1..], p);
      if k < 0 then -1 else k + 1
  }

  /** Where `splice` starts: a negative start counts back from the end,
      and both ends clamp to the array. */
  function SpliceStart(len: nat, start: int): (a: nat)
    ensures a <= len
    ensures 0 <= start <= len ==> a == start
  {
    if start < 0 then (if len + start < 0 then 0 else len + start)
    else if start > len then len
    else start
  }

  /** The array that `s.splice(start, deleteCount, ...items)` leaves behind. */
  function Splice<T>(s: seq<T>, start: int, deleteCount: nat, items: seq<T>): (r: seq<T>)
    ensures |r| == |s| - (if deleteCount <= |s| - SpliceStart(|s|, start) then deleteCount else |s| - SpliceStart(|s|, start)) + |items|
    ensures 0 <= start <= |s| ==> r[..start] == s[..start] && r[start..start + |items|] == items
    ensures 0 <= start && start + deleteCount <= |s| ==> r[start + |items|..] == s[start + deleteCount..]
  {
    var a := SpliceStart(|s|, start);
    var d := if deleteCount <= |s| - a then deleteCount else |s| - a;
    s[..a] + items + s[a + d..]
  }

  /** The rows of a grid laid end to end. */
  function Concat<T>(rows: seq<seq<T>>): seq<T>
  {
    if rows == [] then [] else rows[0] + Concat(rows[1..])
  }

  lemma {:induction false} ConcatSnoc<T>(rows: seq<seq<T>>, row: seq<T>)
    ensures Concat(rows + [row]) == Concat(rows) + row
    decreases |rows|
  {
    if rows == [] {
      assert [row][1..] == [];
    } else {
      assert (rows + [row])[1..] == rows[1..] + [row];
      ConcatSnoc(rows[1..], row);
    }
  }

  /** `total > 0 ? (part / total) * 100 : 0`. */
  function Percent(part: nat, total: nat): (p: real)
    ensures total == 0 ==> p == 0.0
    ensures 0.0 <= p
    ensures part <= total ==> p <= 100.0
    ensures 0 < total == part ==> p == 100.0
    ensures part < total ==> p < 100.0
  {
    if total > 0 then
      var ratio := part as real / total as real;
      assert ratio * total as real == part as real;
      ratio * 100.0
    else 0.0
  }
}
