/**
 * The Python list operations main.py applies to its path lists:
 * `list.index`, slot assignment at that index, `list.pop(i)`,
 * `list.remove(x)` and the filtering list comprehension.
 */
module Lists {
  import opened Wrappers

  /** `s.index(x)`, with `None` where Python raises ValueError: the position
      of the first occurrence. */
  function IndexOf<T(==)>(s: seq<T>, x: T): (r: Option<nat>)
    ensures r.Some? <==> x in s
    ensures r.Some? ==> r.value < |s| && s[r.value] == x && x !in s[..r.value]
  {
    if s == [] then None
    else if s[0] == x then Some(0)
    else match IndexOf(s[1..], x)
      case None => None
      case Some(i) =>
        assert s[..i + 1] == [s[0]] + s[1..][..i];
        Some(i + 1)
  }

  /** The first occurrence of `x` replaced by `y`; every other slot and the
      length unchanged. */
  function ReplaceFirst<T(==)>(s: seq<T>, x: T, y: T): (r: seq<T>)
    ensures |r| == |s|
    ensures forall k :: 0 <= k < |s| ==> r[k] == (if s[k] == x && x !in s[..k] then y else s[k])
  {
    match IndexOf(s, x)
    case None => s
    case Some(i) =>
      assert forall k :: i < k < |s| ==> x in s[..k] by {
        forall k | i < k < |s| ensures x in s[..k] { assert s[..k][i] == x; }
      }
      s[i := y]
  }

  /** `s.pop(i)` for a valid index: element `i` removed, the others kept in order. */
  function RemoveAt<T>(s: seq<T>, i: nat): (r: seq<T>)
    requires i < |s|
    ensures |r| == |s| - 1
    ensures forall k :: 0 <= k < |r| ==> r[k] == (if k < i then s[k] else s[k + 1])
    ensures multiset(r) + multiset{s[i]} == multiset(s)
  {
    assert s == s[..i] + [s[i]] + s[i + 1..];
    s[..i] + s[i + 1..]
  }

  /** `s.remove(x)` when `x` is present: its first occurrence is removed,
      the other elements keep their order. */
  function RemoveFirst<T(==)>(s: seq<T>, x: T): (r: seq<T>)
    requires x in s
    ensures |r| == |s| - 1
    ensures multiset(r) + multiset{x} == multiset(s)
    ensures exists i :: 0 <= i < |s| && s[i] == x && x !in s[..i] && r == s[..i] + s[i + 1..]
  {
    var i := IndexOf(s, x).value;
    assert RemoveAt(s, i) == s[..i] + s[i + 1..];
    RemoveAt(s, i)
  }

  /** `a` can be obtained from `b` by deleting elements, keeping the order. */
  predicate IsSubsequence<T(==)>(a: seq<T>, b: seq<T>)
    decreases |b|
  {
    if a == [] then true
    else if b == [] then false
    else if a[0] == b[0] then IsSubsequence(a[1..], b[1..])
    else IsSubsequence(a, b[1..])
  }

  /** `[x for x in s if keep(x)]`. */
  function Filter<T(==,!new)>(s: seq<T>, keep: T -> bool): (r: seq<T>)
    ensures |r| <= |s|
    ensures forall x :: x in r <==> x in s && keep(x)
    ensures IsSubsequence(r, s)
    ensures forall x :: multiset(r)[x] == if keep(x) then multiset(s)[x] else 0
  {
    if s == [] then []
    else
      var rest := Filter(s[1..], keep);
      assert s == [s[0]] + s[1..];
      assert forall x :: x in s <==> x == s[0] || x in s[1..];
      if keep(s[0]) then
        assert ([s[0]] + rest)[1..] == rest;
        [s[0]] + rest
      else
        assert rest != [] ==> rest[0] != s[0] by {
          if rest != [] { assert rest[0] in rest; }
        }
        rest
  }

  lemma ConcatAssoc<T>(a: seq<T>, b: seq<T>, c: seq<T>)
    ensures a + (b + c) == (a + b) + c
  {
  }

  /** Filtering a non-empty list: its head, if kept, then the filtered tail. */
  lemma FilterCons<T(!new)>(s: seq<T>, keep: T -> bool)
    requires s != []
    ensures Filter(s, keep) == (if keep(s[0]) then [s[0]] else []) + Filter(s[1..], keep)
  {
    if !keep(s[0]) {
      assert [] + Filter(s[1..], keep) == Filter(s[1..], keep);
    }
  }

  /** Filtering a list grown by one element grows the result by that
      element exactly when it is kept. */
  lemma {:induction false} FilterStep<T(!new)>(s: seq<T>, x: T, keep: T -> bool)
    ensures Filter(s + [x], keep) == Filter(s, keep) + (if keep(x) then [x] else [])
    decreases |s|
  {
    var tx := if keep(x) then [x] else [];
    if s == [] {
      assert [x][1..] == [];
      FilterCons([x], keep);
      assert s + [x] == [x] && Filter(s, keep) == [];
    } else {
      var sx := s + [x];
      var h := if keep(s[0]) then [s[0]] else [];
      assert sx[0] == s[0] && sx[1..] == s[1..] + [x];
      FilterStep(s[1..], x, keep);
      FilterCons(sx, keep);
      FilterCons(s, keep);
      assert Filter(sx, keep) == h + (Filter(s[1..], keep) + tx);
      ConcatAssoc(h, Filter(s[1..], keep), tx);
    }
  }

  /** Every list is a subsequence of itself. */
  lemma {:induction false} SubsequenceRefl<T>(s: seq<T>)
    ensures IsSubsequence(s, s)
    decreases |s|
  {
    if s != [] {
      SubsequenceRefl(s[1..]);
    }
  }

  /** Replacing `x` by a fresh `y` and then `y` by `x` restores the list. */
  lemma ReplaceFirstRoundTrip<T>(s: seq<T>, x: T, y: T)
    requires y !in s
    ensures ReplaceFirst(ReplaceFirst(s, x, y), y, x) == s
  {
    var r := ReplaceFirst(s, x, y);
    var back := ReplaceFirst(r, y, x);
    forall k | 0 <= k < |s|
      ensures back[k] == s[k]
    {
      if r[k] == y && y !in r[..k] {
        assert s[k] == x;
      }
    }
  }
}
