/** Generic sequence helpers shared by the Kotlin, C and Rust models. */
module Sequences {
  import opened Wrappers

  /** Drops the longest prefix whose elements satisfy `drop`. */
  function TrimStart<T>(s: seq<T>, drop: T -> bool): (r: seq<T>)
    ensures |r| <= |s| && r == s[|s| - |r|..]
    ensures forall i :: 0 <= i < |s| - |r| ==> drop(s[i])
    ensures r != [] ==> !drop(r[0])
    decreases |s|
  {
    if s != [] && drop(s[0]) then TrimStart(s[1..], drop) else s
  }

  /** Drops the longest suffix whose elements satisfy `drop`. */
  function TrimEnd<T>(s: seq<T>, drop: T -> bool): (r: seq<T>)
    ensures |r| <= |s| && r == s[..|r|]
    ensures forall i :: |r| <= i < |s| ==> drop(s[i])
    ensures r != [] ==> !drop(r[|r| - 1])
    decreases |s|
  {
    if s != [] && drop(s[|s| - 1]) then TrimEnd(s[..|s| - 1], drop) else s
  }

  /** `r` is the slice of `s` at `start` and everything of `s` before and after that slice satisfies `drop`. */
  ghost predicate InfixAmidDropped<T>(s: seq<T>, r: seq<T>, start: nat, drop: T -> bool) {
    && start + |r| <= |s| && r == s[start..start + |r|]
    && (forall i :: 0 <= i < start ==> drop(s[i]))
    && (forall i :: start + |r| <= i < |s| ==> drop(s[i]))
  }

  /** The number of leading elements that satisfy `drop`. */
  function LeadingRun<T>(s: seq<T>, drop: T -> bool): (n: nat)
    ensures n <= |s| && (n < |s| ==> !drop(s[n]))
    ensures forall i :: 0 <= i < n ==> drop(s[i])
  {
    |s| - |TrimStart(s, drop)|
  }

  /** Drops both the leading and the trailing run of elements that satisfy `drop`. */
  function Trim<T>(s: seq<T>, drop: T -> bool): (r: seq<T>)
    ensures r == [] <==> forall i :: 0 <= i < |s| ==> drop(s[i])
    ensures r != [] ==> !drop(r[0]) && !drop(r[|r| - 1])
  {
    var front := TrimStart(s, drop);
    var r := TrimEnd(front, drop);
    assert front != [] ==> r != [] && r[0] == front[0];
    assert (forall i :: 0 <= i < |s| ==> drop(s[i])) ==> front == [];
    r
  }

  /**
   * A prefix `r` of a suffix `front` of `s`, where everything before `front` and everything of `front` after
   * `r` satisfies `drop`, is the slice of `s` right after the dropped prefix.
   */
  lemma InfixOfTrimParts<T>(s: seq<T>, front: seq<T>, r: seq<T>, drop: T -> bool)
    requires |front| <= |s| && front == s[|s| - |front|..]
    requires |r| <= |front| && r == front[..|r|]
    requires forall i :: 0 <= i < |s| - |front| ==> drop(s[i])
    requires forall i :: |r| <= i < |front| ==> drop(front[i])
    ensures InfixAmidDropped(s, r, |s| - |front|, drop)
  {
    var start := |s| - |front|;
    forall j | start + |r| <= j < |s|
      ensures drop(s[j])
    {
      assert s[j] == front[j - start];
    }
  }

  /** Trimming removes only the two runs: the result is the slice of `s` right after the leading run. */
  lemma TrimKeepsMiddle<T>(s: seq<T>, drop: T -> bool)
    ensures InfixAmidDropped(s, Trim(s, drop), LeadingRun(s, drop), drop)
  {
    var front := TrimStart(s, drop);
    var r := TrimEnd(front, drop);
    assert Trim(s, drop) == r && LeadingRun(s, drop) == |s| - |front|;
    InfixOfTrimParts(s, front, r, drop);
  }

  /** A sequence that neither starts nor ends with a dropped element is its own trim. */
  lemma TrimOfTrimmed<T>(s: seq<T>, drop: T -> bool)
    requires s != [] ==> !drop(s[0]) && !drop(s[|s| - 1])
    ensures Trim(s, drop) == s
  {
  }

  /** Trimming twice is trimming once. */
  lemma TrimIdempotent<T>(s: seq<T>, drop: T -> bool)
    ensures Trim(Trim(s, drop), drop) == Trim(s, drop)
  {
    TrimOfTrimmed(Trim(s, drop), drop);
  }

  /** Trimming only removes elements: whatever is left was in the input. */
  lemma TrimKeepsElements<T>(s: seq<T>, drop: T -> bool)
    ensures forall x :: x in Trim(s, drop) ==> x in s
  {
    var front := TrimStart(s, drop);
    var r := TrimEnd(front, drop);
    forall x | x in r
      ensures x in s
    {
      var i :| 0 <= i < |r| && r[i] == x;
      assert front[i] == x;
      assert s[|s| - |front| + i] == x;
    }
  }

  /** The index of the last occurrence of `x` in `s`. */
  function LastIndexOf<T(==)>(s: seq<T>, x: T): (r: Option<nat>)
    ensures r.None? <==> x !in s
    ensures r.Some? ==> r.value < |s| && s[r.value] == x && x !in s[r.value + 1..]
  {
    if s == [] then None
    else if s[|s| - 1] == x then Some(|s| - 1)
    else
      var r := LastIndexOf(s[..|s| - 1], x);
      assert r.Some? ==> s[r.value + 1..] == s[..|s| - 1][r.value + 1..] + [s[|s| - 1]];
      assert s == s[..|s| - 1] + [s[|s| - 1]];
      r
  }

  /** `f(1)`, ..., `f(n)`, in order. */
  function Tabulate<T>(f: int -> T, n: nat): (r: seq<T>)
    ensures |r| == n
  {
    if n == 0 then [] else Tabulate(f, n - 1) + [f(n)]
  }

  /** Index `i` of `Tabulate(f, n)` holds `f(i + 1)`. */
  lemma {:induction false} TabulateAt<T>(f: int -> T, n: nat, i: nat)
    requires i < n
    ensures Tabulate(f, n)[i] == f(i + 1)
  {
    if i < n - 1 {
      TabulateAt(f, n - 1, i);
    }
  }

  /** Tabulating one more index appends `f(n + 1)`. */
  lemma TabulateSnoc<T>(f: int -> T, n: nat)
    ensures Tabulate(f, n + 1) == Tabulate(f, n) + [f(n + 1)]
  {
  }

  /** `n` copies of `x`. */
  function Repeat<T>(x: T, n: nat): (r: seq<T>)
    ensures |r| == n && forall i :: 0 <= i < n ==> r[i] == x
  {
    if n == 0 then [] else Repeat(x, n - 1) + [x]
  }

  function Min(a: int, b: int): int { if a <= b then a else b }
}
