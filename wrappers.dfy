/** Option and Result, the two failure-carrying types the relay's stages return. */
module Wrappers {

  datatype Option<+T> = None | Some(value: T) {
    /** The wrapped value, or `default` when there is none (Rust's `unwrap_or`). */
    function GetOr(default: T): T {
      match this
      case Some(v) => v
      case None => default
    }
  }

  datatype Result<+R, +E> = Success(value: R) | Failure(error: E)
}

/** Searching a sequence for the first occurrence of an element. */
module Seqs {

  /** Index of the first `x` in `s`, or `|s|` when `x` does not occur. */
  function IndexOf<T(==)>(s: seq<T>, x: T): (i: nat)
    ensures i <= |s|
    ensures i < |s| ==> s[i] == x
    ensures forall j :: 0 <= j < i ==> s[j] != x
  {
    if s == [] || s[0] == x then 0 else 1 + IndexOf(s[1..], x)
  }

  /** The three properties of `IndexOf` determine it. */
  lemma {:induction false} IndexOfUnique<T>(s: seq<T>, x: T, i: nat)
    requires i <= |s|
    requires i < |s| ==> s[i] == x
    requires forall j :: 0 <= j < i ==> s[j] != x
    ensures IndexOf(s, x) == i
  {
    if s != [] && s[0] != x {
      IndexOfUnique(s[1..], x, i - 1);
    }
  }

  /** In `a + [x] + b` with no `x` inside `a`, the first `x` is the one after `a`. */
  lemma IndexOfJoin<T>(a: seq<T>, x: T, b: seq<T>)
    requires x !in a
    ensures IndexOf(a + [x] + b, x) == |a|
    ensures (a + [x] + b)[..|a|] == a && (a + [x] + b)[|a| + 1..] == b
  {
    var s := a + [x] + b;
    assert s[|a|] == x;
    forall j | 0 <= j < |a| ensures s[j] != x {
      assert s[j] == a[j];
    }
    IndexOfUnique(s, x, |a|);
    assert s[..|a|] == a;
    assert s[|a| + 1..] == b;
  }
}
