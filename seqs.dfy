/** Python's lenient slicing of `str` and `bytes` values, and concatenation
    of a list of pieces. A Python slice bound past the end is clipped to the
    end instead of failing; these functions make that clipping explicit. */
module Seqs {

  function Min(a: int, b: int): int { if a < b then a else b }

  /** `s[:k]` for a non-negative `k` */
  function Take<T>(s: seq<T>, k: nat): (r: seq<T>)
    ensures |r| == Min(k, |s|)
    ensures r <= s
  {
    s[..Min(k, |s|)]
  }

  /** `s[k:]` for a non-negative `k`: empty when `k` is past the end */
  function Drop<T>(s: seq<T>, k: nat): (r: seq<T>)
    ensures |r| == |s| - Min(k, |s|)
    ensures s == Take(s, k) + r
  {
    s[Min(k, |s|)..]
  }

  /** `s[i:j]` for `0 <= i <= j`: both bounds clipped to the end */
  function Slice<T>(s: seq<T>, i: nat, j: nat): (r: seq<T>)
    requires i <= j
    ensures |r| == Min(j, |s|) - Min(i, |s|)
    ensures forall k | 0 <= k < |r| :: r[k] == s[i + k]
  {
    s[Min(i, |s|)..Min(j, |s|)]
  }

  /** `b"".join(pieces)` / `"".join(pieces)` */
  function Flatten<T>(pieces: seq<seq<T>>): seq<T>
  {
    if pieces == [] then [] else pieces[0] + Flatten(pieces[1..])
  }

  /** Appending a piece at the end appends its elements at the end. */
  lemma {:induction false} FlattenAppend<T>(pieces: seq<seq<T>>, p: seq<T>)
    ensures Flatten(pieces + [p]) == Flatten(pieces) + p
  {
    if pieces == [] {
      assert [] + [p] == [p];
      assert Flatten([p]) == p + Flatten([p][1..]);
    } else {
      assert (pieces + [p])[1..] == pieces[1..] + [p];
      FlattenAppend(pieces[1..], p);
    }
  }

  /** The flattened length is the sum of the piece lengths. */
  function TotalLength<T>(pieces: seq<seq<T>>): nat
  {
    if pieces == [] then 0 else |pieces[0]| + TotalLength(pieces[1..])
  }

  lemma {:induction false} FlattenLength<T>(pieces: seq<seq<T>>)
    ensures |Flatten(pieces)| == TotalLength(pieces)
  {
    if pieces != [] {
      FlattenLength(pieces[1..]);
    }
  }
}
