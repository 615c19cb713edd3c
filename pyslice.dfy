/** Python's sequence slicing, as used on the argsort result of the
    explanation handler: `s[k:]`, `s[:k]` and `s[::-1]`. */
module PySlice {

  function Min(a: int, b: int): int { if a <= b then a else b }

  function Max(a: int, b: int): int { if a <= b then b else a }

  /** The position a slice bound `k` denotes in a sequence of length `n`:
      a negative bound counts from the end, and the result is clamped to
      `0 .. n`. In particular the bound `-0` is `0`, not `n`. */
  function Bound(n: nat, k: int): (b: nat)
    ensures b <= n
    ensures 0 <= k ==> b == Min(k, n)
    ensures k < 0 ==> b == Max(0, n + k)
  {
    if k < 0 then (if n + k < 0 then 0 else n + k)
    else if k < n then k
    else n
  }

  /** `s[k:]` */
  function From<T>(s: seq<T>, k: int): (r: seq<T>)
  {
    s[Bound(|s|, k)..]
  }

  /** `s[:k]` */
  function To<T>(s: seq<T>, k: int): (r: seq<T>)
  {
    s[..Bound(|s|, k)]
  }

  /** `s[::-1]` */
  function Reversed<T>(s: seq<T>): (r: seq<T>)
    ensures |r| == |s|
    ensures forall i :: 0 <= i < |s| ==> r[i] == s[|s| - 1 - i]
  {
    seq(|s|, i requires 0 <= i < |s| => s[|s| - 1 - i])
  }
}
