/**
 * The JavaScript array operations that the shared list of inputs goes
 * through: `indexOf` and `splice(start, 1)`.
 */
module JsArray {

  /** `s.indexOf(x)`: the first index holding `x`, or -1 when there is none. */
  function IndexOf<T(==)>(s: seq<T>, x: T): (i: int)
    ensures -1 <= i < |s|
    ensures i == -1 <==> x !in s
    ensures 0 <= i ==> s[i] == x && x !in s[..i]
  {
    IndexFrom(s, x, 0)
  }

  /** The search behind `IndexOf`, from position `k` on. */
  function IndexFrom<T(==)>(s: seq<T>, x: T, k: nat): (i: int)
    requires k <= |s|
    decreases |s| - k
    ensures -1 <= i < |s|
    ensures i == -1 <==> x !in s[k..]
    ensures 0 <= i ==> k <= i && s[i] == x && x !in s[k..i]
  {
    if k == |s| then -1
    else if s[k] == x then k
    else
      assert s[k..] == [s[k]] + s[k + 1..];
      var i := IndexFrom(s, x, k + 1);
      assert 0 <= i ==> s[k..i] == [s[k]] + s[k + 1..i];
      i
  }

  /** The position `splice(start, ...)` works at: a negative start counts back
      from the end (clamped at 0), a start past the end is the end. */
  function SpliceAt(len: nat, start: int): (p: nat)
    ensures p <= len
    ensures 0 <= start <= len ==> p == start
    ensures start < 0 && 0 <= len + start ==> p == len + start
  {
    if start < 0 then (if len + start < 0 then 0 else len + start)
    else if start < len then start else len
  }

  /** `s.splice(start, 1)`: removes the one element at the splice position, if any. */
  function SpliceOne<T>(s: seq<T>, start: int): (r: seq<T>)
    ensures var p := SpliceAt(|s|, start);
      if p < |s| then |r| == |s| - 1 && r == s[..p] + s[p + 1..] else r == s
  {
    var p := SpliceAt(|s|, start);
    if p < |s| then s[..p] + s[p + 1..] else s
  }
}
