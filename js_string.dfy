/**
 * The two forms of JavaScript's `String.prototype.substr` that the field uses,
 * with their handling of negative and out-of-range arguments.
 */
module JsString {

  /** `s.substr(start)`: a negative start counts back from the end (clamped at 0),
      a start past the end gives the empty string. */
  function SubstrFrom(s: string, start: int): (r: string)
    ensures |r| <= |s| && r == s[|s| - |r|..]
    ensures 0 <= start <= |s| ==> r == s[start..]
    ensures -|s| <= start < 0 ==> |r| == -start
    ensures start < -|s| ==> r == s
    ensures start >= |s| ==> r == []
  {
    var from := if start < 0 then (if |s| + start < 0 then 0 else |s| + start)
                else (if start < |s| then start else |s|);
    s[from..]
  }

  /** `s.substr(0, length)`: a negative length gives the empty string, a length
      past the end the whole string. */
  function SubstrPrefix(s: string, length: int): (r: string)
    ensures |r| <= |s| && r == s[..|r|]
    ensures 0 <= length <= |s| ==> r == s[..length]
    ensures length < 0 ==> r == []
    ensures length > |s| ==> r == s
  {
    if length < 0 then [] else if length < |s| then s[..length] else s
  }
}
