/** Part of a sequence replaced: what copying into a buffer does. */
module Sequences {

  /** `xs` over the elements of `s` from `at` on. */
  function Overwritten<T>(s: seq<T>, at: nat, xs: seq<T>): (r: seq<T>)
    requires at + |xs| <= |s|
    ensures |r| == |s|
  {
    s[..at] + xs + s[at + |xs|..]
  }
}
