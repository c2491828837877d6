/** What several components use. */
module Common {
  datatype Option<+T> = None | Some(value: T)

  const PAGE_SIZE: nat := 4096

  /** Whole pages up to `x`, the page `x` lies in included. */
  function PagesUp(x: nat): (n: nat) {
    (x + 4095) / 4096
  }

  function Min(x: int, y: int): (m: int) {
    if x < y then x else y
  }

  function Max(x: int, y: int): (m: int) {
    if x > y then x else y
  }

  /** A list without its `i`-th element. */
  function Drop<T>(s: seq<T>, i: nat): (t: seq<T>)
    requires i < |s|
    ensures |t| == |s| - 1
    ensures forall k :: 0 <= k < |t| ==> t[k] == s[if k < i then k else k + 1]
  {
    s[..i] + s[i + 1..]
  }
}
