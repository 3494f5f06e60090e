/** What every component knows of the machine: 32-bit words and 4096-byte pages.
 */
module Machine {
  const TWO32: nat := 0x1_0000_0000
  const PAGE_SIZE: nat := 4096

  function Min(a: nat, b: nat): nat { if a < b then a else b }

  /** A buffer once the first `i` elements of `src` are copied to position `at`. */
  function Copied<T>(was: seq<T>, at: nat, src: seq<T>, i: nat): (r: seq<T>)
    requires i <= |src| && at + i <= |was|
    ensures |r| == |was|
  {
    was[..at] + src[..i] + was[at + i..]
  }

  lemma CopyStart<T>(was: seq<T>, at: nat, src: seq<T>)
    requires at <= |was|
    ensures Copied(was, at, src, 0) == was
  {
  }

  lemma CopyStep<T>(was: seq<T>, at: nat, src: seq<T>, i: nat)
    requires i < |src| && at + i < |was|
    ensures Copied(was, at, src, i)[at + i := src[i]] == Copied(was, at, src, i + 1)
  {
  }
}
