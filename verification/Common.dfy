/** What several components need. */
module Common {
  datatype Option<+T> = None | Some(value: T)

  function Max(x: nat, y: nat): nat { if x < y then y else x }

  ghost predicate NoRepeats(xs: seq<nat>) { forall i, j | 0 <= i < j < |xs| :: xs[i] != xs[j] }

  /** The sequence after writing `xs` over it at `at`. */
  ghost function Splice<T>(m: seq<T>, at: nat, xs: seq<T>): (r: seq<T>)
    requires at + |xs| <= |m|
    ensures |r| == |m|
  {
    m[..at] + xs + m[at + |xs|..]
  }
}
