/** The end of a sequence, as a bounded queue keeps it. */
module Suffixes {

  /** The last `n` elements, or all of them if there are fewer. */
  function LastOf<T>(n: nat, s: seq<T>): seq<T> {
    if |s| <= n then s else s[|s| - n..]
  }
}
