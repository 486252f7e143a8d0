/** What several models share: a value that may be missing, and the first occurrence
    of a character. */
module Wrappers {

  datatype Option<T> = None | Some(value: T)

  /** The length of the leading run of characters other than `c`. */
  function Until(s: string, c: char): (n: nat)
    ensures n <= |s| && (forall i | 0 <= i < n :: s[i] != c) && (n < |s| ==> s[n] == c)
  {
    if s == "" || s[0] == c then 0 else 1 + Until(s[1..], c)
  }
}
