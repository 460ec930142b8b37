/** Definitions shared by every part of the LM3S811 demo model. */
module Common {

  /** An optional value: a queue poll that may find nothing, a byte that may decode to nothing. */
  datatype Option<T> = None | Some(value: T)

  /** MAX_VALUE_N: the capacity of the filter's history arrays and the largest window. */
  const MaxWindow: nat := 10

  /** A filter window size N. N starts at 1 and is only ever assigned a decoded digit,
      so every reachable value lies in [1, MaxWindow]; the type records that fact. */
  type WindowSize = n: nat | 1 <= n <= MaxWindow witness 1

  /** The C string terminator. */
  const Nul: char := 0 as char

  /** Range of the 32-bit unsigned integers of the Cortex-M3 target. */
  const U32: nat := 0x1_0000_0000

  /** Some character at index i or later of s is the terminator. */
  predicate TerminatedFrom(s: seq<char>, i: nat)
  {
    exists j :: i <= j < |s| && s[j] == Nul
  }

  /** The C string that starts at index i of s: the characters before the first terminator. */
  function CString(s: seq<char>, i: nat): (r: seq<char>)
    requires TerminatedFrom(s, i)
    ensures i + |r| < |s| && s[i + |r|] == Nul
    ensures r == s[i..i + |r|]
    ensures Nul !in r
    decreases |s| - i
  {
    if s[i] == Nul then [] else [s[i]] + CString(s, i + 1)
  }

  /** s holds the C string r from index i: the characters of r, then the terminator. */
  predicate StringAt(s: seq<char>, i: nat, r: seq<char>)
  {
    i + |r| < |s| && s[i..i + |r|] == r && s[i + |r|] == Nul && Nul !in r
  }

  /** A run of non-terminator characters followed by a terminator is the C string there. */
  lemma CStringUnique(s: seq<char>, i: nat, r: seq<char>)
    requires StringAt(s, i, r)
    ensures TerminatedFrom(s, i) && CString(s, i) == r
  {
    assert TerminatedFrom(s, i);
  }
}
