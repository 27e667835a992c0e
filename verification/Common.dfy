/** Definitions the subsystems share. */
module Common {
  datatype Option<+T> = None | Some(value: T)

  /** One past the largest 64-bit word. */
  const WORD: nat := 0x1_0000_0000_0000_0000

  ghost predicate Distinct(s: seq<nat>) {
    forall i, j :: 0 <= i < j < |s| ==> s[i] != s[j]
  }
}
