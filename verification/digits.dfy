/** Sudoku digits, shared by both engines. */
module Digits {

  predicate IsDigit(d: int) {
    1 <= d <= 9
  }

  ghost predicate AllDigits(s: seq<int>) {
    forall i :: 0 <= i < |s| ==> IsDigit(s[i])
  }
}
