/** Options, results, bytes and text search shared by every component. */
module Wrappers {
  datatype Option<+T> = None | Some(value: T) {
    function GetOr(default: T): T {
      match this
      case Some(v) => v
      case None => default
    }
  }

  datatype Result<+T, +E> = Success(value: T) | Failure(error: E)

  type Byte = b: int | 0 <= b < 256
  type Bytes = seq<Byte>

  /** `text` contains `part` somewhere. */
  predicate Includes(text: string, part: string) { exists i | 0 <= i <= |text| :: part <= text[i..] }

  const UPPER_CASE := "ABCDEFGHIJKLMNOPQRSTUVWXYZ"
  const LOWER_CASE := "abcdefghijklmnopqrstuvwxyz"
  const DIGITS := "0123456789"

  /** The same character, or the upper case of a lower-case letter. */
  predicate IsOrCapitalizes(c: char, lower: char) {
    c == lower || exists i | 0 <= i < 26 :: c == UPPER_CASE[i] && lower == LOWER_CASE[i]
  }

  /** `text` begins with the lower-case `part`, in any letter case. */
  ghost predicate BeginsInAnyCase(text: string, part: string) {
    |part| <= |text| && forall j | 0 <= j < |part| :: IsOrCapitalizes(text[j], part[j])
  }

  ghost predicate IncludesInAnyCase(text: string, part: string) {
    exists i | 0 <= i <= |text| :: BeginsInAnyCase(text[i..], part)
  }

  lemma CapitalLetters()
    ensures |UPPER_CASE| == |LOWER_CASE| == 26 && |DIGITS| == 10
    ensures forall i | 0 <= i < 26 :: UPPER_CASE[i] == 'A' + i as char && LOWER_CASE[i] == 'a' + i as char
    ensures forall i | 0 <= i < 10 :: DIGITS[i] == '0' + i as char
  {
  }
}
