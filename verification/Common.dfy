/** Shared vocabulary: optional values, half-open byte ranges into a text, and character classes. */
module Common {
  datatype Option<+T> = None | Some(value: T) {
    predicate IsFailure() {
      None?
    }

    function PropagateFailure<U>(): Option<U>
      requires None?
    {
      None
    }

    function Extract(): T
      requires Some?
    {
      value
    }
  }

  /** A half-open byte range `[start, end)`. */
  datatype Range = Range(start: nat, end: nat) {
    predicate In(text: string) {
      start <= end <= |text|
    }

    predicate Empty() {
      start == end
    }

    function Of(text: string): string
      requires In(text)
    {
      text[start..end]
    }
  }

  /** C's isspace in its default locale. */
  predicate IsSpace(c: char) {
    c == ' ' || '\t' <= c <= '\r'
  }

  function Lower(c: char): char {
    if 'A' <= c <= 'Z' then (c as int + 32) as char else c
  }

  predicate Distinct<T(==)>(xs: seq<T>) {
    forall i, j :: 0 <= i < j < |xs| ==> xs[i] != xs[j]
  }
}
