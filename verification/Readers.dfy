/** Parsers that read from the start of a text. */
module Readers {

  /** What a reader makes of a text: a value and what is left of the text. */
  datatype Reading<U, T> = Fail | Done(value: T, rest: seq<U>)
}
