/**
 * Value types shared by the node store and the automaton: symbols, patterns,
 * match records and the error codes of pattern insertion.
 */
module AcTypes {

  /** One symbol of the alphabet. Symbols are compared under the total order of `int`. */
  type Alpha = int

  /** A possibly missing value; `None` plays the part of a null node pointer. */
  datatype Option<+T> = None | Some(value: T)

  /** Longest pattern the automaton accepts, in symbols. */
  const MaxPatternLength: nat := 256

  /**
   * A pattern: its symbols (the pattern's length is `|symbols|`) and the optional
   * caller-chosen identifier used when reporting it.
   */
  datatype Str = Str(symbols: seq<Alpha>, id: nat)

  /**
   * One reported occurrence: the 1-based position of the last symbol of the
   * occurrence in the whole input stream, and the matched patterns of the node
   * at which it was detected (the number of matched patterns is their count).
   */
  datatype Match = Match(position: nat, matchedStrings: seq<Str>)

  /** Outcome of adding a pattern. */
  datatype AcError = NoError | DuplicateString | LongString | ZeroString | StringClosed
}
