/**
 * What the two sequential finders share about ignore rules: which lines of an
 * ignore file are rules at all, and the regular-expression library the rules
 * are compiled with, which is not modelled but passed in as an `Engine`.
 */
module IgnoreFile {

  /** A regular-expression library seen from outside: whether a pattern compiles,
      whether it matches a whole string (`regex_match`), and whether it matches
      somewhere inside one (`RE2::PartialMatch`, `regex_search`). */
  datatype Engine = Engine(
    compiles: string -> bool,
    fullMatch: (string, string) -> bool,
    partialMatch: (string, string) -> bool)

  /** `line.empty() || line.find("#") == 0`: a line that yields no rule. */
  predicate Skipped(line: string)
  {
    line == [] || line[0] == '#'
  }
}
