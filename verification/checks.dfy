/**
 The four analysis check types shared by the content script, the backend
 route and the prompt test script, and their wire names.
 */
module Checks {

  datatype CheckType = Grammar | Spelling | Style | Clarity

  /** The name of a check type as it travels in requests. */
  function Name(c: CheckType): string
  {
    match c
    case Grammar => "grammar"
    case Spelling => "spelling"
    case Style => "style"
    case Clarity => "clarity"
  }

  /** Position of a check type in the fixed order grammar, spelling, style, clarity. */
  function Rank(c: CheckType): nat
  {
    match c
    case Grammar => 0
    case Spelling => 1
    case Style => 2
    case Clarity => 3
  }

  /** `["grammar", "spelling", "style", "clarity"]`: the valid names and the default list. */
  const DefaultNames: seq<string> := ["grammar", "spelling", "style", "clarity"]

  /** `validCheckTypes.includes(name)`. */
  predicate IsValidName(name: string)
  {
    name in DefaultNames
  }
}
