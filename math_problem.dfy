/** What every problem kind shares: the difficulty levels and their bounds, the four rendered
    texts, the typesetting passes of `Utils` it calls, and the GCD problem Bezout builds on. */
module MathProblem {

  datatype Difficulty = Easy | Medium | Hard

  /** An inclusive range from which a random parameter is drawn. */
  datatype Bounds = Bounds(lower: int, upper: int)

  /** The bounds table entry for a difficulty level. */
  function InitBounds(d: Difficulty, easy: Bounds, medium: Bounds, hard: Bounds): Bounds
  {
    match d
    case Easy => easy
    case Medium => medium
    case Hard => hard
  }

  /** The four fields the render hooks fill, in the order they are filled. */
  datatype Texts = Texts(
    problemPlaintext: string,
    problemLaTeX: string,
    solutionPlaintext: string,
    solutionLaTeX: string)

  /** The line separator and the typesetting passes of `Utils`; the passes are not part of this
      model and stay uninterpreted. */
  datatype Utils = Utils(
    newline: char,
    prepareBasicMath: string -> string,
    prepareAlignMath: string -> string,
    prepareDisplayMath: string -> string,
    prepareMatrix: string -> string)

  /** What a Bezout problem reads from the GCD problem it owns. */
  datatype GcdProblem = GcdProblem(
    a: int,
    b: int,
    solutionPlaintext: string,
    solutionLaTeX: string)
}
