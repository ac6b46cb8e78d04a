/** `EulerPhiProblem`: the value of Euler's totient at n, typeset through the align pipeline
    except for n = 1, which has a fixed one-line block. */
module EulerPhi {
  import opened JavaText
  import opened MathProblem
  import Typeset

  /** `Algorithms.eulerPhi` and `AlgorithmsSteps.buildPhiEquals/eulerPhiSteps`, which are not part
      of this model. */
  datatype EulerPhiOracles = EulerPhiOracles(
    eulerPhi: int -> int,
    buildPhiEquals: int -> string,
    eulerPhiSteps: int -> string)

  datatype EulerPhiProblem = EulerPhiProblem(
    n: int,
    result: seq<int>,
    texts: Texts)

  const PHI_OF_ONE: string := @"\varphi(1) &= 1"

  /** The bounds table of the random constructor. */
  function NBounds(d: Difficulty): (b: Bounds)
    ensures 1 <= b.lower <= b.upper <= 2999
    ensures d == Easy ==> b == Bounds(1, 99)
    ensures d == Medium ==> b == Bounds(100, 999)
    ensures d == Hard ==> b == Bounds(1000, 2999)
  {
    InitBounds(d, Bounds(1, 99), Bounds(100, 999), Bounds(1000, 2999))
  }

  /** The typeset solution for n = 1: the align opener, a line break, the single line and the
      terminator directly after it. */
  function OneBlock(nl: char): string
  {
    Typeset.BEGIN + [nl] + PHI_OF_ONE + Typeset.END
  }

  /** `prepareSolutionLaTeX`: the fixed block for n = 1, otherwise the basic pass followed by the
      align pass over the plaintext derivation. */
  function SolutionLaTeX(n: int, solutionPlaintext: string, u: Utils): (r: string)
    ensures n == 1 ==> r == OneBlock(u.newline)
    ensures n != 1 ==> r == u.prepareAlignMath(u.prepareBasicMath(solutionPlaintext))
  {
    if n == 1 then OneBlock(u.newline)
    else u.prepareAlignMath(u.prepareBasicMath(solutionPlaintext))
  }

  /** Which branch is taken depends on n alone: for n = 1 the plaintext derivation is not read. */
  lemma BranchDependsOnlyOnN(n: int, p1: string, p2: string, u: Utils)
    ensures n == 1 ==> SolutionLaTeX(n, p1, u) == SolutionLaTeX(n, p2, u)
    ensures n != 1 && u.prepareBasicMath(p1) == u.prepareBasicMath(p2) ==>
              SolutionLaTeX(n, p1, u) == SolutionLaTeX(n, p2, u)
  {
  }

  /** The n = 1 block holds exactly one line break, right after the opener, no line break before
      the terminator, and its single line keeps its `&=`. */
  lemma OneBlockShape(nl: char)
    requires nl !in Typeset.BEGIN && nl !in PHI_OF_ONE && nl !in Typeset.END
    ensures var r := OneBlock(nl);
      && r[|Typeset.BEGIN|] == nl
      && (forall i :: 0 <= i < |r| && i != |Typeset.BEGIN| ==> r[i] != nl)
      && r[|r| - |Typeset.END| - 1] == '1' && r[|r| - |Typeset.END|..] == Typeset.END
      && OccursAt(r, "&=", |Typeset.BEGIN| + 12)
  {
    var r := OneBlock(nl);
    var b := |Typeset.BEGIN|;
    forall i | 0 <= i < |r| && i != b ensures r[i] != nl {
      if i < b {
        assert r[i] == Typeset.BEGIN[i];
      } else if i < b + 1 + |PHI_OF_ONE| {
        assert r[i] == PHI_OF_ONE[i - b - 1];
      } else {
        assert r[i] == Typeset.END[i - b - 1 - |PHI_OF_ONE|];
      }
    }
    assert r[b + 12] == PHI_OF_ONE[11] && r[b + 13] == PHI_OF_ONE[12];
    assert r[b + 12..b + 14] == "&=";
  }

  /** `setVariables` with the hooks run in order: n, its totient as the one result, and the typeset
      statement built from the plaintext statement. */
  function NewEulerPhi(n: int, o: EulerPhiOracles, u: Utils): (p: EulerPhiProblem)
    ensures p.n == n && p.result == [o.eulerPhi(n)]
    ensures p.texts.problemPlaintext == o.buildPhiEquals(n)
    ensures p.texts.problemLaTeX == u.prepareDisplayMath(p.texts.problemPlaintext)
    ensures p.texts.solutionPlaintext == o.eulerPhiSteps(n)
    ensures p.texts.solutionLaTeX == SolutionLaTeX(n, p.texts.solutionPlaintext, u)
  {
    var problemPlaintext := o.buildPhiEquals(n);
    var solutionPlaintext := o.eulerPhiSteps(n);
    EulerPhiProblem(n, [o.eulerPhi(n)],
      Texts(problemPlaintext, u.prepareDisplayMath(problemPlaintext),
            solutionPlaintext, SolutionLaTeX(n, solutionPlaintext, u)))
  }

  /** The random constructor: n is drawn from the difficulty's bounds. */
  function NewRandomEulerPhi(d: Difficulty, randInt: (int, int) -> int, o: EulerPhiOracles, u: Utils): EulerPhiProblem
  {
    var b := NBounds(d);
    NewEulerPhi(randInt(b.lower, b.upper), o, u)
  }

  /** When `randInt` keeps to its inclusive range, the drawn n lies in the difficulty's bounds; only
      the easy level can draw n = 1. */
  lemma RandomNWithinBounds(d: Difficulty, randInt: (int, int) -> int, o: EulerPhiOracles, u: Utils)
    requires forall lo, hi :: lo <= hi ==> lo <= randInt(lo, hi) <= hi
    ensures var n := NewRandomEulerPhi(d, randInt, o, u).n;
      && 1 <= n <= 2999
      && (d == Easy ==> n <= 99)
      && (d == Medium ==> 100 <= n <= 999)
      && (d == Hard ==> 1000 <= n)
      && (n == 1 ==> d == Easy)
  {
    var b := NBounds(d);
    assert b.lower <= randInt(b.lower, b.upper) <= b.upper;
  }
}
