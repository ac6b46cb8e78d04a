/** `PermutationOrderProblem`: the order of a permutation, whose typeset derivation is the
    plaintext one with the composition symbol rewritten and, for several cycles, its last `&=`
    demoted. */
module PermutationOrder {
  import opened JavaText
  import opened MathProblem

  /** `Algorithms.permutationOrder/permutationCycles/randPermutation`, `AlgorithmsSteps
      .permutationToMatrix/permutationOrderSteps` and the symbols `SIGMA` and `CIRC`, which are
      not part of this model. */
  datatype PermutationOracles = PermutationOracles(
    permutationOrder: seq<int> -> int,
    permutationCycles: seq<int> -> seq<seq<int>>,
    randPermutation: int -> seq<int>,
    permutationToMatrix: seq<int> -> string,
    permutationOrderSteps: seq<int> -> string,
    sigma: string,
    circ: char)

  datatype PermutationOrderProblem = PermutationOrderProblem(
    permutation: seq<int>,
    result: seq<int>,
    texts: Texts)

  const PROBLEM_PREFIX: string := "Určete řád permutace "
  const PROBLEM_PREFIX_LATEX: string := @"\text{Určete řád permutace }$\sigma =$ \\"
  const SIGMA_LATEX: string := @"\sigma = "
  const CIRC_LATEX: string := @"\circ"

  /** The bounds table of the random constructor: permutation sizes. */
  function SizeBounds(d: Difficulty): (b: Bounds)
    ensures 2 <= b.lower <= b.upper <= 9
    ensures d == Easy ==> b == Bounds(2, 5)
    ensures d == Medium ==> b == Bounds(6, 8)
    ensures d == Hard ==> b == Bounds(9, 9)
  {
    InitBounds(d, Bounds(2, 5), Bounds(6, 8), Bounds(9, 9))
  }

  /** The problem statement: the prompt, the permutation's name, a line break, its matrix. */
  function ProblemPlaintext(perm: seq<int>, o: PermutationOracles, nl: char): (r: string)
    ensures var head := PROBLEM_PREFIX + o.sigma + " = ";
      var m := o.permutationToMatrix(perm);
      && |r| == |head| + 1 + |m|
      && r[..|head|] == head && r[|head|] == nl && r[|head| + 1..] == m
  {
    PROBLEM_PREFIX + o.sigma + " = " + [nl] + o.permutationToMatrix(perm)
  }

  /** With a line separator that the prompt and the name do not contain, the matrix is read
      back as everything after the statement's first line break. */
  lemma MatrixFollowsFirstBreak(perm: seq<int>, o: PermutationOracles, nl: char)
    requires nl !in PROBLEM_PREFIX + o.sigma + " = "
    ensures var r := ProblemPlaintext(perm, o, nl);
      var k := IndexOf(r, [nl], 0);
      0 <= k && r[k + 1..] == o.permutationToMatrix(perm)
  {
    var r := ProblemPlaintext(perm, o, nl);
    var head := PROBLEM_PREFIX + o.sigma + " = ";
    OccursAtOneChar(r, nl, |head|);
    forall j | 0 <= j < |head| ensures !OccursAt(r, [nl], j) {
      OccursAtOneChar(r, nl, j);
      assert r[j] == head[j];
    }
  }

  /** The typeset statement: the prompt, a line break, the matrix as display math. */
  function ProblemLaTeX(perm: seq<int>, o: PermutationOracles, u: Utils): (r: string)
    ensures var n := |PROBLEM_PREFIX_LATEX|;
      var tail := u.prepareDisplayMath(u.prepareMatrix(o.permutationToMatrix(perm)));
      && |r| == n + 1 + |tail|
      && r[..n] == PROBLEM_PREFIX_LATEX && r[n] == u.newline && r[n + 1..] == tail
  {
    PROBLEM_PREFIX_LATEX + [u.newline] + u.prepareDisplayMath(u.prepareMatrix(o.permutationToMatrix(perm)))
  }

  /** `prepareSolutionLaTeX`: the composition symbol becomes `\circ`, the text is prefixed with
      `\sigma = ` and aligned, and with more than one cycle the last `&=` is demoted to `=`. */
  function SolutionLaTeX(solutionPlaintext: string, perm: seq<int>, o: PermutationOracles, u: Utils): (r: string)
    ensures var aligned := u.prepareAlignMath(SIGMA_LATEX + ReplaceAll(solutionPlaintext, [o.circ], CIRC_LATEX));
      |o.permutationCycles(perm)| <= 1 ==> r == aligned
  {
    var solution := ReplaceAll(solutionPlaintext, [o.circ], CIRC_LATEX);
    var aligned := u.prepareAlignMath(SIGMA_LATEX + solution);
    if |o.permutationCycles(perm)| > 1 then ReplaceLast(aligned, "&=", "=") else aligned
  }

  /** The composition symbol, when it is not itself part of `\circ`, is gone from the rewritten
      derivation, and each of its occurrences has become the five characters of `\circ`. */
  lemma CircRewritten(solutionPlaintext: string, o: PermutationOracles)
    requires o.circ !in CIRC_LATEX
    ensures var solution := ReplaceAll(solutionPlaintext, [o.circ], CIRC_LATEX);
      && o.circ !in solution
      && |solution| == |solutionPlaintext| + 4 * Count(solutionPlaintext, o.circ)
  {
    ReplaceAllOneCharLength(solutionPlaintext, o.circ, CIRC_LATEX);
  }

  /** Demoting the last `&=` of a text to `=` keeps everything else and leaves no `&=` from that
      position on; without `&=` nothing changes. */
  lemma DemoteLast(s: string)
    ensures var r := ReplaceLast(s, "&=", "=");
      var j := LastIndexOf(s, "&=");
      && (j < 0 ==> r == s)
      && (j >= 0 ==> r == s[..j] + "=" + s[j + 2..] && forall k :: j <= k ==> !OccursAt(r, "&=", k))
  {
    var r := ReplaceLast(s, "&=", "=");
    var j := LastIndexOf(s, "&=");
    if j >= 0 {
      assert r == s[..j] + "=" + s[j + 2..];
      assert "&=" == ['&', '='];
      forall k | j <= k ensures !OccursAt(r, "&=", k) {
        OccursAtTwoChars(r, '&', '=', k);
        if k + 1 < |r| {
          assert r[k + 1] == s[k + 2];
          if j < k {
            assert r[k] == s[k + 1];
            OccursAtTwoChars(s, '&', '=', k + 1);
          }
        }
      }
    }
  }

  /** With several cycles the aligned text's last `&=` becomes `=`, everything else is kept, and
      no `&=` is left from that position on; without `&=` nothing changes. */
  lemma DemotesLastAlignment(solutionPlaintext: string, perm: seq<int>, o: PermutationOracles, u: Utils)
    requires |o.permutationCycles(perm)| > 1
    ensures var aligned := u.prepareAlignMath(SIGMA_LATEX + ReplaceAll(solutionPlaintext, [o.circ], CIRC_LATEX));
      var r := SolutionLaTeX(solutionPlaintext, perm, o, u);
      var j := LastIndexOf(aligned, "&=");
      && (j < 0 ==> r == aligned)
      && (j >= 0 ==> r == aligned[..j] + "=" + aligned[j + 2..] && forall k :: j <= k ==> !OccursAt(r, "&=", k))
  {
    DemoteLast(u.prepareAlignMath(SIGMA_LATEX + ReplaceAll(solutionPlaintext, [o.circ], CIRC_LATEX)));
  }

  /** `setVariables` with the hooks run in order: the permutation, its order as the one result,
      and the four texts. */
  function NewPermutationOrder(perm: seq<int>, o: PermutationOracles, u: Utils): (p: PermutationOrderProblem)
    ensures p.permutation == perm && p.result == [o.permutationOrder(perm)]
    ensures p.texts.problemPlaintext == ProblemPlaintext(perm, o, u.newline)
    ensures p.texts.problemLaTeX == ProblemLaTeX(perm, o, u)
    ensures p.texts.solutionPlaintext == o.permutationOrderSteps(perm)
    ensures p.texts.solutionLaTeX == SolutionLaTeX(p.texts.solutionPlaintext, perm, o, u)
  {
    var solutionPlaintext := o.permutationOrderSteps(perm);
    PermutationOrderProblem(perm, [o.permutationOrder(perm)],
      Texts(ProblemPlaintext(perm, o, u.newline), ProblemLaTeX(perm, o, u),
            solutionPlaintext, SolutionLaTeX(solutionPlaintext, perm, o, u)))
  }

  /** The constructor taking the caller's list: the problem keeps a copy of its contents. */
  method FromList(perm: array<int>, o: PermutationOracles, u: Utils) returns (p: PermutationOrderProblem)
    ensures p == NewPermutationOrder(perm[..], o, u)
  {
    var copy := perm[..];
    p := NewPermutationOrder(copy, o, u);
  }

  /** Changing the caller's list after construction leaves the problem as it was built. */
  method CallerUpdateIsNotSeen(perm: array<int>, i: int, v: int, o: PermutationOracles, u: Utils)
    returns (p: PermutationOrderProblem)
    requires 0 <= i < perm.Length
    modifies perm
    ensures perm[..] == old(perm[..])[i := v]
    ensures p == NewPermutationOrder(old(perm[..]), o, u)
  {
    p := FromList(perm, o, u);
    perm[i] := v;
  }

  /** The random constructor: the size is drawn from the difficulty's bounds, then a random
      permutation of that size is built. */
  function NewRandomPermutationOrder(d: Difficulty, randInt: (int, int) -> int, o: PermutationOracles, u: Utils): PermutationOrderProblem
  {
    var b := SizeBounds(d);
    var size := randInt(b.lower, b.upper);
    NewPermutationOrder(o.randPermutation(size), o, u)
  }

  /** When `randInt` keeps to its inclusive range, the random problem's permutation is one of a
      size within the difficulty's bounds. */
  lemma RandomSizeWithinBounds(d: Difficulty, randInt: (int, int) -> int, o: PermutationOracles, u: Utils)
    requires forall lo, hi :: lo <= hi ==> lo <= randInt(lo, hi) <= hi
    ensures exists size ::
      && NewRandomPermutationOrder(d, randInt, o, u).permutation == o.randPermutation(size)
      && 2 <= size <= 9
      && (d == Easy ==> size <= 5)
      && (d == Medium ==> 6 <= size <= 8)
      && (d == Hard ==> size == 9)
  {
    var b := SizeBounds(d);
    var size := randInt(b.lower, b.upper);
    assert b.lower <= size <= b.upper;
    assert NewRandomPermutationOrder(d, randInt, o, u).permutation == o.randPermutation(size);
  }
}
