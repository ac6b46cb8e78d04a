/** `BezoutProblem`: d = gcd(a, b) and x, y with ax + by = d, whose derivation is the owned GCD
    problem's derivation with the Bezout back-substitution steps spliced on. */
module Bezout {
  import opened JavaText
  import opened Typeset
  import opened MathProblem

  /** `Algorithms.bezout` and `AlgorithmsSteps.bezoutSteps`, not part of this model. */
  datatype BezoutOracles = BezoutOracles(
    bezout: (int, int) -> seq<int>,
    bezoutSteps: (int, int) -> string)

  datatype BezoutProblem = BezoutProblem(
    gcdProblem: GcdProblem,
    a: int,
    b: int,
    result: seq<int>,
    texts: Texts)

  /** Euclid's greatest common divisor. */
  function Gcd(a: nat, b: nat): nat
    decreases b
  {
    if b == 0 then a else Gcd(b, a % b)
  }

  /** What `Algorithms.bezout(a, b)` is documented to return: `[d, x, y]` with d = gcd(a, b)
      and ax + by = d. */
  predicate BezoutIdentity(a: int, b: int, result: seq<int>)
  {
    0 <= a && 0 <= b && |result| == 3 && result[0] == Gcd(a, b) &&
    a * result[1] + b * result[2] == result[0]
  }

  function ProblemPlaintext(a: int, b: int, nl: char): string
  {
    "Nalezněte čísla d, x, y, aby" + [nl] +
    IntToString(a) + "x + " + IntToString(b) + "y = d" + [nl]
  }

  function ProblemLaTeX(a: int, b: int): string
  {
    @"\text{Nalezněte čísla }$d, x, y$, \text{aby}\\ \[" +
    IntToString(a) + "x + " + IntToString(b) + @"y = d\] \\"
  }

  /** The plaintext derivation: the GCD derivation, unchanged, then the Bezout steps verbatim. */
  function SolutionPlaintext(solutionGCD: string, solutionBezout: string): (r: string)
    ensures |r| == |solutionGCD| + |solutionBezout|
    ensures r[..|solutionGCD|] == solutionGCD && r[|solutionGCD|..] == solutionBezout
  {
    solutionGCD + solutionBezout
  }

  /** The loop's specification: from the first line break at or after `from`, a continuation
      marker before every line break but the last. When there is a line break but none at or
      after `from`, `insert(-1, ...)` throws, which is `None` here. */
  function Continued(s: string, from: int, nl: char): Option<string>
  {
    var first := IndexOf(s, [nl], from);
    if first < 0 then (if nl in s then None else Some(s))
    else Some(s[..first] + Marked(s[first..], nl))
  }

  /** The typeset derivation `prepareSolutionLaTeX` builds, specified by functions. */
  function SolutionLaTeX(gcdLaTeX: string, basicSteps: string, nl: char): Option<string>
  {
    var solutionBezout := AlignEquals(basicSteps);
    var from := LastIndexOf(gcdLaTeX, "{align}") + 9;
    var solutionGCD := ReplaceLast(gcdLaTeX, [nl] + END, MARKER + [nl]);
    match Continued(solutionGCD + solutionBezout, from, nl)
    case None => None
    case Some(t) => Some(t + END)
  }

  /** The buffer while the loop runs: the original up to its first line break at or after the
      start offset, then the original marked from there up to the line break at `q`. */
  ghost function MarkedPrefix(s: string, first: int, q: int, nl: char): string
    requires 0 <= first <= q <= |s|
  {
    s[..first] + MarkAll(s[first..q], nl)
  }

  /** Where the buffer's last line break is, seen from a line break at `q` of the original text
      behind an already marked prefix `p`: the loop goes on exactly while `q` is not the
      original's last line break. */
  lemma GuardTracksOriginal(s: string, p: string, q: int, nl: char)
    requires 0 <= q < |s| && s[q] == nl
    ensures q <= LastIndexOf(s, [nl])
    ensures (|p| < LastIndexOf(p + s[q..], [nl])) <==> (q < LastIndexOf(s, [nl]))
  {
    OccursAtOneChar(s[q..], nl, 0);
    LastIndexOfShift(p, s[q..], [nl]);
    LastIndexOfShift(s[..q], s[q..], [nl]);
    SplitAt(s, q);
  }

  /** The next line break after one that is not the last. */
  lemma NextBreak(s: string, q: int, nl: char)
    requires 0 <= q < |s| && q < LastIndexOf(s, [nl])
    ensures var q' := IndexOf(s, [nl], q + 1);
      q < q' < |s| && s[q'] == nl && nl !in s[q + 1..q']
  {
    var last := LastIndexOf(s, [nl]);
    assert OccursAt(s, [nl], last);
    var q' := IndexOf(s, [nl], q + 1);
    OccursAtOneChar(s, nl, q');
    forall j | q + 1 <= j < q' ensures s[j] != nl {
      OccursAtOneChar(s, nl, j);
    }
  }

  /** Marking up to the next line break adds the marker, the break and the gap before it. */
  lemma MarkAllToNextBreak(s: string, first: int, q: int, q': int, nl: char)
    requires 0 <= first <= q < q' <= |s| && s[q] == nl && nl !in s[q + 1..q']
    ensures MarkedPrefix(s, first, q', nl) == MarkedPrefix(s, first, q, nl) + MARKER + [nl] + s[q + 1..q']
  {
    var gap := s[q + 1..q'];
    assert s[first..q'] == s[first..q] + ([nl] + gap);
    MarkAllAppend(s[first..q], [nl] + gap, nl);
    MarkAllAppend([nl], gap, nl);
    MarkAllSingleLine(gap, nl);
    assert MarkAll([nl], nl) == MARKER + [nl];
    var m := MarkAll(s[first..q], nl);
    assert MarkAll(s[first..q'], nl) == m + MARKER + [nl] + gap by {
      ConcatAssoc(m, MARKER + [nl], gap);
      ConcatAssoc(m, MARKER, [nl]);
    }
    var h := s[..first];
    ConcatAssoc(h, m + MARKER + [nl], gap);
    ConcatAssoc(h, m + MARKER, [nl]);
    ConcatAssoc(h, m, MARKER);
  }

  /** The marker inserted before a line break. */
  lemma InsertMarker(p: string, s: string, q: int, nl: char)
    requires 0 <= q < |s| && s[q] == nl
    ensures p + MARKER + s[q..] == p + MARKER + [nl] + s[q + 1..]
  {
    SplitBetween(s, q, q + 1);
    assert s[q..q + 1] == [nl];
    ConcatAssoc(p + MARKER, [nl], s[q + 1..]);
  }

  /** Searching from just past the marker and the line break finds the next line break. */
  lemma SearchPastMarker(s: string, x: string, q: int, q': int, nl: char)
    requires 0 <= q < q' < |s| && s[q'] == nl && q' == IndexOf(s, [nl], q + 1)
    ensures IndexOf(x + s[q + 1..], [nl], |x|) == |x| + (q' - q - 1)
  {
    IndexOfShift(x, s[q + 1..], [nl], 0);
    IndexOfShift(s[..q + 1], s[q + 1..], [nl], 0);
    SplitAt(s, q + 1);
  }

  /** Before the loop the buffer is the original, with nothing marked yet. */
  lemma LoopEntry(s: string, first: int, nl: char)
    requires 0 <= first <= |s|
    ensures MarkedPrefix(s, first, first, nl) + s[first..] == s
    ensures |MarkedPrefix(s, first, first, nl)| == first
  {
    assert s[first..first] == [];
    SplitAt(s, first);
  }

  /** One turn of the loop: inserting the marker at the current line break and searching on
      from three characters further finds the next line break of the original, and the buffer
      is again the original marked up to that break. */
  lemma LoopStep(s: string, first: int, q: int, nl: char)
    requires 0 <= first <= q < |s| && s[q] == nl && q < LastIndexOf(s, [nl])
    ensures var q' := IndexOf(s, [nl], q + 1);
      var n := |MarkedPrefix(s, first, q, nl)|;
      var buffer := MarkedPrefix(s, first, q, nl) + s[q..];
      var inserted := buffer[..n] + MARKER + buffer[n..];
      && q < q' < |s| && s[q'] == nl
      && inserted == MarkedPrefix(s, first, q', nl) + s[q'..]
      && IndexOf(inserted, [nl], n + 3) == |MarkedPrefix(s, first, q', nl)|
  {
    NextBreak(s, q, nl);
    var q' := IndexOf(s, [nl], q + 1);
    var p := MarkedPrefix(s, first, q, nl);
    var x := p + MARKER + [nl];
    var inserted := p + MARKER + s[q..];
    assert (p + s[q..])[..|p|] + MARKER + (p + s[q..])[|p|..] == inserted by {
      SplitConcat(p, s[q..]);
    }
    assert inserted == x + s[q + 1..] by {
      InsertMarker(p, s, q, nl);
    }
    assert MarkedPrefix(s, first, q', nl) == x + s[q + 1..q'] by {
      MarkAllToNextBreak(s, first, q, q', nl);
    }
    assert inserted == MarkedPrefix(s, first, q', nl) + s[q'..] by {
      SplitBetween(s, q + 1, q');
      ConcatAssoc(x, s[q + 1..q'], s[q'..]);
    }
    assert IndexOf(inserted, [nl], |p| + 3) == |MarkedPrefix(s, first, q', nl)| by {
      SearchPastMarker(s, x, q, q', nl);
    }
  }

  /** When the loop stops at the original's last line break, the buffer is the specification's. */
  lemma LoopExit(s: string, first: int, q: int, nl: char)
    requires 0 <= first <= q < |s| && s[q] == nl && q == LastIndexOf(s, [nl])
    ensures MarkedPrefix(s, first, q, nl) + s[q..] == s[..first] + Marked(s[first..], nl)
  {
    var t := s[first..];
    assert OccursAt(t, [nl], q - first) by { OccursAtOneChar(t, nl, q - first); }
    assert LastIndexOf(t, [nl]) == q - first by {
      LastIndexOfShift(s[..first], t, [nl]);
      SplitAt(s, first);
    }
    assert Marked(t, nl) == MarkAll(s[first..q], nl) + s[q..] by {
      SliceOfSuffix(s, first, q);
    }
    ConcatAssoc(s[..first], MarkAll(s[first..q], nl), s[q..]);
  }

  /** Leaving the loop before it starts: with no line break at or after the start offset,
      `insert(-1, ...)` throws when the buffer has a line break, and the buffer is kept when it
      has none. */
  lemma ExitWithoutBreak(s: string, from: int, nl: char)
    requires IndexOf(s, [nl], from) == -1
    ensures -1 < LastIndexOf(s, [nl]) ==> Continued(s, from, nl) == None
    ensures LastIndexOf(s, [nl]) <= -1 ==> Continued(s, from, nl) == Some(s)
  {
    LastIndexOfOneChar(s, nl);
  }

  /** The loop guard seen on the original: it goes on exactly while `q` is not the last line
      break, and then one turn keeps the invariant. */
  lemma LoopTurn(s: string, first: int, q: int, nl: char)
    requires 0 <= first <= q < |s| && s[q] == nl
    requires |MarkedPrefix(s, first, q, nl)| < LastIndexOf(MarkedPrefix(s, first, q, nl) + s[q..], [nl])
    ensures var q' := IndexOf(s, [nl], q + 1);
      var n := |MarkedPrefix(s, first, q, nl)|;
      var buffer := MarkedPrefix(s, first, q, nl) + s[q..];
      var inserted := buffer[..n] + MARKER + buffer[n..];
      && q < q' < |s| && s[q'] == nl
      && inserted == MarkedPrefix(s, first, q', nl) + s[q'..]
      && IndexOf(inserted, [nl], n + 3) == |MarkedPrefix(s, first, q', nl)|
  {
    GuardTracksOriginal(s, MarkedPrefix(s, first, q, nl), q, nl);
    LoopStep(s, first, q, nl);
  }

  /** Leaving the loop at the original's last line break: the buffer is the specification's. */
  lemma ExitAtLastBreak(s: string, from: int, first: int, q: int, nl: char)
    requires first == IndexOf(s, [nl], from) && 0 <= first <= q < |s| && s[q] == nl
    requires LastIndexOf(MarkedPrefix(s, first, q, nl) + s[q..], [nl]) <= |MarkedPrefix(s, first, q, nl)|
    ensures Continued(s, from, nl) == Some(MarkedPrefix(s, first, q, nl) + s[q..])
  {
    GuardTracksOriginal(s, MarkedPrefix(s, first, q, nl), q, nl);
    LoopExit(s, first, q, nl);
  }

  /** `prepareSolutionLaTeX`: the `&=` marking of the Bezout steps, the reopening of the GCD
      block, the marker-insertion loop over the buffer, and the closing terminator. */
  method PrepareSolutionLaTeX(gcdLaTeX: string, basicSteps: string, nl: char) returns (r: Option<string>)
    ensures r == SolutionLaTeX(gcdLaTeX, basicSteps, nl)
  {
    var solutionBezout := ReplaceAll(basicSteps, "=", "&=");
    solutionBezout := ReplaceLast(solutionBezout, "&=", "=");
    var solutionGCD := gcdLaTeX;
    var newLineReplacementPosition := LastIndexOf(solutionGCD, "{align}") + 9;
    solutionGCD := ReplaceLast(solutionGCD, [nl] + END, MARKER + [nl]);

    var sb := solutionGCD + solutionBezout;
    ghost var s := sb;
    ghost var spec := Continued(s, newLineReplacementPosition, nl);
    assert SolutionLaTeX(gcdLaTeX, basicSteps, nl) == if spec.None? then None else Some(spec.value + END);
    var newlineIndex := IndexOf(sb, [nl], newLineReplacementPosition);
    ghost var first := newlineIndex;
    ghost var q := newlineIndex;  // where the line break at sb[newlineIndex] stands in s
    if newlineIndex != -1 {
      assert s[q] == nl by { OccursAtOneChar(s, nl, q); }
      LoopEntry(s, first, nl);
    }
    while newlineIndex < LastIndexOf(sb, [nl])
      invariant first == IndexOf(s, [nl], newLineReplacementPosition)
      invariant newlineIndex == -1 ==> first == q == -1 && sb == s
      invariant newlineIndex != -1 ==>
        && 0 <= first <= q < |s| && s[q] == nl
        && sb == MarkedPrefix(s, first, q, nl) + s[q..]
        && newlineIndex == |MarkedPrefix(s, first, q, nl)|
      decreases |s| - q
    {
      if newlineIndex < 0 {
        // StringBuilder.insert(-1, ...) throws
        ExitWithoutBreak(s, newLineReplacementPosition, nl);
        return None;
      }
      LoopTurn(s, first, q, nl);
      sb := sb[..newlineIndex] + MARKER + sb[newlineIndex..];
      newlineIndex := IndexOf(sb, [nl], newlineIndex + 3);
      q := IndexOf(s, [nl], q + 1);
    }
    if newlineIndex == -1 {
      ExitWithoutBreak(s, newLineReplacementPosition, nl);
    } else {
      ExitAtLastBreak(s, newLineReplacementPosition, first, q, nl);
    }
    r := Some(sb + END);
  }

  /** With the GCD block ending in a line break and `\end{align}`, as the GCD derivation does,
      reopening it leaves `\\` and a line break in place of that ending (nine characters fewer),
      and the start offset, computed before the trim, lies eleven characters past the trimmed
      block: the loop never touches the GCD part. */
  lemma StartOffsetPastGcdBlock(g: string, nl: char)
    ensures var gcdLaTeX := g + [nl] + END;
      var trimmed := ReplaceLast(gcdLaTeX, [nl] + END, MARKER + [nl]);
      && trimmed == g + MARKER + [nl]
      && |trimmed| == |gcdLaTeX| - 9
      && LastIndexOf(gcdLaTeX, "{align}") + 9 == |trimmed| + 11
  {
    var gcdLaTeX := g + [nl] + END;
    assert gcdLaTeX[|gcdLaTeX| - 7..] == END[4..] == "{align}";
    LastIndexOfSuffix(gcdLaTeX, "{align}");
    ConcatAssoc(g, [nl], END);
    ReplaceLastSuffix(g, [nl] + END, MARKER + [nl]);
    ConcatAssoc(g, MARKER, [nl]);
  }

  /** The whole typeset splice, stated on its parts: the GCD block reopened with `\\`, then the
      Bezout steps with `&` before every `=` but the last, with continuation markers from their
      first line break at index 11 or later up to, not including, the last line break of the
      buffer, then `\end{align}` once. It fails exactly when the marked Bezout steps have no line
      break at index 11 or later. */
  lemma SolutionLaTeXShape(g: string, basicSteps: string, nl: char)
    ensures var t := AmpExceptLast(basicSteps);
      var f := IndexOf(t, [nl], 11);
      SolutionLaTeX(g + [nl] + END, basicSteps, nl) ==
        if f < 0 then None else Some(g + MARKER + [nl] + t[..f] + Marked(t[f..], nl) + END)
  {
    AlignEqualsMarksAllButLast(basicSteps);
    StartOffsetPastGcdBlock(g, nl);
    var t := AmpExceptLast(basicSteps);
    var trimmed := g + MARKER + [nl];
    var s := trimmed + t;
    var f := IndexOf(t, [nl], 11);
    assert IndexOf(s, [nl], |trimmed| + 11) == (if f < 0 then -1 else |trimmed| + f) by {
      IndexOfShift(trimmed, t, [nl], 11);
    }
    if f < 0 {
      assert nl in s by {
        assert trimmed[|g| + 2] == nl;
        assert s[|g| + 2] == trimmed[|g| + 2];
      }
    } else {
      assert s[..|trimmed| + f] + Marked(s[|trimmed| + f..], nl) == trimmed + t[..f] + Marked(t[f..], nl) by {
        CutInSecond(trimmed, t, f);
        ConcatAssoc(trimmed, t[..f], Marked(t[f..], nl));
      }
    }
  }

  /** Constructing a Bezout problem from its GCD problem: the parameters come from the GCD
      problem, the result from the oracle, and the four hooks run in order. */
  method NewBezout(gcdProblem: GcdProblem, o: BezoutOracles, u: Utils) returns (p: Option<BezoutProblem>)
    ensures var expected := SolutionLaTeX(gcdProblem.solutionLaTeX,
                                          u.prepareBasicMath(o.bezoutSteps(gcdProblem.a, gcdProblem.b)),
                                          u.newline);
      && (p.Some? <==> expected.Some?)
      && (p.Some? ==>
           && p.value.gcdProblem == gcdProblem
           && p.value.a == gcdProblem.a && p.value.b == gcdProblem.b
           && p.value.result == o.bezout(gcdProblem.a, gcdProblem.b)
           && p.value.texts == Texts(
                ProblemPlaintext(gcdProblem.a, gcdProblem.b, u.newline),
                ProblemLaTeX(gcdProblem.a, gcdProblem.b),
                SolutionPlaintext(gcdProblem.solutionPlaintext, o.bezoutSteps(gcdProblem.a, gcdProblem.b)),
                expected.value))
  {
    var a, b := gcdProblem.a, gcdProblem.b;
    var result := o.bezout(a, b);
    var problemPlaintext := ProblemPlaintext(a, b, u.newline);
    var problemLaTeX := ProblemLaTeX(a, b);
    var solutionPlaintext := SolutionPlaintext(gcdProblem.solutionPlaintext, o.bezoutSteps(a, b));
    var solutionLaTeX := PrepareSolutionLaTeX(gcdProblem.solutionLaTeX,
                                              u.prepareBasicMath(o.bezoutSteps(a, b)), u.newline);
    match solutionLaTeX
    case None => p := None;
    case Some(text) =>
      p := Some(BezoutProblem(gcdProblem, a, b, result,
                              Texts(problemPlaintext, problemLaTeX, solutionPlaintext, text)));
  }
}
