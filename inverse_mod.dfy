/** `InverseModProblem`: the inverse of b modulo a, read off the Bezout problem it owns, whose
    derivation ends with the final unknown's line rewritten as the inverse. */
module InverseMod {
  import opened JavaText
  import opened MathProblem
  import opened Bezout

  /** `Algorithms.normalizeIntModulo` and `AlgorithmsSteps.buildModLineEnd`, not part of this model. */
  datatype InverseModOracles = InverseModOracles(
    normalizeIntModulo: (int, int) -> int,
    buildModLineEnd: int -> string)

  datatype InverseModProblem = InverseModProblem(
    bezoutProblem: BezoutProblem,
    a: int,
    b: int,
    result: seq<int>,
    texts: Texts)

  /** The left-hand side the plaintext and the typeset patterns look for. */
  const PLAIN_UNKNOWN: string := "x = "
  const LATEX_UNKNOWN: string := "x &= "

  /** `r` is the residue of `x` modulo `m` that lies in [0, m). */
  predicate IsLeastResidue(r: int, x: int, m: int)
  {
    0 < m && 0 <= r < m && (r - x) % m == 0
  }

  /** `r`, in [0, m), is an inverse of `b` modulo `m`: `b * r` is one more than a multiple of
      `m` (and leaves remainder 1 once `m > 1`). */
  predicate IsInverseModulo(r: int, b: int, m: int)
  {
    0 <= r < m && (b * r - 1) % m == 0 && (m > 1 ==> (b * r) % m == 1)
  }

  /** `(a * m + rem) % a == rem` for a remainder in range. */
  lemma ModOfMultiplePlus(a: int, m: int, rem: int)
    requires a > 0 && 0 <= rem < a
    ensures (a * m + rem) % a == rem
  {
    var x := a * m + rem;
    var q := x / a;
    var d := m - q;
    assert x == a * q + x % a;
    assert a * d == x % a - rem;
    assert d >= 1 ==> a * d >= a;
    assert d <= -1 ==> a * d <= -a;
  }

  /** With ax + by = 1, the least residue of y modulo a is an inverse of b modulo a. */
  lemma ResidueOfBezoutYIsInverse(a: int, b: int, x: int, y: int, r: int)
    requires a * x + b * y == 1 && IsLeastResidue(r, y, a)
    ensures IsInverseModulo(r, b, a)
  {
    var k := (r - y) / a;
    assert r - y == a * k;
    assert b * r == b * y + b * (a * k);
    assert b * (a * k) == a * (b * k);
    var m := b * k - x;
    assert b * r - 1 == a * m;
    ModOfMultiplePlus(a, m, 0);
    assert (b * r - 1) % a == 0 by {
      assert b * r - 1 == a * m + 0;
    }
    if a > 1 {
      ModOfMultiplePlus(a, m, 1);
      assert b * r == a * m + 1;
    }
  }

  /** `[b]^(-1)` with the modulus line end and ` = `. */
  function ProblemPlaintext(a: int, b: int, modLineEnd: string): (r: string)
    ensures var head := "[" + IntToString(b) + "]^(-1)";
      && |r| == |head| + |modLineEnd| + 3
      && r[..|head|] == head && r[|head|..|r| - 3] == modLineEnd && r[|r| - 3..] == " = "
  {
    "[" + IntToString(b) + "]^(-1)" + modLineEnd + " = "
  }

  /** The statement names b: the number between the opening `[` and the first `]` is b's
      rendering, and its digits read back as |b|. */
  lemma ProblemPlaintextNamesB(a: int, b: int, modLineEnd: string)
    ensures var r := ProblemPlaintext(a, b, modLineEnd);
      var k := IndexOf(r, "]", 1);
      var d := if b < 0 then 1 else 0;
      && k == 1 + |IntToString(b)| && r[1..k] == IntToString(b)
      && (r[1] == '-' <==> b < 0)
      && DigitsValue(r[1 + d..k]) == (if b < 0 then -b else b)
  {
    var t := IntToString(b);
    var r := ProblemPlaintext(a, b, modLineEnd);
    var y := "]^(-1)" + modLineEnd + " = ";
    assert r == "[" + t + y by {
      ConcatAssoc("[" + t, "]^(-1)", modLineEnd);
      ConcatAssoc("[" + t, "]^(-1)" + modLineEnd, " = ");
    }
    Infix("[", t, y);
    assert "]" == [']'];
    NumberEndsAt(r, 1, b, ']');
    IntToStringValue(b);
    var d := if b < 0 then 1 else 0;
    SliceOfSlice(r, 1, 1 + d, 1 + |t|);
  }

  /** `\[[b]^{-1}_{a} = \]\\`. */
  function ProblemLaTeX(a: int, b: int): (r: string)
    ensures var head := @"\[[" + IntToString(b) + "]^{-1}_{";
      var tail := @"} = \]\\";
      && |r| == |head| + |IntToString(a)| + |tail|
      && r[..|head|] == head && r[|head|..|r| - |tail|] == IntToString(a) && r[|r| - |tail|..] == tail
  {
    @"\[[" + IntToString(b) + "]^{-1}_{" + IntToString(a) + @"} = \]\\"
  }

  /** The typeset statement names b: its rendering runs from after the opening `\[[` to the first
      `]`. */
  lemma ProblemLaTeXNamesB(a: int, b: int)
    ensures var r := ProblemLaTeX(a, b);
      var k := IndexOf(r, "]", 3);
      k == 3 + |IntToString(b)| && r[3..k] == IntToString(b)
  {
    var tb, ta := IntToString(b), IntToString(a);
    var r := ProblemLaTeX(a, b);
    var y := "]^{-1}_{" + ta + @"} = \]\\";
    assert r == @"\[[" + tb + y by {
      ConcatAssoc(@"\[[" + tb, "]^{-1}_{", ta);
      ConcatAssoc(@"\[[" + tb, "]^{-1}_{" + ta, @"} = \]\\");
    }
    Infix(@"\[[", tb, y);
    assert "]" == [']'];
    NumberEndsAt(r, 3, b, ']');
  }

  /** The typeset statement names a: its rendering runs from after `_{` to the next `}`. */
  lemma ProblemLaTeXNamesA(a: int, b: int)
    ensures var r := ProblemLaTeX(a, b);
      var head := @"\[[" + IntToString(b) + "]^{-1}_{";
      var e := IndexOf(r, "}", |head|);
      e == |head| + |IntToString(a)| && r[|head|..e] == IntToString(a)
  {
    var head := @"\[[" + IntToString(b) + "]^{-1}_{";
    var r := ProblemLaTeX(a, b);
    Infix(head, IntToString(a), @"} = \]\\");
    assert "}" == ['}'];
    NumberEndsAt(r, |head|, a, '}');
  }

  /** `prepareSolutionMatcher`: the text matched by the pattern `lit` followed by `.*`, from the
      first occurrence of `lit`. With DOTALL `.*` runs to the end of the text, otherwise to the end
      of the line (the line break being the only line terminator). `None` is the exception
      `group(0)` throws when `find()` found nothing. */
  function SolutionMatcher(s: string, lit: string, dotAll: bool, nl: char): (r: Option<string>)
    requires |lit| > 0
    ensures r.None? <==> forall j :: !OccursAt(s, lit, j)
    ensures r.Some? ==>
      var i := IndexOf(s, lit, 0);
      && 0 <= i && i + |r.value| <= |s| && s[i..i + |r.value|] == r.value
      && |lit| <= |r.value| && r.value[..|lit|] == lit
      && (dotAll ==> i + |r.value| == |s|)
      && (!dotAll ==> nl !in r.value[|lit|..] && (i + |r.value| == |s| || s[i + |r.value|] == nl))
  {
    var i := IndexOf(s, lit, 0);
    if i < 0 then
      assert forall j :: !OccursAt(s, lit, j) by {
        forall j ensures !OccursAt(s, lit, j) {
          if 0 <= j {
            assert 0 <= j && (i == -1 || j < i);
          }
        }
      }
      None
    else
      assert OccursAt(s, lit, i);
      var end := if dotAll then |s| else LineEnd(s, i + |lit|, nl);
      SliceOfSlice(s, i, i + |lit|, end);
      Some(s[i..end])
  }

  /** Where `.*` without DOTALL stops: the next line break at or after `from`, or the end. */
  function LineEnd(s: string, from: nat, nl: char): (end: nat)
    requires from <= |s|
    ensures from <= end <= |s| && nl !in s[from..end]
    ensures end == |s| || s[end] == nl
  {
    var e := IndexOf(s, [nl], from);
    assert e < 0 || s[e] == nl by { OccursAtOneChar(s, nl, e); }
    var end := if e < 0 then |s| else e;
    assert forall j :: from <= j < end ==> s[j] != nl by {
      forall j | from <= j < end ensures s[j] != nl {
        OccursAtOneChar(s, nl, j);
      }
    }
    end
  }

  /** The final plaintext line: the problem line without its last line break, the result, a line
      break. */
  function InverseLine(problemPlaintext: string, result: int, nl: char): string
  {
    ReplaceLast(problemPlaintext, [nl], "") + IntToString(result) + [nl]
  }

  /** `prepareSolutionPlaintext`: the DOTALL match runs from the first `x = ` to the end, so the
      Bezout plaintext is cut at its first `x = ` and the inverse line put in its place. */
  function SolutionPlaintext(solutionBezout: string, problemPlaintext: string, result: int, nl: char): (r: Option<string>)
    ensures r.None? <==> forall j :: !OccursAt(solutionBezout, PLAIN_UNKNOWN, j)
    ensures r.Some? ==>
      var i := IndexOf(solutionBezout, PLAIN_UNKNOWN, 0);
      0 <= i && r.value == solutionBezout[..i] + InverseLine(problemPlaintext, result, nl)
  {
    match SolutionMatcher(solutionBezout, PLAIN_UNKNOWN, true, nl)
    case None => None
    case Some(m) =>
      var i := IndexOf(solutionBezout, PLAIN_UNKNOWN, 0);
      assert OccursAt(solutionBezout, m, i);
      assert solutionBezout[..i] + m == solutionBezout;
      Some(ReplaceLast(solutionBezout, m, InverseLine(problemPlaintext, result, nl)))
  }

  /** The typeset inverse line `[b]^{-1}_{a} &= result`. */
  function InverseLineLaTeX(a: int, b: int, result: int): string
  {
    "[" + IntToString(b) + "]^{-1}_{" + IntToString(a) + "} &= " + IntToString(result)
  }

  /** `prepareSolutionLaTeX`: the line of the first `x &= `, up to its line end, is looked up again
      from the end, and only that last copy is replaced by the inverse line. */
  function SolutionLaTeX(solutionBezout: string, a: int, b: int, result: int, nl: char): (r: Option<string>)
    ensures r.None? <==> forall j :: !OccursAt(solutionBezout, LATEX_UNKNOWN, j)
  {
    match SolutionMatcher(solutionBezout, LATEX_UNKNOWN, false, nl)
    case None => None
    case Some(m) => Some(ReplaceLast(solutionBezout, m, InverseLineLaTeX(a, b, result)))
  }

  /** The typeset splice replaces the last copy of the matched line, which is at or after the
      first `x &= `; the text before and after that copy is unchanged. */
  lemma SolutionLaTeXReplacesLastCopy(s: string, a: int, b: int, result: int, nl: char)
    requires exists j :: OccursAt(s, LATEX_UNKNOWN, j)
    ensures var m := SolutionMatcher(s, LATEX_UNKNOWN, false, nl);
      var j := LastIndexOf(s, m.value);
      && m.Some? && IndexOf(s, LATEX_UNKNOWN, 0) <= j && OccursAt(s, m.value, j)
      && SolutionLaTeX(s, a, b, result, nl) == Some(s[..j] + InverseLineLaTeX(a, b, result) + s[j + |m.value|..])
  {
    var m := SolutionMatcher(s, LATEX_UNKNOWN, false, nl).value;
    var i := IndexOf(s, LATEX_UNKNOWN, 0);
    assert OccursAt(s, m, i);
  }

  /** The plaintext splice keeps the GCD stage: when no `x = ` starts inside the GCD derivation,
      the inverse problem's plaintext begins with that derivation unchanged. */
  lemma PlaintextKeepsGcdStage(solutionGCD: string, steps: string, problemPlaintext: string, result: int, nl: char)
    requires forall j :: 0 <= j < |solutionGCD| ==> !OccursAt(solutionGCD + steps, PLAIN_UNKNOWN, j)
    ensures var r := SolutionPlaintext(solutionGCD + steps, problemPlaintext, result, nl);
      r.Some? ==> solutionGCD <= r.value
  {
    var s := solutionGCD + steps;
    var r := SolutionPlaintext(s, problemPlaintext, result, nl);
    if r.Some? {
      var i := IndexOf(s, PLAIN_UNKNOWN, 0);
      assert |solutionGCD| <= i;
      assert s[..i][..|solutionGCD|] == solutionGCD;
    }
  }

  /** Constructing the problem from the Bezout problem it owns (`setVariables`, then the hooks in
      order). `None` when a solution hook's pattern is missing. */
  function NewInverseMod(bezoutProblem: BezoutProblem, o: InverseModOracles, u: Utils): (p: Option<InverseModProblem>)
    requires |bezoutProblem.result| == 3
    ensures p.Some? <==>
      && (exists j :: OccursAt(bezoutProblem.texts.solutionPlaintext, PLAIN_UNKNOWN, j))
      && (exists j :: OccursAt(bezoutProblem.texts.solutionLaTeX, LATEX_UNKNOWN, j))
    ensures p.Some? ==>
      var a, b := bezoutProblem.gcdProblem.a, bezoutProblem.gcdProblem.b;
      var problemPlaintext := ProblemPlaintext(a, b, o.buildModLineEnd(a));
      && p.value.bezoutProblem == bezoutProblem
      && p.value.a == a && p.value.b == b
      && p.value.result == [o.normalizeIntModulo(bezoutProblem.result[2], a)]
      && p.value.texts == Texts(
           problemPlaintext,
           ProblemLaTeX(a, b),
           SolutionPlaintext(bezoutProblem.texts.solutionPlaintext, problemPlaintext, p.value.result[0], u.newline).value,
           SolutionLaTeX(bezoutProblem.texts.solutionLaTeX, a, b, p.value.result[0], u.newline).value)
  {
    var a, b := bezoutProblem.gcdProblem.a, bezoutProblem.gcdProblem.b;
    var result := [o.normalizeIntModulo(bezoutProblem.result[2], a)];
    var problemPlaintext := ProblemPlaintext(a, b, o.buildModLineEnd(a));
    var problemLaTeX := ProblemLaTeX(a, b);
    var solutionPlaintext := SolutionPlaintext(bezoutProblem.texts.solutionPlaintext, problemPlaintext, result[0], u.newline);
    var solutionLaTeX := SolutionLaTeX(bezoutProblem.texts.solutionLaTeX, a, b, result[0], u.newline);
    if solutionPlaintext.None? || solutionLaTeX.None? then None
    else Some(InverseModProblem(bezoutProblem, a, b, result,
                                Texts(problemPlaintext, problemLaTeX, solutionPlaintext.value, solutionLaTeX.value)))
  }

  /** With coprime a, b as documented, the Bezout identity from the oracle, and
      `normalizeIntModulo` giving the least residue, the result is the inverse of b modulo a. */
  lemma ResultIsInverse(bezoutProblem: BezoutProblem, o: InverseModOracles, u: Utils)
    requires var a, b := bezoutProblem.gcdProblem.a, bezoutProblem.gcdProblem.b;
      0 < a && BezoutIdentity(a, b, bezoutProblem.result) && Gcd(a, b) == 1
    requires var a, y := bezoutProblem.gcdProblem.a, bezoutProblem.result[2];
      IsLeastResidue(o.normalizeIntModulo(y, a), y, a)
    ensures var p := NewInverseMod(bezoutProblem, o, u);
      p.Some? ==> IsInverseModulo(p.value.result[0], p.value.b, p.value.a)
  {
    var a, b := bezoutProblem.gcdProblem.a, bezoutProblem.gcdProblem.b;
    var x, y := bezoutProblem.result[1], bezoutProblem.result[2];
    var p := NewInverseMod(bezoutProblem, o, u);
    if p.Some? {
      assert p.value.result[0] == o.normalizeIntModulo(y, a) && p.value.a == a && p.value.b == b;
      assert p.value.a * x + p.value.b * y == 1;
      ResidueOfBezoutYIsInverse(p.value.a, p.value.b, x, y, p.value.result[0]);
    }
  }
}
