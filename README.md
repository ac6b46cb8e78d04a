# Numbermat derivation splicing, modelled in Dafny

Numbermat generates number-theory exercises with worked solutions, each rendered as plaintext and
as LaTeX. Some problem kinds are built on another problem and reuse its rendered derivation
instead of rebuilding it:

- a Bezout problem (find d, x, y with ax + by = d) owns a GCD problem;
- an inverse-modulo problem owns a Bezout problem.

This project models the string surgery that joins those derivations, plus the small typeset
fix-ups of the permutation-order and Euler-phi problems. It proves what the surgery promises.

- `java_text.dfy` (`JavaText`): the Java text operations the problem classes use, over `string`:
  - `indexOf` and `lastIndexOf`;
  - `replaceLast`, as a literal replacement of the last occurrence;
  - `replaceAll` with a pattern free of metacharacters;
  - decimal rendering of an `int`.
- `typeset.dfy` (`Typeset`): two specifications for an aligned LaTeX block.
  - `&` before every `=` but the last (`AmpExceptLast`).
  - `\\` before every line break but the last (`Marked`). It is characterised through the list of
    lines the text splits into.
- `math_problem.dfy` (`MathProblem`): what every problem shares:
  - difficulty and bounds;
  - the four rendered texts;
  - the `Utils` typesetting passes, which stay uninterpreted;
  - the line separator.
- `bezout.dfy` (`Bezout`): the Bezout derivation.
  - The plaintext is the GCD plaintext with the Bezout steps appended.
  - The typeset splice is an imperative method with the source's `StringBuilder` loop.
  - That method is proved equal to a specification function.
  - The specification function is characterised by lemmas.
- `inverse_mod.dfy` (`InverseMod`): the inverse of b modulo a.
  - The result is the Bezout `y` reduced modulo a, proved to be the inverse.
  - The regex match of the final-unknown line: DOTALL in plaintext, single-line in LaTeX.
  - The replacement of that line by the inverse statement.
- `permutation_order.dfy` (`PermutationOrder`) and `euler_phi.dfy` (`EulerPhi`):
  - the composition-symbol rewrite;
  - the conditional demotion of the last `&=`;
  - the fixed n = 1 block;
  - the defensive copy of the caller's permutation;
  - the difficulty bounds of the random constructors.

The number-theory routines, step builders and `Utils` passes, which this model leaves
uninterpreted, appear as function-valued fields of oracle records (`BezoutOracles`, `InverseModOracles`, `PermutationOracles`, `EulerPhiOracles`,
`Utils`). The lemmas that need a documented property of one (the Bezout identity, the range of
`normalizeIntModulo`, the range of `randInt`) state it as a precondition. `Utils.NEWLINE` is a
one-character parameter. A Java exception on a missing pattern becomes `None`:
- `StringBuilder.insert(-1, …)` in the Bezout loop;
- `Matcher.group` after a failed `find`.

The typeset Bezout splice starts marking lines at `lastIndexOf("{align}") + 9`. That offset is taken
in the GCD text before the trim. For a GCD block ending in a line break and `\end{align}`, it lies
eleven characters past the end of the trimmed GCD text (`Bezout.StartOffsetPastGcdBlock`). The offset
therefore lands eleven characters past the reopened GCD block, not right after it. Consequently:
- a line break in the first eleven characters of the Bezout steps gets no marker;
- when the marked Bezout steps have no line break at index 11 or later, the loop reaches
  `insert(-1, …)` and construction fails (`Bezout.SolutionLaTeXShape`).

## Model

| member | source | states |
|---|---|---|
| JavaText.IndexOf | src/cz/muni/fi/Numbermat/Problems/BezoutProblem.java:108 | the result is -1 or the first occurrence at or after `from`; no occurrence lies between `from` and the result |
| JavaText.LastIndexOf | src/cz/muni/fi/Numbermat/Problems/BezoutProblem.java:102 | the result is -1 or an occurrence with no occurrence after it |
| JavaText.ReplaceLast | src/cz/muni/fi/Numbermat/Problems/BezoutProblem.java:103-104 | without an occurrence the text is unchanged; otherwise exactly the last occurrence is replaced and the text around it kept |
| JavaText.ReplaceAll | src/cz/muni/fi/Numbermat/Problems/BezoutProblem.java:98 | a text without the pattern is returned unchanged, and a one-character pattern is gone afterwards when the replacement does not contain it |
| JavaText.ReplaceAllOneCharLength | src/cz/muni/fi/Numbermat/Problems/PermutationOrderProblem.java:96 | replacing a one-character pattern keeps every other character: the length grows by the replacement's length less one for each occurrence |
| JavaText.ReplaceAllOneCharAppend | src/cz/muni/fi/Numbermat/Problems/BezoutProblem.java:98 | replacing a one-character pattern distributes over concatenation |
| JavaText.IntToString | src/cz/muni/fi/Numbermat/Problems/InverseModProblem.java:103 | the rendering is non-empty, starts with `-` exactly for negative numbers, is otherwise digits, and has no leading zero |
| JavaText.IntToStringValue | src/cz/muni/fi/Numbermat/Problems/InverseModProblem.java:103 | the digits after the sign read back as the magnitude of the number |
| JavaText.NatToStringRoundTrip | src/cz/muni/fi/Numbermat/Problems/InverseModProblem.java:103 | reading the rendered digits back gives the number |
| Typeset.Lines | src/cz/muni/fi/Numbermat/Problems/BezoutProblem.java:108-112 | a text splits into at least one line, none of which holds a line break |
| Typeset.JoinLines | src/cz/muni/fi/Numbermat/Problems/BezoutProblem.java:108-112 | joining the lines with the line break gives the text back |
| Typeset.MarkAllJoinsLines | src/cz/muni/fi/Numbermat/Problems/BezoutProblem.java:110 | inserting `\\` before every line break is joining the lines with `\\` and a line break |
| Typeset.MarkedJoinsLines | src/cz/muni/fi/Numbermat/Problems/BezoutProblem.java:108-112 | cut at its last line break, a text has the lines of the part before it plus the last line; marked, the earlier lines are joined with `\\` and a line break, and the last line break stays bare |
| Typeset.AlignEqualsMarksAllButLast | src/cz/muni/fi/Numbermat/Problems/BezoutProblem.java:98-99 | the `replaceAll("=", "&=")`/`replaceLast("&=", "=")` pair equals the reference that puts `&` before every `=` with a later `=` |
| Typeset.AmpExceptLastBeforeLast | src/cz/muni/fi/Numbermat/Problems/BezoutProblem.java:98-99 | the last `=` stays bare and the text after it is unchanged, while every earlier `=` becomes `&=` |
| Typeset.AmpBeforeEveryEqualsButLast | src/cz/muni/fi/Numbermat/Problems/BezoutProblem.java:98-99 | in the result every `=` that has a later `=` is immediately preceded by `&` |
| Typeset.EveryEqualsMarked | src/cz/muni/fi/Numbermat/Problems/BezoutProblem.java:98 | after `replaceAll("=", "&=")` every `=` is immediately preceded by `&` |
| Typeset.AmpExceptLastKeepsEquals | src/cz/muni/fi/Numbermat/Problems/BezoutProblem.java:98-99 | `=` occurs in the result exactly when it occurs in the input; a text without `=` is unchanged; otherwise the result is longer by the number of `=` less one, one `&` for each `=` but the last |
| Bezout.SolutionPlaintext | src/cz/muni/fi/Numbermat/Problems/BezoutProblem.java:85-91 | the GCD plaintext is an unchanged prefix and the Bezout steps follow verbatim |
| Bezout.PrepareSolutionLaTeX | src/cz/muni/fi/Numbermat/Problems/BezoutProblem.java:94-114 | the `StringBuilder` loop computes exactly the specification: the GCD block reopened, `&=` marking, `\\` before every line break from the first one at or after the start offset up to but not including the buffer's last, `\end{align}` once; `None` where `insert(-1)` throws |
| Bezout.ExitWithoutBreak | src/cz/muni/fi/Numbermat/Problems/BezoutProblem.java:107-110 | with no line break at or after the start offset, the splice fails when the buffer has a line break (`insert(-1)` throws) and keeps the buffer when it has none |
| Bezout.LoopTurn | src/cz/muni/fi/Numbermat/Problems/BezoutProblem.java:109-111 | while the guard holds, the current line break is not the original's last; inserting `\\` before it and searching from three characters further finds the original's next line break, with the buffer the original marked up to it |
| Bezout.ExitAtLastBreak | src/cz/muni/fi/Numbermat/Problems/BezoutProblem.java:109-113 | when the guard fails the current line break is the original's last, and the buffer is the specification's result |
| Bezout.StartOffsetPastGcdBlock | src/cz/muni/fi/Numbermat/Problems/BezoutProblem.java:101-104 | the GCD block's final line break and `\end{align}` become `\\` and a line break, 9 characters fewer; the start offset lies 11 characters past the trimmed GCD text, so the GCD part is never modified |
| Bezout.SolutionLaTeXShape | src/cz/muni/fi/Numbermat/Problems/BezoutProblem.java:96-113 | the whole typeset derivation is the reopened GCD block, then the `&`-marked steps with `\\` before their line breaks from index 11 up to, not including, the last one, then `\end{align}`; it fails exactly when the marked steps have no line break at index 11 or later |
| Bezout.NewBezout | src/cz/muni/fi/Numbermat/Problems/BezoutProblem.java:57-62 | a and b come from the GCD problem and the result from `bezout(a, b)`; the problem exists exactly when the typeset splice succeeds, and its texts are the four hooks' outputs |
| InverseMod.ResidueOfBezoutYIsInverse | src/cz/muni/fi/Numbermat/Problems/InverseModProblem.java:64-66 | with ax + by = 1, the least residue of y modulo a is an inverse of b modulo a |
| InverseMod.ResultIsInverse | src/cz/muni/fi/Numbermat/Problems/InverseModProblem.java:53-66 | with a, b coprime, the Bezout identity, and `normalizeIntModulo` returning the least residue, the result r lies in [0, a) and b·r ≡ 1 (mod a) |
| InverseMod.NewInverseMod | src/cz/muni/fi/Numbermat/Problems/InverseModProblem.java:60-68 | a and b are read from the GCD problem inside the Bezout problem; the result is the one-element list of the normalised `y`; construction fails exactly when one of the two patterns is missing; the four texts are the hooks' outputs, with the plaintext solution built from the plaintext statement |
| InverseMod.ProblemPlaintext | src/cz/muni/fi/Numbermat/Problems/InverseModProblem.java:71-75 | the statement is `[b]^(-1)`, then exactly the modulus line end, then ` = `, with nothing else |
| InverseMod.ProblemPlaintextNamesB | src/cz/muni/fi/Numbermat/Problems/InverseModProblem.java:72 | the text between `[` and the first `]` is b's rendering, whose sign and digits read back as b |
| InverseMod.ProblemLaTeX | src/cz/muni/fi/Numbermat/Problems/InverseModProblem.java:78-82 | the typeset statement is `\[[b]^{-1}_{`, then exactly a's rendering, then `} = \]\\`, with nothing else |
| InverseMod.ProblemLaTeXNamesB | src/cz/muni/fi/Numbermat/Problems/InverseModProblem.java:79 | b's rendering runs from after `\[[` to the first `]` |
| InverseMod.ProblemLaTeXNamesA | src/cz/muni/fi/Numbermat/Problems/InverseModProblem.java:80 | a's rendering runs from after `_{` to the next `}` |
| InverseMod.SolutionMatcher | src/cz/muni/fi/Numbermat/Problems/InverseModProblem.java:107-111 | no match exactly when the literal does not occur; otherwise the match starts at the first occurrence, begins with the literal and runs to the end of the text (DOTALL) or to the end of its line (no line break after the literal, followed by a line break or the end) |
| InverseMod.LineEnd | src/cz/muni/fi/Numbermat/Problems/InverseModProblem.java:99 | `.*` without DOTALL stops at the next line break or the end of the text, and crosses no line break |
| InverseMod.SolutionPlaintext | src/cz/muni/fi/Numbermat/Problems/InverseModProblem.java:85-94 | fails exactly when `x = ` does not occur; otherwise it is the Bezout plaintext cut at its first `x = `, then the problem line without its last line break, the result and a line break |
| InverseMod.PlaintextKeepsGcdStage | src/cz/muni/fi/Numbermat/Problems/InverseModProblem.java:85-94 | when no `x = ` starts inside the GCD derivation, the inverse problem's plaintext begins with that derivation unchanged |
| InverseMod.SolutionLaTeX | src/cz/muni/fi/Numbermat/Problems/InverseModProblem.java:97-105 | fails exactly when `x &= ` does not occur |
| InverseMod.SolutionLaTeXReplacesLastCopy | src/cz/muni/fi/Numbermat/Problems/InverseModProblem.java:97-105 | only the last copy of the matched line, which lies at or after the first `x &= `, is replaced by `[b]^{-1}_{a} &= result`; the text before and after it is unchanged |
| PermutationOrder.SizeBounds | src/cz/muni/fi/Numbermat/Problems/PermutationOrderProblem.java:42-44 | permutation sizes are 2..5 (easy), 6..8 (medium), 9..9 (hard) |
| PermutationOrder.RandomSizeWithinBounds | src/cz/muni/fi/Numbermat/Problems/PermutationOrderProblem.java:41-53 | with `randInt` keeping to its inclusive range, the random problem's permutation is drawn at a size within the difficulty's bounds |
| PermutationOrder.ProblemPlaintext | src/cz/muni/fi/Numbermat/Problems/PermutationOrderProblem.java:70-77 | the statement is exactly the prompt, the permutation's name and ` = `, a line break, and the matrix |
| PermutationOrder.MatrixFollowsFirstBreak | src/cz/muni/fi/Numbermat/Problems/PermutationOrderProblem.java:72-76 | with a line separator absent from the prompt and the name, the matrix is everything after the statement's first line break |
| PermutationOrder.ProblemLaTeX | src/cz/muni/fi/Numbermat/Problems/PermutationOrderProblem.java:79-87 | the typeset statement is exactly the typeset prompt, a line break, and the display-math pass over the prepared matrix |
| PermutationOrder.SolutionLaTeX | src/cz/muni/fi/Numbermat/Problems/PermutationOrderProblem.java:94-100 | with at most one cycle the typeset solution is exactly the align pass's output on `\sigma = ` and the rewritten plaintext |
| PermutationOrder.CircRewritten | src/cz/muni/fi/Numbermat/Problems/PermutationOrderProblem.java:96 | every composition symbol in the plaintext derivation is replaced: none is left, and each has become the five characters of `\circ` |
| PermutationOrder.DemoteLast | src/cz/muni/fi/Numbermat/Problems/PermutationOrderProblem.java:99 | demoting the last `&=` to `=` keeps the rest of the text and leaves no `&=` from that position on; without `&=` the text is unchanged |
| PermutationOrder.DemotesLastAlignment | src/cz/muni/fi/Numbermat/Problems/PermutationOrderProblem.java:98-99 | with more than one cycle the last `&=` becomes `=`, the rest is kept and no `&=` is left from there on; without `&=` nothing changes |
| PermutationOrder.NewPermutationOrder | src/cz/muni/fi/Numbermat/Problems/PermutationOrderProblem.java:63-68 | the problem holds the permutation and the one-element result `permutationOrder(permutation)`; the typeset solution is computed from the plaintext solution |
| PermutationOrder.FromList | src/cz/muni/fi/Numbermat/Problems/PermutationOrderProblem.java:59-64 | the problem built from the caller's list holds a copy of its contents |
| PermutationOrder.CallerUpdateIsNotSeen | src/cz/muni/fi/Numbermat/Problems/PermutationOrderProblem.java:64 | changing the caller's list after construction leaves the problem as it was built |
| EulerPhi.NBounds | src/cz/muni/fi/Numbermat/Problems/EulerPhiProblem.java:41-43 | n is 1..99 (easy), 100..999 (medium), 1000..2999 (hard) |
| EulerPhi.RandomNWithinBounds | src/cz/muni/fi/Numbermat/Problems/EulerPhiProblem.java:40-51 | with `randInt` keeping to its inclusive range, the random n lies in the difficulty's bounds, and only the easy level can draw n = 1 |
| EulerPhi.SolutionLaTeX | src/cz/muni/fi/Numbermat/Problems/EulerPhiProblem.java:83-92 | n = 1 gives the fixed block; any other n gives the align pass over the basic pass over the plaintext, in that order |
| EulerPhi.BranchDependsOnlyOnN | src/cz/muni/fi/Numbermat/Problems/EulerPhiProblem.java:85 | for n = 1 the plaintext derivation is not read; otherwise it is read only through the basic pass |
| EulerPhi.OneBlockShape | src/cz/muni/fi/Numbermat/Problems/EulerPhiProblem.java:85-87 | the n = 1 block has its only line break right after `\begin{align}`, none before `\end{align}`, and its line keeps `&=` |
| EulerPhi.NewEulerPhi | src/cz/muni/fi/Numbermat/Problems/EulerPhiProblem.java:61-82 | the result is the one-element list `eulerPhi(n)`; the typeset statement is display math over the plaintext statement, so the plaintext hook runs first |

## Left out

- `Algorithms.*`, `AlgorithmsSteps.*` and the `Utils.prepare*Math`/`prepareMatrix` passes are not part of this model. They are uninterpreted fields of the oracle records, and only the documented properties used above are assumed, as preconditions.
- `BinomialCongruenceProblem` is not modelled. Its own logic is a rejection-sampling loop over random oracles with no termination measure, followed by a chain of uninterpreted passes.
- `MathProblem.prepareAll`, `initBounds`, `Config` and the `Pair` bounds plumbing are not part of this model. The hook order appears as argument order (`problemPlaintext` passed to `InverseMod.SolutionPlaintext`, `SolutionLaTeX` computed from the plaintext solution), and `initBounds` as `MathProblem.InitBounds`.
- Randomness is the parameter `randInt`. The random constructors of the Bezout and GCD problems, which only delegate to the GCD problem, are not modelled; the GCD problem itself appears only as the four fields Bezout reads.
- `Utils.NEWLINE` is modelled as a single character. A two-character separator (`\r\n`) would change the loop's `+ 3` step and is not covered.
- JavaText.ReplaceLast: models `Utils.replaceLast` as a literal replacement. If the utility is regex-based, a matched line holding regex metacharacters would be treated differently, and that is not captured.
- JavaText.ReplaceAll: models `String.replaceAll` for metacharacter-free patterns. Its contract and `JavaText.ReplaceAllOneCharLength` state the replacement of every occurrence only for one-character patterns (`=` and the composition symbol, a single character); the exact result for longer patterns is given by the definition alone, and general regular expressions are not modelled.
- InverseMod.SolutionMatcher: Java's other line terminators (carriage return, next-line, line and paragraph separators) are not treated as line ends; the line separator is the only one.
- Java `int` overflow is not modelled: numbers are unbounded, and `IntToString` renders the mathematical value.
- Bezout.ProblemPlaintext and Bezout.ProblemLaTeX are plain concatenations of fixed Czech prompts and the parameters; they carry no contract.
- PermutationOrder.RandomSizeWithinBounds: `randPermutation` is uninterpreted, so the lemma bounds the requested size, not the length of the returned permutation.
- InverseMod.ResultIsInverse: for a = 1 the only claim is that b·r − 1 is a multiple of a, since every number is congruent to 1 modulo 1.
- Java indexes strings in UTF-16 code units, while a Dafny `char` is one code point. The `+ 9` and `+ 3` offsets and all indices agree with Java only while the texts stay within the Basic Multilingual Plane; the Czech prompts and the composition symbol do.
