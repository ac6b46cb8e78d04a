/** The Java `String`/`StringBuilder` searches and replacements the problem classes rely on,
    stated over `string` (= `seq<char>`), plus the decimal rendering `StringBuilder.append(int)`. */
module JavaText {

  datatype Option<T> = None | Some(value: T)

  /** `pat` occurs in `s` starting at index `i`. */
  predicate OccursAt(s: string, pat: string, i: int)
  {
    0 <= i && i + |pat| <= |s| && s[i..i + |pat|] == pat
  }

  /** `indexOf(pat, from)`: the first occurrence of `pat` at or after `from`, or -1;
      a negative `from` searches from the start. */
  function IndexOf(s: string, pat: string, from: int): (r: int)
    requires |pat| > 0
    ensures r == -1 || (from <= r && OccursAt(s, pat, r))
    ensures forall j :: from <= j && (r == -1 || j < r) ==> !OccursAt(s, pat, j)
    decreases |s| - from
  {
    if from < 0 then IndexOf(s, pat, 0)
    else if from + |pat| > |s| then -1
    else if s[from..from + |pat|] == pat then from
    else IndexOf(s, pat, from + 1)
  }

  /** The last occurrence of `pat` starting at or before `k`, or -1. */
  function LastAtOrBefore(s: string, pat: string, k: int): (r: int)
    ensures r == -1 || (r <= k && OccursAt(s, pat, r))
    ensures forall j :: r < j <= k ==> !OccursAt(s, pat, j)
    decreases k
  {
    if k < 0 then -1
    else if OccursAt(s, pat, k) then k
    else LastAtOrBefore(s, pat, k - 1)
  }

  /** `lastIndexOf(pat)`: the last occurrence of `pat`, or -1. */
  function LastIndexOf(s: string, pat: string): (r: int)
    ensures r == -1 || OccursAt(s, pat, r)
    ensures forall j :: r < j ==> !OccursAt(s, pat, j)
  {
    LastAtOrBefore(s, pat, |s| - |pat|)
  }

  /** `Utils.replaceLast(s, target, replacement)`, read as a literal (not a regular expression)
      replacement of the last occurrence; `s` is returned unchanged when `target` does not occur. */
  function ReplaceLast(s: string, target: string, replacement: string): (r: string)
    ensures (forall j :: !OccursAt(s, target, j)) ==> r == s
    ensures forall j :: OccursAt(s, target, j) && (forall k :: j < k ==> !OccursAt(s, target, k)) ==>
              r == s[..j] + replacement + s[j + |target|..]
  {
    var i := LastIndexOf(s, target);
    if i < 0 then s else s[..i] + replacement + s[i + |target|..]
  }

  /** The number of times `c` occurs in `s`. */
  function Count(s: string, c: char): (n: nat)
    ensures n <= |s|
    ensures n == 0 <==> c !in s
  {
    if s == [] then 0 else (if s[0] == c then 1 else 0) + Count(s[1..], c)
  }

  lemma SuccTimes(n: int, m: int)
    ensures (n + 1) * m == n * m + m
  {
  }

  /** `String.replaceAll(pat, replacement)` for a pattern without regular-expression
      metacharacters: non-overlapping occurrences, scanned left to right. A text without the
      pattern is returned as it is, and a one-character pattern is gone afterwards when the
      replacement does not hold it. */
  function ReplaceAll(s: string, pat: string, replacement: string): (r: string)
    requires |pat| > 0
    ensures (forall j :: !OccursAt(s, pat, j)) ==> r == s
    ensures |pat| == 1 && pat[0] !in replacement ==> pat[0] !in r
    decreases |s|
  {
    if |s| < |pat| then s
    else if s[..|pat|] == pat then
      assert OccursAt(s, pat, 0);
      replacement + ReplaceAll(s[|pat|..], pat, replacement)
    else
      assert |pat| == 1 ==> s[..1] == [s[0]] && pat == [pat[0]];
      assert forall j :: OccursAt(s[1..], pat, j) ==> OccursAt(s, pat, j + 1) by {
        forall j | OccursAt(s[1..], pat, j) ensures OccursAt(s, pat, j + 1) {
          assert s[1..][j..j + |pat|] == s[j + 1..j + 1 + |pat|];
        }
      }
      [s[0]] + ReplaceAll(s[1..], pat, replacement)
  }

  /** Cutting a text at `i` and joining the halves gives it back. */
  lemma SplitAt(s: string, i: int)
    requires 0 <= i <= |s|
    ensures s[..i] + s[i..] == s
  {
  }

  /** Slicing the suffix from `i` at `j - i` cuts the original at `j`. */
  lemma SliceOfSuffix(s: string, i: int, j: int)
    requires 0 <= i <= j <= |s|
    ensures s[i..][..j - i] == s[i..j] && s[i..][j - i..] == s[j..]
  {
  }

  /** A suffix cut again at `j` is the slice up to `j` followed by the suffix from `j`. */
  lemma SplitBetween(s: string, i: int, j: int)
    requires 0 <= i <= j <= |s|
    ensures s[i..] == s[i..j] + s[j..]
  {
  }

  /** Cutting `x + y` inside `y`. */
  lemma CutInSecond(x: string, y: string, i: int)
    requires 0 <= i <= |y|
    ensures (x + y)[..|x| + i] == x + y[..i] && (x + y)[|x| + i..] == y[i..]
  {
  }

  /** Cutting `x + y` where `x` ends. */
  lemma SplitConcat(x: string, y: string)
    ensures (x + y)[..|x|] == x && (x + y)[|x|..] == y
  {
  }

  /** Dropping the first character of `x + y` drops it from `x` when `x` has one. */
  lemma DropFirstOfConcat(x: string, y: string)
    ensures x != [] ==> (x + y)[1..] == x[1..] + y
    ensures x == [] ==> x + y == y
  {
  }

  /** Cutting the slice `s[i..j]` at `k - i` cuts the original at `k`. */
  lemma SliceOfSlice(s: string, i: int, k: int, j: int)
    requires 0 <= i <= k <= j <= |s|
    ensures s[i..j][..k - i] == s[i..k] && s[i..j][k - i..] == s[k..j]
  {
  }

  /** The middle part of `x + t + y` stands right after `x`, and `y` starts right after it. */
  lemma Infix(x: string, t: string, y: string)
    ensures (x + t + y)[|x|..|x| + |t|] == t
    ensures |y| > 0 ==> (x + t + y)[|x| + |t|] == y[0]
  {
  }

  /** Indexing into a concatenation. */
  lemma IndexConcat(x: string, y: string, i: int)
    requires 0 <= i < |x| + |y|
    ensures (x + y)[i] == if i < |x| then x[i] else y[i - |x|]
  {
  }

  /** Regrouping a concatenation, proved once in a small context. */
  lemma ConcatAssoc(x: string, y: string, z: string)
    ensures x + (y + z) == x + y + z
  {
  }

  /** Over a one-character pattern `ReplaceAll` works character by character. */
  lemma ReplaceAllOneChar(s: string, c: char, replacement: string)
    requires s != []
    ensures ReplaceAll(s, [c], replacement) ==
            (if s[0] == c then replacement else [s[0]]) + ReplaceAll(s[1..], [c], replacement)
  {
    assert s[..1] == [s[0]];
  }

  /** A one-character pattern is replaced in each part of a concatenation separately. */
  lemma {:induction false} ReplaceAllOneCharAppend(x: string, y: string, c: char, replacement: string)
    ensures ReplaceAll(x + y, [c], replacement) ==
            ReplaceAll(x, [c], replacement) + ReplaceAll(y, [c], replacement)
    decreases |x|
  {
    DropFirstOfConcat(x, y);
    if x != [] {
      ReplaceAllOneChar(x + y, c, replacement);
      ReplaceAllOneChar(x, c, replacement);
      ReplaceAllOneCharAppend(x[1..], y, c, replacement);
      ConcatAssoc(if x[0] == c then replacement else [x[0]], ReplaceAll(x[1..], [c], replacement),
                  ReplaceAll(y, [c], replacement));
    }
  }

  /** Replacing a one-character pattern keeps every other character: the length grows by the
      replacement's length less one for each occurrence. */
  lemma {:induction false} ReplaceAllOneCharLength(s: string, c: char, replacement: string)
    ensures |ReplaceAll(s, [c], replacement)| == |s| + Count(s, c) * (|replacement| - 1)
    decreases |s|
  {
    if s != [] {
      ReplaceAllOneChar(s, c, replacement);
      ReplaceAllOneCharLength(s[1..], c, replacement);
      var m, n := |replacement| - 1, Count(s[1..], c);
      var rest := ReplaceAll(s[1..], [c], replacement);
      assert |rest| == |s| - 1 + n * m;
      if s[0] == c {
        assert |ReplaceAll(s, [c], replacement)| == |replacement| + |rest|;
        assert Count(s, c) == n + 1;
        SuccTimes(n, m);
      } else {
        assert |ReplaceAll(s, [c], replacement)| == 1 + |rest|;
        assert Count(s, c) == n;
      }
    }
  }

  /** A one-character pattern occurs exactly where that character stands. */
  lemma OccursAtOneChar(s: string, c: char, i: int)
    ensures OccursAt(s, [c], i) <==> 0 <= i < |s| && s[i] == c
  {
    if 0 <= i < |s| && s[i] == c {
      assert s[i..i + 1] == [c];
    }
  }

  lemma OccursAtTwoChars(s: string, c: char, d: char, i: int)
    ensures OccursAt(s, [c, d], i) <==> 0 <= i && i + 1 < |s| && s[i] == c && s[i + 1] == d
  {
    if 0 <= i && i + 1 < |s| && s[i] == c && s[i + 1] == d {
      assert s[i..i + 2] == [c, d];
    }
  }

  /** A character is in `s` exactly when its last index is not -1. */
  lemma LastIndexOfOneChar(s: string, c: char)
    ensures c in s <==> LastIndexOf(s, [c]) >= 0
  {
    var r := LastIndexOf(s, [c]);
    if c in s {
      var j :| 0 <= j < |s| && s[j] == c;
      OccursAtOneChar(s, c, j);
    } else if r >= 0 {
      OccursAtOneChar(s, c, r);
    }
  }

    /** An occurrence in `y` is an occurrence in `x + y`, shifted by `|x|`. */
  lemma OccursAtShift(x: string, y: string, pat: string, j: int)
    requires 0 <= j
    ensures OccursAt(x + y, pat, |x| + j) <==> OccursAt(y, pat, j)
  {
    if j + |pat| <= |y| {
      assert (x + y)[|x| + j..|x| + j + |pat|] == y[j..j + |pat|];
    }
  }

  /** Searching `x + y` from inside `y` finds what searching `y` finds, shifted by `|x|`. */
  lemma IndexOfShift(x: string, y: string, pat: string, k: int)
    requires |pat| > 0 && 0 <= k
    ensures IndexOf(x + y, pat, |x| + k) ==
            (var r := IndexOf(y, pat, k); if r < 0 then -1 else |x| + r)
  {
    forall j | 0 <= j ensures OccursAt(x + y, pat, |x| + j) <==> OccursAt(y, pat, j) {
      OccursAtShift(x, y, pat, j);
    }
    var r := IndexOf(y, pat, k);
    var r' := IndexOf(x + y, pat, |x| + k);
    if r' >= 0 {
      assert OccursAt(y, pat, r' - |x|);
    }
    if r >= 0 {
      assert OccursAt(x + y, pat, |x| + r);
    }
  }

  /** The last occurrence in `x + y`, when `y` has one, is `y`'s last occurrence shifted. */
  lemma LastIndexOfShift(x: string, y: string, pat: string)
    requires LastIndexOf(y, pat) >= 0
    ensures LastIndexOf(x + y, pat) == |x| + LastIndexOf(y, pat)
  {
    var r := LastIndexOf(y, pat);
    OccursAtShift(x, y, pat, r);
    var r' := LastIndexOf(x + y, pat);
    OccursAtShift(x, y, pat, r' - |x|);
  }

  /** A text that ends with `pat` has its last occurrence of `pat` there. */
  lemma LastIndexOfSuffix(s: string, pat: string)
    requires |pat| <= |s| && s[|s| - |pat|..] == pat
    ensures LastIndexOf(s, pat) == |s| - |pat|
  {
    assert OccursAt(s, pat, |s| - |pat|);
  }

  /** Replacing the last occurrence of a suffix swaps that suffix for the replacement. */
  lemma ReplaceLastSuffix(x: string, pat: string, replacement: string)
    ensures ReplaceLast(x + pat, pat, replacement) == x + replacement
  {
    var s := x + pat;
    SplitConcat(x, pat);
    LastIndexOfSuffix(s, pat);
    assert s[|x| + |pat|..] == [];
  }

  /** The decimal digit with value `d`. */
  function Digit(d: int): (c: char)
    requires 0 <= d < 10
    ensures '0' <= c <= '9' && c as int - '0' as int == d
  {
    ('0' as int + d) as char
  }

  /** `StringBuilder.append(n)` for `n >= 0`: its decimal digits, most significant first. */
  function NatToString(n: nat): (r: string)
    ensures |r| > 0 && forall i :: 0 <= i < |r| ==> '0' <= r[i] <= '9'
    ensures r[0] == '0' <==> n == 0
    ensures |r| == 1 <==> n < 10
  {
    if n < 10 then [Digit(n)] else NatToString(n / 10) + [Digit(n % 10)]
  }

  /** `StringBuilder.append(n)` for any `int`: a minus sign for negative values, then the digits. */
  function IntToString(n: int): (r: string)
    ensures |r| > 0 && (r[0] == '-' <==> n < 0)
    ensures forall i :: 0 < i < |r| ==> '0' <= r[i] <= '9'
    ensures var d := if n < 0 then 1 else 0; |r| > d && (|r| > d + 1 ==> r[d] != '0')
  {
    if n < 0 then "-" + NatToString(-n) else NatToString(n)
  }

  /** The value of a string of decimal digits. */
  function DigitsValue(s: string): nat
    requires forall i :: 0 <= i < |s| ==> '0' <= s[i] <= '9'
  {
    if s == [] then 0 else DigitsValue(s[..|s| - 1]) * 10 + (s[|s| - 1] as int - '0' as int)
  }

  /** The rendering loses nothing: reading the digits back gives the number. */
  lemma {:induction false} NatToStringRoundTrip(n: nat)
    ensures DigitsValue(NatToString(n)) == n
  {
    if n >= 10 {
      var s := NatToString(n);
      assert s[..|s| - 1] == NatToString(n / 10);
      NatToStringRoundTrip(n / 10);
    }
  }

  /** Reading the digits after the sign back gives the magnitude. */
  lemma IntToStringValue(n: int)
    ensures var d := if n < 0 then 1 else 0;
      var r := IntToString(n);
      DigitsValue(r[d..]) == if n < 0 then -n else n
  {
    if n < 0 {
      assert IntToString(n)[1..] == NatToString(-n);
      NatToStringRoundTrip(-n);
    } else {
      assert IntToString(n)[0..] == NatToString(n);
      NatToStringRoundTrip(n);
    }
  }

  /** A rendered number standing at `i` and followed by a character that is neither a digit nor
      `-` ends where the first such character at or after `i` stands. */
  lemma NumberEndsAt(s: string, i: int, n: int, c: char)
    requires c != '-' && !('0' <= c <= '9')
    requires 0 <= i && i + |IntToString(n)| < |s|
    requires s[i..i + |IntToString(n)|] == IntToString(n) && s[i + |IntToString(n)|] == c
    ensures IndexOf(s, [c], i) == i + |IntToString(n)|
  {
    var t := IntToString(n);
    OccursAtOneChar(s, c, i + |t|);
    forall j | i <= j < i + |t| ensures !OccursAt(s, [c], j) {
      OccursAtOneChar(s, c, j);
      assert s[j] == s[i..i + |t|][j - i] == t[j - i];
    }
  }
}
