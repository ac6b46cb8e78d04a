/** Text-level typesetting of an aligned equation block: the continuation marker `\\` placed
    before line breaks, and the alignment marker `&` placed before `=` signs. */
module Typeset {
  import opened JavaText

  /** The continuation marker that ends every line of an aligned block except the last. */
  const MARKER: string := @"\\"
  /** Opening and closing of an aligned equation block. */
  const BEGIN: string := @"\begin{align}"
  const END: string := @"\end{align}"

  /** `t` with the continuation marker inserted before every line break `nl`. */
  function MarkAll(t: string, nl: char): string
  {
    if t == [] then []
    else (if t[0] == nl then MARKER + [nl] else [t[0]]) + MarkAll(t[1..], nl)
  }

  /** `t` with the continuation marker inserted before every line break `nl` except the last. */
  function Marked(t: string, nl: char): string
  {
    var k := LastIndexOf(t, [nl]);
    if k < 0 then t else MarkAll(t[..k], nl) + t[k..]
  }

  /** The lines of `t`: the pieces between its line breaks (one more than there are breaks). */
  function Lines(t: string, nl: char): (ls: seq<string>)
    ensures |ls| >= 1
    ensures forall i :: 0 <= i < |ls| ==> nl !in ls[i]
  {
    if t == [] then [[]]
    else
      var rest := Lines(t[1..], nl);
      if t[0] == nl then [[]] + rest
      else [[t[0]] + rest[0]] + rest[1..]
  }

  /** The lines `ls` joined with `sep` between neighbours. */
  function Join(ls: seq<string>, sep: string): string
    requires |ls| >= 1
  {
    if |ls| == 1 then ls[0] else ls[0] + sep + Join(ls[1..], sep)
  }

  lemma {:induction false} JoinPrependToFirst(x: string, ls: seq<string>, sep: string)
    requires |ls| >= 1
    ensures Join([x + ls[0]] + ls[1..], sep) == x + Join(ls, sep)
  {
    var ls' := [x + ls[0]] + ls[1..];
    if |ls| > 1 {
      assert ls'[1..] == ls[1..];
    }
  }

  /** Splitting into lines and joining them again with the line break gives the text back. */
  lemma {:induction false} JoinLines(t: string, nl: char)
    ensures Join(Lines(t, nl), [nl]) == t
    decreases |t|
  {
    if t != [] {
      var rest := Lines(t[1..], nl);
      JoinLines(t[1..], nl);
      if t[0] == nl {
        assert ([[]] + rest)[1..] == rest;
      } else {
        JoinPrependToFirst([t[0]], rest, [nl]);
      }
    }
  }

  /** Marking every line break is joining the lines with marker and line break. */
  lemma {:induction false} MarkAllJoinsLines(t: string, nl: char)
    ensures MarkAll(t, nl) == Join(Lines(t, nl), MARKER + [nl])
    decreases |t|
  {
    if t != [] {
      var rest := Lines(t[1..], nl);
      MarkAllJoinsLines(t[1..], nl);
      if t[0] == nl {
        assert ([[]] + rest)[1..] == rest;
      } else {
        JoinPrependToFirst([t[0]], rest, MARKER + [nl]);
      }
    }
  }

  /** A text without line breaks is a single line. */
  lemma {:induction false} LinesOfSingleLine(b: string, nl: char)
    requires nl !in b
    ensures Lines(b, nl) == [b]
    decreases |b|
  {
    if b != [] {
      LinesOfSingleLine(b[1..], nl);
      assert [b[0]] + b[1..] == b;
    }
  }

  /** Text after the last line break is the last line. */
  lemma {:induction false} LinesOfLastBreak(a: string, b: string, nl: char)
    requires nl !in b
    ensures Lines(a + [nl] + b, nl) == Lines(a, nl) + [b]
    decreases |a|
  {
    var t := a + [nl] + b;
    if a == [] {
      assert t[1..] == b;
      LinesOfSingleLine(b, nl);
    } else {
      assert t[1..] == a[1..] + [nl] + b;
      LinesOfLastBreak(a[1..], b, nl);
    }
  }

  /** The last line break of a text that has one, and the break-free rest after it. */
  lemma LastBreak(t: string, c: char)
    requires c in t
    ensures var k := LastIndexOf(t, [c]); 0 <= k < |t| && t[k] == c && c !in t[k + 1..]
  {
    LastIndexOfOneChar(t, c);
    var k := LastIndexOf(t, [c]);
    OccursAtOneChar(t, c, k);
    forall j | k < j < |t| ensures t[j] != c {
      OccursAtOneChar(t, c, j);
    }
  }

  /** A text with a line break is `a`, its last line break, and a break-free last line `b`.
      Marking it joins the lines of `a` with marker and line break and leaves that last break
      bare, while joining the same lines with the bare line break gives the text back: deleting
      the inserted markers restores the original, and the markers stand before exactly the breaks
      that have another break after them. */
  lemma MarkedJoinsLines(a: string, b: string, nl: char)
    requires nl !in b
    ensures Lines(a + [nl] + b, nl) == Lines(a, nl) + [b]
    ensures a + [nl] + b == Join(Lines(a, nl), [nl]) + [nl] + b
    ensures Marked(a + [nl] + b, nl) == Join(Lines(a, nl), MARKER + [nl]) + [nl] + b
  {
    var t := a + [nl] + b;
    assert LastIndexOf([nl] + b, [nl]) == 0 by {
      assert OccursAt([nl] + b, [nl], 0);
      forall j | 0 < j ensures !OccursAt([nl] + b, [nl], j) {
        OccursAtOneChar([nl] + b, nl, j);
        assert j < |[nl] + b| ==> ([nl] + b)[j] == b[j - 1];
      }
    }
    LastIndexOfShift(a, [nl] + b, [nl]);
    assert t == a + ([nl] + b);
    assert t[..|a|] == a && t[|a|..] == [nl] + b;
    assert Marked(t, nl) == MarkAll(a, nl) + ([nl] + b);
    LinesOfLastBreak(a, b, nl);
    JoinLines(a, nl);
    MarkAllJoinsLines(a, nl);
    ConcatAssoc(MarkAll(a, nl), [nl], b);
  }

  /** Marking distributes over concatenation. */
  lemma {:induction false} MarkAllAppend(x: string, y: string, nl: char)
    ensures MarkAll(x + y, nl) == MarkAll(x, nl) + MarkAll(y, nl)
    decreases |x|
  {
    if x == [] {
      assert x + y == y;
    } else {
      assert (x + y)[1..] == x[1..] + y;
      MarkAllAppend(x[1..], y, nl);
    }
  }

  /** A text without line breaks is left as it is. */
  lemma {:induction false} MarkAllSingleLine(t: string, nl: char)
    requires nl !in t
    ensures MarkAll(t, nl) == t
    decreases |t|
  {
    if t != [] {
      MarkAllSingleLine(t[1..], nl);
    }
  }

  /** Reference for the alignment markers of the Bezout steps: `&` inserted before every `=`
      of `s` that has another `=` after it. */
  function AmpExceptLast(s: string): string
  {
    if s == [] then []
    else (if s[0] == '=' && '=' in s[1..] then "&=" else [s[0]]) + AmpExceptLast(s[1..])
  }

  /** Every `=` turned into `&=`, then the last `&=` turned back into `=`. */
  function AlignEquals(s: string): string
  {
    ReplaceLast(ReplaceAll(s, "=", "&="), "&=", "=")
  }

  lemma {:induction false} AmpExceptLastNoEquals(s: string)
    requires '=' !in s
    ensures AmpExceptLast(s) == s
    decreases |s|
  {
    if s != [] {
      AmpExceptLastNoEquals(s[1..]);
    }
  }

  /** One step of the reference when an `=` is still to come. */
  lemma AmpExceptLastStep(a: string, b: string)
    requires a != []
    ensures AmpExceptLast(a + "=" + b) ==
            (if a[0] == '=' then "&=" else [a[0]]) + AmpExceptLast(a[1..] + "=" + b)
  {
    var s := a + "=" + b;
    assert s[1..] == a[1..] + "=" + b;
    assert '=' in s[1..] by { assert s[1..][|a| - 1] == '='; }
  }

  lemma {:induction false} AmpExceptLastBeforeLast(a: string, b: string)
    requires '=' !in b
    ensures AmpExceptLast(a + "=" + b) == ReplaceAll(a, "=", "&=") + "=" + b
    decreases |a|
  {
    if a == [] {
      assert a + "=" + b == "=" + b && ("=" + b)[1..] == b;
      AmpExceptLastNoEquals(b);
    } else {
      var head := if a[0] == '=' then "&=" else [a[0]];
      var rest := ReplaceAll(a[1..], "=", "&=");
      AmpExceptLastStep(a, b);
      assert ReplaceAll(a, "=", "&=") == head + rest by {
        assert "=" == ['='];
        ReplaceAllOneChar(a, '=', "&=");
      }
      AmpExceptLastBeforeLast(a[1..], b);
      ConcatAssoc(head, rest + "=", b);
      ConcatAssoc(head, rest, "=");
    }
  }

  /** Without any `=` the pair of replacements changes nothing. */
  lemma AlignEqualsNoEquals(s: string)
    requires '=' !in s
    ensures AlignEquals(s) == s
  {
    forall j ensures !OccursAt(s, "=", j) {
      OccursAtOneChar(s, '=', j);
    }
    forall j ensures !OccursAt(s, "&=", j) {
      if 0 <= j && j + 2 <= |s| {
        assert s[j..j + 2][1] == s[j + 1];
      }
    }
  }

  /** In `ra + "&=" + b` with no `=` in `b`, the last `&=` is the one after `ra`. */
  lemma LastAmpEquals(ra: string, b: string)
    requires '=' !in b
    ensures ReplaceLast(ra + "&=" + b, "&=", "=") == ra + "=" + b
  {
    var u := ra + "&=" + b;
    assert OccursAt(u, "&=", |ra|) by { assert u[|ra|..|ra| + 2] == "&="; }
    forall j | |ra| < j ensures !OccursAt(u, "&=", j) {
      if j + 2 <= |u| {
        assert u[j..j + 2][1] == u[j + 1] == b[j + 1 - |ra| - 2];
      }
    }
    assert u[..|ra|] == ra && u[|ra| + 2..] == b;
  }

  /** Replacing every `=` of `a + "=" + b`, where `b` has none. */
  lemma ReplaceAllBeforeLast(a: string, b: string)
    requires '=' !in b
    ensures ReplaceAll(a + "=" + b, "=", "&=") == ReplaceAll(a, "=", "&=") + "&=" + b
  {
    assert "=" == ['='];
    ConcatAssoc(a, "=", b);
    ReplaceAllOneCharAppend(a, "=" + b, '=', "&=");
    ReplaceAllOneChar("=" + b, '=', "&=");
    assert ("=" + b)[1..] == b;
    forall j ensures !OccursAt(b, "=", j) {
      OccursAtOneChar(b, '=', j);
    }
  }

  /** The `replaceAll`/`replaceLast` pair marks every `=` with `&` except the last `=`. */
  lemma AlignEqualsMarksAllButLast(s: string)
    ensures AlignEquals(s) == AmpExceptLast(s)
  {
    if '=' !in s {
      AlignEqualsNoEquals(s);
      AmpExceptLastNoEquals(s);
    } else {
      LastBreak(s, '=');
      var k := LastIndexOf(s, "=");
      var a, b := s[..k], s[k + 1..];
      assert s == a + "=" + b;
      ReplaceAllBeforeLast(a, b);
      LastAmpEquals(ReplaceAll(a, "=", "&="), b);
      AmpExceptLastBeforeLast(a, b);
    }
  }

  /** After `replaceAll("=", "&=")` the `=` at position `i` is preceded by `&`. */
  lemma {:induction false} EveryEqualsMarked(a: string, i: int)
    requires var m := ReplaceAll(a, "=", "&="); 0 <= i < |m| && m[i] == '='
    ensures var m := ReplaceAll(a, "=", "&="); 0 < i && m[i - 1] == '&'
    decreases |a|
  {
    var head := if a[0] == '=' then "&=" else [a[0]];
    var tail := ReplaceAll(a[1..], "=", "&=");
    var m := head + tail;
    assert ReplaceAll(a, "=", "&=") == m by {
      assert "=" == ['='];
      ReplaceAllOneChar(a, '=', "&=");
    }
    IndexConcat(head, tail, i);
    if i >= |head| {
      EveryEqualsMarked(a[1..], i - |head|);
      IndexConcat(head, tail, i - 1);
    }
  }

  /** Read on the reference: every `=` that has a later `=` is preceded by `&`. */
  lemma AmpBeforeEveryEqualsButLast(s: string)
    ensures var r := AmpExceptLast(s);
      forall i :: 0 <= i < |r| && r[i] == '=' && '=' in r[i + 1..] ==> 0 < i && r[i - 1] == '&'
  {
    if '=' in s {
      LastBreak(s, '=');
      var k := LastIndexOf(s, "=");
      var a, b := s[..k], s[k + 1..];
      assert s == a + "=" + b;
      AmpExceptLastBeforeLast(a, b);
      var m := ReplaceAll(a, "=", "&=");
      var r := m + "=" + b;
      forall j | |m| < j < |r| ensures r[j] != '=' {
        assert r[j] == b[j - |m| - 1];
      }
      forall i | 0 <= i < |m| && m[i] == '=' ensures r[i] == '=' && 0 < i && r[i - 1] == '&' {
        EveryEqualsMarked(a, i);
        assert r[i] == m[i];
        assert r[i - 1] == m[i - 1];
      }
    } else {
      AmpExceptLastNoEquals(s);
    }
  }

  /** Marking keeps the `=` signs and adds one `&` for each of them but the last: `=` occurs in
      the result exactly when it occurs in the input, a text without `=` is unchanged, the
      result is longer by the number of `=` less one, and the first character is `=` or `&`
      exactly when the input's first character is `=`. */
  lemma {:induction false} AmpExceptLastKeepsEquals(s: string)
    ensures '=' in AmpExceptLast(s) <==> '=' in s
    ensures '=' !in s ==> AmpExceptLast(s) == s
    ensures '=' in s ==> |AmpExceptLast(s)| == |s| + Count(s, '=') - 1
    ensures s != [] && s[0] == '=' && '=' in s[1..] ==> AmpExceptLast(s)[..2] == "&="
    ensures s != [] && !(s[0] == '=' && '=' in s[1..]) ==> AmpExceptLast(s)[0] == s[0]
    decreases |s|
  {
    if s != [] {
      AmpExceptLastKeepsEquals(s[1..]);
      var head := if s[0] == '=' && '=' in s[1..] then "&=" else [s[0]];
      var r := head + AmpExceptLast(s[1..]);
      if '=' in s[1..] {
        var j :| j in AmpExceptLast(s[1..]) && j == '=';
        assert '=' in r;
      }
      if s[0] == '=' {
        assert r[|head| - 1] == '=';
      }
      if '=' !in s {
        assert s == [s[0]] + s[1..];
      }
    }
  }
}
