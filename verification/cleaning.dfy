/**
 Cleaning of locale-formatted count cells (`limpar_valores` in app.py).

 The source performs three literal, whole-string replacements in a fixed
 order: every `-` becomes `0`, every `.` (thousands separator) is deleted,
 and every `,` (decimal separator) becomes `.`.
 */
module Cleaning {

  /** Number of occurrences of `c` in `s`. */
  function Count(s: string, c: char): (n: nat)
    ensures n <= |s|
    ensures n == 0 <==> c !in s
  {
    if |s| == 0 then 0 else (if s[0] == c then 1 else 0) + Count(s[1..], c)
  }

  lemma {:induction false} CountConcat(a: string, b: string, c: char)
    ensures Count(a + b, c) == Count(a, c) + Count(b, c)
  {
    if |a| == 0 {
      assert a + b == b;
    } else {
      assert (a + b)[1..] == a[1..] + b;
      CountConcat(a[1..], b, c);
    }
  }

  /** Literal replacement of every occurrence of one character by another. */
  function ReplaceChar(s: string, from: char, to: char): (r: string)
    ensures |r| == |s|
    ensures forall i :: 0 <= i < |s| ==> r[i] == (if s[i] == from then to else s[i])
  {
    if |s| == 0 then [] else [if s[0] == from then to else s[0]] + ReplaceChar(s[1..], from, to)
  }

  /**
   Literal deletion of every occurrence of a character: a one-character string
   loses that character or stays as it is, every other character keeps its
   count, and (by `DeleteCharConcat`) longer strings are handled piece by piece.
   */
  function DeleteChar(s: string, c: char): (r: string)
    ensures c !in r
    ensures |r| == |s| - Count(s, c)
    ensures forall x :: x != c ==> Count(r, x) == Count(s, x)
    ensures |s| == 1 ==> r == (if s[0] == c then [] else s)
    ensures c !in s ==> r == s
  {
    if |s| == 0 then []
    else
      var rest := DeleteChar(s[1..], c);
      if s[0] == c then rest
      else
        assert ([s[0]] + rest)[1..] == rest;
        [s[0]] + rest
  }

  /** Deleting from a concatenation deletes from each part, keeping the order of what is left. */
  lemma {:induction false} DeleteCharConcat(a: string, b: string, c: char)
    ensures DeleteChar(a + b, c) == DeleteChar(a, c) + DeleteChar(b, c)
  {
    if |a| == 0 {
      assert a + b == b;
    } else {
      assert (a + b)[1..] == a[1..] + b;
      DeleteCharConcat(a[1..], b, c);
    }
  }

  /** What happens to one surviving (non-`.`) character. */
  function CleanChar(c: char): char
  {
    if c == '-' then '0' else if c == ',' then '.' else c
  }

  /**
   The cleaning of app.py:21-26: dash to zero, then delete dots, then comma to
   dot. No dash or comma survives, the output is shorter than the input by the
   number of dots, and every point in the output stands for a comma of the input.
   */
  function Clean(s: string): (r: string)
    ensures '-' !in r && ',' !in r
    ensures |r| == |s| - Count(s, '.')
    ensures Count(r, '.') == Count(s, ',')
  {
    var dashed := ReplaceChar(s, '-', '0');
    var dotless := DeleteChar(dashed, '.');
    CountReplaced(dotless, ',', '.');
    CountReplaced(s, '-', '0');
    ReplaceChar(dotless, ',', '.')
  }

  /**
   Position by position, against the input with its dots removed: every dash
   lands on a `0`, every comma on a `.`, and every other character is kept.
   */
  lemma {:induction false} CleanPositions(s: string)
    ensures var d := DeleteChar(s, '.');
      |Clean(s)| == |d| && forall k :: 0 <= k < |d| ==> Clean(s)[k] == CleanChar(d[k])
  {
    DeleteCommutes(s, '-', '0', '.');
  }

  /** On a cell without dots, each dash sits where a `0` now sits and each comma where a `.` sits. */
  lemma {:induction false} DotlessPositions(s: string)
    requires '.' !in s
    ensures |Clean(s)| == |s|
    ensures forall k :: 0 <= k < |s| ==> (s[k] == '-' ==> Clean(s)[k] == '0')
    ensures forall k :: 0 <= k < |s| ==> (s[k] == ',' <==> Clean(s)[k] == '.')
    ensures forall k :: 0 <= k < |s| ==> (s[k] != '-' && s[k] != ',' ==> Clean(s)[k] == s[k])
  {
    CleanPositions(s);
  }

  /** Deleting a character commutes with replacing two other characters. */
  lemma {:induction false} DeleteCommutes(s: string, from: char, to: char, c: char)
    requires from != c && to != c
    ensures DeleteChar(ReplaceChar(s, from, to), c) == ReplaceChar(DeleteChar(s, c), from, to)
  {
    if |s| > 0 {
      assert ReplaceChar(s, from, to)[1..] == ReplaceChar(s[1..], from, to);
      DeleteCommutes(s[1..], from, to, c);
    }
  }

  /** Replacing `from` by `to` moves every `from` onto `to` and leaves other counts alone. */
  lemma {:induction false} CountReplaced(s: string, from: char, to: char)
    requires from != to
    ensures Count(ReplaceChar(s, from, to), from) == 0
    ensures Count(ReplaceChar(s, from, to), to) == Count(s, to) + Count(s, from)
    ensures forall x :: x != from && x != to ==> Count(ReplaceChar(s, from, to), x) == Count(s, x)
  {
    if |s| > 0 {
      var r := ReplaceChar(s, from, to);
      assert r[1..] == ReplaceChar(s[1..], from, to);
      CountReplaced(s[1..], from, to);
    }
  }

  /** Reference definition: the cleaning read one character at a time. */
  function CleanCharwise(s: string): string
  {
    if |s| == 0 then []
    else
      var rest := CleanCharwise(s[1..]);
      if s[0] == '.' then rest else [CleanChar(s[0])] + rest
  }

  /** The three whole-string passes agree with the one-character-at-a-time reading. */
  lemma {:induction false} CleanIsCharwise(s: string)
    ensures Clean(s) == CleanCharwise(s)
  {
    if |s| > 0 {
      CleanIsCharwise(s[1..]);
      var d := DeleteChar(s, '.');
      var d' := DeleteChar(s[1..], '.');
      CleanPositions(s);
      CleanPositions(s[1..]);
      if s[0] == '.' {
        assert d == d';
      } else {
        assert d == [s[0]] + d';
        assert Clean(s) == [CleanChar(s[0])] + Clean(s[1..]);
      }
    }
  }

  /** Cleaning distributes over concatenation, so cells can be cleaned piecewise. */
  lemma {:induction false} CleanConcat(a: string, b: string)
    ensures Clean(a + b) == Clean(a) + Clean(b)
  {
    CleanIsCharwise(a + b);
    CleanIsCharwise(a);
    CleanIsCharwise(b);
    CharwiseConcat(a, b);
  }

  lemma {:induction false} CharwiseConcat(a: string, b: string)
    ensures CleanCharwise(a + b) == CleanCharwise(a) + CleanCharwise(b)
  {
    if |a| == 0 {
      assert a + b == b;
    } else {
      assert (a + b)[1..] == a[1..] + b;
      CharwiseConcat(a[1..], b);
    }
  }

  /** A cell with no dash, dot or comma is left exactly as it is. */
  lemma {:induction false} PlainCellUnchanged(s: string)
    requires '-' !in s && '.' !in s && ',' !in s
    ensures Clean(s) == s
  {
    var r := Clean(s);
    CleanPositions(s);
    assert DeleteChar(s, '.') == s;
    assert forall k :: 0 <= k < |s| ==> r[k] == s[k];
  }

  /**
   The reverse order (comma to dot before deleting dots), which the source
   does not use.
   */
  function CleanCommaFirst(s: string): string
  {
    DeleteChar(ReplaceChar(ReplaceChar(s, '-', '0'), ',', '.'), '.')
  }

  /**
   The order of the passes is load-bearing: on any cell with a decimal comma
   the reverse order loses the decimal point, which the source's order keeps.
   */
  lemma OrderMatters(s: string)
    requires ',' in s
    ensures '.' in Clean(s)
    ensures '.' !in CleanCommaFirst(s)
    ensures Clean(s) != CleanCommaFirst(s)
  {
  }

  lemma CharwiseThousandsExample()
    ensures CleanCharwise("1.234,56") == "1234.56"
  {
    assert CleanCharwise(",56") == ".56";
    assert CleanCharwise("234,56") == "234.56";
  }

  lemma CharwiseDashExamples()
    ensures CleanCharwise("-") == "0"
    ensures CleanCharwise("-5") == "05"
  {
  }

  /** `1.234,56` loses its thousands separator and keeps its decimal point. */
  lemma ThousandsExample()
    ensures Clean("1.234,56") == "1234.56"
  {
    CharwiseThousandsExample();
    CleanIsCharwise("1.234,56");
  }

  /** Every hyphen becomes a zero, not only a lone one. */
  lemma DashExamples()
    ensures Clean("-") == "0"
    ensures Clean("-5") == "05"
  {
    CharwiseDashExamples();
    CleanIsCharwise("-");
    CleanIsCharwise("-5");
  }
}
