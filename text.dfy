/** The string operations of JavaScript that the builders rely on:
    joining pieces with a separator, `String.prototype.split` with a
    one-character separator, and the decimal rendering of a placeholder
    number in a template literal. */
module Text {

  /** The items separated by `sep` (as `Array.prototype.join` does);
      defined on the last item so that appending one item is one step. */
  function Join(sep: string, xs: seq<string>): string {
    if |xs| == 0 then ""
    else if |xs| == 1 then xs[0]
    else Join(sep, xs[..|xs| - 1]) + sep + xs[|xs| - 1]
  }

  lemma JoinAppend(sep: string, xs: seq<string>, x: string)
    ensures Join(sep, xs + [x]) == if |xs| == 0 then x else Join(sep, xs) + sep + x
  {
    assert (xs + [x])[..|xs|] == xs;
  }

  /** Appending one item to a string that ends in a join: the separator
      comes first unless the join was empty. */
  lemma JoinStep(head: string, sep: string, xs: seq<string>, x: string)
    ensures head + Join(sep, xs + [x]) ==
      (if |xs| == 0 then head else head + Join(sep, xs) + sep) + x
  {
    JoinAppend(sep, xs, x);
    if |xs| != 0 {
      assert head + (Join(sep, xs) + sep + x) == head + Join(sep, xs) + sep + x;
    }
  }

  /** `s.split(c)`: the maximal pieces of `s` between occurrences of `c`,
      in order. There is always at least one piece ("".split(c) is [""]). */
  function Split(s: string, c: char): (pieces: seq<string>)
    ensures |pieces| >= 1
  {
    if |s| == 0 then [""]
    else
      var init := Split(s[..|s| - 1], c);
      if s[|s| - 1] == c then init + [""]
      else init[..|init| - 1] + [init[|init| - 1] + [s[|s| - 1]]]
  }

  /** No piece contains the separator. */
  lemma {:induction false} SplitPiecesFree(s: string, c: char)
    ensures forall k :: 0 <= k < |Split(s, c)| ==> c !in Split(s, c)[k]
  {
    if |s| > 0 {
      var t := s[..|s| - 1];
      SplitPiecesFree(t, c);
      var init := Split(t, c);
      if s[|s| - 1] != c {
        assert c !in init[|init| - 1];
      }
    }
  }

  /** Joining the pieces back with the separator gives the original string. */
  lemma {:induction false} JoinSplit(s: string, c: char)
    ensures Join([c], Split(s, c)) == s
  {
    if |s| > 0 {
      var t, last := s[..|s| - 1], s[|s| - 1];
      assert s == t + [last];
      JoinSplit(t, c);
      var init := Split(t, c);
      if last == c {
        JoinAppend([c], init, "");
      } else {
        var k := |init| - 1;
        JoinAppend([c], init[..k], init[k] + [last]);
        JoinAppend([c], init[..k], init[k]);
        assert init[..k] + [init[k]] == init;
      }
    }
  }

  /** A string without the separator is one piece. */
  lemma {:induction false} SplitWithoutSeparator(x: string, c: char)
    requires c !in x
    ensures Split(x, c) == [x]
  {
    if |x| > 0 {
      SplitWithoutSeparator(x[..|x| - 1], c);
      assert x == x[..|x| - 1] + [x[|x| - 1]];
    }
  }

  /** A separator followed by separator-free text adds exactly one piece. */
  lemma {:induction false} SplitAfterSeparator(s: string, c: char, x: string)
    requires c !in x
    ensures Split(s + [c] + x, c) == Split(s, c) + [x]
  {
    if |x| == 0 {
      assert s + [c] + x == s + [c];
      assert (s + [c])[..|s|] == s;
    } else {
      var x' := x[..|x| - 1];
      SplitAfterSeparator(s, c, x');
      assert (s + [c] + x)[..|s + [c] + x| - 1] == s + [c] + x';
      assert x' + [x[|x| - 1]] == x;
    }
  }

  /** Splitting separator-free pieces joined by the separator gives them back. */
  lemma {:induction false} SplitJoin(xs: seq<string>, c: char)
    requires |xs| >= 1
    requires forall k :: 0 <= k < |xs| ==> c !in xs[k]
    ensures Split(Join([c], xs), c) == xs
  {
    if |xs| == 1 {
      SplitWithoutSeparator(xs[0], c);
    } else {
      var init, last := xs[..|xs| - 1], xs[|xs| - 1];
      SplitJoin(init, c);
      SplitAfterSeparator(Join([c], init), c, last);
      assert init + [last] == xs;
    }
  }

  predicate IsDigit(ch: char) {
    '0' <= ch <= '9'
  }

  function Digit(d: nat): (ch: char)
    requires d < 10
    ensures IsDigit(ch)
  {
    ('0' as int + d) as char
  }

  /** The decimal rendering of a non-negative integer, as a template literal
      `${n}` produces it: digits only, no leading zero except for 0 itself. */
  function Dec(n: nat): (r: string)
    ensures |r| >= 1
  {
    if n < 10 then [Digit(n)] else Dec(n / 10) + [Digit(n % 10)]
  }

  /** The rendering is all digits, with a leading zero only for 0 itself. */
  lemma {:induction false} DecDigits(n: nat)
    ensures forall k :: 0 <= k < |Dec(n)| ==> IsDigit(Dec(n)[k])
    ensures (Dec(n)[0] == '0') == (n == 0)
  {
    if n >= 10 {
      DecDigits(n / 10);
      assert Dec(n)[0] == Dec(n / 10)[0];
    }
  }

  /** The value of a string of decimal digits. */
  function ParseDec(s: string): int {
    if |s| == 0 then 0
    else 10 * ParseDec(s[..|s| - 1]) + (s[|s| - 1] as int - '0' as int)
  }

  /** Reading a rendered number back gives the number: distinct
      placeholder numbers are distinct strings. */
  lemma {:induction false} DecRoundTrip(n: nat)
    ensures ParseDec(Dec(n)) == n
  {
    if n >= 10 {
      DecRoundTrip(n / 10);
      var r := Dec(n);
      assert r[..|r| - 1] == Dec(n / 10);
    }
  }
}
