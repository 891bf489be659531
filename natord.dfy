/**
 * A natural-order comparator in the manner of the `natord` crate: a string
 * is read as a sequence of tokens, each a maximal run of decimal digits (a
 * number) or a single other character, and token sequences are compared
 * lexicographically. Two numbers compare by value; a number against a
 * character compares as a digit character would. The comparison is a total
 * preorder (`"01"` and `"1"` tie), which is what `sort_by` needs, and
 * `SortNatural` orders a frame list by it.
 */
module Natord {
  import opened Args

  datatype Token = Number(value: nat) | Letter(c: char)

  /** Length of the run of digits that `s` starts with. */
  function DigitRun(s: string): (k: nat)
    ensures k <= |s| && AllDigits(s[..k])
    ensures k < |s| ==> !IsDigit(s[k])
    ensures |s| > 0 && IsDigit(s[0]) ==> k >= 1
  {
    if s == [] || !IsDigit(s[0]) then 0
    else
      var k := 1 + DigitRun(s[1..]);
      assert s[..k] == [s[0]] + s[1..][..k - 1];
      k
  }

  function Tokens(s: string): seq<Token>
    decreases |s|
  {
    if s == [] then []
    else if IsDigit(s[0]) then
      var k := DigitRun(s);
      [Number(DigitsValue(s[..k]))] + Tokens(s[k..])
    else
      [Letter(s[0])] + Tokens(s[1..])
  }

  /** Where a token sits among characters: a number sits with the digits. */
  function Rank(t: Token): int {
    match t
    case Number(_) => '0' as int
    case Letter(c) => c as int
  }

  function Weight(t: Token): nat {
    match t
    case Number(v) => v
    case Letter(_) => 0
  }

  predicate TokenLess(a: Token, b: Token) {
    Rank(a) < Rank(b) || (Rank(a) == Rank(b) && Weight(a) < Weight(b))
  }

  predicate TokenTie(a: Token, b: Token) {
    Rank(a) == Rank(b) && Weight(a) == Weight(b)
  }

  predicate TokensLeq(a: seq<Token>, b: seq<Token>) {
    a == [] || (b != [] && (TokenLess(a[0], b[0]) || (TokenTie(a[0], b[0]) && TokensLeq(a[1..], b[1..]))))
  }

  /**
   * `natord::compare(a, b) != Greater`: every name is no greater than
   * itself, and the empty name comes first.
   */
  predicate NaturalLeq(a: string, b: string)
    ensures a == b ==> NaturalLeq(a, b)
    ensures a == [] ==> NaturalLeq(a, b)
  {
    TokensLeqReflexive(Tokens(a));
    TokensLeq(Tokens(a), Tokens(b))
  }

  lemma {:induction false} TokensLeqTotal(a: seq<Token>, b: seq<Token>)
    ensures TokensLeq(a, b) || TokensLeq(b, a)
  {
    if a != [] && b != [] && TokenTie(a[0], b[0]) {
      TokensLeqTotal(a[1..], b[1..]);
    }
  }

  lemma {:induction false} TokensLeqTransitive(a: seq<Token>, b: seq<Token>, c: seq<Token>)
    requires TokensLeq(a, b) && TokensLeq(b, c)
    ensures TokensLeq(a, c)
  {
    if a != [] && TokenTie(a[0], b[0]) && TokenTie(b[0], c[0]) {
      TokensLeqTransitive(a[1..], b[1..], c[1..]);
    }
  }

  lemma {:induction false} TokensLeqReflexive(a: seq<Token>)
    ensures TokensLeq(a, a)
  {
    if a != [] {
      TokensLeqReflexive(a[1..]);
    }
  }

  /** Any two names are comparable. */
  lemma NaturalLeqTotal(a: string, b: string)
    ensures NaturalLeq(a, b) || NaturalLeq(b, a)
  {
    TokensLeqTotal(Tokens(a), Tokens(b));
  }

  lemma NaturalLeqTransitive(a: string, b: string, c: string)
    requires NaturalLeq(a, b) && NaturalLeq(b, c)
    ensures NaturalLeq(a, c)
  {
    TokensLeqTransitive(Tokens(a), Tokens(b), Tokens(c));
  }

  /** Each name is no greater than the next. */
  predicate Sorted(s: seq<string>) {
    forall i :: 0 < i < |s| ==> NaturalLeq(s[i - 1], s[i])
  }

  /** In a sorted list every name is no greater than every later one. */
  lemma {:induction false} SortedPairwise(s: seq<string>, i: nat, j: nat)
    requires Sorted(s) && i <= j < |s|
    ensures NaturalLeq(s[i], s[j])
    decreases j - i
  {
    if i < j {
      SortedPairwise(s, i + 1, j);
      NaturalLeqTransitive(s[i], s[i + 1], s[j]);
    }
  }

  /** `x` placed after every name of `s` that is no greater than it. */
  function Insert(x: string, s: seq<string>): (r: seq<string>)
    requires Sorted(s)
    ensures Sorted(r)
    ensures multiset(r) == multiset(s) + multiset{x}
    ensures r[0] == x || (s != [] && r[0] == s[0])
  {
    if s == [] then [x]
    else if NaturalLeq(s[0], x) then
      SortedTail(s);
      var rest := Insert(x, s[1..]);
      assert s == [s[0]] + s[1..];
      assert NaturalLeq(s[0], rest[0]) by {
        if rest[0] != x {
          assert rest[0] == s[1];
        }
      }
      SortedCons(s[0], rest);
      [s[0]] + rest
    else
      NaturalLeqTotal(s[0], x);
      SortedCons(x, s);
      [x] + s
  }

  lemma SortedTail(s: seq<string>)
    requires s != [] && Sorted(s)
    ensures Sorted(s[1..])
  {
    forall i | 0 < i < |s[1..]| ensures NaturalLeq(s[1..][i - 1], s[1..][i]) {
      assert s[1..][i - 1] == s[i] && s[1..][i] == s[i + 1];
    }
  }

  lemma SortedCons(a: string, s: seq<string>)
    requires Sorted(s) && (s == [] || NaturalLeq(a, s[0]))
    ensures Sorted([a] + s)
  {
    var r := [a] + s;
    forall i | 0 < i < |r| ensures NaturalLeq(r[i - 1], r[i]) {
      if i > 1 {
        assert r[i - 1] == s[i - 2] && r[i] == s[i - 1];
      }
    }
  }

  /** The frame list in natural order: sorted, and a permutation of the input. */
  method SortNatural(values: seq<string>) returns (sorted: seq<string>)
    ensures Sorted(sorted)
    ensures multiset(sorted) == multiset(values)
  {
    sorted := [];
    for i := 0 to |values|
      invariant Sorted(sorted)
      invariant multiset(sorted) == multiset(values[..i])
    {
      assert values[..i + 1] == values[..i] + [values[i]];
      sorted := Insert(values[i], sorted);
    }
    assert values[..|values|] == values;
  }

  /** The tokens of a digit-free string: one letter per character. */
  function Letters(c: string): seq<Token>
  {
    if c == [] then [] else [Letter(c[0])] + Letters(c[1..])
  }

  lemma {:induction false} TokensAfterLetters(c: string, x: string)
    requires forall i :: 0 <= i < |c| ==> !IsDigit(c[i])
    ensures Tokens(c + x) == Letters(c) + Tokens(x)
  {
    if c == [] {
      assert c + x == x;
    } else {
      assert (c + x)[1..] == c[1..] + x;
      assert (c + x)[0] == c[0];
      TokensAfterLetters(c[1..], x);
    }
  }

  /** A shared token prefix does not decide the comparison. */
  lemma {:induction false} TokensLeqCommonPrefix(p: seq<Token>, a: seq<Token>, b: seq<Token>)
    ensures TokensLeq(p + a, p + b) == TokensLeq(a, b)
  {
    if p == [] {
      assert p + a == a && p + b == b;
    } else {
      assert (p + a)[1..] == p[1..] + a;
      assert (p + b)[1..] == p[1..] + b;
      assert (p + a)[0] == p[0] == (p + b)[0];
      TokensLeqCommonPrefix(p[1..], a, b);
    }
  }

  lemma {:induction false} DigitRunOfDigits(d: string, rest: string)
    requires AllDigits(d)
    requires rest == [] || !IsDigit(rest[0])
    ensures DigitRun(d + rest) == |d|
  {
    if d == [] {
      assert d + rest == rest;
    } else {
      assert (d + rest)[1..] == d[1..] + rest;
      DigitRunOfDigits(d[1..], rest);
    }
  }

  /** The decimal digits of `n` followed by a non-digit read as the one token `Number(n)`. */
  lemma TokensOfNumber(n: nat, rest: string)
    requires rest == [] || !IsDigit(rest[0])
    ensures Tokens(Show(n) + rest) == [Number(n)] + Tokens(rest)
  {
    var d := Show(n);
    var s := d + rest;
    DigitRunOfDigits(d, rest);
    assert s[..|d|] == d && s[|d|..] == rest;
    ReadShowUnsigned(n);
    assert d[0] != '+';
  }

  /**
   * Names that differ only in an embedded number order by that number:
   * `frame2.png` before `frame10.png`, where a character-wise comparison
   * would put them the other way round.
   */
  lemma NumberedNamesOrder(prefix: string, m: nat, n: nat, suffix: string)
    requires forall i :: 0 <= i < |prefix| ==> !IsDigit(prefix[i])
    requires suffix == [] || !IsDigit(suffix[0])
    ensures NaturalLeq(prefix + Show(m) + suffix, prefix + Show(n) + suffix) <==> m <= n
  {
    var x, y := prefix + Show(m) + suffix, prefix + Show(n) + suffix;
    var a, b := [Number(m)] + Tokens(suffix), [Number(n)] + Tokens(suffix);
    assert Tokens(x) == Letters(prefix) + a by {
      assert x == prefix + (Show(m) + suffix);
      TokensAfterLetters(prefix, Show(m) + suffix);
      TokensOfNumber(m, suffix);
    }
    assert Tokens(y) == Letters(prefix) + b by {
      assert y == prefix + (Show(n) + suffix);
      TokensAfterLetters(prefix, Show(n) + suffix);
      TokensOfNumber(n, suffix);
    }
    TokensLeqCommonPrefix(Letters(prefix), a, b);
    LeadingNumbers(m, n, Tokens(suffix));
  }

  lemma LeadingNumbers(m: nat, n: nat, t: seq<Token>)
    ensures TokensLeq([Number(m)] + t, [Number(n)] + t) <==> m <= n
  {
    TokensLeqReflexive(t);
    assert ([Number(m)] + t)[1..] == t && ([Number(n)] + t)[1..] == t;
  }

  /**
   * A sorted arrangement of three names that are strictly ordered is that
   * order: sorting decides the result completely.
   */
  lemma SortedThree(r: seq<string>, a: string, b: string, c: string)
    requires Sorted(r) && multiset(r) == multiset{a, b, c}
    requires NaturalLeq(a, b) && !NaturalLeq(b, a)
    requires NaturalLeq(b, c) && !NaturalLeq(c, b)
    ensures r == [a, b, c]
  {
    NaturalLeqTransitive(a, b, c);
    if NaturalLeq(c, a) {
      NaturalLeqTransitive(c, a, b);
    }
    assert |r| == |multiset(r)| == 3;
    SortedPairwise(r, 0, 1);
    SortedPairwise(r, 1, 2);
    SortedPairwise(r, 0, 2);
    assert r[0] in multiset(r) && r[1] in multiset(r) && r[2] in multiset(r);
    assert r == [r[0], r[1], r[2]];
    assert multiset(r) == multiset{r[0], r[1], r[2]};
  }

  /** `frame2.png`, `frame10.png`, `frame1.png` sort to `frame1.png`, `frame2.png`, `frame10.png`. */
  lemma FrameNamesSorted(r: seq<string>, one: string, two: string, ten: string)
    requires one == "frame1.png" && two == "frame2.png" && ten == "frame10.png"
    requires Sorted(r) && multiset(r) == multiset{two, ten, one}
    ensures r == [one, two, ten]
  {
    var prefix, suffix := "frame", ".png";
    assert forall i :: 0 <= i < |prefix| ==> !IsDigit(prefix[i]);
    assert one == prefix + Show(1) + suffix by { assert Show(1) == "1"; }
    assert two == prefix + Show(2) + suffix by { assert Show(2) == "2"; }
    assert ten == prefix + Show(10) + suffix by { assert Show(10) == "10"; }
    NumberedNamesOrder(prefix, 1, 2, suffix);
    NumberedNamesOrder(prefix, 2, 1, suffix);
    NumberedNamesOrder(prefix, 2, 10, suffix);
    NumberedNamesOrder(prefix, 10, 2, suffix);
    SortedThree(r, one, two, ten);
  }
}
