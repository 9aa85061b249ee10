/**
 * The dice coefficient of two strings (misc.py): the share of distinct
 * overlapping character pairs ("bigrams") the two strings have in common.
 * The source computes a float; here the ratio is an exact real.
 */
module Misc {

  /** Lower-casing of one character, restricted to ASCII letters. */
  function LowerChar(c: char): (r: char)
    ensures 'A' <= c <= 'Z' ==> 'a' <= r <= 'z' && r as int == c as int + 32
    ensures !('A' <= c <= 'Z') ==> r == c
  {
    if 'A' <= c <= 'Z' then (c as int + 32) as char else c
  }

  /** `s.lower()`: lower-cases every character and keeps the length. */
  function Lower(s: string): (r: string)
    ensures |r| == |s|
    ensures forall i :: 0 <= i < |s| ==> r[i] == LowerChar(s[i])
  {
    if |s| == 0 then "" else [LowerChar(s[0])] + Lower(s[1..])
  }

  /** A one-character string gets the sentinel '.' appended, so that it has one bigram. */
  function Pad(s: string): string
  {
    if |s| == 1 then s + "." else s
  }

  /** The string as it is compared: optionally lower-cased, then padded. */
  function Prepare(s: string, ignoreCase: bool): string
  {
    Pad(if ignoreCase then Lower(s) else s)
  }

  /** The list of overlapping two-character substrings, in order. */
  function Bigrams(s: string): (r: seq<string>)
    ensures |r| == if |s| < 2 then 0 else |s| - 1
    ensures forall i :: 0 <= i < |r| ==> r[i] == s[i..i + 2]
  {
    if |s| < 2 then [] else [s[..2]] + Bigrams(s[1..])
  }

  /** The bigram list collapsed into a set. */
  function BigramSet(s: string): set<string>
  {
    set g | g in Bigrams(s)
  }

  /** Padding leaves every non-empty string with at least one bigram. */
  lemma PreparedHasBigrams(s: string, ignoreCase: bool)
    requires |s| > 0
    ensures |Prepare(s, ignoreCase)| >= 2
    ensures |BigramSet(Prepare(s, ignoreCase))| > 0
  {
    var p := Prepare(s, ignoreCase);
    assert Bigrams(p)[0] in BigramSet(p);
  }

  /** `overlap * 2.0 / (len(a_bigrams) + len(b_bigrams))`, exactly. */
  function Ratio(overlap: nat, sizeA: nat, sizeB: nat): real
    requires sizeA + sizeB > 0
  {
    (overlap as real) * 2.0 / ((sizeA + sizeB) as real)
  }

  /** The ratio is at most 1 when the overlap fits in both sets, and never negative. */
  lemma RatioBounds(overlap: nat, sizeA: nat, sizeB: nat)
    requires sizeA + sizeB > 0
    requires overlap <= sizeA && overlap <= sizeB
    ensures 0.0 <= Ratio(overlap, sizeA, sizeB) <= 1.0
  {
    var n := (overlap as real) * 2.0;
    var d := (sizeA + sizeB) as real;
    assert 0.0 <= n <= d;
    var r := n / d;
    assert r * d == n;
    assert (1.0 - r) * d == d - n;
  }

  /**
   * `dice_coefficient(a, b, ignore_case)`: zero when either string is empty,
   * otherwise twice the number of shared bigrams over the sum of the two
   * bigram-set sizes.
   */
  function Dice(a: string, b: string, ignoreCase: bool): (r: real)
    ensures |a| == 0 || |b| == 0 ==> r == 0.0
  {
    if |a| == 0 || |b| == 0 then 0.0
    else
      PreparedHasBigrams(a, ignoreCase);
      PreparedHasBigrams(b, ignoreCase);
      var sa := BigramSet(Prepare(a, ignoreCase));
      var sb := BigramSet(Prepare(b, ignoreCase));
      Ratio(|sa * sb|, |sa|, |sb|)
  }

  /**
   * The source's procedure: early return on empty input, lower-casing,
   * padding, two loops building the bigram lists, then the set ratio.
   */
  method DiceCoefficient(a: string, b: string, ignoreCase: bool := true) returns (coeff: real)
    ensures coeff == Dice(a, b, ignoreCase)
  {
    if |a| == 0 || |b| == 0 {
      return 0.0;
    }
    var x, y := a, b;
    if ignoreCase {
      x := Lower(x);
      y := Lower(y);
    }
    if |x| == 1 {
      x := x + ".";
    }
    if |y| == 1 {
      y := y + ".";
    }
    assert x == Prepare(a, ignoreCase) && y == Prepare(b, ignoreCase);

    var xList: seq<string> := [];
    for i := 0 to |x| - 1
      invariant |xList| == i
      invariant forall k :: 0 <= k < i ==> xList[k] == x[k..k + 2]
    {
      xList := xList + [x[i..i + 2]];
    }
    var yList: seq<string> := [];
    for i := 0 to |y| - 1
      invariant |yList| == i
      invariant forall k :: 0 <= k < i ==> yList[k] == y[k..k + 2]
    {
      yList := yList + [y[i..i + 2]];
    }
    assert xList == Bigrams(x);
    assert yList == Bigrams(y);
    PreparedHasBigrams(a, ignoreCase);
    PreparedHasBigrams(b, ignoreCase);

    var xSet := set g | g in xList;
    var ySet := set g | g in yList;
    var overlap := |xSet * ySet|;
    coeff := Ratio(overlap, |xSet|, |ySet|);
  }

  /** The shared part of two sets is no larger than either set. */
  lemma IntersectionSmaller<T>(p: set<T>, q: set<T>)
    ensures |p * q| <= |p| && |p * q| <= |q|
  {
    assert |p - q| == |p| - |p * q|;
    assert |q - p| == |q| - |q * p|;
    assert q * p == p * q;
  }

  /** The coefficient always lies between 0 and 1. */
  lemma DiceBounds(a: string, b: string, ignoreCase: bool)
    ensures 0.0 <= Dice(a, b, ignoreCase) <= 1.0
  {
    if |a| > 0 && |b| > 0 {
      PreparedHasBigrams(a, ignoreCase);
      PreparedHasBigrams(b, ignoreCase);
      var sa := BigramSet(Prepare(a, ignoreCase));
      var sb := BigramSet(Prepare(b, ignoreCase));
      IntersectionSmaller(sa, sb);
      RatioBounds(|sa * sb|, |sa|, |sb|);
    }
  }

  /** Both strings are treated alike, so the order of the arguments does not matter. */
  lemma DiceSymmetric(a: string, b: string, ignoreCase: bool)
    ensures Dice(a, b, ignoreCase) == Dice(b, a, ignoreCase)
  {
    if |a| > 0 && |b| > 0 {
      var sa := BigramSet(Prepare(a, ignoreCase));
      var sb := BigramSet(Prepare(b, ignoreCase));
      assert sa * sb == sb * sa;
    }
  }

  /** Any non-empty string scores exactly 1 against itself. */
  lemma DiceSelf(a: string, ignoreCase: bool)
    requires |a| > 0
    ensures Dice(a, a, ignoreCase) == 1.0
  {
    PreparedHasBigrams(a, ignoreCase);
    var sa := BigramSet(Prepare(a, ignoreCase));
    assert sa * sa == sa;
  }

  /**
   * With case ignored, replacing an input by one that lower-cases to the
   * same string (the same letters in another case) does not change the score.
   */
  lemma DiceIgnoresCase(a: string, a': string, b: string)
    requires Lower(a) == Lower(a')
    ensures Dice(a, b, true) == Dice(a', b, true)
  {
    assert |a| == |Lower(a)| == |a'|;
    assert Prepare(a, true) == Prepare(a', true);
  }

  /** Swaps the case of every ASCII letter. */
  function SwapCase(s: string): (r: string)
    ensures |r| == |s|
    ensures forall i :: 0 <= i < |s| ==> Lower([r[i]]) == Lower([s[i]])
  {
    if |s| == 0 then ""
    else
      var c := s[0];
      var d := if 'A' <= c <= 'Z' then (c as int + 32) as char
               else if 'a' <= c <= 'z' then (c as int - 32) as char
               else c;
      [d] + SwapCase(s[1..])
  }

  /** Flipping the case of the letters of either input leaves the case-insensitive score unchanged. */
  lemma {:induction false} DiceSwapCase(a: string, b: string)
    ensures Dice(SwapCase(a), b, true) == Dice(a, b, true)
    ensures Dice(a, SwapCase(b), true) == Dice(a, b, true)
  {
    LowerSwapCase(a);
    LowerSwapCase(b);
    DiceIgnoresCase(SwapCase(a), a, b);
    DiceSymmetric(a, SwapCase(b), true);
    DiceIgnoresCase(SwapCase(b), b, a);
    DiceSymmetric(b, a, true);
  }

  lemma LowerSwapCase(s: string)
    ensures Lower(SwapCase(s)) == Lower(s)
  {
    var t := SwapCase(s);
    forall i | 0 <= i < |s|
      ensures Lower(t)[i] == Lower(s)[i]
    {
      assert Lower([t[i]])[0] == LowerChar(t[i]);
      assert Lower([s[i]])[0] == LowerChar(s[i]);
    }
  }

  /** Lower-casing leaves a string without upper-case ASCII letters as it is. */
  lemma LowerKeepsLowercase(s: string)
    requires forall i :: 0 <= i < |s| ==> !('A' <= s[i] <= 'Z')
    ensures Lower(s) == s
  {
  }

  /** The bigram set of a five-character string whose four bigrams are given. */
  lemma BigramSetOfFive(s: string, g0: string, g1: string, g2: string, g3: string)
    requires |s| == 5
    requires s[0..2] == g0 && s[1..3] == g1 && s[2..4] == g2 && s[3..5] == g3
    ensures BigramSet(s) == {g0, g1, g2, g3}
  {
    assert Bigrams(s) == [g0, g1, g2, g3];
  }

  lemma NightNachtBigrams(a: string, b: string)
    requires a == "night" && b == "nacht"
    ensures BigramSet(a) == {"ni", "ig", "gh", "ht"}
    ensures BigramSet(b) == {"na", "ac", "ch", "ht"}
  {
    BigramSetOfFive(a, "ni", "ig", "gh", "ht");
    BigramSetOfFive(b, "na", "ac", "ch", "ht");
  }

  lemma NightNachtSizes()
    ensures |{"ni", "ig", "gh", "ht"} * {"na", "ac", "ch", "ht"}| == 1
    ensures |{"ni", "ig", "gh", "ht"}| == 4 && |{"na", "ac", "ch", "ht"}| == 4
  {
    assert {"ni", "ig", "gh", "ht"} * {"na", "ac", "ch", "ht"} == {"ht"};
  }

  /** The score of two lower-case strings of two characters or more, from their bigram sets. */
  lemma DiceOfLowercase(a: string, b: string)
    requires |a| >= 2 && |b| >= 2 && Lower(a) == a && Lower(b) == b
    ensures |BigramSet(a)| > 0 && |BigramSet(b)| > 0
    ensures Dice(a, b, true) == Ratio(|BigramSet(a) * BigramSet(b)|, |BigramSet(a)|, |BigramSet(b)|)
  {
    PreparedHasBigrams(a, true);
    PreparedHasBigrams(b, true);
  }

  /** The textbook value: "night" and "nacht" share one of eight bigrams, "ht". */
  lemma NightNacht()
    ensures Dice("night", "nacht", true) == 0.25
  {
    LowerKeepsLowercase("night");
    LowerKeepsLowercase("nacht");
    DiceOfLowercase("night", "nacht");
    NightNachtBigrams("night", "nacht");
    NightNachtSizes();
    assert Ratio(1, 4, 4) == 0.25;
  }
}
