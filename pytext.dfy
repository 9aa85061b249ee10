/**
 * The few Python string built-ins that subgetter.py relies on, stated
 * exactly: `int()` applied to text, `str.split(sep)[-1]` (used for the file
 * extension and, with '/', for `os.path.basename`), and the substring test
 * `needle in haystack`.
 */
module PyText {
  import opened Wrappers

  predicate IsDigit(c: char) { '0' <= c <= '9' }

  /** The whitespace that `int()` strips from both ends (ASCII). */
  predicate IsSpace(c: char) { c == ' ' || c == '\t' || c == '\n' || c == '\r' || c == '\U{0B}' || c == '\U{0C}' }

  predicate AllDigits(s: string) { forall i :: 0 <= i < |s| ==> IsDigit(s[i]) }

  function Pow10(n: nat): (p: nat)
    ensures p >= 1
  {
    if n == 0 then 1 else 10 * Pow10(n - 1)
  }

  /** The value of a run of decimal digits, most significant first; leading zeros allowed. */
  function DigitsValue(s: string): nat
    requires AllDigits(s)
  {
    if |s| == 0 then 0
    else DigitsValue(s[..|s| - 1]) * 10 + (s[|s| - 1] as int - '0' as int)
  }

  /** A run of n digits has a value below 10^n. */
  lemma {:induction false} DigitsValueBound(s: string)
    requires AllDigits(s)
    ensures DigitsValue(s) < Pow10(|s|)
  {
    if |s| > 0 {
      DigitsValueBound(s[..|s| - 1]);
    }
  }

  /** `str(n)` for a natural number: its decimal digits without leading zeros. */
  function NatDigits(n: nat): (s: string)
    ensures |s| > 0 && AllDigits(s)
  {
    if n < 10 then [('0' as int + n) as char]
    else NatDigits(n / 10) + [('0' as int + n % 10) as char]
  }

  /** `str(n)` for any integer. */
  function Decimal(n: int): string
  {
    if n < 0 then "-" + NatDigits(-n) else NatDigits(n)
  }

  function StripLeft(s: string): (r: string)
    ensures |r| <= |s| && r == s[|s| - |r|..]
    ensures |r| > 0 ==> !IsSpace(r[0])
  {
    if |s| > 0 && IsSpace(s[0]) then StripLeft(s[1..]) else s
  }

  function StripRight(s: string): (r: string)
    ensures |r| <= |s| && r == s[..|r|]
    ensures |r| > 0 ==> !IsSpace(r[|r| - 1])
  {
    if |s| > 0 && IsSpace(s[|s| - 1]) then StripRight(s[..|s| - 1]) else s
  }

  /** `s.strip()` over ASCII whitespace. */
  function Strip(s: string): string
  {
    StripRight(StripLeft(s))
  }

  /**
   * `int(s)` for a text argument, as Python 2 reads it: surrounding whitespace,
   * an optional sign and at least one decimal digit; anything else is a
   * ValueError (None here).
   */
  function ParseInt(s: string): Option<int>
  {
    ParseSigned(Strip(s))
  }

  /**
   * The stripped text: an optional sign, then one or more decimal digits.
   * Python 2 skips whitespace again after the sign, so `int("- 5") == -5`.
   */
  function ParseSigned(t: string): Option<int>
  {
    var negative := |t| > 0 && t[0] == '-';
    var digits := if |t| > 0 && (t[0] == '-' || t[0] == '+') then StripLeft(t[1..]) else t;
    if |digits| > 0 && AllDigits(digits) then
      var v: int := DigitsValue(digits);
      if negative then Some(-v) else Some(v)
    else None
  }

  /** The arguments the constructor's coercions receive: an integer or a text. */
  datatype PyValue = PyInt(i: int) | PyStr(s: string)

  /** `try: int(v) except ValueError: 0` */
  function IntOrZero(v: PyValue): int
  {
    if v.PyInt? then v.i
    else
      var parsed := ParseInt(v.s);
      if parsed.Some? then parsed.value else 0
  }

  lemma {:induction false} DigitsValueOfNat(n: nat)
    ensures DigitsValue(NatDigits(n)) == n
  {
    if n >= 10 {
      DigitsValueOfNat(n / 10);
      var s := NatDigits(n);
      assert s[..|s| - 1] == NatDigits(n / 10);
    }
  }

  lemma StripNoSpace(s: string)
    requires |s| > 0 && !IsSpace(s[0]) && !IsSpace(s[|s| - 1])
    ensures Strip(s) == s
  {
  }

  /** The decimal text of a natural number is its own stripped, unsigned form. */
  lemma NatDigitsShape(m: nat)
    ensures var d := NatDigits(m); Strip(d) == d && d[0] != '-' && d[0] != '+'
  {
    var d := NatDigits(m);
    assert IsDigit(d[0]) && IsDigit(d[|d| - 1]);
    StripNoSpace(d);
  }

  lemma ParseIntNat(m: nat)
    ensures ParseInt(NatDigits(m)) == Some(m as int)
  {
    DigitsValueOfNat(m);
    NatDigitsShape(m);
    ParseSignedPlain(NatDigits(m));
  }

  lemma ParseSignedPlain(d: string)
    requires |d| > 0 && AllDigits(d)
    ensures ParseSigned(d) == Some(DigitsValue(d) as int)
  {
    assert IsDigit(d[0]);
  }

  lemma ParseIntNegative(n: int)
    requires n < 0
    ensures ParseInt(Decimal(n)) == Some(n)
  {
    var m: nat := -n;
    DecimalNegativeShape(n);
    DigitsValueOfNat(m);
    ParseIntMinusDigits(Decimal(n), NatDigits(m), m);
  }

  /** A minus sign directly followed by a digit run, with nothing around them. */
  lemma ParseIntMinusDigits(t: string, d: string, m: nat)
    requires |d| > 0 && AllDigits(d) && DigitsValue(d) == m
    requires |t| > 1 && t[0] == '-' && t[1..] == d
    ensures ParseInt(t) == Some(-(m as int))
  {
    assert t[|t| - 1] == d[|d| - 1];
    assert IsDigit(d[0]) && IsDigit(d[|d| - 1]);
    StripLeftDigits(d);
    StripNoSpace(t);
    ParseSignedNegative(t, d);
  }

  /** `str(n)` of a negative number: a minus sign, then the digits of -n. */
  lemma DecimalNegativeShape(n: int)
    requires n < 0
    ensures var t, d := Decimal(n), NatDigits(-n);
      |t| > 1 && t[0] == '-' && t[1..] == d
  {
    var t, d := Decimal(n), NatDigits(-n);
    assert t == "-" + d;
  }

  lemma StripLeftDigits(d: string)
    requires |d| > 0 && IsDigit(d[0])
    ensures StripLeft(d) == d
  {
  }

  /** A minus sign followed, after any whitespace, by the digit run d. */
  lemma ParseSignedNegative(t: string, d: string)
    requires |d| > 0 && AllDigits(d)
    requires |t| > 0 && t[0] == '-' && StripLeft(t[1..]) == d
    ensures ParseSigned(t) == Some(-(DigitsValue(d) as int))
  {
  }

  /** int(str(n)) == n: the decimal text of every integer parses back to it. */
  lemma ParseIntDecimal(n: int)
    ensures ParseInt(Decimal(n)) == Some(n)
  {
    if n < 0 {
      ParseIntNegative(n);
    } else {
      ParseIntNat(n);
    }
  }

  /** The constructor stores the same number whether it is given `n` or `str(n)`. */
  lemma IntOrZeroDecimal(n: int)
    ensures IntOrZero(PyStr(Decimal(n))) == IntOrZero(PyInt(n)) == n
  {
    ParseIntDecimal(n);
  }

  /** Text with no digit at all never parses, so the constructor coerces it to 0. */
  lemma {:induction false} NoDigitNoInt(s: string)
    requires forall i :: 0 <= i < |s| ==> !IsDigit(s[i])
    ensures ParseInt(s) == None
    ensures IntOrZero(PyStr(s)) == 0
  {
    var t := Strip(s);
    var u := StripLeft(s);
    assert t == u[..|t|];
    if |t| > 0 && (t[0] == '-' || t[0] == '+') {
      var digits := StripLeft(t[1..]);
      if |digits| > 0 {
        assert digits[0] == t[|t| - |digits|];
        assert t[|t| - |digits|] == u[|t| - |digits|] == s[|s| - |u| + |t| - |digits|];
      }
    } else if |t| > 0 {
      assert t[0] == u[0] == s[|s| - |u|];
    }
  }

  /** Leading whitespace in front of a digit run is all that StripLeft removes. */
  lemma {:induction false} StripLeftSpaces(w: string, d: string)
    requires forall i :: 0 <= i < |w| ==> IsSpace(w[i])
    requires |d| > 0 && IsDigit(d[0])
    ensures StripLeft(w + d) == d
  {
    if |w| > 0 {
      assert (w + d)[1..] == w[1..] + d;
      StripLeftSpaces(w[1..], d);
    }
  }

  /** Whitespace between the minus sign and the digits is skipped, as in `int("- 5") == -5`. */
  lemma SpaceAfterSign(t: string, w: string, d: string)
    requires forall i :: 0 <= i < |w| ==> IsSpace(w[i])
    requires |d| > 0 && AllDigits(d)
    requires |t| > 0 && t[0] == '-' && t[1..] == w + d
    ensures ParseInt(t) == Some(-(DigitsValue(d) as int))
  {
    assert t[|t| - 1] == d[|d| - 1];
    assert IsDigit(d[0]) && IsDigit(d[|d| - 1]);
    StripNoSpace(t);
    StripLeftSpaces(w, d);
    ParseSignedNegative(t, d);
  }

  /** `s.split(sep)`: the parts between separators, empty parts included. */
  function Split(s: string, sep: char): (parts: seq<string>)
    ensures |parts| >= 1
    ensures forall k :: 0 <= k < |parts| ==> sep !in parts[k]
  {
    if |s| == 0 then [""]
    else
      var rest := Split(s[1..], sep);
      if s[0] == sep then [""] + rest
      else [[s[0]] + rest[0]] + rest[1..]
  }

  /** `sep.join(parts)` */
  function Join(parts: seq<string>, sep: char): string
    requires |parts| >= 1
  {
    if |parts| == 1 then parts[0] else parts[0] + [sep] + Join(parts[1..], sep)
  }

  /** Joining the parts of a split gives back the original string. */
  lemma {:induction false} JoinSplit(s: string, sep: char)
    ensures Join(Split(s, sep), sep) == s
  {
    if |s| > 0 {
      var rest := Split(s[1..], sep);
      JoinSplit(s[1..], sep);
      if s[0] == sep {
        assert ([""] + rest)[1..] == rest;
      } else {
        var parts := [[s[0]] + rest[0]] + rest[1..];
        if |rest| > 1 {
          assert parts[1..] == rest[1..];
        }
      }
    }
  }

  /** The joined text ends in the last part, preceded by a separator unless there is one part only. */
  lemma {:induction false} JoinEndsInLast(parts: seq<string>, sep: char)
    requires |parts| >= 1
    ensures var j, r := Join(parts, sep), parts[|parts| - 1];
      |r| <= |j| && j[|j| - |r|..] == r && (|parts| > 1 ==> |r| < |j| && j[|j| - |r| - 1] == sep)
  {
    if |parts| > 1 {
      JoinEndsInLast(parts[1..], sep);
    }
  }

  /** `s.split(sep)[-1]`: the text after the last separator, or all of `s` if it has none. */
  function LastPart(s: string, sep: char): string
  {
    var parts := Split(s, sep);
    parts[|parts| - 1]
  }

  /**
   * The last part is the longest separator-free suffix: it is a suffix of `s`,
   * holds no separator, and is either all of `s` or preceded by a separator.
   */
  lemma LastPartIsSuffix(s: string, sep: char)
    ensures var r := LastPart(s, sep);
      sep !in r && |r| <= |s| && s[|s| - |r|..] == r &&
      (|r| == |s| || s[|s| - |r| - 1] == sep)
  {
    JoinSplit(s, sep);
    JoinEndsInLast(Split(s, sep), sep);
  }

  /** Without a separator, the last part is the whole string. */
  lemma LastPartWithoutSeparator(s: string, sep: char)
    requires sep !in s
    ensures LastPart(s, sep) == s
  {
    LastPartIsSuffix(s, sep);
  }

  /** `os.path.basename(path)` for POSIX paths: the text after the last '/'. */
  function Basename(path: string): string
  {
    LastPart(path, '/')
  }

  /** `needle in haystack` for strings. */
  predicate Contains(haystack: string, needle: string)
  {
    needle <= haystack || (|haystack| > 0 && Contains(haystack[1..], needle))
  }

  /** `needle` occurs in `haystack` at offset `i`. */
  predicate OccursAt(haystack: string, needle: string, i: int)
  {
    0 <= i <= |haystack| - |needle| && haystack[i..i + |needle|] == needle
  }

  /** The substring test succeeds exactly when the needle occurs at some offset. */
  lemma ContainsAt(haystack: string, needle: string)
    ensures Contains(haystack, needle) <==> exists i :: OccursAt(haystack, needle, i)
  {
    if Contains(haystack, needle) {
      var i := ContainsOccurs(haystack, needle);
    }
    forall i | OccursAt(haystack, needle, i)
      ensures Contains(haystack, needle)
    {
      OccursContains(haystack, needle, i);
    }
  }

  lemma {:induction false} ContainsOccurs(haystack: string, needle: string) returns (i: nat)
    requires Contains(haystack, needle)
    ensures OccursAt(haystack, needle, i)
    decreases |haystack|
  {
    if needle <= haystack {
      i := 0;
      assert haystack[..|needle|] == needle;
    } else {
      var j := ContainsOccurs(haystack[1..], needle);
      i := j + 1;
      assert haystack[1..][j..j + |needle|] == haystack[i..i + |needle|];
    }
  }

  lemma {:induction false} OccursContains(haystack: string, needle: string, i: int)
    requires OccursAt(haystack, needle, i)
    ensures Contains(haystack, needle)
    decreases i
  {
    if i == 0 {
      assert haystack[..|needle|] == needle;
    } else {
      assert haystack[1..][i - 1..i - 1 + |needle|] == haystack[i..i + |needle|];
      OccursContains(haystack[1..], needle, i - 1);
    }
  }
}
