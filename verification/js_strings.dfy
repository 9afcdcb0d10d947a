/**
 * The JavaScript string built-ins the registration form's validator relies on:
 * whitespace (the `\s` class and `String.prototype.trim`), searching for a
 * character, and the `Number(...)` coercion of the age field, restricted to
 * integer literals.
 */
module JsStrings {

  datatype Option<+T> = None | Some(value: T)

  /** The characters this model treats as whitespace, for `\s` and for `trim`. */
  predicate IsWhitespace(c: char) {
    c == ' ' || c == '\t' || c == '\n' || c == '\r' ||
    c == '\U{000B}' || c == '\U{000C}' || c == '\U{00A0}' || c == '\U{FEFF}'
  }

  /** `\d`: an ASCII decimal digit. */
  predicate IsDigit(c: char) {
    '0' <= c <= '9'
  }

  predicate NoWhitespace(s: string) {
    s == [] || (!IsWhitespace(s[0]) && NoWhitespace(s[1..]))
  }

  predicate AllWhitespace(s: string) {
    s == [] || (IsWhitespace(s[0]) && AllWhitespace(s[1..]))
  }

  predicate AllDigits(s: string) {
    s == [] || (IsDigit(s[0]) && AllDigits(s[1..]))
  }

  lemma {:induction false} NoWhitespaceAt(s: string)
    ensures NoWhitespace(s) <==> forall i | 0 <= i < |s| :: !IsWhitespace(s[i])
  {
    if s != [] {
      NoWhitespaceAt(s[1..]);
      assert forall i | 1 <= i < |s| :: s[i] == s[1..][i - 1];
    }
  }

  lemma {:induction false} AllWhitespaceAt(s: string)
    ensures AllWhitespace(s) <==> forall i | 0 <= i < |s| :: IsWhitespace(s[i])
  {
    if s != [] {
      AllWhitespaceAt(s[1..]);
      assert forall i | 1 <= i < |s| :: s[i] == s[1..][i - 1];
    }
  }

  lemma {:induction false} AllDigitsAt(s: string)
    ensures AllDigits(s) <==> forall i | 0 <= i < |s| :: IsDigit(s[i])
  {
    if s != [] {
      AllDigitsAt(s[1..]);
      assert forall i | 1 <= i < |s| :: s[i] == s[1..][i - 1];
    }
  }

  /** Whitespace runs join into whitespace runs. */
  lemma AllWhitespaceAppend(a: string, b: string)
    requires AllWhitespace(a) && AllWhitespace(b)
    ensures AllWhitespace(a + b)
  {
    AllWhitespaceAt(a);
    AllWhitespaceAt(b);
    AllWhitespaceAt(a + b);
  }

  /** The index of the first non-whitespace character of `s` at or after `i` (or `|s|`). */
  function SkipForward(s: string, i: nat): (a: nat)
    requires i <= |s|
    ensures i <= a <= |s|
    decreases |s| - i
  {
    if i < |s| && IsWhitespace(s[i]) then SkipForward(s, i + 1) else i
  }

  /** What `SkipForward` skips is whitespace, and it stops on a non-whitespace character. */
  lemma {:induction false} SkipForwardSpec(s: string, i: nat)
    requires i <= |s|
    ensures AllWhitespace(s[i..SkipForward(s, i)])
    ensures SkipForward(s, i) < |s| ==> !IsWhitespace(s[SkipForward(s, i)])
    decreases |s| - i
  {
    if i < |s| && IsWhitespace(s[i]) {
      SkipForwardSpec(s, i + 1);
      assert s[i..SkipForward(s, i)][1..] == s[i + 1..SkipForward(s, i + 1)];
    }
  }

  /** The index just past the last non-whitespace character of `s[lo..j]` (or `lo`). */
  function SkipBackward(s: string, lo: nat, j: nat): (b: nat)
    requires lo <= j <= |s|
    ensures lo <= b <= j
    decreases j - lo
  {
    if j > lo && IsWhitespace(s[j - 1]) then SkipBackward(s, lo, j - 1) else j
  }

  /** What `SkipBackward` skips is whitespace, and it stops after a non-whitespace character. */
  lemma {:induction false} SkipBackwardSpec(s: string, lo: nat, j: nat)
    requires lo <= j <= |s|
    ensures AllWhitespace(s[SkipBackward(s, lo, j)..j])
    ensures SkipBackward(s, lo, j) > lo ==> !IsWhitespace(s[SkipBackward(s, lo, j) - 1])
    decreases j - lo
  {
    if j > lo && IsWhitespace(s[j - 1]) {
      SkipBackwardSpec(s, lo, j - 1);
      var b := SkipBackward(s, lo, j);
      assert s[b..j] == s[b..j - 1] + [s[j - 1]];
      AllWhitespaceAppend(s[b..j - 1], [s[j - 1]]);
    }
  }

  /** How many whitespace characters `s.trim()` removes from the front of `s`. */
  function TrimOffset(s: string): (a: nat)
    ensures a <= |s|
  {
    SkipForward(s, 0)
  }

  /** `s.trim()`: `s` without its leading and trailing whitespace. */
  function Trim(s: string): (r: string)
    ensures |r| <= |s|
  {
    s[TrimOffset(s)..SkipBackward(s, TrimOffset(s), |s|)]
  }

  /**
   * `Trim(s)` is the infix of `s` that starts at `TrimOffset(s)`, what it
   * drops is all whitespace, it neither starts nor ends with whitespace, it
   * is empty exactly when `s` is all whitespace, and a string without
   * whitespace is its own trim.
   */
  lemma TrimSpec(s: string)
    ensures var r, k := Trim(s), TrimOffset(s);
      && k + |r| <= |s| && r == s[k..k + |r|]
      && AllWhitespace(s[..k]) && AllWhitespace(s[k + |r|..])
    ensures Trim(s) == [] <==> AllWhitespace(s)
    ensures Trim(s) != [] ==> !IsWhitespace(Trim(s)[0]) && !IsWhitespace(Trim(s)[|Trim(s)| - 1])
    ensures NoWhitespace(s) ==> Trim(s) == s
  {
    var a := SkipForward(s, 0);
    var b := SkipBackward(s, a, |s|);
    SkipForwardSpec(s, 0);
    SkipBackwardSpec(s, a, |s|);
    assert s[..a] == s[0..a];
    assert s[b..] == s[b..|s|];
    if a == b {
      assert s == s[..a] + s[b..];
      AllWhitespaceAppend(s[..a], s[b..]);
    } else {
      AllWhitespaceAt(s);
    }
    if NoWhitespace(s) {
      NoWhitespaceAt(s);
      AllWhitespaceAt(s[..a]);
      AllWhitespaceAt(s[b..]);
    }
  }

  /** The first index at which `c` occurs in `s`, if any. */
  function IndexOf(s: string, c: char): (r: Option<nat>)
    ensures r.Some? ==> r.value < |s|
    decreases |s|
  {
    if s == [] then None
    else if s[0] == c then Some(0)
    else match IndexOf(s[1..], c)
      case None => None
      case Some(i) => Some(i + 1)
  }

  /** `IndexOf` finds the first occurrence of `c`, and finds none only when there is none. */
  lemma {:induction false} IndexOfSpec(s: string, c: char)
    ensures IndexOf(s, c).Some? ==> s[IndexOf(s, c).value] == c && c !in s[..IndexOf(s, c).value]
    ensures IndexOf(s, c).None? ==> c !in s
    decreases |s|
  {
    if s != [] && s[0] != c {
      IndexOfSpec(s[1..], c);
      assert s == [s[0]] + s[1..];
      if IndexOf(s[1..], c).Some? {
        var i := IndexOf(s[1..], c).value;
        assert s[..i + 1] == [s[0]] + s[1..][..i];
      }
    }
  }

  /**
   * `s.length`: the number of UTF-16 code units, which is two for a
   * character outside the Basic Multilingual Plane and one for any other.
   */
  function Utf16Length(s: string): nat {
    if s == [] then 0 else (if s[0] >= '\U{10000}' then 2 else 1) + Utf16Length(s[1..])
  }

  /**
   * `s.length` lies between the number of characters and twice that, and
   * equals the number of characters exactly when none of them lies outside
   * the Basic Multilingual Plane.
   */
  lemma {:induction false} Utf16LengthBounds(s: string)
    ensures |s| <= Utf16Length(s) <= 2 * |s|
    ensures Utf16Length(s) == |s| <==> forall i | 0 <= i < |s| :: s[i] < '\U{10000}'
  {
    if s != [] {
      Utf16LengthBounds(s[1..]);
      assert forall i | 1 <= i < |s| :: s[i] == s[1..][i - 1];
    }
  }

  /** A non-empty run of decimal digits. */
  predicate IsDigitString(s: string) {
    |s| > 0 && AllDigits(s)
  }

  function DigitValue(c: char): (d: nat)
    requires IsDigit(c)
    ensures d < 10
  {
    (c as int - '0' as int)
  }

  /** The value of a string of decimal digits, most significant first. */
  function DecimalValue(s: string): (n: nat)
    requires AllDigits(s)
    decreases |s|
  {
    if s == [] then 0
    else
      AllDigitsAt(s);
      AllDigitsAt(s[..|s| - 1]);
      10 * DecimalValue(s[..|s| - 1]) + DigitValue(s[|s| - 1])
  }

  /** The result of `Number(s)`: a number, or NaN. */
  datatype Numeric = NaN | Finite(value: int)

  /** `x < n` in JavaScript: every comparison with NaN is false. */
  predicate LessThan(x: Numeric, n: int) {
    x.Finite? && x.value < n
  }

  /** `x > n` in JavaScript. */
  predicate GreaterThan(x: Numeric, n: int) {
    x.Finite? && x.value > n
  }

  /**
   * `Number(s)` for integer literals: surrounding whitespace is ignored, an
   * all-whitespace string is 0, an optional sign may precede the digits, and
   * anything else is NaN.
   */
  function ToNumber(s: string): Numeric {
    SignedDecimal(Trim(s))
  }

  /** `Number` of a digit string is its decimal value; `Number` of blank text is 0. */
  lemma ToNumberSpec(s: string)
    ensures IsDigitString(s) ==> ToNumber(s) == Finite(DecimalValue(s))
    ensures AllWhitespace(s) ==> ToNumber(s) == Finite(0)
  {
    TrimSpec(s);
    AllDigitsAt(s);
    NoWhitespaceAt(s);
  }

  /** `Number` of an already trimmed string. */
  function SignedDecimal(t: string): Numeric {
    if t == [] then Finite(0)
    else if t[0] == '-' && IsDigitString(t[1..]) then Finite(-(DecimalValue(t[1..]) as int))
    else if t[0] == '+' && IsDigitString(t[1..]) then Finite(DecimalValue(t[1..]))
    else if IsDigitString(t) then Finite(DecimalValue(t))
    else NaN
  }

  /** An ASCII letter, as in the `e` of an exponent, the `x` of `0x1F` or the letters of `Infinity`. */
  predicate IsAsciiLetter(c: char) {
    'a' <= c <= 'z' || 'A' <= c <= 'Z'
  }

  /**
   * Text holding a character that no JavaScript numeric literal contains
   * (anything but whitespace, a digit, a sign, `.` or an ASCII letter) is
   * NaN, here as in JavaScript: `Number("3#")` and `Number("1,5")` are.
   */
  lemma ToNumberNaN(s: string, i: nat)
    requires i < |s| && !IsWhitespace(s[i]) && !IsDigit(s[i]) && s[i] != '+' && s[i] != '-'
    requires s[i] != '.' && !IsAsciiLetter(s[i])
    ensures ToNumber(s) == NaN
  {
    TrimSpec(s);
    var t := Trim(s);
    var k := TrimOffset(s);
    AllWhitespaceAt(s[..k]);
    AllWhitespaceAt(s[k + |t|..]);
    if k <= i < k + |t| {
      assert t[i - k] == s[i];
      AllDigitsAt(t);
      if i - k > 0 {
        AllDigitsAt(t[1..]);
        assert t[1..][i - k - 1] == s[i];
      }
    }
  }
}
