/**
 * The pieces of Java's own semantics the core relies on: integer division
 * that truncates toward zero, 32-bit `int` arithmetic, `String.length()` in
 * UTF-16 code units and the length of `String.split("\\s+")`.
 */
module JavaLang {

  const Int32Modulus: int := 0x1_0000_0000
  const Int32Min: int := -0x8000_0000
  const Int32Max: int := 0x7FFF_FFFF

  function Abs(x: int): nat {
    if x < 0 then -x else x
  }

  function Max(a: int, b: int): int {
    if a >= b then a else b
  }

  function Min(a: int, b: int): int {
    if a <= b then a else b
  }

  /**
   * Java's `/` on integers with a positive divisor: the quotient rounds
   * toward zero, so the remainder takes the sign of the dividend.
   */
  function TruncDiv(a: int, b: int): (q: int)
    requires b > 0
    ensures a >= 0 ==> 0 <= a - q * b < b
    ensures a < 0 ==> -b < a - q * b <= 0
  {
    if a >= 0 then a / b else -((-a) / b)
  }

  /** Truncation toward zero is odd: negating the dividend negates the quotient. */
  lemma TruncDivNegate(a: int, b: int)
    requires b > 0
    ensures TruncDiv(-a, b) == -TruncDiv(a, b)
  {
    if a == 0 {
    } else if a < 0 {
      assert -a > 0;
    }
  }

  /** The value a 32-bit two's-complement `int` holds after computing `x`. */
  function Int32(x: int): (r: int)
    ensures Int32Min <= r <= Int32Max
    ensures (x - r) % Int32Modulus == 0
  {
    (x - Int32Min) % Int32Modulus + Int32Min
  }

  lemma Int32Exact(x: int)
    requires Int32Min <= x <= Int32Max
    ensures Int32(x) == x
  {
  }

  /** Wrapping after every addition is the same as wrapping once at the end. */
  lemma Int32AddWrapped(a: int, b: int)
    ensures Int32(Int32(a) + b) == Int32(a + b)
  {
    var k := (a - Int32Min) / Int32Modulus;
    assert Int32(a) == a - k * Int32Modulus;
    ModShift(a + b - Int32Min, k);
  }

  lemma ModShift(y: int, k: int)
    ensures (y - k * Int32Modulus) % Int32Modulus == y % Int32Modulus
  {
    var q := y / Int32Modulus;
    var r := y % Int32Modulus;
    assert y - k * Int32Modulus == (q - k) * Int32Modulus + r;
  }

  function IsSurrogatePair(c: char): bool {
    c as int > 0xFFFF
  }

  /** `String.length()`: characters outside the Basic Multilingual Plane take two UTF-16 units. */
  function Utf16Length(s: string): (n: nat)
    ensures n >= |s|
    ensures n <= 2 * |s|
  {
    if |s| == 0 then 0
    else Utf16Length(s[..|s| - 1]) + (if IsSurrogatePair(s[|s| - 1]) then 2 else 1)
  }

  lemma {:induction false} Utf16LengthBmp(s: string)
    requires forall i :: 0 <= i < |s| ==> !IsSurrogatePair(s[i])
    ensures Utf16Length(s) == |s|
    decreases |s|
  {
    if |s| > 0 {
      Utf16LengthBmp(s[..|s| - 1]);
    }
  }

  /** The characters the regular expression `\s` matches in Java (no Unicode flag). */
  predicate IsJavaWhitespace(c: char) {
    c == ' ' || c == '\t' || c == '\n' || c == '\U{B}' || c == '\U{C}' || c == '\r'
  }

  /** Number of maximal runs of non-whitespace characters in `s`. */
  function WordRuns(s: string): (n: nat)
    ensures n <= |s|
  {
    if |s| == 0 then 0
    else
      var starts := !IsJavaWhitespace(s[|s| - 1]) && (|s| == 1 || IsJavaWhitespace(s[|s| - 2]));
      WordRuns(s[..|s| - 1]) + (if starts then 1 else 0)
  }

  /**
   * The length of `s.split("\\s+")`: an input with no match splits into
   * itself (so "" gives one token), leading whitespace yields one empty
   * leading token, and trailing empty tokens are dropped (so an input made
   * only of whitespace gives none).
   */
  function SplitWhitespaceCount(s: string): (n: nat)
    ensures n <= |s| + 1
  {
    if |s| == 0 then 1
    else if WordRuns(s) == 0 then 0
    else WordRuns(s) + (if IsJavaWhitespace(s[0]) then 1 else 0)
  }

  lemma {:induction false} NoWhitespaceOneRun(s: string)
    requires |s| > 0
    requires forall i :: 0 <= i < |s| ==> !IsJavaWhitespace(s[i])
    ensures WordRuns(s) == 1
    decreases |s|
  {
    if |s| > 1 {
      NoWhitespaceOneRun(s[..|s| - 1]);
    }
  }

  lemma {:induction false} AllWhitespaceNoRun(s: string)
    requires forall i :: 0 <= i < |s| ==> IsJavaWhitespace(s[i])
    ensures WordRuns(s) == 0
    decreases |s|
  {
    if |s| > 0 {
      AllWhitespaceNoRun(s[..|s| - 1]);
    }
  }

  /** The split rules on the inputs where they differ from naive word counting. */
  lemma SplitWhitespaceCountCases(s: string)
    ensures s == "" ==> SplitWhitespaceCount(s) == 1
    ensures |s| > 0 && (forall i :: 0 <= i < |s| ==> IsJavaWhitespace(s[i])) ==> SplitWhitespaceCount(s) == 0
    ensures |s| > 0 && (forall i :: 0 <= i < |s| ==> !IsJavaWhitespace(s[i])) ==> SplitWhitespaceCount(s) == 1
    ensures SplitWhitespaceCount(" one two ") == 3
  {
    if |s| > 0 && (forall i :: 0 <= i < |s| ==> IsJavaWhitespace(s[i])) {
      AllWhitespaceNoRun(s);
    }
    if |s| > 0 && (forall i :: 0 <= i < |s| ==> !IsJavaWhitespace(s[i])) {
      NoWhitespaceOneRun(s);
    }
    var e := " one two ";
    assert e[..1] == " " && WordRuns(e[..1]) == 0;
    assert e[..2][..1] == e[..1] && WordRuns(e[..2]) == 1;
    assert e[..3][..2] == e[..2] && WordRuns(e[..3]) == 1;
    assert e[..4][..3] == e[..3] && WordRuns(e[..4]) == 1;
    assert e[..5][..4] == e[..4] && WordRuns(e[..5]) == 1;
    assert e[..6][..5] == e[..5] && WordRuns(e[..6]) == 2;
    assert e[..7][..6] == e[..6] && WordRuns(e[..7]) == 2;
    assert e[..8][..7] == e[..7] && WordRuns(e[..8]) == 2;
    assert e[..8] == e[..|e| - 1];
  }
}
