/**
 * The few pieces of Java's string library the model relies on:
 * `String.toLowerCase` (on ASCII letters) and `String.trim`, the decimal rendering
 * of integers (`String.valueOf`, string concatenation of a number) and its inverse
 * `Long.parseLong`, and a first-occurrence search, which the application does
 * not call itself but the model of URL parsing uses to split a name.
 */
module Text {
  import opened Wrappers

  // ---------------------------------------------------------------------------
  // Lower case

  predicate IsUpper(c: char) {
    'A' <= c <= 'Z'
  }

  /** `Character.toLowerCase` on the ASCII range. */
  function LowerChar(c: char): char {
    if IsUpper(c) then (c as int - 'A' as int + 'a' as int) as char else c
  }

  /** A string with no upper-case letter. */
  predicate IsLower(s: string) {
    forall i :: 0 <= i < |s| ==> !IsUpper(s[i])
  }

  /** `String.toLowerCase`. */
  function Lower(s: string): (r: string)
    ensures |r| == |s| && IsLower(r)
  {
    if s == [] then [] else [LowerChar(s[0])] + Lower(s[1..])
  }

  lemma {:induction false} LowerAt(s: string, i: nat)
    requires i < |s|
    ensures Lower(s)[i] == LowerChar(s[i])
  {
    if i > 0 {
      LowerAt(s[1..], i - 1);
    }
  }

  /** Lower-casing works character by character, so it distributes over concatenation. */
  lemma {:induction false} LowerConcat(a: string, b: string)
    ensures Lower(a + b) == Lower(a) + Lower(b)
  {
    if a == [] {
      assert a + b == b;
    } else {
      assert (a + b)[0] == a[0] && (a + b)[1..] == a[1..] + b;
      LowerConcat(a[1..], b);
    }
  }

  /** A string without upper-case letters is its own lower case. */
  lemma {:induction false} LowerOfLower(s: string)
    requires IsLower(s)
    ensures Lower(s) == s
  {
    if s != [] {
      LowerOfLower(s[1..]);
    }
  }

  /** Lower-casing is idempotent. */
  lemma LowerIdempotent(s: string)
    ensures Lower(Lower(s)) == Lower(s)
  {
    LowerOfLower(Lower(s));
  }

  /** Lower-casing never creates or removes a character that is not a letter. */
  lemma LowerKeepsNonLetter(s: string, c: char)
    requires !IsUpper(c) && !('a' <= c <= 'z')
    ensures c in Lower(s) <==> c in s
  {
    forall i | 0 <= i < |s|
      ensures Lower(s)[i] == c <==> s[i] == c
    {
      LowerAt(s, i);
    }
  }

  // ---------------------------------------------------------------------------
  // Trimming

  /** `String.trim` removes every character up to and including the space. */
  predicate IsBlank(c: char) {
    c <= ' '
  }

  /** The position of the first non-blank character at or after `i`, or `|s|`. */
  function SkipBlanks(s: string, i: nat): (k: nat)
    requires i <= |s|
    ensures i <= k <= |s|
    ensures k < |s| ==> !IsBlank(s[k])
    ensures forall m :: i <= m < k ==> IsBlank(s[m])
    decreases |s| - i
  {
    if i < |s| && IsBlank(s[i]) then SkipBlanks(s, i + 1) else i
  }

  /** The end of `s[lo..j]` once its trailing blanks are dropped. */
  function SkipBlanksBack(s: string, lo: nat, j: nat): (k: nat)
    requires lo <= j <= |s|
    ensures lo <= k <= j
    ensures k > lo ==> !IsBlank(s[k - 1])
    ensures forall m :: k <= m < j ==> IsBlank(s[m])
    decreases j - lo
  {
    if j > lo && IsBlank(s[j - 1]) then SkipBlanksBack(s, lo, j - 1) else j
  }

  /**
   * `String.trim`: the string without its leading and trailing blanks; a string
   * that neither starts nor ends with a blank is unchanged.
   */
  function Trim(s: string): (r: string)
    ensures |r| <= |s|
    ensures r == [] || (!IsBlank(r[0]) && !IsBlank(r[|r| - 1]))
    ensures (s == [] || (!IsBlank(s[0]) && !IsBlank(s[|s| - 1]))) ==> r == s
  {
    var start := SkipBlanks(s, 0);
    s[start..SkipBlanksBack(s, start, |s|)]
  }

  /**
   * What `String.trim` returns is the input with a run of blanks cut from each
   * end: a slice `s[k..m]` with only blanks before `k` and after `m`.
   */
  lemma TrimIsOuterSlice(s: string)
    ensures exists k, m ::
              && 0 <= k <= m <= |s| && Trim(s) == s[k..m]
              && (forall i :: 0 <= i < k ==> IsBlank(s[i]))
              && (forall i :: m <= i < |s| ==> IsBlank(s[i]))
  {
    var k := SkipBlanks(s, 0);
    var m := SkipBlanksBack(s, k, |s|);
    assert Trim(s) == s[k..m];
  }

  /** Trimming is idempotent. */
  lemma TrimIdempotent(s: string)
    ensures Trim(Trim(s)) == Trim(s)
  {
    var t := Trim(s);
    assert t == [] || (!IsBlank(t[0]) && !IsBlank(t[|t| - 1]));
  }

  // ---------------------------------------------------------------------------
  // Decimal numbers

  predicate IsDigit(c: char) {
    '0' <= c <= '9'
  }

  predicate AllDigits(s: string) {
    forall i :: 0 <= i < |s| ==> IsDigit(s[i])
  }

  function DigitChar(d: nat): (c: char)
    requires d < 10
    ensures IsDigit(c)
  {
    ('0' as int + d) as char
  }

  function DigitValue(c: char): (d: nat)
    requires IsDigit(c)
    ensures d < 10 && DigitChar(d) == c
  {
    c as int - '0' as int
  }

  /** `Long.toString` of a non-negative number: digits, most significant first, no leading zero. */
  function NatToString(n: nat): (s: string)
    ensures |s| > 0 && AllDigits(s)
    ensures s[0] == '0' ==> n == 0
    decreases n
  {
    if n < 10 then [DigitChar(n)] else NatToString(n / 10) + [DigitChar(n % 10)]
  }

  /** `Long.toString` of any number: a minus sign before the digits of a negative one. */
  function IntToString(n: int): string {
    if n < 0 then "-" + NatToString(-n) else NatToString(n)
  }

  /** The value of a string of decimal digits. */
  function ParseNat(s: string): nat
    requires AllDigits(s)
    decreases |s|
  {
    if s == [] then 0 else ParseNat(s[..|s| - 1]) * 10 + DigitValue(s[|s| - 1])
  }

  /** `Long.parseLong` on an optional minus sign and one or more digits. */
  function ParseInt(s: string): Option<int> {
    if |s| > 1 && s[0] == '-' && AllDigits(s[1..]) then Some(0 - ParseNat(s[1..]) as int)
    else if |s| > 0 && AllDigits(s) then Some(ParseNat(s))
    else None
  }

  /** Reading back the decimal rendering of a natural number gives the number. */
  lemma {:induction false} NatToStringRoundTrip(n: nat)
    ensures ParseNat(NatToString(n)) == n
    decreases n
  {
    if n >= 10 {
      var s := NatToString(n);
      assert s[..|s| - 1] == NatToString(n / 10);
      NatToStringRoundTrip(n / 10);
    }
  }

  /** A minus sign followed by digits is read as the negated value of the digits. */
  lemma ParseIntOfNegative(digits: string)
    requires |digits| > 0 && AllDigits(digits)
    ensures ParseInt("-" + digits) == Some(0 - ParseNat(digits) as int)
  {
    assert ("-" + digits)[1..] == digits;
  }

  /** Digits alone are read as their value. */
  lemma ParseIntOfDigits(digits: string)
    requires |digits| > 0 && AllDigits(digits)
    ensures ParseInt(digits) == Some(ParseNat(digits) as int)
  {
    assert IsDigit(digits[0]);
  }

  /** `Long.parseLong(Long.toString(n)) == n`. */
  lemma IntToStringRoundTrip(n: int)
    ensures ParseInt(IntToString(n)) == Some(n)
  {
    if n < 0 {
      ParseIntOfNegative(NatToString(-n));
      NatToStringRoundTrip(-n);
    } else {
      ParseIntOfDigits(NatToString(n));
      NatToStringRoundTrip(n);
    }
  }

  /** Digits, and the minus sign, are unchanged by lower-casing. */
  lemma IntToStringIsLower(n: int)
    ensures IsLower(IntToString(n)) && Lower(IntToString(n)) == IntToString(n)
  {
    LowerOfLower(IntToString(n));
  }

  // ---------------------------------------------------------------------------
  // Searching

  /** `String.indexOf(c)`: the first position of `c`, if any. */
  function IndexOf(s: string, c: char): (r: Option<nat>)
    ensures r.Some? ==> r.value < |s| && s[r.value] == c && c !in s[..r.value]
    ensures r.None? ==> c !in s
  {
    if s == [] then None
    else if s[0] == c then Some(0)
    else match IndexOf(s[1..], c)
      case None => None
      case Some(i) => Some(i + 1)
  }

  /** The first occurrence of `c` determines `indexOf`. */
  lemma IndexOfIs(s: string, c: char, k: nat)
    requires k < |s| && s[k] == c && c !in s[..k]
    ensures IndexOf(s, c) == Some(k)
  {
    assert s[k] in s;
  }
}
