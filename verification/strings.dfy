/** The optional value the model uses for absent JavaScript properties and failed parses. */
module Optional {
  datatype Option<+T> = None | Some(value: T)
}

/**
 String helpers with the meaning JavaScript's String methods give them:
 `trim`, `toLowerCase`, `includes`, and the decimal rendering of an integer
 inside a template literal.
 */
module Strings {
  import opened Optional

  /** The characters `String.prototype.trim` removes: the WhiteSpace and
      LineTerminator code points of ECMA-262. */
  predicate IsWhitespace(c: char) {
    var n := c as int;
    n == 0x09 || n == 0x0A || n == 0x0B || n == 0x0C || n == 0x0D || n == 0x20
    || n == 0xA0 || n == 0x1680 || (0x2000 <= n <= 0x200A) || n == 0x2028
    || n == 0x2029 || n == 0x202F || n == 0x205F || n == 0x3000 || n == 0xFEFF
  }

  /** Drops leading whitespace: what is left is a suffix that is empty or starts
      with a non-whitespace character, and everything dropped is whitespace. */
  function TrimStart(s: string): (r: string)
    ensures |r| <= |s| && r == s[|s| - |r|..]
    ensures forall i :: 0 <= i < |s| - |r| ==> IsWhitespace(s[i])
    ensures r == [] || !IsWhitespace(r[0])
    decreases |s|
  {
    if |s| > 0 && IsWhitespace(s[0]) then TrimStart(s[1..]) else s
  }

  /** Drops trailing whitespace, symmetrically to TrimStart. */
  function TrimEnd(s: string): (r: string)
    ensures |r| <= |s| && r == s[..|r|]
    ensures forall i :: |r| <= i < |s| ==> IsWhitespace(s[i])
    ensures r == [] || !IsWhitespace(r[|r| - 1])
    decreases |s|
  {
    if |s| > 0 && IsWhitespace(s[|s| - 1]) then TrimEnd(s[..|s| - 1]) else s
  }

  /** `r` sits in `s` at index `i` with only whitespace around it. */
  predicate FramedBy(s: string, r: string, i: int) {
    && 0 <= i <= |s| - |r|
    && r == s[i..i + |r|]
    && (forall k :: 0 <= k < i ==> IsWhitespace(s[k]))
    && (forall k :: i + |r| <= k < |s| ==> IsWhitespace(s[k]))
  }

  /** `s.trim()`: the text between the leading and the trailing whitespace,
      which starts and ends with a non-whitespace character when not empty. */
  function Trim(s: string): (r: string)
    ensures exists i :: FramedBy(s, r, i)
    ensures r == [] || (!IsWhitespace(r[0]) && !IsWhitespace(r[|r| - 1]))
  {
    var a := TrimStart(s);
    var r := TrimEnd(a);
    FramedByParts(s, a, r);
    r
  }

  /** Whitespace cut from the front and then from the back frames what is left. */
  lemma FramedByParts(s: string, a: string, r: string)
    requires |a| <= |s| && a == s[|s| - |a|..]
    requires forall k :: 0 <= k < |s| - |a| ==> IsWhitespace(s[k])
    requires |r| <= |a| && r == a[..|r|]
    requires forall k :: |r| <= k < |a| ==> IsWhitespace(a[k])
    ensures FramedBy(s, r, |s| - |a|)
  {
    var i := |s| - |a|;
    forall k | i + |r| <= k < |s|
      ensures IsWhitespace(s[k])
    {
      assert s[k] == a[k - i];
    }
  }

  /** `!s.trim()`: the trimmed string is the empty, falsy string. */
  predicate IsBlank(s: string) {
    |Trim(s)| == 0
  }

  /** A string is blank exactly when every character of it is whitespace. */
  lemma BlankIffAllWhitespace(s: string)
    ensures IsBlank(s) <==> forall i :: 0 <= i < |s| ==> IsWhitespace(s[i])
  {
    var a := TrimStart(s);
    if IsBlank(s) {
      assert |a| == 0;
    }
  }

  predicate IsCapital(c: char) {
    'A' <= c <= 'Z'
  }

  /** `toLowerCase` on the characters that can take part in an ASCII keyword:
      the capitals A to Z, and the Kelvin sign, whose lower case is 'k'. */
  function LowerChar(c: char): char {
    if IsCapital(c) then (c as int - 'A' as int + 'a' as int) as char
    else if c as int == 0x212A then 'k'
    else c
  }

  /** `s.toLowerCase()`, character by character. */
  function ToLower(s: string): (r: string)
    ensures |r| == |s|
    ensures forall i :: 0 <= i < |s| ==> r[i] == LowerChar(s[i])
  {
    if s == [] then [] else [LowerChar(s[0])] + ToLower(s[1..])
  }

  /** No capital survives lower-casing, and every other ASCII character is kept. */
  lemma LowerRemovesCapitals(s: string)
    ensures forall i :: 0 <= i < |s| ==> !IsCapital(ToLower(s)[i])
    ensures forall i :: 0 <= i < |s| && IsCapital(s[i]) ==>
      ToLower(s)[i] as int == s[i] as int + 32
    ensures forall i :: 0 <= i < |s| && !IsCapital(s[i]) && s[i] as int < 128 ==>
      ToLower(s)[i] == s[i]
  {
  }

  /** Lower-casing works piece by piece. */
  lemma {:induction false} ToLowerAppend(a: string, b: string)
    ensures ToLower(a + b) == ToLower(a) + ToLower(b)
    decreases |a|
  {
    if a == [] {
      assert a + b == b;
    } else {
      assert (a + b)[1..] == a[1..] + b;
      ToLowerAppend(a[1..], b);
    }
  }

  /** Lower-casing twice is lower-casing once. */
  lemma {:induction false} ToLowerIdempotent(s: string)
    ensures ToLower(ToLower(s)) == ToLower(s)
  {
    if s != [] {
      ToLowerIdempotent(s[1..]);
      assert ToLower(s)[1..] == ToLower(s[1..]);
    }
  }

  predicate StartsWith(s: string, p: string) {
    |p| <= |s| && s[..|p|] == p
  }

  /** `s.includes(w)`, scanning the start positions from left to right. */
  predicate Contains(s: string, w: string)
    decreases |s|
  {
    StartsWith(s, w) || (|s| > 0 && Contains(s[1..], w))
  }

  /** `w` sits in `s` starting at index `i`. */
  predicate OccursAt(s: string, w: string, i: int) {
    0 <= i && i + |w| <= |s| && s[i..i + |w|] == w
  }

  /** The scan finds `w` exactly when `w` occurs somewhere in `s`. */
  lemma {:induction false} ContainsIffOccurs(s: string, w: string)
    ensures Contains(s, w) <==> exists i :: OccursAt(s, w, i)
    decreases |s|
  {
    if StartsWith(s, w) {
      assert OccursAt(s, w, 0);
    } else if |s| > 0 {
      ContainsIffOccurs(s[1..], w);
      if exists j :: OccursAt(s[1..], w, j) {
        var j :| OccursAt(s[1..], w, j);
        assert s[1..][j..j + |w|] == s[j + 1..j + 1 + |w|];
        assert OccursAt(s, w, j + 1);
      }
      if exists i :: OccursAt(s, w, i) {
        var i :| OccursAt(s, w, i);
        assert i != 0;
        assert s[1..][i - 1..i - 1 + |w|] == s[i..i + |w|];
        assert OccursAt(s[1..], w, i - 1);
      }
    }
  }

  /** A keyword with a letter the text lacks does not occur in it. */
  lemma MissingChar(s: string, w: string, c: char)
    requires c in w && c !in s
    ensures !Contains(s, w)
  {
    ContainsIffOccurs(s, w);
  }

  /** An occurrence of a keyword without spaces does not cover a space of the text. */
  lemma SpaceOutsideOccurrence(s: string, w: string, i: int, k: int)
    requires ' ' !in w && OccursAt(s, w, i) && 0 <= k < |s| && s[k] == ' '
    ensures k < i || i + |w| <= k
  {
    assert forall m :: 0 <= m < |w| ==> w[m] == s[i + m];
  }

  /** A keyword without spaces found in two words joined by a space lies in one of them. */
  lemma SplitAtSpace(a: string, b: string, w: string)
    requires ' ' !in w
    ensures Contains(a + " " + b, w) ==> Contains(a, w) || Contains(b, w)
  {
    var s := a + " " + b;
    ContainsIffOccurs(s, w);
    ContainsIffOccurs(a, w);
    ContainsIffOccurs(b, w);
    if exists i :: OccursAt(s, w, i) {
      var i :| OccursAt(s, w, i);
      SpaceOutsideOccurrence(s, w, i, |a|);
      if i + |w| <= |a| {
        assert s[i..i + |w|] == a[i..i + |w|];
        assert OccursAt(a, w, i);
      } else if i > |a| {
        var j := i - |a| - 1;
        assert s[i..i + |w|] == b[j..j + |w|];
        assert OccursAt(b, w, j);
      }
    }
  }

  /** A keyword without spaces is absent from two words joined by a space when
      the first word lacks one of its letters and the second lacks the keyword. */
  lemma NotAcrossSpace(a: string, b: string, w: string, c: char)
    requires ' ' !in w && c in w && c !in a && !Contains(b, w)
    ensures !Contains(a + " " + b, w)
  {
    MissingChar(a, w, c);
    SplitAtSpace(a, b, w);
  }

  /** A word found in the tail of a text is found in the whole text. */
  lemma {:induction false} ContainsInSuffix(a: string, b: string, w: string)
    requires Contains(b, w)
    ensures Contains(a + b, w)
    decreases |a|
  {
    if a == [] {
      assert a + b == b;
    } else {
      assert (a + b)[1..] == a[1..] + b;
      ContainsInSuffix(a[1..], b, w);
    }
  }

  /** Words separated by single spaces. */
  function JoinWords(ws: seq<string>): string
    decreases |ws|
  {
    if |ws| == 0 then "" else if |ws| == 1 then ws[0] else ws[0] + " " + JoinWords(ws[1..])
  }

  /** A keyword without spaces is absent from words separated by spaces when
      each word lacks some letter of it: `missing[i]` is a letter of the
      keyword that word `i` does not contain. */
  lemma {:induction false} AbsentFromWords(ws: seq<string>, w: string, missing: string)
    requires w != [] && ' ' !in w && |missing| == |ws|
    requires forall i :: 0 <= i < |ws| ==> missing[i] in w && missing[i] !in ws[i]
    ensures !Contains(JoinWords(ws), w)
    decreases |ws|
  {
    if |ws| == 0 {
      assert !StartsWith("", w);
    } else if |ws| == 1 {
      MissingChar(ws[0], w, missing[0]);
    } else {
      AbsentFromWords(ws[1..], w, missing[1..]);
      NotAcrossSpace(ws[0], JoinWords(ws[1..]), w, missing[0]);
    }
  }

  /** Lower-casing leaves a text without capitals as it is. */
  lemma {:induction false} ToLowerOfLowercase(s: string)
    requires forall c :: c in s ==> LowerChar(c) == c
    ensures ToLower(s) == s
  {
    if s != [] {
      assert s[0] in s;
      assert forall c :: c in s[1..] ==> c in s;
      ToLowerOfLowercase(s[1..]);
    }
  }

  predicate IsDigit(c: char) {
    '0' <= c <= '9'
  }

  predicate AllDigits(s: string) {
    forall i :: 0 <= i < |s| ==> IsDigit(s[i])
  }

  function DigitValue(c: char): nat
    requires IsDigit(c)
  {
    c as int - '0' as int
  }

  function DigitChar(d: nat): (c: char)
    requires d < 10
    ensures IsDigit(c) && DigitValue(c) == d
  {
    ('0' as int + d) as char
  }

  /** The decimal digits of `n`, most significant first, without leading zeros. */
  function Digits(n: nat): (r: string)
    ensures |r| > 0 && AllDigits(r)
    decreases n
  {
    if n < 10 then [DigitChar(n)] else Digits(n / 10) + [DigitChar(n % 10)]
  }

  /** The number a string of decimal digits denotes. */
  function DigitsValue(s: string): nat
    requires AllDigits(s)
    decreases |s|
  {
    if s == [] then 0 else DigitsValue(s[..|s| - 1]) * 10 + DigitValue(s[|s| - 1])
  }

  lemma {:induction false} DigitsRoundTrip(n: nat)
    ensures DigitsValue(Digits(n)) == n
    decreases n
  {
    if n >= 10 {
      DigitsRoundTrip(n / 10);
      var d := Digits(n);
      assert d[..|d| - 1] == Digits(n / 10);
    }
  }

  /** An integer as a template literal renders it (for magnitudes below 10^21). */
  function Decimal(n: int): (r: string)
    ensures |r| > 0
    ensures forall i :: 0 <= i < |r| ==> r[i] != '&'
  {
    if n < 0 then "-" + Digits(-n) else Digits(n)
  }

  /** Reads back an optionally signed run of decimal digits. */
  function ParseDecimal(s: string): Option<int> {
    if |s| > 1 && s[0] == '-' && AllDigits(s[1..]) then
      var magnitude: int := DigitsValue(s[1..]);
      Some(-magnitude)
    else if |s| > 0 && AllDigits(s) then Some(DigitsValue(s))
    else None
  }

  lemma DecimalRoundTrip(n: int)
    ensures ParseDecimal(Decimal(n)) == Some(n)
  {
    if n < 0 {
      DigitsRoundTrip(-n);
      assert Decimal(n)[1..] == Digits(-n);
    } else {
      DigitsRoundTrip(n);
    }
  }

  /** Index of the first `c` in `s`, or `|s|` when there is none. */
  function IndexOf(s: string, c: char): (k: nat)
    ensures k <= |s|
    ensures forall i :: 0 <= i < k ==> s[i] != c
    ensures k < |s| ==> s[k] == c
    decreases |s|
  {
    if s == [] then 0 else if s[0] == c then 0 else 1 + IndexOf(s[1..], c)
  }
}
