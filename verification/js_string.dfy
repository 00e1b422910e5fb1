/** The few JavaScript string built-ins the application relies on:
    `parseInt(s, 10)`, `toLowerCase`, `includes` and `length`. */
module JsString {
  import opened Types
  import opened Sequences

  // ---------------------------------------------------------------------
  // Character classes
  // ---------------------------------------------------------------------

  /** The characters `parseInt` skips before a number: the WhiteSpace and
      LineTerminator productions of ECMAScript (section 12.2 and 12.3 of
      ECMA-262), with the space separators of Unicode category Zs. */
  predicate IsWhiteSpace(c: char)
  {
    var n := c as int;
    || n == 0x09 || n == 0x0B || n == 0x0C || n == 0x20     // TAB VT FF SP
    || n == 0xA0 || n == 0xFEFF || n == 0x1680              // NBSP ZWNBSP
    || (0x2000 <= n <= 0x200A) || n == 0x202F || n == 0x205F || n == 0x3000
    || n == 0x0A || n == 0x0D || n == 0x2028 || n == 0x2029 // LF CR LS PS
  }

  predicate IsDigit(c: char)
  {
    '0' <= c <= '9'
  }

  predicate AllWhiteSpace(s: string)
  {
    forall i :: 0 <= i < |s| ==> IsWhiteSpace(s[i])
  }

  predicate AllDigits(s: string)
  {
    forall i :: 0 <= i < |s| ==> IsDigit(s[i])
  }

  // ---------------------------------------------------------------------
  // parseInt(s, 10)
  // ---------------------------------------------------------------------

  /** The end of the run of white space in `s` that starts at `i`. */
  function SpanWhiteSpace(s: string, i: nat): (j: nat)
    requires i <= |s|
    ensures i <= j <= |s|
    ensures forall p :: i <= p < j ==> IsWhiteSpace(s[p])
    ensures j == |s| || !IsWhiteSpace(s[j])
    decreases |s| - i
  {
    if i < |s| && IsWhiteSpace(s[i]) then SpanWhiteSpace(s, i + 1) else i
  }

  /** The end of the run of decimal digits in `s` that starts at `i`. */
  function SpanDigits(s: string, i: nat): (j: nat)
    requires i <= |s|
    ensures i <= j <= |s|
    ensures forall p :: i <= p < j ==> IsDigit(s[p])
    ensures j == |s| || !IsDigit(s[j])
    decreases |s| - i
  {
    if i < |s| && IsDigit(s[i]) then SpanDigits(s, i + 1) else i
  }

  function DigitValue(c: char): (r: nat)
    requires IsDigit(c)
    ensures r < 10
  {
    c as int - '0' as int
  }

  /** The number a string of decimal digits denotes, most significant first. */
  function DigitsValue(d: string): nat
    requires AllDigits(d)
  {
    if |d| == 0 then 0 else DigitsValue(d[..|d| - 1]) * 10 + DigitValue(d[|d| - 1])
  }

  /** `s[k..l]` is an optional sign: empty, `+` or `-`. */
  predicate IsSign(s: string, k: nat, l: nat)
    requires k <= l <= |s|
  {
    l == k || (l == k + 1 && (s[k] == '+' || s[k] == '-'))
  }

  /** The value of the sign `s[k..l]` and the digits `s[l..m]`. */
  function SignedValue(s: string, k: nat, l: nat, m: nat): int
    requires k <= l <= m <= |s|
    requires forall p :: l <= p < m ==> IsDigit(s[p])
  {
    var v: int := DigitsValue(s[l..m]);
    if l > k && s[k] == '-' then -v else v
  }

  /** `parseInt(s, 10)`, section 19.2.5 of ECMA-262: skip white space, read
      an optional sign, then the longest run of decimal digits. `None` is
      NaN, returned when no digit follows. A negative zero is returned as 0,
      which is what every caller's `|| 0` makes of it anyway. */
  function ParseInt(s: string): Option<int>
  {
    var k := SpanWhiteSpace(s, 0);
    var l := if k < |s| && (s[k] == '-' || s[k] == '+') then k + 1 else k;
    var m := SpanDigits(s, l);
    if m == l then None else Some(SignedValue(s, k, l, m))
  }

  /** `s` starts with white space `s[..k]`, an optional sign `s[k..l]` and
      the non-empty run of digits `s[l..m]`, and no digit follows: the shape
      `parseInt` accepts. */
  ghost predicate IntegerPrefixAt(s: string, k: int, l: int, m: int)
  {
    && 0 <= k <= l < m <= |s|
    && (forall p :: 0 <= p < k ==> IsWhiteSpace(s[p]))
    && IsSign(s, k, l)
    && (forall p :: l <= p < m ==> IsDigit(s[p]))
    && (m == |s| || !IsDigit(s[m]))
  }

  /** Every string of the accepted shape parses to the value of its sign and
      digits, whatever text follows. */
  lemma ParseIntAccepts(s: string, k: nat, l: nat, m: nat)
    requires IntegerPrefixAt(s, k, l, m)
    ensures ParseInt(s) == Some(SignedValue(s, k, l, m))
  {
    assert !IsWhiteSpace(s[k]) by {
      if l == k { assert IsDigit(s[l]); }
    }
    assert SpanWhiteSpace(s, 0) == k;
    assert SpanDigits(s, l) == m;
  }

  /** Conversely, whatever `parseInt` accepts has the accepted shape, and the
      number is the one its sign and digits denote. */
  lemma ParseIntSound(s: string)
    ensures ParseInt(s).Some? ==>
      exists k, l, m :: IntegerPrefixAt(s, k, l, m) && ParseInt(s).value == SignedValue(s, k, l, m)
  {
    var k := SpanWhiteSpace(s, 0);
    var l := if k < |s| && (s[k] == '-' || s[k] == '+') then k + 1 else k;
    var m := SpanDigits(s, l);
    if ParseInt(s).Some? {
      assert IntegerPrefixAt(s, k, l, m);
    }
  }

  /** And `parseInt` returns NaN exactly when no prefix of the accepted
      shape exists. */
  lemma ParseIntRejects(s: string)
    ensures ParseInt(s).None? <==> forall k, l, m :: !IntegerPrefixAt(s, k, l, m)
  {
    ParseIntSound(s);
    if ParseInt(s).None? {
      forall k, l, m | IntegerPrefixAt(s, k, l, m)
        ensures false
      {
        ParseIntAccepts(s, k, l, m);
      }
    }
  }

  /** The decimal digits of `n`, without leading zeros. */
  function FormatNat(n: nat): (r: string)
    ensures |r| > 0 && AllDigits(r)
    ensures DigitsValue(r) == n
    decreases n
  {
    var last := ['0' + (n % 10) as char];
    if n < 10 then last
    else
      var r := FormatNat(n / 10) + last;
      assert r[..|r| - 1] == FormatNat(n / 10);
      r
  }

  /** The decimal numeral of `n`: an optional minus sign and its digits. */
  function FormatInt(n: int): string
  {
    if n < 0 then "-" + FormatNat(-n) else FormatNat(n)
  }

  lemma ConcatMiddleAssoc(a: string, b: string, c: string, d: string)
    ensures a + (b + c) + d == a + b + c + d
  {
  }

  /** White space, a sign, digits and a non-digit rest, laid end to end,
      have the accepted shape. */
  lemma ConcatIsIntegerPrefix(ws: string, sign: string, digits: string, rest: string)
    requires AllWhiteSpace(ws)
    requires sign == "" || sign == "+" || sign == "-"
    requires |digits| > 0 && AllDigits(digits)
    requires |rest| == 0 || !IsDigit(rest[0])
    ensures IntegerPrefixAt(ws + sign + digits + rest, |ws|, |ws| + |sign|, |ws| + |sign| + |digits|)
    ensures (ws + sign + digits + rest)[|ws| + |sign|..|ws| + |sign| + |digits|] == digits
  {
    var s := ws + sign + digits + rest;
    var k, l := |ws|, |ws| + |sign|;
    var m := l + |digits|;
    assert s[l..m] == digits;
    forall p | 0 <= p < k ensures IsWhiteSpace(s[p]) {
      assert s[p] == ws[p];
    }
    forall p | l <= p < m ensures IsDigit(s[p]) {
      assert s[p] == digits[p - l];
    }
    assert l > k ==> s[k] == sign[0];
    assert m < |s| ==> s[m] == rest[0];
  }

  /** Printing an integer and reading it back with `parseInt` is the
      identity, whatever white space precedes it and whatever non-digit text
      follows it. */
  lemma ParseFormatRoundTrip(n: int, ws: string, rest: string)
    requires AllWhiteSpace(ws)
    requires |rest| == 0 || !IsDigit(rest[0])
    ensures ParseInt(ws + FormatInt(n) + rest) == Some(n)
  {
    var magnitude: nat := if n < 0 then -n else n;
    var sign := if n < 0 then "-" else "";
    var digits := FormatNat(magnitude);
    assert FormatInt(n) == sign + digits;
    var s := ws + sign + digits + rest;
    ConcatMiddleAssoc(ws, sign, digits, rest);
    assert ws + FormatInt(n) + rest == s;
    var k, l := |ws|, |ws| + |sign|;
    var m := l + |digits|;
    ConcatIsIntegerPrefix(ws, sign, digits, rest);
    var v: int := DigitsValue(digits);
    assert DigitsValue(s[l..m]) == v;
    if sign == "-" {
      assert SignedValue(s, k, l, m) == -v;
    } else {
      assert SignedValue(s, k, l, m) == v;
    }
    ParseIntAccepts(s, k, l, m);
  }

  // ---------------------------------------------------------------------
  // toLowerCase, includes, length
  // ---------------------------------------------------------------------

  /** The upper-case letters this model lower-cases: A-Z, and U+00C0 to
      U+00DE except the multiplication sign U+00D7. */
  predicate IsUpper(c: char)
  {
    ('A' <= c <= 'Z') || (0xC0 <= c as int <= 0xDE && c as int != 0xD7)
  }

  /** Lower-case mapping of one character: an upper-case letter moves to
      its lower-case partner 32 code points on, which is never upper case;
      every other character is kept. */
  function LowerChar(c: char): (r: char)
    ensures !IsUpper(r)
    ensures IsUpper(c) ==> r as int == c as int + 32
    ensures !IsUpper(c) ==> r == c
    ensures c as int <= 0xFFFF <==> r as int <= 0xFFFF
  {
    var n := c as int;
    if IsUpper(c) then (n + 32) as char else c
  }

  /** `toLowerCase`, character by character. */
  function ToLower(s: string): (r: string)
    ensures |r| == |s|
    ensures forall i :: 0 <= i < |s| ==> r[i] == LowerChar(s[i])
  {
    if |s| == 0 then [] else [LowerChar(s[0])] + ToLower(s[1..])
  }

  /** Lower-casing twice is lower-casing once. */
  lemma ToLowerIdempotent(s: string)
    ensures ToLower(ToLower(s)) == ToLower(s)
  {
    var t := ToLower(s);
    forall i | 0 <= i < |s| ensures ToLower(t)[i] == t[i] {
      assert !IsUpper(t[i]);
    }
  }

  /** Lower-casing keeps the length JavaScript reports. */
  lemma {:induction false} ToLowerKeepsLength(s: string)
    ensures Utf16Length(ToLower(s)) == Utf16Length(s)
  {
    if |s| > 0 {
      ToLowerKeepsLength(s[1..]);
      assert ToLower(s)[1..] == ToLower(s[1..]);
    }
  }

  /** `needle` occurs in `hay` starting at index `i`. */
  ghost predicate OccursAt(hay: string, needle: string, i: int)
  {
    0 <= i && i + |needle| <= |hay| && hay[i..i + |needle|] == needle
  }

  /** `hay.includes(needle)`: true exactly when `needle` occurs somewhere in
      `hay`; the empty string occurs everywhere. */
  function Includes(hay: string, needle: string): (r: bool)
    ensures r <==> exists i :: OccursAt(hay, needle, i)
    decreases |hay|
  {
    if needle <= hay then
      assert OccursAt(hay, needle, 0);
      true
    else if |hay| <= |needle| then
      false
    else
      var r := Includes(hay[1..], needle);
      assert r ==> exists i :: OccursAt(hay, needle, i) by {
        if r {
          var j :| OccursAt(hay[1..], needle, j);
          assert hay[1..][j..j + |needle|] == hay[j + 1..j + 1 + |needle|];
          assert OccursAt(hay, needle, j + 1);
        }
      }
      assert (exists i :: OccursAt(hay, needle, i)) ==> r by {
        if exists i :: OccursAt(hay, needle, i) {
          var i :| OccursAt(hay, needle, i);
          assert hay[1..][i - 1..i - 1 + |needle|] == hay[i..i + |needle|];
          assert OccursAt(hay[1..], needle, i - 1);
        }
      }
      r
  }

  /** A character outside the Basic Multilingual Plane, which UTF-16
      writes as a surrogate pair. */
  predicate IsAstral(c: char)
  {
    c as int > 0xFFFF
  }

  /** `s.length`: JavaScript counts UTF-16 code units, so a character
      outside the Basic Multilingual Plane counts twice. */
  function Utf16Length(s: string): (r: nat)
    ensures |s| <= r <= 2 * |s|
    ensures (forall i :: 0 <= i < |s| ==> s[i] as int <= 0xFFFF) ==> r == |s|
  {
    if |s| == 0 then 0
    else (if IsAstral(s[0]) then 2 else 1) + Utf16Length(s[1..])
  }

  /** The length is the number of characters plus one more for each
      character outside the Basic Multilingual Plane. */
  lemma {:induction false} Utf16LengthCountsAstral(s: string)
    ensures Utf16Length(s) == |s| + |Filter(s, IsAstral)|
  {
    if |s| > 0 {
      Utf16LengthCountsAstral(s[1..]);
    }
  }

}
