/**
 * The JavaScript string and number built-ins that the view-model code relies on,
 * stated over `string` (a sequence of Unicode scalar values):
 * `toLowerCase`, `includes`, `Array.prototype.join`, splitting on a character,
 * integer-to-string conversion, `parseInt(s, 16)`, `replace` with a string
 * pattern, `slice(-k)` and the `%` operator on numbers.
 */
module JsStrings {
  import opened Wrappers

  // ---------------------------------------------------------------------------
  // toLowerCase
  // ---------------------------------------------------------------------------

  /** The upper-case letters the model folds: Basic Latin A-Z and the Latin-1
      capitals U+00C0..U+00DE except the multiplication sign U+00D7. */
  predicate IsUpper(c: char) {
    ('A' <= c <= 'Z') || ('\U{00C0}' <= c <= '\U{00DE}' && c != '\U{00D7}')
  }

  /** Each folded capital sits exactly 32 code points below its small letter. */
  function LowerChar(c: char): (r: char)
    ensures !IsUpper(r)
    ensures IsUpper(c) ==> r as int == c as int + 32
    ensures !IsUpper(c) ==> r == c
  {
    if IsUpper(c) then (c as int + 32) as char else c
  }

  /** `s.toLowerCase()` */
  function Lower(s: string): (r: string)
    ensures |r| == |s|
    ensures forall i :: 0 <= i < |s| ==> r[i] == LowerChar(s[i])
  {
    if s == [] then [] else [LowerChar(s[0])] + Lower(s[1..])
  }

  predicate IsLowercase(s: string) {
    forall i :: 0 <= i < |s| ==> !IsUpper(s[i])
  }

  lemma LowerIsLowercase(s: string)
    ensures IsLowercase(Lower(s))
  {
  }

  /** A string without capitals is its own lower-case form. */
  lemma {:induction false} LowerOfLowercase(s: string)
    requires IsLowercase(s)
    ensures Lower(s) == s
  {
    if s != [] {
      LowerOfLowercase(s[1..]);
    }
  }

  /** Lower-casing twice is lower-casing once. */
  lemma LowerIdempotent(s: string)
    ensures Lower(Lower(s)) == Lower(s)
  {
    LowerIsLowercase(s);
    LowerOfLowercase(Lower(s));
  }

  lemma {:induction false} LowerAppend(a: string, b: string)
    ensures Lower(a + b) == Lower(a) + Lower(b)
  {
    if a != [] {
      assert (a + b)[1..] == a[1..] + b;
      LowerAppend(a[1..], b);
    }
  }

  // ---------------------------------------------------------------------------
  // includes
  // ---------------------------------------------------------------------------

  /** `needle` occurs in `hay` starting at position `i`. */
  predicate OccursAt(hay: string, needle: string, i: int) {
    0 <= i && i + |needle| <= |hay| && hay[i..i + |needle|] == needle
  }

  lemma OccursShift(hay: string, needle: string, i: int)
    requires |hay| > 0 && 0 <= i
    ensures OccursAt(hay, needle, i + 1) <==> OccursAt(hay[1..], needle, i)
  {
    if i + 1 + |needle| <= |hay| {
      assert hay[i + 1..i + 1 + |needle|] == hay[1..][i..i + |needle|];
    }
  }

  /** `hay.includes(needle)`: true exactly when `needle` occurs somewhere in `hay`. */
  function Includes(hay: string, needle: string): (r: bool)
    ensures r <==> exists i :: OccursAt(hay, needle, i)
    decreases |hay|
  {
    if |needle| > |hay| then
      false
    else if hay[..|needle|] == needle then
      assert OccursAt(hay, needle, 0);
      true
    else
      IncludesStep(hay, needle);
      Includes(hay[1..], needle)
  }

  /** Past position 0, an occurrence in `hay` is an occurrence in `hay[1..]`, one place earlier. */
  lemma IncludesStep(hay: string, needle: string)
    requires |needle| <= |hay| && hay[..|needle|] != needle
    ensures (exists i :: OccursAt(hay, needle, i)) <==> (exists j :: OccursAt(hay[1..], needle, j))
  {
    if i :| OccursAt(hay, needle, i) {
      assert i != 0;
      OccursShift(hay, needle, i - 1);
      assert OccursAt(hay[1..], needle, i - 1);
    }
    if j :| OccursAt(hay[1..], needle, j) {
      OccursShift(hay, needle, j);
      assert OccursAt(hay, needle, j + 1);
    }
  }

  /** Every string includes the empty string. */
  lemma IncludesEmpty(hay: string)
    ensures Includes(hay, "")
  {
    assert OccursAt(hay, "", 0);
  }

  // ---------------------------------------------------------------------------
  // Array.prototype.join and splitting on one character
  // ---------------------------------------------------------------------------

  /** `parts.join(sep)` */
  function Join(parts: seq<string>, sep: string): (r: string)
    ensures parts == [] ==> r == ""
    ensures |parts| == 1 ==> r == parts[0]
  {
    if |parts| == 0 then ""
    else if |parts| == 1 then parts[0]
    else parts[0] + sep + Join(parts[1..], sep)
  }

  /** `s.split(sep)` for a one-character separator: never empty, `""` splits to `[""]`. */
  function Split(s: string, sep: char): (r: seq<string>)
    ensures |r| >= 1
  {
    if s == [] then [""]
    else
      var rest := Split(s[1..], sep);
      if s[0] == sep then [""] + rest else [[s[0]] + rest[0]] + rest[1..]
  }

  lemma {:induction false} SplitWithoutSeparator(a: string, sep: char)
    requires sep !in a
    ensures Split(a, sep) == [a]
  {
    if a != [] {
      SplitWithoutSeparator(a[1..], sep);
      assert [a[0]] + a[1..] == a;
    }
  }

  lemma {:induction false} SplitAtSeparator(a: string, sep: char, b: string)
    requires sep !in a
    ensures Split(a + [sep] + b, sep) == [a] + Split(b, sep)
  {
    if a == [] {
      assert a + [sep] + b == [sep] + b;
      assert ([sep] + b)[1..] == b;
    } else {
      assert (a + [sep] + b)[1..] == a[1..] + [sep] + b;
      SplitAtSeparator(a[1..], sep, b);
      assert [a[0]] + a[1..] == a;
    }
  }

  /** Splitting a join undoes it, provided no part contains the separator. */
  lemma {:induction false} SplitJoin(parts: seq<string>, sep: char)
    requires |parts| >= 1
    requires forall k :: 0 <= k < |parts| ==> sep !in parts[k]
    ensures Split(Join(parts, [sep]), sep) == parts
  {
    if |parts| == 1 {
      SplitWithoutSeparator(parts[0], sep);
    } else {
      SplitJoin(parts[1..], sep);
      SplitAtSeparator(parts[0], sep, Join(parts[1..], [sep]));
      assert [parts[0]] + parts[1..] == parts;
    }
  }

  // ---------------------------------------------------------------------------
  // Integers as decimal strings (template literals, String(n))
  // ---------------------------------------------------------------------------

  predicate IsDigit(c: char) {
    '0' <= c <= '9'
  }

  predicate AllDigits(s: string) {
    forall i :: 0 <= i < |s| ==> IsDigit(s[i])
  }

  function DigitChar(d: nat): (c: char)
    requires d < 10
    ensures IsDigit(c) && c as int - '0' as int == d
  {
    ('0' as int + d) as char
  }

  /** The number a string of decimal digits denotes. */
  function DecimalValue(s: string): nat
    requires AllDigits(s)
  {
    if s == [] then 0 else DecimalValue(s[..|s| - 1]) * 10 + (s[|s| - 1] as int - '0' as int)
  }

  /** The decimal text JavaScript produces for a non-negative integer below 10^21. */
  function NumberToString(n: nat): (s: string)
    ensures |s| >= 1
  {
    if n < 10 then [DigitChar(n)] else NumberToString(n / 10) + [DigitChar(n % 10)]
  }

  /** The text is made of digits, has no leading zero, and denotes `n`. */
  lemma {:induction false} NumberToStringDenotes(n: nat)
    ensures AllDigits(NumberToString(n))
    ensures NumberToString(n)[0] != '0' || n == 0
    ensures DecimalValue(NumberToString(n)) == n
  {
    if n >= 10 {
      NumberToStringDenotes(n / 10);
      var prefix := NumberToString(n / 10);
      assert (prefix + [DigitChar(n % 10)])[..|prefix|] == prefix;
    }
  }

  /** Distinct integers print differently. */
  lemma NumberToStringInjective(m: nat, n: nat)
    requires NumberToString(m) == NumberToString(n)
    ensures m == n
  {
    NumberToStringDenotes(m);
    NumberToStringDenotes(n);
  }

  // ---------------------------------------------------------------------------
  // parseInt(s, 16)
  // ---------------------------------------------------------------------------

  /** WhiteSpace and LineTerminator code points that `parseInt` skips at the start. */
  predicate IsJsWhitespace(c: char) {
    c == '\t' || c == '\n' || c == '\U{000B}' || c == '\U{000C}' || c == '\r' || c == ' '
    || c == '\U{00A0}' || c == '\U{1680}' || ('\U{2000}' <= c <= '\U{200A}')
    || c == '\U{2028}' || c == '\U{2029}' || c == '\U{202F}' || c == '\U{205F}'
    || c == '\U{3000}' || c == '\U{FEFF}'
  }

  function TrimStart(s: string): (r: string)
    ensures |r| <= |s| && r == s[|s| - |r|..]
    ensures r == [] || !IsJsWhitespace(r[0])
  {
    if s != [] && IsJsWhitespace(s[0]) then TrimStart(s[1..]) else s
  }

  predicate IsHexDigit(c: char) {
    ('0' <= c <= '9') || ('a' <= c <= 'f') || ('A' <= c <= 'F')
  }

  predicate AllHexDigits(s: string) {
    forall i :: 0 <= i < |s| ==> IsHexDigit(s[i])
  }

  function HexDigitValue(c: char): (v: nat)
    requires IsHexDigit(c)
    ensures v < 16
  {
    if '0' <= c <= '9' then c as int - '0' as int
    else if 'a' <= c <= 'f' then c as int - 'a' as int + 10
    else c as int - 'A' as int + 10
  }

  /** The number a string of hexadecimal digits denotes. */
  function HexValue(s: string): nat
    requires AllHexDigits(s)
  {
    if s == [] then 0 else HexValue(s[..|s| - 1]) * 16 + HexDigitValue(s[|s| - 1])
  }

  /** `16^n`: every string of `n` hexadecimal digits denotes less. */
  function HexBound(n: nat): (b: nat)
    ensures b >= 1
  {
    if n == 0 then 1 else 16 * HexBound(n - 1)
  }

  lemma {:induction false} HexValueBound(s: string)
    requires AllHexDigits(s)
    ensures HexValue(s) < HexBound(|s|)
  {
    if s != [] {
      HexValueBound(s[..|s| - 1]);
    }
  }

  lemma {:induction false} HexBoundMonotone(m: nat, n: nat)
    requires m <= n
    ensures HexBound(m) <= HexBound(n)
  {
    if m < n {
      HexBoundMonotone(m, n - 1);
    }
  }

  /** The longest prefix of `s` made of hexadecimal digits. */
  function LeadingHexDigits(s: string): (r: string)
    ensures |r| <= |s| && r == s[..|r|] && AllHexDigits(r)
    ensures |r| < |s| ==> !IsHexDigit(s[|r|])
  {
    if s != [] && IsHexDigit(s[0]) then
      var rest := LeadingHexDigits(s[1..]);
      assert [s[0]] + rest == s[..|rest| + 1];
      [s[0]] + rest
    else
      []
  }

  /** `parseInt(s, 16)`; `None` stands for `NaN`. Leading white space and one sign are
      skipped, then an optional `0x`/`0X`, then the longest run of hexadecimal digits
      is read; without any digit the result is `NaN`. A negative zero is the integer 0. */
  function ParseIntHex(s: string): (r: Option<int>)
    ensures r.Some? ==> -(HexBound(|s|) as int) < r.value < HexBound(|s|)
  {
    var t := TrimStart(s);
    var negative := |t| > 0 && t[0] == '-';
    var digits := LeadingHexDigits(HexBody(Unsigned(t)));
    var magnitude: int := HexValue(digits);
    DigitsWithin(s);
    HexValueBound(digits);
    HexBoundMonotone(|digits|, |s|);
    if digits == [] then None
    else if negative then Some(-magnitude)
    else Some(magnitude)
  }

  /** The digits `parseInt` reads are no longer than its argument. */
  lemma DigitsWithin(s: string)
    ensures |LeadingHexDigits(HexBody(Unsigned(TrimStart(s))))| <= |s|
  {
    var t := TrimStart(s);
    assert |Unsigned(t)| <= |t|;
    assert |HexBody(Unsigned(t))| <= |Unsigned(t)|;
  }

  /** The text after one leading sign, if there is one. */
  function Unsigned(t: string): string {
    if |t| > 0 && (t[0] == '+' || t[0] == '-') then t[1..] else t
  }

  /** The text after a leading `0x` or `0X`, if there is one. */
  function HexBody(u: string): string {
    if |u| >= 2 && u[0] == '0' && (u[1] == 'x' || u[1] == 'X') then u[2..] else u
  }

  /** A non-empty run of hexadecimal digits parses to the number it denotes. */
  lemma ParseIntHexOfDigits(s: string)
    requires |s| > 0 && AllHexDigits(s)
    ensures ParseIntHex(s) == Some(HexValue(s))
  {
    assert IsHexDigit(s[0]);
    assert |s| >= 2 ==> IsHexDigit(s[1]);
    NoWhitespaceToSkip(s);
    NoPrefixToSkip(s);
    AllHexDigitsArePrefix(s);
    ParseIntHexOfPlainDigits(s);
  }

  /** A minus sign before a run of hexadecimal digits negates the value. */
  lemma ParseIntHexOfNegated(s: string)
    requires |s| > 0 && AllHexDigits(s)
    ensures ParseIntHex("-" + s) == Some(-(HexValue(s) as int))
  {
    var t := "-" + s;
    SignIsNoWhitespace(s);
    assert t[1..] == s;
    assert Unsigned(t) == s;
    assert IsHexDigit(s[0]) && (|s| >= 2 ==> IsHexDigit(s[1]));
    NoPrefixToSkip(s);
    AllHexDigitsArePrefix(s);
    NegatedDigits(s);
  }

  lemma SignIsNoWhitespace(s: string)
    ensures TrimStart("-" + s) == "-" + s
  {
    assert ("-" + s)[0] == '-';
  }

  lemma NegatedDigits(s: string)
    requires s != [] && AllHexDigits(s)
    requires TrimStart("-" + s) == "-" + s && Unsigned("-" + s) == s
    requires HexBody(s) == s && LeadingHexDigits(s) == s
    ensures ParseIntHex("-" + s) == Some(-(HexValue(s) as int))
  {
  }

  /** A string starting with a hexadecimal digit has no white space to skip. */
  lemma NoWhitespaceToSkip(s: string)
    requires |s| > 0 && IsHexDigit(s[0])
    ensures TrimStart(s) == s
  {
    assert !IsJsWhitespace(s[0]);
  }

  /** A string starting with two hexadecimal digits has no sign and no `0x` to skip. */
  lemma NoPrefixToSkip(s: string)
    requires |s| > 0 && IsHexDigit(s[0]) && (|s| >= 2 ==> IsHexDigit(s[1]))
    ensures Unsigned(s) == s && HexBody(s) == s
  {
  }

  lemma ParseIntHexOfPlainDigits(s: string)
    requires s != [] && TrimStart(s) == s && Unsigned(s) == s && HexBody(s) == s
    requires LeadingHexDigits(s) == s
    ensures ParseIntHex(s) == Some(HexValue(s))
  {
  }

  lemma {:induction false} AllHexDigitsArePrefix(s: string)
    requires AllHexDigits(s)
    ensures LeadingHexDigits(s) == s
  {
    if s != [] {
      AllHexDigitsArePrefix(s[1..]);
    }
  }

  // ---------------------------------------------------------------------------
  // replace, slice, %
  // ---------------------------------------------------------------------------

  /** `s.replace(pattern, replacement)` with a string pattern and a replacement without
      `$`: only the first occurrence is replaced. */
  function ReplaceFirst(s: string, pattern: string, replacement: string): (r: string)
    ensures (forall i :: !OccursAt(s, pattern, i)) ==> r == s
    ensures forall k :: FirstOccurrence(s, pattern, k) ==> r == s[..k] + replacement + s[k + |pattern|..]
    decreases |s|
  {
    if |pattern| <= |s| && s[..|pattern|] == pattern then
      assert OccursAt(s, pattern, 0);
      replacement + s[|pattern|..]
    else if s == [] then
      s
    else
      var rest := ReplaceFirst(s[1..], pattern, replacement);
      ReplaceFirstStep(s, pattern, replacement, rest);
      [s[0]] + rest
  }

  /** `pattern` occurs at `k` and nowhere before. */
  predicate FirstOccurrence(s: string, pattern: string, k: int) {
    OccursAt(s, pattern, k) && forall j :: 0 <= j < k ==> !OccursAt(s, pattern, j)
  }

  /** Without an occurrence at 0, the occurrences in `s` are those of `s[1..]`, one place
      later, so replacing in the tail replaces the first occurrence of the whole. */
  lemma ReplaceFirstStep(s: string, pattern: string, replacement: string, rest: string)
    requires s != [] && !OccursAt(s, pattern, 0)
    requires (forall i :: !OccursAt(s[1..], pattern, i)) ==> rest == s[1..]
    requires forall k :: FirstOccurrence(s[1..], pattern, k) ==>
      rest == s[1..][..k] + replacement + s[1..][k + |pattern|..]
    ensures (forall i :: !OccursAt(s, pattern, i)) ==> [s[0]] + rest == s
    ensures forall k :: FirstOccurrence(s, pattern, k) ==> [s[0]] + rest == s[..k] + replacement + s[k + |pattern|..]
  {
    if forall i :: !OccursAt(s, pattern, i) {
      NoOccurrenceInTail(s, pattern);
    }
    forall k | FirstOccurrence(s, pattern, k)
      ensures [s[0]] + rest == s[..k] + replacement + s[k + |pattern|..]
    {
      FirstOccurrenceInTail(s, pattern, k);
      ShiftedReplacement(s, pattern, replacement, k);
    }
  }

  lemma NoOccurrenceInTail(s: string, pattern: string)
    requires s != [] && forall i :: !OccursAt(s, pattern, i)
    ensures forall i :: !OccursAt(s[1..], pattern, i)
  {
    forall i | 0 <= i
      ensures !OccursAt(s[1..], pattern, i)
    {
      OccursShift(s, pattern, i);
    }
  }

  lemma FirstOccurrenceInTail(s: string, pattern: string, k: int)
    requires s != [] && !OccursAt(s, pattern, 0) && FirstOccurrence(s, pattern, k)
    ensures k > 0 && FirstOccurrence(s[1..], pattern, k - 1)
  {
    forall j | 0 <= j < k - 1
      ensures !OccursAt(s[1..], pattern, j)
    {
      OccursShift(s, pattern, j);
    }
    OccursShift(s, pattern, k - 1);
  }

  lemma ShiftedReplacement(s: string, pattern: string, replacement: string, k: int)
    requires 0 < k && k + |pattern| <= |s|
    ensures [s[0]] + (s[1..][..k - 1] + replacement + s[1..][k - 1 + |pattern|..])
            == s[..k] + replacement + s[k + |pattern|..]
  {
    assert [s[0]] + s[1..][..k - 1] == s[..k];
    assert s[1..][k - 1 + |pattern|..] == s[k + |pattern|..];
  }

  /** `s.slice(-k)` for k > 0: the last `k` characters, or all of `s` when shorter. */
  function SliceLast(s: string, k: nat): (r: string)
    requires k > 0
    ensures |r| == if |s| < k then |s| else k
    ensures r == s[|s| - |r|..]
  {
    if |s| < k then s else s[|s| - k..]
  }

  /** The quotient of JavaScript's `%`: `a / n` truncated toward zero. */
  function TruncatedQuotient(a: int, n: int): int
    requires n > 0
  {
    if a >= 0 then a / n else -((-a) / n)
  }

  /** A negative multiple of the divisor leaves no remainder; any other negative
      dividend leaves a negative one. */
  lemma JsRemainderOfNegatives()
    ensures JsRemainder(-16, 16) == 0 && JsRemainder(-17, 16) == -1 && JsRemainder(-1, 16) == -1
  {
  }

  /** The `%` operator on integral numbers with a positive divisor: the remainder takes
      the sign of the dividend (truncated division), unlike Dafny's `%`. The bounds and
      the division identity together determine it. */
  function JsRemainder(a: int, n: int): (r: int)
    requires n > 0
    ensures a >= 0 ==> 0 <= r < n && r == a % n
    ensures a < 0 ==> -n < r <= 0
    ensures a == TruncatedQuotient(a, n) * n + r
  {
    if a >= 0 then a % n else -((-a) % n)
  }
}
