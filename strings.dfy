/**
 The few pieces of .NET string behaviour the translator relies on: `char.IsWhiteSpace`,
 `string.IsNullOrWhiteSpace`, `ToLower`, `StartsWith`, `string.Compare(a, b, ignoreCase: true)`,
 `Int32.TryParse` and `int.ToString`. Culture-sensitive operations are modelled with ASCII case
 folding and ordinal (code point) comparison.
 */
module Strings {
  import opened Wrappers

  /** `char.IsWhiteSpace`: the Unicode space separators, U+2028, U+2029, and the controls U+0009-U+000D, U+0085. */
  predicate IsWhiteSpace(c: char) {
    var n := c as int;
    (0x09 <= n <= 0x0D) || n == 0x20 || n == 0x85 || n == 0xA0 || n == 0x1680
    || (0x2000 <= n <= 0x200A) || n == 0x2028 || n == 0x2029 || n == 0x202F
    || n == 0x205F || n == 0x3000
  }

  /** `string.IsNullOrWhiteSpace`; strings are never null in this model. */
  predicate IsNullOrWhiteSpace(s: string) {
    forall i :: 0 <= i < |s| ==> IsWhiteSpace(s[i])
  }

  /** Text made of two parts is blank exactly when both parts are. */
  lemma {:induction false} BlankConcat(s: string, t: string)
    ensures IsNullOrWhiteSpace(s + t) <==> IsNullOrWhiteSpace(s) && IsNullOrWhiteSpace(t)
  {
    assert forall i :: 0 <= i < |s| ==> (s + t)[i] == s[i];
    assert forall i :: 0 <= i < |t| ==> (s + t)[|s| + i] == t[i];
  }

  function LowerChar(c: char): char {
    if 'A' <= c <= 'Z' then (c as int + 32) as char else c
  }

  /** `ToLower`, with ASCII case folding. */
  function ToLower(s: string): (r: string)
    ensures |r| == |s|
    ensures forall i :: 0 <= i < |s| ==> r[i] == LowerChar(s[i])
  {
    seq(|s|, i requires 0 <= i < |s| => LowerChar(s[i]))
  }

  /** `StartsWith`, as an ordinal prefix test. */
  predicate StartsWith(s: string, prefix: string) {
    |prefix| <= |s| && s[..|prefix|] == prefix
  }

  /** A text starts with `prefix` exactly when it is `prefix` followed by the rest of the text. */
  lemma StartsWithSplits(s: string, prefix: string)
    ensures StartsWith(s, prefix) <==> |prefix| <= |s| && s == prefix + s[|prefix|..]
  {
    if |prefix| <= |s| && s == prefix + s[|prefix|..] {
      assert s[..|prefix|] == (prefix + s[|prefix|..])[..|prefix|];
    }
  }

  /** Lower-casing a text that starts with `prefix` gives a text that starts with the lower-cased prefix. */
  lemma LowerKeepsPrefix(s: string, prefix: string)
    requires StartsWith(s, prefix)
    ensures StartsWith(ToLower(s), ToLower(prefix))
  {
    assert forall i :: 0 <= i < |prefix| ==> ToLower(s)[..|prefix|][i] == ToLower(prefix)[i];
  }

  /**
   `string.Compare(a, b, true)`: negative, zero or positive as `a` sorts before, with or after `b`
   when case is ignored; characters are compared after ASCII case folding, and a proper prefix
   sorts first (`CompareOrder`).
   */
  function CompareIgnoreCase(a: string, b: string): (r: int)
    ensures -1 <= r <= 1
  {
    if a == [] then (if b == [] then 0 else -1)
    else if b == [] then 1
    else if LowerChar(a[0]) < LowerChar(b[0]) then -1
    else if LowerChar(a[0]) > LowerChar(b[0]) then 1
    else CompareIgnoreCase(a[1..], b[1..])
  }

  /** Swapping the operands negates the comparison. */
  lemma {:induction false} CompareAntisymmetric(a: string, b: string)
    ensures CompareIgnoreCase(a, b) == -CompareIgnoreCase(b, a)
  {
    if a != [] && b != [] && LowerChar(a[0]) == LowerChar(b[0]) {
      CompareAntisymmetric(a[1..], b[1..]);
    }
  }

  /** "Sorts no later than" is transitive. */
  lemma {:induction false} CompareTransitive(a: string, b: string, c: string)
    requires CompareIgnoreCase(a, b) <= 0 && CompareIgnoreCase(b, c) <= 0
    ensures CompareIgnoreCase(a, c) <= 0
  {
    if a != [] && b != [] && c != []
       && LowerChar(a[0]) == LowerChar(b[0]) && LowerChar(b[0]) == LowerChar(c[0]) {
      CompareTransitive(a[1..], b[1..], c[1..]);
    }
  }

  /** Two strings compare equal exactly when they agree after case folding. */
  lemma {:induction false} CompareZeroIffSameLower(a: string, b: string)
    ensures CompareIgnoreCase(a, b) == 0 <==> ToLower(a) == ToLower(b)
  {
    if a != [] && b != [] {
      CompareZeroIffSameLower(a[1..], b[1..]);
      assert ToLower(a) == [LowerChar(a[0])] + ToLower(a[1..]);
      assert ToLower(b) == [LowerChar(b[0])] + ToLower(b[1..]);
      if ToLower(a) == ToLower(b) {
        assert ToLower(a)[0] == ToLower(b)[0];
        assert ToLower(a)[1..] == ToLower(b)[1..];
      }
    }
  }

  /** `x` and `y` agree before position `k`, and at `k` the character of `x` has the smaller code. */
  predicate DiffersFirstAt(x: string, y: string, k: nat) {
    k < |x| && k < |y| && x[..k] == y[..k] && x[k] < y[k]
  }

  /** Ordinal order: `x` sorts first at its first difference from `y`, or is a proper prefix of `y`. */
  ghost predicate OrdinalLess(x: string, y: string) {
    (exists k :: DiffersFirstAt(x, y, k)) || (|x| < |y| && x == y[..|x|])
  }

  /** Ordinal order is decided by the first characters, then by the rest when they agree. */
  lemma OrdinalLessStep(x: string, y: string)
    requires x != [] && y != []
    ensures x[0] < y[0] ==> OrdinalLess(x, y)
    ensures x[0] > y[0] ==> !OrdinalLess(x, y)
    ensures x[0] == y[0] ==> (OrdinalLess(x, y) <==> OrdinalLess(x[1..], y[1..]))
  {
    var x', y' := x[1..], y[1..];
    if x[0] < y[0] {
      assert DiffersFirstAt(x, y, 0);
    } else if x[0] > y[0] {
      assert forall k: nat :: !DiffersFirstAt(x, y, k);
    } else {
      forall k: nat | DiffersFirstAt(x, y, k) ensures OrdinalLess(x', y') {
        assert x'[..k - 1] == x[..k][1..] && y'[..k - 1] == y[..k][1..];
        assert DiffersFirstAt(x', y', k - 1);
      }
      forall k: nat | DiffersFirstAt(x', y', k) ensures OrdinalLess(x, y) {
        assert x[..k + 1] == [x[0]] + x'[..k] && y[..k + 1] == [y[0]] + y'[..k];
        assert DiffersFirstAt(x, y, k + 1);
      }
      if |x| < |y| && x == y[..|x|] {
        assert x' == y[..|x|][1..] == y'[..|x'|];
      }
      if |x'| < |y'| && x' == y'[..|x'|] {
        assert x == [x[0]] + x' && y[..|x|] == [y[0]] + y'[..|x'|];
      }
    }
  }

  /** Lower-casing works character by character: the first character, then the rest. */
  lemma ToLowerCons(a: string)
    requires a != []
    ensures ToLower(a)[0] == LowerChar(a[0]) && ToLower(a)[1..] == ToLower(a[1..])
  {
  }

  /**
   The comparison is negative exactly when the lower-cased `a` sorts first in ordinal order: at
   the first character where the lower-cased texts differ, or as a proper prefix.
   */
  lemma {:induction false} CompareNegativeIff(a: string, b: string)
    ensures CompareIgnoreCase(a, b) < 0 <==> OrdinalLess(ToLower(a), ToLower(b))
  {
    var la, lb := ToLower(a), ToLower(b);
    if a == [] {
      if b != [] {
        assert la == lb[..0];
      }
    } else if b != [] {
      ToLowerCons(a);
      ToLowerCons(b);
      OrdinalLessStep(la, lb);
      if LowerChar(a[0]) == LowerChar(b[0]) {
        CompareNegativeIff(a[1..], b[1..]);
      }
    }
  }

  /** The order `string.Compare(a, b, true)` gives: ordinal order of the lower-cased texts, both ways. */
  lemma CompareOrder(a: string, b: string)
    ensures CompareIgnoreCase(a, b) < 0 <==> OrdinalLess(ToLower(a), ToLower(b))
    ensures CompareIgnoreCase(a, b) > 0 <==> OrdinalLess(ToLower(b), ToLower(a))
  {
    CompareNegativeIff(a, b);
    CompareNegativeIff(b, a);
    CompareAntisymmetric(a, b);
  }

  // ---- Int32.TryParse (NumberStyles.Integer) and int.ToString ----

  const Int32Min: int := -0x8000_0000
  const Int32Max: int := 0x7FFF_FFFF

  /** The white space NumberStyles.Integer allows around a number: U+0009-U+000D and U+0020. */
  predicate IsNumberSpace(c: char) {
    c == ' ' || ('\t' <= c <= '\r')
  }

  function TrimStart(s: string): string {
    if s != [] && IsNumberSpace(s[0]) then TrimStart(s[1..]) else s
  }

  function TrimEnd(s: string): string {
    if s != [] && IsNumberSpace(s[|s| - 1]) then TrimEnd(s[..|s| - 1]) else s
  }

  predicate IsDigit(c: char) {
    '0' <= c <= '9'
  }

  /** Every character is a decimal digit (checked from the last one back). */
  predicate AllDigits(s: string) {
    s == [] || (IsDigit(s[|s| - 1]) && AllDigits(s[..|s| - 1]))
  }

  /** Each character of a run of digits is a digit. */
  lemma {:induction false} AllDigitsAt(s: string, i: nat)
    requires AllDigits(s) && i < |s|
    ensures IsDigit(s[i])
    decreases |s|
  {
    if i < |s| - 1 {
      AllDigitsAt(s[..|s| - 1], i);
    }
  }

  function DigitValue(c: char): nat
    requires IsDigit(c)
  {
    c as int - '0' as int
  }

  function DigitChar(d: nat): char
    requires d < 10
  {
    ('0' as int + d) as char
  }

  /** The value of a run of decimal digits, most significant first. */
  function DigitsValue(s: string): nat
    requires AllDigits(s)
  {
    if s == [] then 0 else DigitsValue(s[..|s| - 1]) * 10 + DigitValue(s[|s| - 1])
  }

  /**
   `Int32.TryParse(s, out id)`: optional white space, an optional sign, at least one decimal
   digit, optional white space, and a value that fits in 32 bits; `None` when it returns false.
   */
  function ParseInt32(s: string): (r: Option<int>)
    ensures r.Some? ==> Int32Min <= r.value <= Int32Max
    ensures r.Some? ==> exists i :: 0 <= i < |s| && IsDigit(s[i])
  {
    var t := TrimEnd(TrimStart(s));
    var signed := t != [] && (t[0] == '-' || t[0] == '+');
    var digits := if signed then t[1..] else t;
    if digits == [] || !AllDigits(digits) then None
    else
      var magnitude: int := DigitsValue(digits);
      var v: int := if signed && t[0] == '-' then -magnitude else magnitude;
      TrimmedIsInfix(s);
      AllDigitsAt(digits, 0);
      if Int32Min <= v <= Int32Max then Some(v) else None
  }

  /** Trimming keeps a contiguous piece of the input. */
  lemma {:induction false} TrimmedIsInfix(s: string)
    ensures exists lo, hi :: 0 <= lo <= hi <= |s| && TrimEnd(TrimStart(s)) == s[lo..hi]
  {
    var lo := TrimStartSkips(s);
    var u := s[lo..];
    var hi := TrimEndKeeps(u);
    assert TrimEnd(TrimStart(s)) == s[lo..lo + hi];
  }

  lemma {:induction false} TrimStartSkips(s: string) returns (lo: nat)
    ensures lo <= |s| && TrimStart(s) == s[lo..]
    ensures AllNumberSpace(s[..lo])
  {
    if s != [] && IsNumberSpace(s[0]) {
      var k := TrimStartSkips(s[1..]);
      lo := k + 1;
      assert s[1..][k..] == s[lo..];
      assert s[..lo] == [s[0]] + s[1..][..k];
    } else {
      lo := 0;
    }
  }

  lemma {:induction false} TrimEndKeeps(s: string) returns (hi: nat)
    ensures hi <= |s| && TrimEnd(s) == s[..hi]
    ensures AllNumberSpace(s[hi..])
  {
    if s != [] && IsNumberSpace(s[|s| - 1]) {
      hi := TrimEndKeeps(s[..|s| - 1]);
      assert s[..|s| - 1][..hi] == s[..hi];
      assert s[hi..] == s[..|s| - 1][hi..] + [s[|s| - 1]];
    } else {
      hi := |s|;
    }
  }

  /** A run of the white space `Int32.TryParse` skips around a number. */
  predicate AllNumberSpace(w: string) {
    forall i :: 0 <= i < |w| ==> IsNumberSpace(w[i])
  }

  /** Leading white space is skipped by `TrimStart`. */
  lemma {:induction false} TrimStartSpaces(w: string, x: string)
    requires AllNumberSpace(w)
    ensures TrimStart(w + x) == TrimStart(x)
    decreases |w|
  {
    if w != [] {
      assert (w + x)[0] == w[0] && IsNumberSpace(w[0]);
      assert (w + x)[1..] == w[1..] + x;
      assert AllNumberSpace(w[1..]) by {
        forall i | 0 <= i < |w[1..]| ensures IsNumberSpace(w[1..][i]) { assert w[1..][i] == w[i + 1]; }
      }
      TrimStartSpaces(w[1..], x);
    } else {
      assert w + x == x;
    }
  }

  /** Trailing white space is dropped by `TrimEnd`. */
  lemma {:induction false} TrimEndSpaces(x: string, w: string)
    requires AllNumberSpace(w)
    ensures TrimEnd(x + w) == TrimEnd(x)
    decreases |w|
  {
    if w != [] {
      assert (x + w)[|x + w| - 1] == w[|w| - 1] && IsNumberSpace(w[|w| - 1]);
      assert (x + w)[..|x + w| - 1] == x + w[..|w| - 1];
      var front := w[..|w| - 1];
      assert AllNumberSpace(front) by {
        forall i | 0 <= i < |front| ensures IsNumberSpace(front[i]) { assert front[i] == w[i]; }
      }
      TrimEndSpaces(x, w[..|w| - 1]);
    } else {
      assert x + w == x;
    }
  }

  /** The value `Int32.TryParse` gives text made of white space, an optional sign, digits and white space. */
  function SignedValue(sign: string, digits: string): int
    requires AllDigits(digits)
  {
    var magnitude: int := DigitsValue(digits);
    if sign == "-" then -magnitude else magnitude
  }

  /**
   `Int32.TryParse` reads white space, an optional sign, a non-empty run of digits and white space
   as the signed value of the digits when it fits in 32 bits, and fails when it does not.
   */
  lemma ParseInt32Value(w1: string, sign: string, digits: string, w2: string)
    requires AllNumberSpace(w1) && AllNumberSpace(w2) && sign in ["", "+", "-"]
    requires digits != [] && AllDigits(digits)
    ensures ParseInt32(w1 + sign + digits + w2)
            == if Int32Min <= SignedValue(sign, digits) <= Int32Max then Some(SignedValue(sign, digits)) else None
  {
    var m := sign + digits;
    assert w1 + sign + digits + w2 == w1 + (m + w2);
    AllDigitsAt(digits, 0);
    TrimStartSpaces(w1, m + w2);
    assert (m + w2)[0] == m[0];
    assert TrimStart(m + w2) == m + w2;
    TrimEndSpaces(m, w2);
    assert m[|m| - 1] == digits[|digits| - 1];
    assert TrimEnd(m) == m;
    var t := TrimEnd(TrimStart(w1 + sign + digits + w2));
    assert t == m;
    if sign != "" {
      assert m[1..] == digits;
      assert t[0] == '-' || t[0] == '+';
    } else {
      assert m == digits;
      assert !(t[0] == '-' || t[0] == '+');
    }
  }

  /** Text is the white space `TrimStart` drops, what trimming both ends keeps, and the white space `TrimEnd` drops. */
  lemma TrimmedSplit(s: string) returns (w1: string, w2: string)
    ensures s == w1 + TrimEnd(TrimStart(s)) + w2 && AllNumberSpace(w1) && AllNumberSpace(w2)
  {
    var lo := TrimStartSkips(s);
    var u := s[lo..];
    var hi := TrimEndKeeps(u);
    w1, w2 := s[..lo], u[hi..];
    assert s == s[..lo] + u && u == u[..hi] + w2;
  }

  /** The trimmed text of a successful parse is an optional sign followed by digits. */
  lemma ParsedDigits(s: string) returns (sign: string, digits: string)
    requires ParseInt32(s).Some?
    ensures TrimEnd(TrimStart(s)) == sign + digits && sign in ["", "+", "-"] && digits != [] && AllDigits(digits)
  {
    var t := TrimEnd(TrimStart(s));
    var signed := t != [] && (t[0] == '-' || t[0] == '+');
    sign := if signed then [t[0]] else "";
    digits := if signed then t[1..] else t;
    if signed {
      assert t == [t[0]] + t[1..];
    }
  }

  /** Every text `Int32.TryParse` accepts is white space, an optional sign, digits and white space. */
  lemma ParsedTextForm(s: string) returns (w1: string, sign: string, digits: string, w2: string)
    requires ParseInt32(s).Some?
    ensures s == w1 + sign + digits + w2
    ensures AllNumberSpace(w1) && AllNumberSpace(w2) && sign in ["", "+", "-"]
    ensures digits != [] && AllDigits(digits) && ParseInt32(s) == Some(SignedValue(sign, digits))
  {
    w1, w2 := TrimmedSplit(s);
    sign, digits := ParsedDigits(s);
    assert s == w1 + sign + digits + w2 by {
      assert w1 + TrimEnd(TrimStart(s)) == w1 + sign + digits;
    }
    ParseInt32Value(w1, sign, digits, w2);
  }

  /** `int.ToString()` of a non-negative value: its decimal digits without leading zeros. */
  function FormatNat(n: nat): (s: string)
    ensures |s| > 0 && AllDigits(s)
    ensures DigitsValue(s) == n
    ensures s[0] == '0' ==> n == 0
  {
    if n < 10 then [DigitChar(n)]
    else
      var prefix := FormatNat(n / 10);
      var s := prefix + [DigitChar(n % 10)];
      assert s[..|s| - 1] == prefix;
      s
  }

  /** A non-negative 32-bit value written by `ToString` is read back by `Int32.TryParse`. */
  lemma ParseFormatRoundTrip(n: nat)
    requires n <= Int32Max
    ensures ParseInt32(FormatNat(n)) == Some(n)
  {
    var s := FormatNat(n);
    AllDigitsAt(s, 0);
    assert TrimStart(s) == s;
    assert TrimEnd(s) == s by { assert IsDigit(s[|s| - 1]); }
  }
}
