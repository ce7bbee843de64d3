/** The string primitives the query layer relies on: Python's `str.strip()`,
    `str.isdecimal()`, `str.isdigit()` and `int()` on request parameters, `str(int)` in display
    strings, and the case-insensitive substring test behind `__icontains`. */
module Text {
  import opened Wrappers

  /** `needle` sits in `hay` starting at index `i`. */
  predicate OccursAt(hay: string, needle: string, i: int) {
    0 <= i && i + |needle| <= |hay| && hay[i..i + |needle|] == needle
  }

  // ---------------------------------------------------------------------------
  // Whitespace and strip()

  /** The characters Python's `str.isspace()` accepts. */
  predicate IsSpace(c: char) {
    var n := c as int;
    n == 0x20 || 0x09 <= n <= 0x0D || 0x1C <= n <= 0x1F || n == 0x85 || n == 0xA0
    || n == 0x1680 || 0x2000 <= n <= 0x200A || n == 0x2028 || n == 0x2029
    || n == 0x202F || n == 0x205F || n == 0x3000
  }

  /** Drops leading whitespace. */
  function StripLeft(s: string): string {
    if |s| > 0 && IsSpace(s[0]) then StripLeft(s[1..]) else s
  }

  /** Drops trailing whitespace. */
  function StripRight(s: string): string {
    if |s| > 0 && IsSpace(s[|s| - 1]) then StripRight(s[..|s| - 1]) else s
  }

  /** Python's `str.strip()` with no argument. */
  function Strip(s: string): string {
    StripRight(StripLeft(s))
  }

  /** The left strip is the suffix of `s` that starts at its first non-space character. */
  lemma {:induction false} StripLeftSpec(s: string)
    ensures |StripLeft(s)| <= |s| && StripLeft(s) == s[|s| - |StripLeft(s)|..]
    ensures forall i :: 0 <= i < |s| - |StripLeft(s)| ==> IsSpace(s[i])
    ensures StripLeft(s) == [] || !IsSpace(StripLeft(s)[0])
    decreases |s|
  {
    if |s| > 0 && IsSpace(s[0]) {
      StripLeftSpec(s[1..]);
      assert forall i :: 1 <= i < |s| ==> s[i] == s[1..][i - 1];
    }
  }

  /** The right strip is the prefix of `s` that ends at its last non-space character. */
  lemma {:induction false} StripRightSpec(s: string)
    ensures |StripRight(s)| <= |s| && StripRight(s) == s[..|StripRight(s)|]
    ensures forall i :: |StripRight(s)| <= i < |s| ==> IsSpace(s[i])
    ensures StripRight(s) == [] || !IsSpace(StripRight(s)[|StripRight(s)| - 1])
    decreases |s|
  {
    if |s| > 0 && IsSpace(s[|s| - 1]) {
      StripRightSpec(s[..|s| - 1]);
      assert forall i :: 0 <= i < |s| - 1 ==> s[i] == s[..|s| - 1][i];
    }
  }

  /** The stripped text is a contiguous slice of the input, everything cut away
      is whitespace, and it neither starts nor ends with whitespace. */
  lemma StripSpec(s: string)
    ensures exists i ::
      && OccursAt(s, Strip(s), i)
      && (forall k :: 0 <= k < i ==> IsSpace(s[k]))
      && (forall k :: i + |Strip(s)| <= k < |s| ==> IsSpace(s[k]))
    ensures Strip(s) == [] || (!IsSpace(Strip(s)[0]) && !IsSpace(Strip(s)[|Strip(s)| - 1]))
  {
    var l := StripLeft(s);
    var i := |s| - |l|;
    var r := StripRight(l);
    StripLeftSpec(s);
    StripRightSpec(l);
    assert Strip(s) == r;
    assert l == s[i..];
    assert r == l[..|r|];
    assert s[i..i + |r|] == r;
    assert OccursAt(s, r, i);
    forall k | i + |r| <= k < |s| ensures IsSpace(s[k]) {
      assert s[k] == l[k - i];
    }
    if r != [] {
      assert r[0] == l[0];
    }
  }

  /** Text that neither starts nor ends with whitespace is left as it is. */
  lemma StripOfUnpadded(s: string)
    requires s == [] || (!IsSpace(s[0]) && !IsSpace(s[|s| - 1]))
    ensures Strip(s) == s
  {}

  /** Stripping twice changes nothing more than stripping once. */
  lemma StripIdempotent(s: string)
    ensures Strip(Strip(s)) == Strip(s)
  {
    StripSpec(s);
    StripOfUnpadded(Strip(s));
  }

  // ---------------------------------------------------------------------------
  // Decimal digits: isdigit(), int() and str()

  predicate IsAsciiDigit(c: char) {
    '0' <= c <= '9'
  }

  /** A non-empty run of ASCII digits: what `str()` prints for a number. */
  predicate IsAsciiDigits(s: string) {
    |s| > 0 && forall i :: 0 <= i < |s| ==> IsAsciiDigit(s[i])
  }

  /** The code point of the zero of `c`'s run of ten decimal digits, when `c`
      is a decimal digit (Unicode general category Nd, the characters
      `str.isdecimal()` accepts and `int()` reads; Unicode 15.0, as Python
      3.12 has it). Every such run holds the digits 0 to 9 in order. */
  function DecimalZero(c: char): (z: Option<int>)
    ensures z.Some? ==> z.value <= c as int <= z.value + 9
  {
    var n := c as int;
    if n < 0xD66 then DecimalZeroIn0(n)
    else if n < 0x1A90 then DecimalZeroIn1(n)
    else if n < 0xFF10 then DecimalZeroIn2(n)
    else if n < 0x11730 then DecimalZeroIn3(n)
    else if n < 0x1D7E2 then DecimalZeroIn4(n)
    else DecimalZeroIn5(n)
  }

  /** The runs of decimal digits, twelve to a function, in code-point order. */
  function DecimalZeroIn0(n: int): (z: Option<int>)
    ensures z.Some? ==> z.value <= n <= z.value + 9
  {
    if 0x30 <= n <= 0x39 then Some(0x30)
    else if 0x660 <= n <= 0x669 then Some(0x660)
    else if 0x6F0 <= n <= 0x6F9 then Some(0x6F0)
    else if 0x7C0 <= n <= 0x7C9 then Some(0x7C0)
    else if 0x966 <= n <= 0x96F then Some(0x966)
    else if 0x9E6 <= n <= 0x9EF then Some(0x9E6)
    else if 0xA66 <= n <= 0xA6F then Some(0xA66)
    else if 0xAE6 <= n <= 0xAEF then Some(0xAE6)
    else if 0xB66 <= n <= 0xB6F then Some(0xB66)
    else if 0xBE6 <= n <= 0xBEF then Some(0xBE6)
    else if 0xC66 <= n <= 0xC6F then Some(0xC66)
    else if 0xCE6 <= n <= 0xCEF then Some(0xCE6)
    else None
  }

  function DecimalZeroIn1(n: int): (z: Option<int>)
    ensures z.Some? ==> z.value <= n <= z.value + 9
  {
    if 0xD66 <= n <= 0xD6F then Some(0xD66)
    else if 0xDE6 <= n <= 0xDEF then Some(0xDE6)
    else if 0xE50 <= n <= 0xE59 then Some(0xE50)
    else if 0xED0 <= n <= 0xED9 then Some(0xED0)
    else if 0xF20 <= n <= 0xF29 then Some(0xF20)
    else if 0x1040 <= n <= 0x1049 then Some(0x1040)
    else if 0x1090 <= n <= 0x1099 then Some(0x1090)
    else if 0x17E0 <= n <= 0x17E9 then Some(0x17E0)
    else if 0x1810 <= n <= 0x1819 then Some(0x1810)
    else if 0x1946 <= n <= 0x194F then Some(0x1946)
    else if 0x19D0 <= n <= 0x19D9 then Some(0x19D0)
    else if 0x1A80 <= n <= 0x1A89 then Some(0x1A80)
    else None
  }

  function DecimalZeroIn2(n: int): (z: Option<int>)
    ensures z.Some? ==> z.value <= n <= z.value + 9
  {
    if 0x1A90 <= n <= 0x1A99 then Some(0x1A90)
    else if 0x1B50 <= n <= 0x1B59 then Some(0x1B50)
    else if 0x1BB0 <= n <= 0x1BB9 then Some(0x1BB0)
    else if 0x1C40 <= n <= 0x1C49 then Some(0x1C40)
    else if 0x1C50 <= n <= 0x1C59 then Some(0x1C50)
    else if 0xA620 <= n <= 0xA629 then Some(0xA620)
    else if 0xA8D0 <= n <= 0xA8D9 then Some(0xA8D0)
    else if 0xA900 <= n <= 0xA909 then Some(0xA900)
    else if 0xA9D0 <= n <= 0xA9D9 then Some(0xA9D0)
    else if 0xA9F0 <= n <= 0xA9F9 then Some(0xA9F0)
    else if 0xAA50 <= n <= 0xAA59 then Some(0xAA50)
    else if 0xABF0 <= n <= 0xABF9 then Some(0xABF0)
    else None
  }

  function DecimalZeroIn3(n: int): (z: Option<int>)
    ensures z.Some? ==> z.value <= n <= z.value + 9
  {
    if 0xFF10 <= n <= 0xFF19 then Some(0xFF10)
    else if 0x104A0 <= n <= 0x104A9 then Some(0x104A0)
    else if 0x10D30 <= n <= 0x10D39 then Some(0x10D30)
    else if 0x11066 <= n <= 0x1106F then Some(0x11066)
    else if 0x110F0 <= n <= 0x110F9 then Some(0x110F0)
    else if 0x11136 <= n <= 0x1113F then Some(0x11136)
    else if 0x111D0 <= n <= 0x111D9 then Some(0x111D0)
    else if 0x112F0 <= n <= 0x112F9 then Some(0x112F0)
    else if 0x11450 <= n <= 0x11459 then Some(0x11450)
    else if 0x114D0 <= n <= 0x114D9 then Some(0x114D0)
    else if 0x11650 <= n <= 0x11659 then Some(0x11650)
    else if 0x116C0 <= n <= 0x116C9 then Some(0x116C0)
    else None
  }

  function DecimalZeroIn4(n: int): (z: Option<int>)
    ensures z.Some? ==> z.value <= n <= z.value + 9
  {
    if 0x11730 <= n <= 0x11739 then Some(0x11730)
    else if 0x118E0 <= n <= 0x118E9 then Some(0x118E0)
    else if 0x11950 <= n <= 0x11959 then Some(0x11950)
    else if 0x11C50 <= n <= 0x11C59 then Some(0x11C50)
    else if 0x11D50 <= n <= 0x11D59 then Some(0x11D50)
    else if 0x11DA0 <= n <= 0x11DA9 then Some(0x11DA0)
    else if 0x11F50 <= n <= 0x11F59 then Some(0x11F50)
    else if 0x16A60 <= n <= 0x16A69 then Some(0x16A60)
    else if 0x16AC0 <= n <= 0x16AC9 then Some(0x16AC0)
    else if 0x16B50 <= n <= 0x16B59 then Some(0x16B50)
    else if 0x1D7CE <= n <= 0x1D7D7 then Some(0x1D7CE)
    else if 0x1D7D8 <= n <= 0x1D7E1 then Some(0x1D7D8)
    else None
  }

  function DecimalZeroIn5(n: int): (z: Option<int>)
    ensures z.Some? ==> z.value <= n <= z.value + 9
  {
    if 0x1D7E2 <= n <= 0x1D7EB then Some(0x1D7E2)
    else if 0x1D7EC <= n <= 0x1D7F5 then Some(0x1D7EC)
    else if 0x1D7F6 <= n <= 0x1D7FF then Some(0x1D7F6)
    else if 0x1E140 <= n <= 0x1E149 then Some(0x1E140)
    else if 0x1E2F0 <= n <= 0x1E2F9 then Some(0x1E2F0)
    else if 0x1E4F0 <= n <= 0x1E4F9 then Some(0x1E4F0)
    else if 0x1E950 <= n <= 0x1E959 then Some(0x1E950)
    else if 0x1FBF0 <= n <= 0x1FBF9 then Some(0x1FBF0)
    else None
  }

  predicate IsDecimalDigit(c: char) {
    DecimalZero(c).Some?
  }

  /** A non-empty run of decimal digits of any script: what `str.isdecimal()`
      accepts. Of these texts `int()` reads those within its digit limit;
      it also reads signs, underscores and surrounding blanks, which this
      guard never lets through. */
  predicate IsDecimal(s: string) {
    |s| > 0 && forall i :: 0 <= i < |s| ==> IsDecimalDigit(s[i])
  }

  function DigitValue(c: char): (d: nat)
    requires IsDecimalDigit(c)
    ensures d < 10
  {
    c as int - DecimalZero(c).value
  }

  function DigitChar(d: nat): (c: char)
    requires d < 10
    ensures IsAsciiDigit(c) && IsDecimalDigit(c) && DigitValue(c) == d
  {
    (d + '0' as int) as char
  }

  /** Base-10 value of a run of decimal digits, as `int()` reads it (leading
      zeros allowed, scripts may mix). */
  function DigitsValue(s: string): nat
    requires forall i :: 0 <= i < |s| ==> IsDecimalDigit(s[i])
  {
    if |s| == 0 then 0 else DigitsValue(s[..|s| - 1]) * 10 + DigitValue(s[|s| - 1])
  }

  /** CPython's default limit (3.11 on) on the digits of one integer
      converted from or to text: `int()` of a longer digit run, and `str()` of
      a number with more digits, raise `ValueError`. */
  const MaxStrDigits := 4300

  /** `int(s)` behind an `isdecimal()` guard: a number exactly when `s` is a
      non-empty run of decimal digits no longer than the digit limit (leading
      zeros count towards it); `None` where the guard drops `s` or `int()`
      would raise. */
  function ParseNat(s: string): (r: Option<nat>)
    ensures r.Some? <==> IsDecimal(s) && |s| <= MaxStrDigits
  {
    if IsDecimal(s) && |s| <= MaxStrDigits then Some(DigitsValue(s)) else None
  }

  /** Python's `str(n)` for a non-negative integer: no sign, no leading zero. */
  function NatToString(n: nat): (r: string)
    ensures IsAsciiDigits(r)
    ensures |r| > 1 ==> r[0] != '0'
    decreases n
  {
    if n < 10 then [DigitChar(n)] else NatToString(n / 10) + [DigitChar(n % 10)]
  }

  /** Python's `str(i)` for any integer. */
  function IntToString(i: int): (r: string)
    ensures |r| > 0
    ensures (r[0] == '-') <==> i < 0
    ensures i >= 0 ==> IsAsciiDigits(r) && (|r| > 1 ==> r[0] != '0')
    ensures i < 0 ==> IsAsciiDigits(r[1..]) && (|r| > 2 ==> r[1] != '0')
  {
    if i < 0 then "-" + NatToString(-i) else NatToString(i)
  }

  /** The digits `str` prints have the number as their value. */
  lemma {:induction false} NatToStringValue(n: nat)
    ensures DigitsValue(NatToString(n)) == n
    decreases n
  {
    var s := NatToString(n);
    if n >= 10 {
      NatToStringValue(n / 10);
      assert s[..|s| - 1] == NatToString(n / 10);
      assert DigitsValue(s[..|s| - 1]) == n / 10;
      assert DigitValue(s[|s| - 1]) == n % 10;
    } else {
      assert s[..0] == [];
    }
    assert DigitsValue(s) == n;
  }

  /** `str(n)` succeeds when `n` has at most `MaxStrDigits` digits. */
  predicate Printable(n: nat) {
    |NatToString(n)| <= MaxStrDigits
  }

  /** Reading back what `str` printed gives the number. */
  lemma NatToStringRoundTrip(n: nat)
    requires Printable(n)
    ensures ParseNat(NatToString(n)) == Some(n)
  {
    NatToStringValue(n);
  }

  /** Past the digit limit the printed number no longer reads back. */
  lemma NatToStringBeyondLimit(n: nat)
    requires !Printable(n)
    ensures ParseNat(NatToString(n)) == None
  {
  }

  lemma {:induction false} LeadingNonZeroPositive(s: string)
    requires IsAsciiDigits(s) && s[0] != '0'
    ensures DigitsValue(s) > 0
    decreases |s|
  {
    if |s| > 1 {
      LeadingNonZeroPositive(s[..|s| - 1]);
    }
  }

  /** And the other way round: an ASCII digit string without a leading zero
      is exactly what `str` prints for its value. */
  lemma {:induction false} CanonicalDigitsRoundTrip(s: string)
    requires IsAsciiDigits(s) && (|s| > 1 ==> s[0] != '0')
    ensures NatToString(DigitsValue(s)) == s
    decreases |s|
  {
    if |s| > 1 {
      var p := s[..|s| - 1];
      LeadingNonZeroPositive(p);
      CanonicalDigitsRoundTrip(p);
      var n := DigitsValue(s);
      assert n / 10 == DigitsValue(p) && n % 10 == DigitValue(s[|s| - 1]);
    }
  }

  /** A printed integer parses back as a request number exactly when it is
      not negative; the minus sign of a negative one is not a digit, and the
      digits after it read back as the magnitude. */
  lemma IntToStringParse(i: int)
    requires Printable(if i < 0 then -i else i)
    ensures ParseNat(IntToString(i)) == (if i >= 0 then Some(i) else None)
    ensures i < 0 ==> ParseNat(IntToString(i)[1..]) == Some(-i)
  {
    if i >= 0 {
      NatToStringRoundTrip(i);
    } else {
      assert !IsDecimalDigit(IntToString(i)[0]);
      assert IntToString(i)[1..] == NatToString(-i);
      NatToStringRoundTrip(-i);
    }
  }

  /** The digits of a printed integer, after the sign of a negative one,
      have its magnitude as their value, whatever its length. */
  lemma IntToStringValue(i: int)
    ensures i >= 0 ==> DigitsValue(IntToString(i)) == i
    ensures i < 0 ==> DigitsValue(IntToString(i)[1..]) == -i
  {
    if i >= 0 {
      NatToStringValue(i);
    } else {
      assert IntToString(i)[1..] == NatToString(-i);
      NatToStringValue(-i);
    }
  }

  // ---------------------------------------------------------------------------
  // Case-insensitive containment (`__icontains`)

  /** ASCII case folding, as the default SQLite `LIKE` does it. */
  function LowerChar(c: char): char {
    if 'A' <= c <= 'Z' then (c as int + 32) as char else c
  }

  function Lower(s: string): (r: string)
    ensures |r| == |s| && forall i :: 0 <= i < |s| ==> r[i] == LowerChar(s[i])
  {
    if |s| == 0 then [] else [LowerChar(s[0])] + Lower(s[1..])
  }

  predicate StartsWith(s: string, prefix: string) {
    |prefix| <= |s| && s[..|prefix|] == prefix
  }

  /** `needle` occurs somewhere in `hay`, decided by scanning left to right. */
  function Contains(hay: string, needle: string): (b: bool)
    ensures b <==> exists i :: OccursAt(hay, needle, i)
    decreases |hay|
  {
    if StartsWith(hay, needle) then
      assert OccursAt(hay, needle, 0);
      true
    else if |hay| == 0 then
      false
    else
      var b := Contains(hay[1..], needle);
      OccursShift(hay, needle);
      b
  }

  /** Occurrences in `hay` other than at index 0 are occurrences in its tail. */
  lemma OccursShift(hay: string, needle: string)
    requires |hay| > 0 && !OccursAt(hay, needle, 0)
    ensures (exists i :: OccursAt(hay[1..], needle, i)) <==> (exists i :: OccursAt(hay, needle, i))
  {
    if i :| OccursAt(hay, needle, i) {
      assert i != 0;
      assert hay[1..][i - 1..i - 1 + |needle|] == hay[i..i + |needle|];
      assert OccursAt(hay[1..], needle, i - 1);
    }
    if i :| OccursAt(hay[1..], needle, i) {
      assert hay[1..][i..i + |needle|] == hay[i + 1..i + 1 + |needle|];
      assert OccursAt(hay, needle, i + 1);
    }
  }

  /** `hay__icontains=needle`: containment after folding both sides. */
  predicate IContains(hay: string, needle: string) {
    Contains(Lower(hay), Lower(needle))
  }

  /** The characters of `hay` from index `i` on match `needle` one by one,
      ignoring ASCII case. */
  predicate MatchesAt(hay: string, needle: string, i: int) {
    0 <= i && i + |needle| <= |hay| && forall k :: 0 <= k < |needle| ==> LowerChar(hay[i + k]) == LowerChar(needle[k])
  }

  /** `__icontains` holds exactly when some window of `hay` matches `needle`
      character by character up to case. */
  lemma IContainsMeaning(hay: string, needle: string)
    ensures IContains(hay, needle) <==> exists i :: MatchesAt(hay, needle, i)
  {
    var lh, ln := Lower(hay), Lower(needle);
    forall i ensures OccursAt(lh, ln, i) <==> MatchesAt(hay, needle, i) {
      if 0 <= i && i + |needle| <= |hay| {
        var w := lh[i..i + |needle|];
        assert forall k :: 0 <= k < |needle| ==> w[k] == LowerChar(hay[i + k]);
        if MatchesAt(hay, needle, i) {
          assert w == ln;
        }
      }
    }
  }
}
