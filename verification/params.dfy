/** The query-string parameters of the student list: the optional name
    search, the numeric `min_age`, `max_age` and `course` filters, and the
    `order` key with its allow-list. A missing parameter reads as the empty
    string (or `name` for the order key), as `request.GET.get(key, default)`
    gives it. */
module Params {
  import opened Wrappers
  import opened Text

  datatype StudentQuery = StudentQuery(
    name: Option<string>,
    minAge: Option<string>,
    maxAge: Option<string>,
    course: Option<string>,
    order: Option<string>)

  /** The stripped name search; it filters only when non-empty. */
  function NameParam(raw: Option<string>): (r: Option<string>)
    ensures r.None? <==> Strip(raw.GetOr("")) == []
    ensures r.Some? ==> r.value == Strip(raw.GetOr("")) && |r.value| > 0
    ensures r.Some? ==> !IsSpace(r.value[0]) && !IsSpace(r.value[|r.value| - 1])
  {
    var s := Strip(raw.GetOr(""));
    StripSpec(raw.GetOr(""));
    if s == [] then None else Some(s)
  }

  /** A numeric parameter: stripped, then read as a number only when it is a
      non-empty run of decimal digits (of any script, as `int()` reads them)
      within `int()`'s digit limit; anything else (empty, signed, mixed,
      superscript, too long) is no number at all. This is the guard the code
      evidently means by `isdigit()`: one that lets through only what `int()`
      reads without raising; see `NumberParamAsWritten`. */
  function NumberParam(raw: Option<string>): (r: Option<nat>)
    ensures r.Some? <==> IsDecimal(Strip(raw.GetOr(""))) && |Strip(raw.GetOr(""))| <= MaxStrDigits
  {
    ParseNat(Strip(raw.GetOr("")))
  }

  /** A number sent as its decimal spelling is read back as itself. */
  lemma NumberParamReadsPrinted(n: nat)
    requires Printable(n)
    ensures NumberParam(Some(NatToString(n))) == Some(n)
  {
    var s := NatToString(n);
    NatToStringRoundTrip(n);
    assert !IsSpace(s[0]) && !IsSpace(s[|s| - 1]);
    StripOfUnpadded(s);
    assert Some(s).GetOr("") == s;
  }

  lemma StripPadded(s: string)
    requires |s| > 0 && !IsSpace(s[0]) && !IsSpace(s[|s| - 1])
    ensures Strip(" " + s + " ") == s
  {
    var padded := " " + s + " ";
    assert padded[1..] == s + " ";
    assert StripLeft(padded) == s + " ";
    assert (s + " ")[..|s|] == s;
    assert StripRight(s + " ") == s;
  }

  /** A value that is not a run of digits adds no filter and raises no error. */
  lemma NonDigitsIgnored(s: string, i: nat)
    requires |s| > 0 && !IsSpace(s[0]) && !IsSpace(s[|s| - 1])
    requires i < |s| && !IsDecimalDigit(s[i])
    ensures NumberParam(Some(s)) == None
  {
    StripOfUnpadded(s);
    assert Some(s).GetOr("") == s;
  }

  /** Values that add no filter and raise no error: missing, empty, blank,
      signed, mixed, fractional. */
  lemma IgnoredNumberExamples()
    ensures NumberParam(None) == None
    ensures NumberParam(Some("")) == None
    ensures NumberParam(Some(" ")) == None
    ensures NumberParam(Some("-3")) == None
    ensures NumberParam(Some("2a")) == None
    ensures NumberParam(Some("4.5")) == None
  {
    assert Strip("") == "";
    assert StripLeft(" ") == "";
    NonDigitsIgnored("-3", 0);
    NonDigitsIgnored("2a", 1);
    NonDigitsIgnored("4.5", 1);
  }

  /** Values that filter: surrounding blanks are stripped, leading zeros read
      as `int()` reads them. */
  lemma ParsedNumberExamples()
    ensures NumberParam(Some(" 18 ")) == Some(18)
    ensures NumberParam(Some("007")) == Some(7)
  {
    StripPadded("18");
    assert " 18 " == " " + "18" + " ";
    assert DigitsValue("18") == 18 by {
      assert "18"[..1] == "1";
      assert DigitsValue("1") == 1 by { assert "1"[..0] == ""; }
    }
    StripOfUnpadded("007");
    assert DigitsValue("007") == 7 by {
      assert "007"[..2] == "00" && "00"[..1] == "0" && "0"[..0] == "";
    }
  }

  // ---------------------------------------------------------------------------
  // The order key

  datatype OrderKey = ByName | ByNameDesc | ByAge | ByAgeDesc | ByCourseTitle

  /** The query-string spelling of each key. */
  function OrderKeyText(k: OrderKey): string {
    match k
    case ByName => "name"
    case ByNameDesc => "-name"
    case ByAge => "age"
    case ByAgeDesc => "-age"
    case ByCourseTitle => "course__title"
  }

  predicate IsDescending(k: OrderKey) {
    k == ByNameDesc || k == ByAgeDesc
  }

  const AllowedOrders: seq<string> := ["name", "-name", "age", "-age", "course__title"]

  /** The allow-list check: a key only when `s` is one of the five allowed
      spellings, spelled exactly (the order parameter is not stripped). */
  function ParseOrder(s: string): (r: Option<OrderKey>)
    ensures r.Some? <==> s in AllowedOrders
    ensures r.Some? ==> OrderKeyText(r.value) == s
  {
    if s == "name" then Some(ByName)
    else if s == "-name" then Some(ByNameDesc)
    else if s == "age" then Some(ByAge)
    else if s == "-age" then Some(ByAgeDesc)
    else if s == "course__title" then Some(ByCourseTitle)
    else None
  }

  /** Every key is reachable from its spelling. */
  lemma OrderKeyRoundTrip(k: OrderKey)
    ensures ParseOrder(OrderKeyText(k)) == Some(k)
  {}

  /** The order in effect: `name` when the parameter is absent. */
  function OrderParam(raw: Option<string>): (r: Option<OrderKey>)
    ensures raw.None? ==> r == Some(ByName)
    ensures raw.Some? ==> (r.Some? <==> raw.value in AllowedOrders)
    ensures r.Some? ==> OrderKeyText(r.value) == raw.GetOr("name")
  {
    ParseOrder(raw.GetOr("name"))
  }

  // ---------------------------------------------------------------------------
  // The guard as the code writes it

  datatype ParamError = ValueError

  /** Characters that `str.isdigit()` accepts but `int()` rejects (Unicode
      numeric type Digit, Unicode 15.0): superscript and subscript digits,
      Ethiopic digits, circled, parenthesized and dingbat digits, and a few
      more. */
  predicate IsNonDecimalDigit(c: char) {
    var n := c as int;
    || 0xB2 <= n <= 0xB3 || n == 0xB9 || 0x1369 <= n <= 0x1371 || n == 0x19DA
    || n == 0x2070 || 0x2074 <= n <= 0x2079 || 0x2080 <= n <= 0x2089
    || 0x2460 <= n <= 0x2468 || 0x2474 <= n <= 0x247C || 0x2488 <= n <= 0x2490
    || n == 0x24EA || 0x24F5 <= n <= 0x24FD || n == 0x24FF
    || 0x2776 <= n <= 0x277E || 0x2780 <= n <= 0x2788 || 0x278A <= n <= 0x2792
    || 0x10A40 <= n <= 0x10A43 || 0x10E60 <= n <= 0x10E68 || 0x11052 <= n <= 0x1105A
    || 0x1F100 <= n <= 0x1F10A
  }

  /** `str.isdigit()`: non-empty, and every character a decimal digit or one
      of the digits above. */
  predicate PyIsDigit(s: string) {
    |s| > 0 && forall i :: 0 <= i < |s| ==> IsDecimalDigit(s[i]) || IsNonDecimalDigit(s[i])
  }

  /** `if v.isdigit(): int(v)` as written: decimal digits of every script are
      read, and the digits `isdigit()` accepts but `int()` does not (such as
      `²`) pass the guard and make `int()` raise `ValueError`, as does a
      run of more than `MaxStrDigits` digits. */
  function NumberParamAsWritten(raw: Option<string>): (r: Result<Option<nat>, ParamError>)
    ensures r.Err? <==>
      PyIsDigit(Strip(raw.GetOr(""))) && (!IsDecimal(Strip(raw.GetOr(""))) || |Strip(raw.GetOr(""))| > MaxStrDigits)
    ensures r.Ok? ==> r.value == NumberParam(raw)
  {
    var s := Strip(raw.GetOr(""));
    if !PyIsDigit(s) then
      assert !IsDecimal(s);
      Ok(None)
    else if IsDecimal(s) && |s| <= MaxStrDigits then Ok(Some(DigitsValue(s)))
    else Err(ValueError)
  }

  /** `?min_age=²` passes the `isdigit()` guard and makes `int()` raise, where
      the guard was evidently meant to drop it like any other non-number. */
  lemma SuperscriptDigitRaises()
    ensures NumberParamAsWritten(Some("\U{00B2}")) == Err(ValueError)
    ensures NumberParam(Some("\U{00B2}")) == None
  {
    var s := "\U{00B2}";
    assert StripLeft(s) == s && StripRight(s) == s;
    assert !IsDecimal(s);
  }

  /** Decimal digits of other scripts pass the guard and are read by `int()`,
      in the code as written and in the corrected reading alike:
      `?min_age=٣` (ARABIC-INDIC DIGIT THREE) filters by 3. */
  lemma OtherScriptDigitsRead()
    ensures NumberParamAsWritten(Some("\U{0663}")) == Ok(Some(3))
    ensures NumberParam(Some("\U{0663}")) == Some(3)
  {
    var s := "\U{0663}";
    assert StripLeft(s) == s && StripRight(s) == s;
    assert IsDecimal(s);
    assert DigitsValue(s) == 3 by { assert s[..0] == ""; }
  }

  /** A run of 4301 ones passes the `isdigit()` guard and makes `int()` raise
      at its digit limit, where the corrected reading ignores it. */
  lemma LongNumberRaises()
    ensures NumberParamAsWritten(Some(seq(MaxStrDigits + 1, _ => '1'))) == Err(ValueError)
    ensures NumberParam(Some(seq(MaxStrDigits + 1, _ => '1'))) == None
  {
    var s := seq(MaxStrDigits + 1, _ => '1');
    StripOfUnpadded(s);
    assert IsDecimal(s);
  }
}
