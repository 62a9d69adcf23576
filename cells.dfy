/**
 * Spreadsheet cells and the scalar coercions the pipeline applies to them:
 * JavaScript's `String`, `Number`, `parseInt`, truthiness, and the helpers
 * `num` and `str` of web-app/src/logic/allSteps.ts, plus pandas' `to_numeric`.
 * Characters are handled as ASCII: only 'a'..'z' change case.
 */
module Cells {
  import opened Wrappers

  /** A cell as the spreadsheet reader hands it over (empty cells arrive as ""). */
  datatype Cell = Missing | Text(s: string) | Number(n: int)

  // ---------------------------------------------------------------- text

  /** Whose white space is meant: JavaScript's `trim` or Python's `str.strip`. */
  datatype Runtime = Js | Py

  /**
   * White space as `trim` and `Number` skip it: the WhiteSpace and
   * LineTerminator code points of ECMA-262 (tab, line tabulation, form feed,
   * space, no-break space, the byte order mark, the other space separators,
   * LF, CR, U+2028 and U+2029).
   */
  predicate JsSpace(c: char) {
    c == '\t' || c == '\n' || c == '\U{B}' || c == '\U{C}' || c == '\r' || c == ' ' || c == '\U{A0}'
    || c == '\U{1680}' || ('\U{2000}' <= c <= '\U{200A}') || c == '\U{2028}' || c == '\U{2029}'
    || c == '\U{202F}' || c == '\U{205F}' || c == '\U{3000}' || c == '\U{FEFF}'
  }

  /**
   * White space as `str.strip()` removes it (`str.isspace`): the same space
   * separators and line breaks, plus U+001C..U+001F and U+0085, but not the
   * byte order mark.
   */
  predicate PySpace(c: char) {
    ('\t' <= c <= '\r') || ('\U{1C}' <= c <= '\U{1F}') || c == ' ' || c == '\U{85}' || c == '\U{A0}'
    || c == '\U{1680}' || ('\U{2000}' <= c <= '\U{200A}') || c == '\U{2028}' || c == '\U{2029}'
    || c == '\U{202F}' || c == '\U{205F}' || c == '\U{3000}'
  }

  predicate IsSpace(rt: Runtime, c: char) {
    match rt
    case Js => JsSpace(c)
    case Py => PySpace(c)
  }

  /** Printable ASCII other than the space: never white space to either runtime. */
  predicate Visible(c: char) { '!' <= c <= '~' }

  lemma VisibleNotSpace(rt: Runtime, c: char)
    requires Visible(c)
    ensures !IsSpace(rt, c)
  {
  }

  function TrimLeft(rt: Runtime, s: string): (r: string)
    ensures |r| <= |s| && r == s[|s| - |r|..]
    ensures r == [] || !IsSpace(rt, r[0])
    ensures forall i :: 0 <= i < |s| - |r| ==> IsSpace(rt, s[i])
  {
    if s != [] && IsSpace(rt, s[0]) then TrimLeft(rt, s[1..]) else s
  }

  function TrimRight(rt: Runtime, s: string): (r: string)
    ensures |r| <= |s| && r == s[..|r|]
    ensures r == [] || !IsSpace(rt, r[|r| - 1])
    ensures forall i :: |r| <= i < |s| ==> IsSpace(rt, s[i])
  {
    if s != [] && IsSpace(rt, s[|s| - 1]) then TrimRight(rt, s[..|s| - 1]) else s
  }

  /** String.prototype.trim (Js) or str.strip (Py): drop white space at both ends. */
  function Trim(rt: Runtime, s: string): (r: string)
    ensures r == [] || (!IsSpace(rt, r[0]) && !IsSpace(rt, r[|r| - 1]))
  {
    TrimRight(rt, TrimLeft(rt, s))
  }

  function UpperChar(c: char): (u: char)
  {
    if 'a' <= c <= 'z' then (c as int - 'a' as int + 'A' as int) as char else c
  }

  /** toUpperCase / str.upper on ASCII letters. */
  function Upper(s: string): (r: string)
    ensures |r| == |s|
    ensures forall i :: 0 <= i < |s| ==> r[i] == UpperChar(s[i])
  {
    seq(|s|, i requires 0 <= i < |s| => UpperChar(s[i]))
  }

  /** Upper-casing twice is upper-casing once. */
  lemma UpperIdempotent(s: string)
    ensures Upper(Upper(s)) == Upper(s)
  {
    assert forall i :: 0 <= i < |s| ==> UpperChar(UpperChar(s[i])) == UpperChar(s[i]);
  }

  lemma UpperKeepsSpaces(rt: Runtime, c: char)
    ensures IsSpace(rt, UpperChar(c)) <==> IsSpace(rt, c)
  {
  }

  lemma {:induction false} TrimOfTrimmed(rt: Runtime, s: string)
    requires s == [] || (!IsSpace(rt, s[0]) && !IsSpace(rt, s[|s| - 1]))
    ensures Trim(rt, s) == s
  {
  }

  /** Upper-casing text that is already trimmed leaves nothing to trim. */
  lemma UpperTrimmedIsTrimmed(rt: Runtime, s: string)
    ensures Trim(rt, Upper(Trim(rt, s))) == Upper(Trim(rt, s))
  {
    var t := Trim(rt, s);
    var u := Upper(t);
    if u != [] {
      UpperKeepsSpaces(rt, t[0]);
      UpperKeepsSpaces(rt, t[|t| - 1]);
    }
    TrimOfTrimmed(rt, u);
  }

  lemma {:induction false} UpperTrimLeft(rt: Runtime, s: string)
    ensures TrimLeft(rt, Upper(s)) == Upper(TrimLeft(rt, s))
  {
    if s != [] {
      UpperKeepsSpaces(rt, s[0]);
      assert Upper(s)[1..] == Upper(s[1..]);
      UpperTrimLeft(rt, s[1..]);
    }
  }

  lemma {:induction false} UpperTrimRight(rt: Runtime, s: string)
    ensures TrimRight(rt, Upper(s)) == Upper(TrimRight(rt, s))
  {
    if s != [] {
      UpperKeepsSpaces(rt, s[|s| - 1]);
      assert Upper(s)[..|s| - 1] == Upper(s[..|s| - 1]);
      UpperTrimRight(rt, s[..|s| - 1]);
    }
  }

  /** Trimming and upper-casing can be done in either order. */
  lemma UpperTrimCommutes(rt: Runtime, s: string)
    ensures Trim(rt, Upper(s)) == Upper(Trim(rt, s))
  {
    UpperTrimLeft(rt, s);
    UpperTrimRight(rt, TrimLeft(rt, s));
  }

  /** Normalising text that is already trimmed and upper-cased changes nothing. */
  lemma NormalizeTwice(rt: Runtime, s: string)
    ensures Trim(rt, Upper(Upper(Trim(rt, s)))) == Trim(rt, Upper(s))
  {
    UpperTrimCommutes(rt, s);
    UpperIdempotent(Trim(rt, s));
    UpperTrimmedIsTrimmed(rt, s);
  }

  /** Where no character is white space to one runtime and not the other, `trim` and `strip` agree. */
  lemma {:induction false} SameSpacesSameTrim(s: string)
    requires forall i :: 0 <= i < |s| ==> (JsSpace(s[i]) <==> PySpace(s[i]))
    ensures Trim(Js, s) == Trim(Py, s)
  {
    SameSpacesSameTrimLeft(s);
    SameSpacesSameTrimRight(TrimLeft(Js, s));
  }

  lemma {:induction false} SameSpacesSameTrimLeft(s: string)
    requires forall i :: 0 <= i < |s| ==> (JsSpace(s[i]) <==> PySpace(s[i]))
    ensures TrimLeft(Js, s) == TrimLeft(Py, s)
  {
    if s != [] && IsSpace(Js, s[0]) {
      assert IsSpace(Py, s[0]);
      var t := s[1..];
      assert forall i :: 0 <= i < |t| ==> t[i] == s[i + 1];
      SameSpacesSameTrimLeft(t);
    }
  }

  lemma {:induction false} SameSpacesSameTrimRight(s: string)
    requires forall i :: 0 <= i < |s| ==> (JsSpace(s[i]) <==> PySpace(s[i]))
    ensures TrimRight(Js, s) == TrimRight(Py, s)
  {
    if s != [] && IsSpace(Js, s[|s| - 1]) {
      assert IsSpace(Py, s[|s| - 1]);
      var t := s[..|s| - 1];
      assert forall i :: 0 <= i < |t| ==> t[i] == s[i];
      SameSpacesSameTrimRight(t);
    }
  }

  /** The byte order mark is trimmed by JavaScript and kept by Python; U+0085 the other way round. */
  lemma TrimAndStripDiffer()
    ensures Trim(Js, "\U{FEFF}A") == "A" && Trim(Py, "\U{FEFF}A") == "\U{FEFF}A"
    ensures Trim(Js, "A\U{85}") == "A\U{85}" && Trim(Py, "A\U{85}") == "A"
  {
    MarkedText("\U{FEFF}A");
    NextLineDiffers();
  }

  /** Text led by a byte order mark, with visible characters after it and at its end: `trim` drops the mark, `strip` keeps it. */
  lemma MarkedText(m: string)
    requires |m| >= 2 && m[0] == '\U{FEFF}' && Visible(m[1]) && Visible(m[|m| - 1])
    ensures Trim(Js, m) == m[1..]
    ensures Trim(Py, m) == m
  {
    var s := m[1..];
    VisibleNotSpace(Js, s[0]);
    VisibleNotSpace(Js, s[|s| - 1]);
    VisibleNotSpace(Py, m[|m| - 1]);
    assert JsSpace(m[0]) && !PySpace(m[0]);
    assert TrimLeft(Js, m) == s;
    assert TrimRight(Js, s) == s;
    assert TrimLeft(Py, m) == m;
  }

  /** Text whose every character is its own upper case is left alone by upper-casing. */
  lemma UpperFixed(s: string)
    requires forall i :: 0 <= i < |s| ==> UpperChar(s[i]) == s[i]
    ensures Upper(s) == s
  {
  }

  lemma NextLineDiffers()
    ensures Trim(Js, "A\U{85}") == "A\U{85}" && Trim(Py, "A\U{85}") == "A"
  {
    VisibleNotSpace(Js, 'A');
    VisibleNotSpace(Py, 'A');
    var next := "A\U{85}";
    assert next[..1] == "A";
    assert TrimLeft(Js, next) == next;
    assert TrimLeft(Py, next) == next;
    assert TrimRight(Py, next) == "A";
  }

  /** Upper-case letters and digits only. */
  predicate Plain(s: string) {
    forall i :: 0 <= i < |s| ==> ('A' <= s[i] <= 'Z') || ('0' <= s[i] <= '9')
  }

  /** Plain text is left alone by upper-casing and trimming. */
  lemma PlainFixed(s: string)
    requires Plain(s)
    ensures Upper(s) == s && Trim(Js, s) == s && Trim(Py, s) == s
  {
    if s != [] {
      TrimOfTrimmed(Js, s);
      TrimOfTrimmed(Py, s);
    }
  }

  // ------------------------------------------------------------ numbers

  predicate IsDigit(c: char) { '0' <= c <= '9' }

  predicate AllDigits(s: string) { forall i :: 0 <= i < |s| ==> IsDigit(s[i]) }

  function DigitChar(d: nat): (c: char)
    requires d < 10
    ensures IsDigit(c) && c as int - '0' as int == d
  {
    ('0' as int + d) as char
  }

  /** Value of a run of decimal digits. */
  function DigitsValue(s: string): (v: nat)
    requires AllDigits(s)
  {
    if s == [] then 0 else DigitsValue(s[..|s| - 1]) * 10 + (s[|s| - 1] as int - '0' as int)
  }

  /** Decimal text of a natural number, as JavaScript's String(n) writes it. */
  function NatToString(n: nat): (s: string)
    ensures |s| > 0 && AllDigits(s)
    ensures s[0] != '0' || |s| == 1
    decreases n
  {
    if n < 10 then [DigitChar(n)] else NatToString(n / 10) + [DigitChar(n % 10)]
  }

  function IntToString(i: int): (s: string)
    ensures |s| > 0 && Visible(s[0]) && Visible(s[|s| - 1])
  {
    if i < 0 then "-" + NatToString(-i) else NatToString(i)
  }

  lemma {:induction false} NatToStringRoundTrip(n: nat)
    ensures DigitsValue(NatToString(n)) == n
    decreases n
  {
    var s := NatToString(n);
    if n >= 10 {
      NatToStringRoundTrip(n / 10);
      assert s[..|s| - 1] == NatToString(n / 10);
    }
  }

  /**
   * Number(text) when the result is a finite integer: trimmed text that is
   * empty gives 0, an optionally signed run of digits gives its value, any
   * other text gives NaN (None).
   */
  function ParseNumber(rt: Runtime, s: string): (r: Option<int>)
    ensures Trim(rt, s) == [] ==> r == Some(0)
  {
    var t := Trim(rt, s);
    if t == [] then Some(0)
    else if (t[0] == '-' || t[0] == '+') && |t| > 1 && AllDigits(t[1..]) then
      Some(if t[0] == '-' then -(DigitsValue(t[1..]) as int) else DigitsValue(t[1..]) as int)
    else if AllDigits(t) then Some(DigitsValue(t))
    else None
  }

  /** `num` (allSteps.ts): Number(v), with 0 for anything that is not finite. */
  function Num(c: Cell): (r: int)
    ensures c.Number? ==> r == c.n
    ensures c.Missing? ==> r == 0
    ensures c.Text? && ParseNumber(Js, c.s).None? ==> r == 0
  {
    match c
    case Missing => 0                       // Number(undefined) is NaN
    case Number(n) => n
    case Text(s) => ParseNumber(Js, s).GetOr(0)
  }

  /** `num` and `String` are inverse on integers: a rank or priority written out as text reads back unchanged. */
  lemma NumOfIntText(i: int)
    ensures Num(Text(IntToString(i))) == i
  {
    var s := IntToString(i);
    VisibleNotSpace(Js, s[0]);
    VisibleNotSpace(Js, s[|s| - 1]);
    TrimOfTrimmed(Js, s);
    if i < 0 {
      NatToStringRoundTrip(-i);
      assert s[1..] == NatToString(-i);
    } else {
      NatToStringRoundTrip(i);
    }
  }

  /** JavaScript's String(v). */
  function JsString(c: Cell): string
  {
    match c
    case Missing => "undefined"
    case Text(s) => s
    case Number(n) => IntToString(n)
  }

  /** `str` (allSteps.ts): "" for null or undefined, otherwise String(v) trimmed. */
  function Str(c: Cell): (r: string)
    ensures r == [] || (!IsSpace(Js, r[0]) && !IsSpace(Js, r[|r| - 1]))
    ensures c.Missing? ==> r == ""
    ensures c.Number? ==> r == IntToString(c.n)
  {
    match c
    case Missing => ""
    case Text(s) => Trim(Js, s)
    case Number(n) => IntToString(n)
  }

  /** JavaScript falsiness of a cell: undefined, "" and 0. */
  predicate Falsy(c: Cell) {
    c == Missing || c == Text("") || c == Number(0)
  }

  /**
   * parseInt(text, 10): skip leading white space, read an optional sign and
   * the longest run of digits; no digits gives NaN (None).
   */
  function ParseIntPrefix(s: string): (r: Option<int>)
    ensures TrimLeft(Js, s) != [] && AllDigits(TrimLeft(Js, s)) ==> r == Some(DigitsValue(TrimLeft(Js, s)))
  {
    var t := TrimLeft(Js, s);
    var neg := t != [] && t[0] == '-';
    var body := if t != [] && (t[0] == '-' || t[0] == '+') then t[1..] else t;
    var k := DigitRun(body);
    assert AllDigits(t) ==> body == t && k == |t| && body[..k] == t by {
      if AllDigits(t) { DigitRunAll(t); }
    }
    if k == 0 then None
    else Some(if neg then -(DigitsValue(body[..k]) as int) else DigitsValue(body[..k]))
  }

  /** Length of the run of digits at the start of s. */
  function DigitRun(s: string): (k: nat)
    ensures k <= |s| && AllDigits(s[..k])
    ensures k < |s| ==> !IsDigit(s[k])
  {
    if s == [] || !IsDigit(s[0]) then 0
    else
      var k := 1 + DigitRun(s[1..]);
      assert s[..k] == [s[0]] + s[1..][..k - 1];
      k
  }

  /** parseInt(String(v), 10) for the cells the reader produces. */
  function ParseIntCell(c: Cell): (r: Option<int>)
    ensures c.Number? && c.n >= 0 ==> r == Some(c.n)
  {
    match c
    case Missing => None                  // parseInt("undefined") is NaN
    case Text(s) => ParseIntPrefix(s)
    case Number(n) => ParseIntNumber(n)
  }

  function ParseIntNumber(n: int): (r: Option<int>)
    ensures n >= 0 ==> r == Some(n)
  {
    var s := IntToString(n);
    VisibleNotSpace(Js, s[0]);
    assert TrimLeft(Js, s) == s;
    if n >= 0 then
      NatToStringRoundTrip(n);
      assert DigitRun(s) == |s| by { DigitRunAll(s); }
      assert s[..|s|] == s;
      ParseIntPrefix(s)
    else ParseIntPrefix(s)
  }

  lemma {:induction false} DigitRunAll(s: string)
    requires AllDigits(s)
    ensures DigitRun(s) == |s|
  {
    if s != [] { DigitRunAll(s[1..]); }
  }

  /** pandas to_numeric(errors="coerce"): NaN (None) for missing or non-numeric cells. */
  function PyNumeric(c: Cell): (r: Option<int>)
    ensures c.Number? ==> r == Some(c.n)
    ensures c.Missing? ==> r == None
  {
    match c
    case Missing => None
    case Number(n) => Some(n)
    case Text(s) => if Trim(Py, s) == [] then None else ParseNumber(Py, s)
  }

  /** Python's str(v) after astype(str): NaN prints as "nan". */
  function PyString(c: Cell): string
  {
    match c
    case Missing => "nan"
    case Text(s) => s
    case Number(n) => IntToString(n)
  }
}
