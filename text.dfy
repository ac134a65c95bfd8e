/** The few pieces of Rust's `str` API and of SQLite's integer-to-text
    conversion that the repository code depends on: `split(',')`, `trim`,
    `parse::<i64>()`, and the decimal text SQLite produces for `t.id || ','`. */
module Text {
  import opened Wrappers

  const I64_MIN: int := -0x8000_0000_0000_0000
  const I64_MAX: int := 0x7FFF_FFFF_FFFF_FFFF

  predicate InI64(n: int) { I64_MIN <= n <= I64_MAX }

  predicate IsDigit(c: char) { '0' <= c <= '9' }

  predicate AllDigits(s: string) { forall i :: 0 <= i < |s| ==> IsDigit(s[i]) }

  function DigitChar(d: nat): (c: char)
    requires d < 10
    ensures IsDigit(c) && c as int - '0' as int == d
  {
    ('0' as int + d) as char
  }

  /** Decimal digits of a natural number, most significant first, no leading zeros. */
  function NatToDecimal(n: nat): (s: string)
    ensures |s| >= 1 && AllDigits(s)
    ensures n >= 10 ==> s[0] != '0'
  {
    if n < 10 then [DigitChar(n)] else NatToDecimal(n / 10) + [DigitChar(n % 10)]
  }

  /** SQLite's rendering of an INTEGER as TEXT: an optional minus sign, then the digits. */
  function IntToDecimal(n: int): (s: string)
    ensures |s| >= 1
  {
    if n < 0 then "-" + NatToDecimal(-n) else NatToDecimal(n)
  }

  /** The value of a string of decimal digits, read left to right. */
  function DigitsValue(s: string): nat
    requires AllDigits(s)
  {
    if s == [] then 0 else DigitsValue(s[..|s| - 1]) * 10 + (s[|s| - 1] as int - '0' as int)
  }

  lemma {:induction false} DigitsValueOfDecimal(n: nat)
    ensures DigitsValue(NatToDecimal(n)) == n
  {
    if n >= 10 {
      var s := NatToDecimal(n);
      assert s[..|s| - 1] == NatToDecimal(n / 10);
      DigitsValueOfDecimal(n / 10);
    }
  }

  /** `str::parse::<i64>()`: an optional `+` or `-`, then at least one ASCII
      digit and nothing else, and a value that fits in 64 signed bits. */
  function ParseI64(s: string): (r: Option<int>)
    ensures r.Some? ==> InI64(r.value)
    ensures r.Some? ==> |s| >= 1
  {
    var negative := |s| > 0 && s[0] == '-';
    var digits := if |s| > 0 && (s[0] == '-' || s[0] == '+') then s[1..] else s;
    if |digits| == 0 || !AllDigits(digits) then None
    else
      var v := if negative then 0 - DigitsValue(digits) as int else DigitsValue(digits) as int;
      if InI64(v) then Some(v) else None
  }

  /** What SQLite writes for an id is what Rust reads back. */
  lemma ParseI64OfDecimal(n: int)
    requires InI64(n)
    ensures ParseI64(IntToDecimal(n)) == Some(n)
  {
    var m: nat := if n < 0 then -n else n;
    var d := NatToDecimal(m);
    DigitsValueOfDecimal(m);
    assert IsDigit(d[0]);
    if n < 0 {
      assert IntToDecimal(n)[1..] == d;
    } else {
      assert IntToDecimal(n) == d;
    }
  }

  /** `char::is_whitespace`: the Unicode White_Space property. */
  predicate IsWhitespace(c: char) {
    var n := c as int;
    (9 <= n <= 13) || n == 32 || n == 0x85 || n == 0xA0 || n == 0x1680
    || (0x2000 <= n <= 0x200A) || n == 0x2028 || n == 0x2029 || n == 0x202F
    || n == 0x205F || n == 0x3000
  }

  /** `str::trim_start`: the input minus its leading whitespace. */
  function TrimStart(s: string): (r: string)
    ensures |r| <= |s|
    ensures r != [] ==> !IsWhitespace(r[0])
  {
    if s != [] && IsWhitespace(s[0]) then TrimStart(s[1..]) else s
  }

  /** `str::trim_end`: the input minus its trailing whitespace. */
  function TrimEnd(s: string): (r: string)
    ensures |r| <= |s|
    ensures r != [] ==> !IsWhitespace(r[|r| - 1])
  {
    if s != [] && IsWhitespace(s[|s| - 1]) then TrimEnd(s[..|s| - 1]) else s
  }

  /** `trim_start` drops exactly the leading whitespace: the result is a
      suffix of the input and everything before it is whitespace. */
  lemma {:induction false} TrimStartExact(s: string)
    ensures TrimStart(s) == s[|s| - |TrimStart(s)|..]
    ensures forall i :: 0 <= i < |s| - |TrimStart(s)| ==> IsWhitespace(s[i])
  {
    if s != [] && IsWhitespace(s[0]) {
      TrimStartExact(s[1..]);
    }
  }

  /** `trim_end` drops exactly the trailing whitespace: the result is a
      prefix of the input and everything after it is whitespace. */
  lemma {:induction false} TrimEndExact(s: string)
    ensures TrimEnd(s) == s[..|TrimEnd(s)|]
    ensures forall i :: |TrimEnd(s)| <= i < |s| ==> IsWhitespace(s[i])
  {
    if s != [] && IsWhitespace(s[|s| - 1]) {
      TrimEndExact(s[..|s| - 1]);
    }
  }

  /** `str::trim`. */
  function Trim(s: string): string {
    TrimEnd(TrimStart(s))
  }

  /** `str::trim` removes exactly the leading and trailing whitespace: the
      result is a slice `s[a..b]` whose outside is all whitespace and whose
      ends are not. */
  lemma TrimSlice(s: string)
    ensures exists a, b ::
              && 0 <= a <= b <= |s| && Trim(s) == s[a..b]
              && (forall i :: 0 <= i < a ==> IsWhitespace(s[i]))
              && (forall i :: b <= i < |s| ==> IsWhitespace(s[i]))
    ensures Trim(s) != [] ==> !IsWhitespace(Trim(s)[0]) && !IsWhitespace(Trim(s)[|Trim(s)| - 1])
  {
    var t := TrimStart(s);
    TrimStartExact(s);
    var r := TrimEnd(t);
    TrimEndExact(t);
    var a := |s| - |t|;
    var b := a + |r|;
    assert r == s[a..b];
    assert forall i :: 0 <= i < a ==> IsWhitespace(s[i]);
    assert forall i :: b <= i < |s| ==> IsWhitespace(s[i]) by {
      forall i | b <= i < |s| ensures IsWhitespace(s[i]) {
        assert s[i] == t[i - a];
      }
    }
  }

  lemma TrimDecimal(n: int)
    ensures Trim(IntToDecimal(n)) == IntToDecimal(n)
  {
    var s := IntToDecimal(n);
    assert !IsWhitespace(s[0]);
    assert !IsWhitespace(s[|s| - 1]);
  }

  predicate NoComma(s: string) { ',' !in s }

  /** `str::split(',')`: n separators give n + 1 pieces, so `""` gives `[""]`. */
  function Split(s: string): (r: seq<string>)
    ensures |r| >= 1
  {
    if s == [] then [""]
    else
      var rest := Split(s[1..]);
      if s[0] == ',' then [""] + rest else [[s[0]] + rest[0]] + rest[1..]
  }

  /** Pieces joined with `,` between them (SQLite's `group_concat` separator). */
  function Join(xs: seq<string>): string
    requires |xs| >= 1
  {
    if |xs| == 1 then xs[0] else xs[0] + "," + Join(xs[1..])
  }

  lemma {:induction false} SplitWord(w: string)
    requires NoComma(w)
    ensures Split(w) == [w]
  {
    if w != [] {
      SplitWord(w[1..]);
      assert [w[0]] + w[1..] == w;
    }
  }

  lemma {:induction false} SplitAfterWord(w: string, t: string)
    requires NoComma(w)
    ensures Split(w + "," + t) == [w] + Split(t)
  {
    if w == [] {
      assert (w + "," + t)[1..] == t;
    } else {
      assert (w + "," + t)[1..] == w[1..] + "," + t;
      SplitAfterWord(w[1..], t);
      assert [w[0]] + w[1..] == w;
    }
  }

  /** Splitting undoes joining as long as no piece holds a comma. */
  lemma {:induction false} SplitJoin(xs: seq<string>)
    requires |xs| >= 1
    requires forall i :: 0 <= i < |xs| ==> NoComma(xs[i])
    ensures Split(Join(xs)) == xs
  {
    if |xs| == 1 {
      SplitWord(xs[0]);
    } else {
      SplitAfterWord(xs[0], Join(xs[1..]));
      SplitJoin(xs[1..]);
    }
  }

  lemma DecimalHasNoComma(n: int)
    ensures NoComma(IntToDecimal(n))
  {
    var s := IntToDecimal(n);
    assert forall i :: 0 <= i < |s| ==> s[i] == '-' || IsDigit(s[i]);
  }
}
