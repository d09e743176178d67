/** Numbers as the slides' JavaScript sees them: the unary plus that turns a CSV
    field into a number, and d3.sum, which adds the numbers of an array while
    skipping NaN. */
module JsNumber {

  /** A JavaScript number. NaN and the two infinities are merged into NonFinite.
      d3.sum and d3.extent skip NaN but would keep an infinity; no CSV text the
      model reads as a number gives one, since unary plus is modelled on plain
      decimal literals only. */
  datatype Num = Finite(value: real) | NonFinite

  predicate IsDigit(c: char) { '0' <= c <= '9' }

  /** The white space and line terminators that unary plus strips around a
      numeric string: tab, line feed, vertical tab, form feed, carriage return,
      the space separators, the byte order mark and the line and paragraph
      separators. */
  predicate IsSpace(c: char)
  {
    c == '\t' || c == '\n' || c == '\U{B}' || c == '\U{C}' || c == '\r' || c == ' '
    || c == '\U{A0}' || c == '\U{1680}' || '\U{2000}' <= c <= '\U{200A}'
    || c == '\U{2028}' || c == '\U{2029}' || c == '\U{202F}' || c == '\U{205F}'
    || c == '\U{3000}' || c == '\U{FEFF}'
  }

  predicate AllDigits(s: string) { forall i :: 0 <= i < |s| ==> IsDigit(s[i]) }

  function DigitValue(c: char): nat
    requires IsDigit(c)
  {
    (c as int) - ('0' as int)
  }

  /** The value of a run of decimal digits, most significant digit first. */
  function DigitsValue(ds: string): nat
    requires AllDigits(ds)
  {
    if ds == [] then 0 else DigitsValue(ds[..|ds| - 1]) * 10 + DigitValue(ds[|ds| - 1])
  }

  function Pow10(k: nat): (r: nat)
    ensures r >= 1
  {
    if k == 0 then 1 else 10 * Pow10(k - 1)
  }

  /** Length of the run of digits that starts the string. */
  function DigitPrefix(s: string): (n: nat)
    ensures n <= |s|
    ensures AllDigits(s[..n])
    ensures n < |s| ==> !IsDigit(s[n])
  {
    if s == [] || !IsDigit(s[0]) then 0
    else
      var n := 1 + DigitPrefix(s[1..]);
      assert s[..n] == [s[0]] + s[1..][..n - 1];
      n
  }

  function TrimStart(s: string): string
  {
    if s != [] && IsSpace(s[0]) then TrimStart(s[1..]) else s
  }

  function TrimEnd(s: string): string
  {
    if s != [] && IsSpace(s[|s| - 1]) then TrimEnd(s[..|s| - 1]) else s
  }

  function Trim(s: string): string { TrimEnd(TrimStart(s)) }

  function Negate(n: Num): Num
  {
    match n
    case Finite(v) => Finite(-v)
    case NonFinite => NonFinite
  }

  /** A decimal literal without sign: digits with an optional fraction, at least
      one digit in all (`12`, `12.5`, `12.`, `.5`). Anything else is NaN. */
  function UnsignedDecimal(b: string): Num
  {
    var i := DigitPrefix(b);
    if i == |b| then
      if i == 0 then NonFinite else Finite(DigitsValue(b) as real)
    else if b[i] == '.' && AllDigits(b[i + 1..]) && (i > 0 || i + 1 < |b|) then
      Finite(DigitsValue(b[..i]) as real + DigitsValue(b[i + 1..]) as real / Pow10(|b| - i - 1) as real)
    else
      NonFinite
  }

  /** Unary plus applied to a string (`+d.count`): surrounding white space is
      ignored, an empty string is 0, a signed decimal literal is its value. */
  function ToNumber(s: string): Num
  {
    var t := Trim(s);
    if t == [] then Finite(0.0)
    else if t[0] == '-' then Negate(UnsignedDecimal(t[1..]))
    else if t[0] == '+' then UnsignedDecimal(t[1..])
    else UnsignedDecimal(t)
  }

  /** d3.sum: the sum of the finite numbers, NaN skipped; 0 for no numbers. */
  function Sum(xs: seq<Num>): real
  {
    if xs == [] then 0.0
    else (if xs[0].Finite? then xs[0].value else 0.0) + Sum(xs[1..])
  }

  lemma {:induction false} SumConcat(a: seq<Num>, b: seq<Num>)
    ensures Sum(a + b) == Sum(a) + Sum(b)
  {
    if a == [] {
      assert a + b == b;
    } else {
      assert (a + b)[0] == a[0] && (a + b)[1..] == a[1..] + b;
      SumConcat(a[1..], b);
    }
  }

  // ----- decimal rendering, the inverse that the CSV files were written with -----

  function DigitChar(d: nat): (c: char)
    requires d < 10
    ensures IsDigit(c) && DigitValue(c) == d
  {
    ('0' as int + d) as char
  }

  /** The decimal digits of a natural number, as a CSV writer prints it. */
  function Digits(n: nat): (s: string)
    ensures |s| >= 1 && AllDigits(s)
  {
    if n < 10 then [DigitChar(n)] else Digits(n / 10) + [DigitChar(n % 10)]
  }

  /** The decimal rendering of an integer. */
  function Decimal(n: int): string
  {
    if n < 0 then "-" + Digits(-n) else Digits(n)
  }

  lemma {:induction false} DigitsValueOfDigits(n: nat)
    ensures DigitsValue(Digits(n)) == n
  {
    if n >= 10 {
      var s := Digits(n);
      assert s[..|s| - 1] == Digits(n / 10);
      DigitsValueOfDigits(n / 10);
    }
  }

  lemma {:induction false} DigitPrefixOfDigits(s: string)
    requires AllDigits(s)
    ensures DigitPrefix(s) == |s|
  {
    if s != [] {
      DigitPrefixOfDigits(s[1..]);
    }
  }

  /** Unary plus reads back exactly the integer that was written in decimal. */
  lemma ToNumberOfDecimal(n: int)
    ensures ToNumber(Decimal(n)) == Finite(n as real)
  {
    var m: nat := if n < 0 then -n else n;
    var ds := Digits(m);
    UnsignedDecimalOfDigits(m);
    TrimOfDecimal(n);
    var s := Decimal(n);
    if n < 0 {
      assert s[0] == '-' && s[1..] == ds;
      assert ToNumber(s) == Negate(UnsignedDecimal(ds));
    } else {
      assert s == ds && s[0] != '-' && s[0] != '+';
      assert ToNumber(s) == UnsignedDecimal(ds);
    }
  }

  lemma UnsignedDecimalOfDigits(m: nat)
    ensures UnsignedDecimal(Digits(m)) == Finite(m as real)
  {
    DigitsValueOfDigits(m);
    DigitPrefixOfDigits(Digits(m));
  }

  /** A decimal rendering has no surrounding white space. */
  lemma TrimOfDecimal(n: int)
    ensures Trim(Decimal(n)) == Decimal(n)
  {
    var s := Decimal(n);
    var ds := Digits(if n < 0 then -n else n);
    assert s[|s| - 1] == ds[|ds| - 1];
    assert !IsSpace(s[0]);
    assert TrimStart(s) == s;
  }

  /** Blank fields read as 0, which is what d3.csv gives for an empty cell. */
  lemma {:induction false} ToNumberOfBlank(s: string)
    requires forall i :: 0 <= i < |s| ==> IsSpace(s[i])
    ensures ToNumber(s) == Finite(0.0)
  {
    TrimStartOfBlank(s);
  }

  lemma {:induction false} TrimStartOfBlank(s: string)
    requires forall i :: 0 <= i < |s| ==> IsSpace(s[i])
    ensures TrimStart(s) == []
  {
    if s != [] {
      TrimStartOfBlank(s[1..]);
    }
  }

  predicate AllSpace(s: string) { forall i :: 0 <= i < |s| ==> IsSpace(s[i]) }

  /** White space around a decimal integer, of any of the kinds JavaScript
      trims, does not change what unary plus reads. */
  lemma ToNumberOfPaddedDecimal(before: string, n: int, after: string)
    requires AllSpace(before) && AllSpace(after)
    ensures ToNumber(before + Decimal(n) + after) == Finite(n as real)
  {
    var d := Decimal(n);
    var ds := Digits(if n < 0 then -n else n);
    assert d[|d| - 1] == ds[|ds| - 1];
    assert d != [] && !IsSpace(d[0]) && !IsSpace(d[|d| - 1]);
    assert before + d + after == before + (d + after);
    TrimStartSkips(before, d + after);
    assert TrimStart(d + after) == d + after by {
      assert (d + after)[0] == d[0];
    }
    TrimEndSkips(d, after);
    assert TrimEnd(d) == d;
    assert Trim(before + d + after) == d;
    TrimOfDecimal(n);
    ToNumberOfDecimal(n);
  }

  lemma {:induction false} TrimStartSkips(w: string, t: string)
    requires AllSpace(w)
    ensures TrimStart(w + t) == TrimStart(t)
  {
    if w != [] {
      assert (w + t)[0] == w[0] && (w + t)[1..] == w[1..] + t;
      TrimStartSkips(w[1..], t);
    } else {
      assert w + t == t;
    }
  }

  lemma {:induction false} TrimEndSkips(t: string, w: string)
    requires AllSpace(w)
    ensures TrimEnd(t + w) == TrimEnd(t)
    decreases |w|
  {
    if w != [] {
      var s := t + w;
      assert s[|s| - 1] == w[|w| - 1];
      assert s[..|s| - 1] == t + w[..|w| - 1];
      TrimEndSkips(t, w[..|w| - 1]);
    } else {
      assert t + w == t;
    }
  }
}
