/** Go runtime behaviour the storage layer relies on: fixed-width integers
    and the int32 conversion, Go's (value, error) returns, panics from failed
    type assertions, strconv's decimal rendering and the string joining the
    query builders perform.  A Go string is modelled as a sequence of chars,
    one char per byte. */
module GoLang {

  newtype Int32 = x: int | -0x8000_0000 <= x < 0x8000_0000
  newtype Int64 = x: int | -0x8000_0000_0000_0000 <= x < 0x8000_0000_0000_0000
  newtype Byte = x: int | 0 <= x < 0x100

  datatype Option<T> = None | Some(value: T)

  /** A Go `(T, error)` return: either a value with a nil error or an error. */
  datatype Result<T> = Ok(value: T) | Err(err: string)

  /** What a call of a function that may panic comes to. */
  datatype Outcome<T> = Done(result: Result<T>) | Panicked

  /** Go's `int32(x)`: keeps the low 32 bits of `x`, read as two's complement. */
  function Narrow32(x: int): (r: Int32)
    ensures (r as int - x) % 0x1_0000_0000 == 0
    ensures -0x8000_0000 <= x < 0x8000_0000 ==> r as int == x
  {
    ((x + 0x8000_0000) % 0x1_0000_0000 - 0x8000_0000) as Int32
  }

  /** Go's `string(b)` for a byte slice: the same bytes, read as a string. */
  function BytesToString(b: seq<Byte>): (s: string)
    ensures |s| == |b|
    ensures forall i :: 0 <= i < |b| ==> s[i] as int == b[i] as int
  {
    seq(|b|, i requires 0 <= i < |b| => b[i] as int as char)
  }

  /** A string every char of which is one byte. */
  predicate IsByteString(s: string)
  {
    forall i :: 0 <= i < |s| ==> s[i] as int < 0x100
  }

  /** Go's `[]byte(s)`. */
  function StringToBytes(s: string): (b: seq<Byte>)
    requires IsByteString(s)
    ensures |b| == |s|
    ensures forall i :: 0 <= i < |s| ==> b[i] as int == s[i] as int
  {
    seq(|s|, i requires 0 <= i < |s| && IsByteString(s) => s[i] as int as Byte)
  }

  lemma BytesStringRoundTrip(b: seq<Byte>)
    ensures IsByteString(BytesToString(b))
    ensures StringToBytes(BytesToString(b)) == b
  {
  }

  // ---------------------------------------------------------------------
  // strconv: decimal rendering of integers and its inverse

  predicate IsDigit(c: char) { '0' <= c <= '9' }

  predicate IsDigits(s: string)
  {
    forall i :: 0 <= i < |s| ==> IsDigit(s[i])
  }

  function DigitChar(d: nat): (c: char)
    requires d < 10
    ensures IsDigit(c) && c as int - '0' as int == d
  {
    ('0' as int + d) as char
  }

  /** The decimal digits of `n` with no leading zero, as `strconv.Itoa` gives them. */
  function Decimal(n: nat): (s: string)
    ensures |s| >= 1
    decreases n
  {
    if n < 10 then [DigitChar(n)] else Decimal(n / 10) + [DigitChar(n % 10)]
  }

  lemma {:induction false} DecimalDigits(n: nat)
    ensures IsDigits(Decimal(n))
    ensures n < 10 <==> |Decimal(n)| == 1
    decreases n
  {
    if n >= 10 {
      DecimalDigits(n / 10);
    }
  }

  /** `strconv.Itoa` / `strconv.FormatInt(i, 10)`. */
  function FormatInt(i: int): (s: string)
    ensures |s| >= 1
  {
    if i < 0 then "-" + Decimal(-i) else Decimal(i)
  }

  /** A rendered number is all digits exactly when it is not negative. */
  lemma FormatIntDigits(i: int)
    ensures i >= 0 <==> IsDigits(FormatInt(i))
    ensures i < 0 <==> FormatInt(i)[0] == '-'
  {
    if i < 0 {
      assert !IsDigit(FormatInt(i)[0]);
    } else {
      DecimalDigits(i);
    }
  }

  /** The number a non-empty run of digits denotes. */
  function DigitsValue(s: string): nat
    requires |s| >= 1 && IsDigits(s)
    decreases |s|
  {
    var last := s[|s| - 1] as int - '0' as int;
    if |s| == 1 then last else DigitsValue(s[..|s| - 1]) * 10 + last
  }

  /** Reads a decimal numeral back (the inverse of `Decimal`). */
  function ParseDecimal(s: string): Option<nat>
  {
    if |s| >= 1 && IsDigits(s) then Some(DigitsValue(s)) else None
  }

  /** Reads an optionally negative decimal numeral back (the inverse of `FormatInt`). */
  function ParseInt(s: string): Option<int>
  {
    if |s| >= 1 && s[0] == '-' then
      match ParseDecimal(s[1..])
      case Some(n) => var v: int := -(n as int); Some(v)
      case None => None
    else
      match ParseDecimal(s)
      case Some(n) => var v: int := n; Some(v)
      case None => None
  }

  lemma {:induction false} DecimalRoundTrip(n: nat)
    ensures ParseDecimal(Decimal(n)) == Some(n)
    decreases n
  {
    DecimalDigits(n);
    if n >= 10 {
      DecimalRoundTrip(n / 10);
      DecimalDigits(n / 10);
      var s := Decimal(n);
      assert s[..|s| - 1] == Decimal(n / 10);
    }
  }

  lemma FormatIntRoundTrip(i: int)
    ensures ParseInt(FormatInt(i)) == Some(i)
  {
    if i < 0 {
      DecimalRoundTrip(-i);
      assert FormatInt(i)[1..] == Decimal(-i);
    } else {
      DecimalRoundTrip(i);
      DecimalDigits(i);
      assert Decimal(i)[0] != '-';
    }
  }

  /** Distinct numbers render to distinct numerals. */
  lemma FormatIntInjective(i: int, j: int)
    requires FormatInt(i) == FormatInt(j)
    ensures i == j
  {
    FormatIntRoundTrip(i);
    FormatIntRoundTrip(j);
  }

  // ---------------------------------------------------------------------
  // strings: the separator joining the builders perform, and its inverse

  /** `xs` with `sep` between consecutive items, built left to right. */
  function Join(xs: seq<string>, sep: string): string
    decreases |xs|
  {
    if |xs| == 0 then ""
    else if |xs| == 1 then xs[0]
    else Join(xs[..|xs| - 1], sep) + sep + xs[|xs| - 1]
  }

  /** The pieces of `s` between occurrences of `c` (`strings.Split`). */
  function Split(s: string, c: char): (parts: seq<string>)
    ensures |parts| >= 1
    decreases |s|
  {
    if |s| == 0 then [""]
    else
      var rest := Split(s[1..], c);
      if s[0] == c then [""] + rest else [[s[0]] + rest[0]] + rest[1..]
  }

  lemma {:induction false} SplitNoSeparator(s: string, c: char)
    requires c !in s
    ensures Split(s, c) == [s]
    decreases |s|
  {
    if |s| > 0 {
      SplitNoSeparator(s[1..], c);
      assert [s[0]] + s[1..] == s;
    }
  }

  lemma {:induction false} SplitAppend(a: string, b: string, c: char)
    ensures Split(a + [c] + b, c) == Split(a, c) + Split(b, c)
    decreases |a|
  {
    var s := a + [c] + b;
    if |a| == 0 {
      assert s[1..] == b;
    } else {
      assert s[0] == a[0];
      assert s[1..] == a[1..] + [c] + b;
      SplitAppend(a[1..], b, c);
    }
  }

  /** Splitting a joined list on its separator gives the list back, when no
      item contains the separator. */
  lemma {:induction false} SplitJoin(xs: seq<string>, c: char)
    requires |xs| >= 1
    requires forall i :: 0 <= i < |xs| ==> c !in xs[i]
    ensures Split(Join(xs, [c]), c) == xs
    decreases |xs|
  {
    if |xs| == 1 {
      SplitNoSeparator(xs[0], c);
    } else {
      var init := xs[..|xs| - 1];
      SplitJoin(init, c);
      SplitAppend(Join(init, [c]), xs[|xs| - 1], c);
      SplitNoSeparator(xs[|xs| - 1], c);
      assert init + [xs[|xs| - 1]] == xs;
    }
  }

  /** Appending one more item to a non-empty list appends `sep` and the item. */
  lemma JoinSnoc(xs: seq<string>, x: string, sep: string)
    requires |xs| >= 1
    ensures Join(xs + [x], sep) == Join(xs, sep) + sep + x
  {
    assert (xs + [x])[..|xs|] == xs;
  }

  /** Length of a joined list: the items plus one separator between each pair. */
  function TotalLength(xs: seq<string>): nat
    decreases |xs|
  {
    if |xs| == 0 then 0 else TotalLength(xs[..|xs| - 1]) + |xs[|xs| - 1]|
  }

  lemma {:induction false} JoinLength(xs: seq<string>, sep: string)
    requires |xs| >= 1
    ensures |Join(xs, sep)| == TotalLength(xs) + (|xs| - 1) * |sep|
    decreases |xs|
  {
    if |xs| > 1 {
      JoinLength(xs[..|xs| - 1], sep);
    } else {
      assert xs[..0] == [];
    }
  }

  predicate EndsWith(s: string, suffix: string)
  {
    |suffix| <= |s| && s[|s| - |suffix|..] == suffix
  }
}
