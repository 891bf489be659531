/**
 * The parsed command line as the settings mapping sees it, and the rule by
 * which `ArgParser::parse` turns a named value into a typed one: the parsed
 * value when the argument is present and reads as the target type, else the
 * fallback the caller supplies. Only the textual forms of integers and plain
 * decimals are read.
 */
module Args {
  import opened Wrappers
  import opened Ints

  /** What the command-line parser matched for one (sub)command. */
  datatype Matches = Matches(values: map<string, seq<string>>, flags: set<string>) {

    /** `is_present`: the argument was given, with or without values. */
    predicate IsPresent(key: string) {
      key in values || key in flags
    }

    /** `value_of`: the first value given for `key`. */
    function ValueOf(key: string): Option<string> {
      if key in values && |values[key]| > 0 then Some(values[key][0]) else None
    }

    /** `values_of`: every value given for `key`, in command-line order. */
    function ValuesOf(key: string): Option<seq<string>> {
      if key in values then Some(values[key]) else None
    }
  }

  /** A parser over the matches of a subcommand, or over nothing at all. */
  datatype ArgParser = ArgParser(args: Option<Matches>)

  predicate IsDigit(c: char) { '0' <= c <= '9' }

  predicate AllDigits(s: string) {
    forall i :: 0 <= i < |s| ==> IsDigit(s[i])
  }

  function DigitValue(c: char): nat
    requires IsDigit(c)
  {
    c as int - '0' as int
  }

  /** The number a run of decimal digits denotes. */
  function DigitsValue(s: string): nat
    requires AllDigits(s)
  {
    if s == [] then 0 else DigitsValue(s[..|s| - 1]) * 10 + DigitValue(s[|s| - 1])
  }

  /** The decimal digits of `n`, most significant first, without leading zeros. */
  function Show(n: nat): (s: string)
    ensures |s| > 0 && AllDigits(s)
  {
    if n < 10 then [('0' as int + n) as char] else Show(n / 10) + [('0' as int + n % 10) as char]
  }

  function Pow10(k: nat): (p: nat)
    ensures p >= 1
  {
    if k == 0 then 1 else 10 * Pow10(k - 1)
  }

  /** Text an unsigned Rust integer type reads: an optional `+`, then at least one digit. */
  function ReadUnsigned(s: string): Option<nat> {
    var t := if |s| > 0 && s[0] == '+' then s[1..] else s;
    if |t| > 0 && AllDigits(t) then Some(DigitsValue(t)) else None
  }

  /** Text a signed Rust integer type reads: `-` and digits, or what an unsigned type reads. */
  function ReadSigned(s: string): Option<int> {
    if |s| > 0 && s[0] == '-' then
      if |s| > 1 && AllDigits(s[1..]) then Some(-(DigitsValue(s[1..]) as int)) else None
    else
      match ReadUnsigned(s)
      case Some(n) => Some(n)
      case None => None
  }

  /** Index of the first `c` in `s`, or `|s|` when there is none. */
  function IndexOf(s: string, c: char): (k: nat)
    ensures k <= |s|
    ensures forall i :: 0 <= i < k ==> s[i] != c
    ensures k < |s| ==> s[k] == c
  {
    if s == [] then 0 else if s[0] == c then 0 else 1 + IndexOf(s[1..], c)
  }

  /** Text a float type reads, limited to an optional sign and digits around at most one `.`. */
  function ReadDecimal(s: string): (r: Option<real>)
    ensures s == [] ==> r.None?
  {
    var sign := SplitSign(s);
    match ReadMagnitude(sign.1)
    case Some(magnitude) => Some(if sign.0 then -magnitude else magnitude)
    case None => None
  }

  /** An optional leading `-` or `+` taken off: whether it was `-`, and the text after it. */
  function SplitSign(s: string): (r: (bool, string))
    ensures r.0 <==> |s| > 0 && s[0] == '-'
    ensures |s| > 0 && (s[0] == '-' || s[0] == '+') ==> r.1 == s[1..]
    ensures |s| > 0 && s[0] != '-' && s[0] != '+' ==> r.1 == s
    ensures s == [] ==> r.1 == []
  {
    if |s| > 0 && (s[0] == '-' || s[0] == '+') then (s[0] == '-', s[1..]) else (false, s)
  }

  /** The unsigned part of a decimal: digits around at most one `.`, not all of them empty. */
  function ReadMagnitude(t: string): (r: Option<real>)
    ensures t == [] ==> r.None?
  {
    var k := IndexOf(t, '.');
    SplitMagnitude(t[..k], if k < |t| then t[k + 1..] else [])
  }

  /** The magnitude spelled by the digits before the `.` and those after it. */
  function SplitMagnitude(whole: string, fraction: string): (r: Option<real>)
    ensures r.Some? <==> AllDigits(whole) && AllDigits(fraction) && |whole| + |fraction| > 0
  {
    if AllDigits(whole) && AllDigits(fraction) && |whole| + |fraction| > 0 then
      Some(DecimalValue(whole, fraction))
    else
      None
  }

  /** The value `w + f / 10^|f|` of digits `w` before a point and digits `f` after it. */
  function DecimalValue(w: string, f: string): real
    requires AllDigits(w) && AllDigits(f)
  {
    DigitsValue(w) as real + Shifted(DigitsValue(f) as real, |f|)
  }

  /** `x` moved `k` decimal places to the right of the point. */
  function Shifted(x: real, k: nat): real {
    if k == 0 then x else Shifted(x, k - 1) / 10.0
  }

  /** The value of `w.f` is `w + f / 10^|f|`. */
  lemma DecimalValueIsFraction(w: string, f: string)
    requires AllDigits(w) && AllDigits(f)
    ensures DecimalValue(w, f) == DigitsValue(w) as real + DigitsValue(f) as real / Pow10(|f|) as real
  {
    ShiftedIsQuotient(DigitsValue(f) as real, |f|);
  }

  lemma {:induction false} ShiftedIsQuotient(x: real, k: nat)
    ensures Shifted(x, k) == x / Pow10(k) as real
  {
    if k > 0 {
      ShiftedIsQuotient(x, k - 1);
      assert Pow10(k) as real == 10.0 * Pow10(k - 1) as real;
    }
  }

  /** Digits `w`, a `.` and digits `f`, not both empty, make the magnitude `w + f / 10^|f|`. */
  lemma MagnitudeDigits(w: string, f: string)
    requires AllDigits(w) && AllDigits(f) && |w| + |f| > 0
    ensures ReadMagnitude(w + "." + f) == Some(DecimalValue(w, f))
  {
    SplitsAtPoint(w, f);
  }

  /** The first `.` of `w + "." + f`, when `w` has none, splits it back into `w` and `f`. */
  lemma SplitsAtPoint(w: string, f: string)
    requires AllDigits(w)
    ensures ReadMagnitude(w + "." + f) == SplitMagnitude(w, f)
  {
    var t := w + "." + f;
    assert IndexOf(t, '.') == |w| by {
      assert t[|w|] == '.';
    }
    assert t[..|w|] == w && t[|w| + 1..] == f;
  }

  /**
   * Digits `w`, a `.` and digits `f` (not both empty) read as `w + f / 10^|f|`,
   * and with a leading `-` as its negation.
   */
  lemma ReadDecimalDigits(w: string, f: string)
    requires AllDigits(w) && AllDigits(f) && |w| + |f| > 0
    ensures ReadDecimal(w + "." + f) == Some(DecimalValue(w, f))
    ensures ReadDecimal("-" + (w + "." + f)) == Some(-DecimalValue(w, f))
  {
    PointDecimal(w, f);
    NegatedPointDecimal(w, f);
  }

  lemma PointDecimal(w: string, f: string)
    requires AllDigits(w) && AllDigits(f) && |w| + |f| > 0
    ensures ReadDecimal(w + "." + f) == Some(DecimalValue(w, f))
  {
    var t := w + "." + f;
    MagnitudeDigits(w, f);
    assert t[0] != '-' && t[0] != '+' by {
      if w != [] {
        assert t[0] == w[0];
      }
    }
    UnsignedDecimal(t, DecimalValue(w, f));
  }

  lemma NegatedPointDecimal(w: string, f: string)
    requires AllDigits(w) && AllDigits(f) && |w| + |f| > 0
    ensures ReadDecimal("-" + (w + "." + f)) == Some(-DecimalValue(w, f))
  {
    MagnitudeDigits(w, f);
    NegatedDecimal(w + "." + f, DecimalValue(w, f));
  }

  /** Plain digits read as the integer they spell. */
  lemma ReadPlainDigits(s: string)
    requires s != [] && AllDigits(s)
    ensures ReadDecimal(s) == Some(DigitsValue(s) as real)
  {
    assert IndexOf(s, '.') == |s|;
    assert s[..|s|] == s;
    assert ReadMagnitude(s) == SplitMagnitude(s, []);
    assert DigitsValue([]) == 0;
    UnsignedDecimal(s, DigitsValue(s) as real);
  }

  /** Text without a sign reads as its magnitude. */
  lemma UnsignedDecimal(t: string, v: real)
    requires t != [] && t[0] != '-' && t[0] != '+'
    requires ReadMagnitude(t) == Some(v)
    ensures ReadDecimal(t) == Some(v)
  {
  }

  /** A leading `-` negates a magnitude that reads. */
  lemma NegatedDecimal(t: string, v: real)
    requires ReadMagnitude(t) == Some(v)
    ensures ReadDecimal("-" + t) == Some(-v)
  {
    assert SplitSign("-" + t) == (true, t) by {
      assert ("-" + t)[1..] == t;
    }
  }

  /** Unsigned text whose value fits the type; text out of range does not read. */
  function ReadU8(s: string): (r: Option<int>)
    ensures r.Some? ==> InU8(r.value)
    ensures r.Some? <==> ReadUnsigned(s).Some? && InU8(ReadUnsigned(s).value)
    ensures r.Some? ==> r.value == ReadUnsigned(s).value
  {
    match ReadUnsigned(s)
    case Some(n) => if InU8(n) then Some(n) else None
    case None => None
  }

  /** Unsigned text whose value fits the type; text out of range does not read. */
  function ReadU32(s: string): (r: Option<int>)
    ensures r.Some? ==> InU32(r.value)
    ensures r.Some? <==> ReadUnsigned(s).Some? && InU32(ReadUnsigned(s).value)
    ensures r.Some? ==> r.value == ReadUnsigned(s).value
  {
    match ReadUnsigned(s)
    case Some(n) => if InU32(n) then Some(n) else None
    case None => None
  }

  /** Signed text whose value fits `i32`; text out of range does not read. */
  function ReadI32(s: string): (r: Option<int>)
    ensures r.Some? ==> InI32(r.value)
    ensures r.Some? <==> ReadSigned(s).Some? && InI32(ReadSigned(s).value)
    ensures r.Some? ==> r.value == ReadSigned(s).value
  {
    match ReadSigned(s)
    case Some(n) => if InI32(n) then Some(n) else None
    case None => None
  }

  /** The argument `key` was given and `read` accepts its text. */
  predicate Readable<T>(p: ArgParser, key: string, read: string -> Option<T>) {
    p.args.Some? && p.args.value.ValueOf(key).Some? && read(p.args.value.ValueOf(key).value).Some?
  }

  /** What `read` makes of the text given for `key`. */
  function ReadValue<T>(p: ArgParser, key: string, read: string -> Option<T>): T
    requires Readable(p, key, read)
  {
    read(p.args.value.ValueOf(key).value).value
  }

  /** `ArgParser::parse`: the value of `key` read by `read`, or `fallback` when absent or unreadable. */
  function Parse<T>(p: ArgParser, key: string, read: string -> Option<T>, fallback: T): (r: T)
    ensures Readable(p, key, read) ==> r == ReadValue(p, key, read)
    ensures !Readable(p, key, read) ==> r == fallback
  {
    match p.args
    case None => fallback
    case Some(m) =>
      match m.ValueOf(key)
      case None => fallback
      case Some(text) => read(text).GetOr(fallback)
  }

  lemma {:induction false} DigitsValueAppend(s: string, c: char)
    requires AllDigits(s) && IsDigit(c)
    ensures AllDigits(s + [c]) && DigitsValue(s + [c]) == DigitsValue(s) * 10 + DigitValue(c)
  {
    assert (s + [c])[..|s + [c]| - 1] == s;
  }

  /** Reading back the digits of a number gives that number. */
  lemma {:induction false} ReadShowUnsigned(n: nat)
    ensures ReadUnsigned(Show(n)) == Some(n)
  {
    var s := Show(n);
    if n < 10 {
      assert s == [('0' as int + n) as char];
      assert s[0] != '+' && AllDigits(s);
      assert s[..0] == [];
      assert DigitsValue(s) == DigitsValue([]) * 10 + DigitValue(s[0]);
    } else {
      ReadShowUnsigned(n / 10);
      DigitsValueAppend(Show(n / 10), ('0' as int + n % 10) as char);
    }
  }

  /** A signed reader reads a minus sign followed by the digits of `n` as `-n`. */
  lemma ReadShowSigned(n: int)
    ensures ReadSigned(if n < 0 then "-" + Show(-n) else Show(n)) == Some(n)
  {
    if n < 0 {
      ReadShowUnsigned(-n);
      assert ("-" + Show(-n))[1..] == Show(-n);
    } else {
      ReadShowUnsigned(n);
    }
  }

  /** The digits of `n` read as `u8` exactly when `n` fits; `--quality 300` does not read. */
  lemma ReadU8Digits(n: nat)
    ensures n <= U8_MAX ==> ReadU8(Show(n)) == Some(n)
    ensures U8_MAX < n ==> ReadU8(Show(n)) == None
  {
    ReadShowUnsigned(n);
  }

  /** The digits of `n` read as `u32` exactly when `n` fits. */
  lemma ReadU32Digits(n: nat)
    ensures n <= U32_MAX ==> ReadU32(Show(n)) == Some(n)
    ensures U32_MAX < n ==> ReadU32(Show(n)) == None
  {
    ReadShowUnsigned(n);
  }

  /** The signed text of `n` reads as `i32` exactly when `n` fits. */
  lemma ReadI32Digits(n: int)
    ensures InI32(n) ==> ReadI32(if n < 0 then "-" + Show(-n) else Show(n)) == Some(n)
    ensures !InI32(n) ==> ReadI32(if n < 0 then "-" + Show(-n) else Show(n)) == None
  {
    ReadShowSigned(n);
  }

  /**
   * `parse("repeat", -1) - 1` in `i32`: both settings store one less than
   * the requested repeat count, after falling back to the default -1.
   */
  function StoredRepeat(p: ArgParser): (r: int)
    ensures InI32(r)
    ensures Readable(p, "repeat", ReadI32) && ReadValue(p, "repeat", ReadI32) > I32_MIN ==>
      r == ReadValue(p, "repeat", ReadI32) - 1
    ensures Readable(p, "repeat", ReadI32) && ReadValue(p, "repeat", ReadI32) == I32_MIN ==> r == I32_MAX
    ensures !Readable(p, "repeat", ReadI32) ==> r == -2
  {
    WrapI32(Parse(p, "repeat", ReadI32, -1) - 1)
  }
}
