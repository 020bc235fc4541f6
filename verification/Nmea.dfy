/** NMEA fixed-point numbers: the 'f' case of `minmea_scan` (minmea.c), `minmea_rescale`
    (minmea.h) and the knots-to-km/h conversion of the GPS task (hw_gps.c). */
module Nmea {
  import opened Arithmetic
  import opened Options

  const INT32_MAX := 0x7FFF_FFFF

  /** `Overflows` marks a signed overflow, which C leaves undefined. */
  datatype Outcome = Num(value: int, scale: int) | ParseError | Overflows

  predicate IsField(c: char) { ' ' <= c <= '~' && c != ',' && c != '*' }

  predicate IsDigit(c: char) { '0' <= c <= '9' }

  /** The printing characters but comma and asterisk. */
  lemma FieldChars(c: char)
    ensures IsField(c) <==> 0x20 <= c as int < 0x7F && c as int != 0x2C && c as int != 0x2A
  {}

  // ---- the scan as a function of what has been read ----

  datatype Acc = Acc(sign: int, value: int, scale: int)

  datatype Move = Go(acc: Acc) | Stop | Fail | Overflow

  /** One character of the field. */
  function Step(a: Acc, c: char): Move
  {
    if c == '+' && a.sign == 0 && a.value == -1 then Go(a.(sign := 1))
    else if c == '-' && a.sign == 0 && a.value == -1 then Go(a.(sign := -1))
    else if IsDigit(c) then
      var digit := c as int - '0' as int;
      var value := if a.value == -1 then 0 else a.value;
      if value > (INT32_MAX - digit) / 10 then if a.scale != 0 then Stop else Fail
      else if a.scale * 10 > INT32_MAX then Overflow
      else Go(a.(value := 10 * value + digit, scale := a.scale * 10))
    else if c == '.' && a.scale == 0 then Go(a.(scale := 1))
    else if c == ' ' && a == Acc(0, -1, 0) then Go(a)
    else Fail
  }

  /** The checks after the loop. */
  function Finish(a: Acc): Outcome
  {
    if (a.sign != 0 || a.scale != 0) && a.value == -1 then ParseError
    else if a.value == -1 then Num(0, 0)
    else Num(if a.sign != 0 then a.value * a.sign else a.value, if a.scale == 0 then 1 else a.scale)
  }

  function ScanFrom(a: Acc, s: string): Outcome
    decreases |s|
  {
    if s == [] || !IsField(s[0]) then Finish(a)
    else match Step(a, s[0])
      case Go(b) => ScanFrom(b, s[1..])
      case Stop => Finish(a.(value := if a.value == -1 then 0 else a.value))
      case Fail => ParseError
      case Overflow => Overflows
  }

  function Scan(s: string): Outcome { ScanFrom(Acc(0, -1, 0), s) }

  /** The loop over the field at `field`; None is the null pointer of a missing field. */
  method ScanField(sentence: string, field0: Option<nat>) returns (r: Outcome)
    requires field0.Some? ==> field0.value <= |sentence|
    ensures r == if field0.Some? then Scan(sentence[field0.value..]) else Num(0, 0)
  {
    var sign, value, scale := 0, -1, 0;
    if field0.Some? {
      var field := field0.value;
      while field < |sentence| && IsField(sentence[field])
        invariant field0.value <= field <= |sentence|
        invariant ScanFrom(Acc(sign, value, scale), sentence[field..]) == Scan(sentence[field0.value..])
      {
        var c := sentence[field];
        assert sentence[field..][0] == c && sentence[field..][1..] == sentence[field + 1..];
        if c == '+' && sign == 0 && value == -1 {
          sign := 1;
        } else if c == '-' && sign == 0 && value == -1 {
          sign := -1;
        } else if IsDigit(c) {
          var digit := c as int - '0' as int;
          if value == -1 {
            value := 0;
          }
          if value > (INT32_MAX - digit) / 10 {
            if scale != 0 {
              break;
            } else {
              return ParseError;
            }
          }
          if scale * 10 > INT32_MAX {
            return Overflows;
          }
          value := 10 * value + digit;
          scale := scale * 10;
        } else if c == '.' && scale == 0 {
          scale := 1;
        } else if c == ' ' {
          if sign != 0 || value != -1 || scale != 0 {
            return ParseError;
          }
        } else {
          return ParseError;
        }
        field := field + 1;
      }
    }
    if (sign != 0 || scale != 0) && value == -1 {
      return ParseError;
    }
    if value == -1 {
      value := 0;
      scale := 0;
    } else if scale == 0 {
      scale := 1;
    }
    if sign != 0 {
      value := value * sign;
    }
    return Num(value, scale);
  }

  // ---- what the scan of a number means ----

  type Digit = d: nat | d < 10

  /** The number written by appending digits to `v`. */
  function ValueFrom(v: nat, ds: seq<Digit>): nat
    decreases |ds|
  {
    if ds == [] then v else ValueFrom(10 * v + ds[0], ds[1..])
  }

  function Text(ds: seq<Digit>): (t: string)
    ensures |t| == |ds|
    decreases |ds|
  {
    if ds == [] then "" else [('0' as int + ds[0]) as char] + Text(ds[1..])
  }

  /** How many of the digits can be appended to `v` before 32 bits run out. */
  function Fitting(v: nat, ds: seq<Digit>): (k: nat)
    ensures k <= |ds|
    decreases |ds|
  {
    if ds == [] || 10 * v + ds[0] > INT32_MAX then 0 else 1 + Fitting(10 * v + ds[0], ds[1..])
  }

  lemma {:induction false} ValueGrows(v: nat, ds: seq<Digit>)
    ensures v <= ValueFrom(v, ds)
    decreases |ds|
  {
    if ds == [] {
    } else {
      ValueGrows(10 * v + ds[0], ds[1..]);
    }
  }

  /** `Fitting` is the longest prefix whose value fits: every prefix up to it does, none beyond. */
  lemma {:induction false} FittingIsLongest(v: nat, ds: seq<Digit>, j: nat)
    requires v <= INT32_MAX && j <= |ds|
    ensures ValueFrom(v, ds[..j]) <= INT32_MAX <==> j <= Fitting(v, ds)
    decreases |ds|
  {
    if j == 0 {
    } else {
      var w := 10 * v + ds[0];
      assert ds[..j][0] == ds[0] && ds[..j][1..] == ds[1..][..j - 1];
      if w <= INT32_MAX {
        FittingIsLongest(w, ds[1..], j - 1);
      } else {
        ValueGrows(w, ds[1..][..j - 1]);
      }
    }
  }

  function Pow10(k: nat): (p: nat)
    ensures p >= 1
  {
    if k == 0 then 1 else 10 * Pow10(k - 1)
  }

  function ValueOf(a: Acc): int { if a.value == -1 then 0 else a.value }

  lemma DigitStep(a: Acc, d: Digit)
    requires -1 <= a.value && 0 <= a.scale
    ensures IsField(('0' as int + d) as char)
    ensures Step(a, ('0' as int + d) as char) ==
            if 10 * ValueOf(a) + d > INT32_MAX then if a.scale != 0 then Stop else Fail
            else if a.scale * 10 > INT32_MAX then Overflow
            else Go(a.(value := 10 * ValueOf(a) + d, scale := a.scale * 10))
  {}

  predicate Ends(rest: string) { rest == [] || !IsField(rest[0]) }

  lemma TextHead(ds: seq<Digit>, rest: string)
    requires ds != []
    ensures Text(ds) + rest == [('0' as int + ds[0]) as char] + (Text(ds[1..]) + rest)
  {}

  /** Scanning one digit. */
  lemma DigitScans(a: Acc, ds: seq<Digit>, rest: string)
    requires -1 <= a.value && 0 <= a.scale && ds != []
    ensures ScanFrom(a, Text(ds) + rest) ==
            if 10 * ValueOf(a) + ds[0] > INT32_MAX then
              if a.scale != 0 then Finish(a.(value := ValueOf(a))) else ParseError
            else if a.scale * 10 > INT32_MAX then Overflows
            else ScanFrom(a.(value := 10 * ValueOf(a) + ds[0], scale := a.scale * 10), Text(ds[1..]) + rest)
  {
    hide Text, Step;
    DigitStep(a, ds[0]);
    TextHead(ds, rest);
  }

  /** Scanning the digits of an integer part. */
  lemma {:induction false} IntegerScans(a: Acc, ds: seq<Digit>, rest: string)
    requires -1 <= a.value <= INT32_MAX && a.scale == 0 && ds != []
    ensures ScanFrom(a, Text(ds) + rest) ==
            if ValueFrom(ValueOf(a), ds) <= INT32_MAX
            then ScanFrom(a.(value := ValueFrom(ValueOf(a), ds)), rest) else ParseError
    decreases |ds|
  {
    hide ScanFrom, Finish;
    var w := 10 * ValueOf(a) + ds[0];
    DigitScans(a, ds, rest);
    ValueGrows(w, ds[1..]);
    if w <= INT32_MAX {
      if ds[1..] == [] {
        assert Text(ds[1..]) + rest == rest;
      } else {
        IntegerScans(a.(value := w), ds[1..], rest);
      }
    }
  }

  /** The outcome after the digits of a fraction, `i` of which have been read: the longest
      prefix that fits, unless that would take a tenth fraction digit. */
  function FractionOutcome(a: Acc, i: nat, ds: seq<Digit>): Outcome
    requires -1 <= a.value
  {
    var k := Fitting(ValueOf(a), ds);
    if i + k >= 10 then Overflows
    else Finish(a.(value := ValueFrom(ValueOf(a), ds[..k]), scale := Pow10(i + k)))
  }

  lemma FractionStep(a: Acc, i: nat, ds: seq<Digit>)
    requires -1 <= a.value <= INT32_MAX && i <= 9 && ds != []
    ensures FractionOutcome(a, i, ds) ==
            var w := 10 * ValueOf(a) + ds[0];
            if w > INT32_MAX then Finish(a.(value := ValueOf(a), scale := Pow10(i)))
            else if i == 9 then Overflows
            else FractionOutcome(Acc(a.sign, w, Pow10(i + 1)), i + 1, ds[1..])
  {
    hide Finish, Pow10;
    var w := 10 * ValueOf(a) + ds[0];
    if w <= INT32_MAX {
      var k := Fitting(w, ds[1..]);
      assert ds[..k + 1][0] == ds[0] && ds[..k + 1][1..] == ds[1..][..k];
    }
  }

  /** Scanning the digits of a fraction. */
  lemma {:induction false} FractionScans(a: Acc, i: nat, ds: seq<Digit>, rest: string)
    requires -1 <= a.value <= INT32_MAX && i <= 9 && a.scale == Pow10(i) && Ends(rest)
    requires a.value == -1 ==> ds != []
    ensures ScanFrom(a, Text(ds) + rest) == FractionOutcome(a, i, ds)
    decreases |ds|
  {
    hide Finish, Pow10;
    if ds == [] {
      assert Text(ds) + rest == rest;
    } else {
      hide ScanFrom, Text, FractionOutcome, Finish;
      DigitScans(a, ds, rest);
      FractionStep(a, i, ds);
      Powers(i);
      var w := 10 * ValueOf(a) + ds[0];
      if w <= INT32_MAX && i < 9 {
        FractionScans(Acc(a.sign, w, Pow10(i + 1)), i + 1, ds[1..], rest);
      }
    }
  }

  lemma Powers(i: nat)
    requires i <= 9
    ensures Pow10(i) * 10 > INT32_MAX <==> i == 9
    ensures Pow10(i + 1) == Pow10(i) * 10 && Pow10(i) >= 1
  {
    assert Pow10(0) == 1 && Pow10(1) == 10 && Pow10(2) == 100 && Pow10(3) == 1000 && Pow10(4) == 1_0000;
    assert Pow10(5) == 10_0000 && Pow10(6) == 100_0000 && Pow10(7) == 1000_0000;
    assert Pow10(8) == 1_0000_0000 && Pow10(9) == 10_0000_0000;
  }

  // ---- whole numbers ----

  /** A number as text: spaces, a sign (-1, 0 for none, 1), digits, and digits after a point. */
  datatype Numeral = Numeral(spaces: nat, sign: int, ints: seq<Digit>, point: bool, fracs: seq<Digit>)
  {
    predicate Valid() { sign in {-1, 0, 1} && (!point ==> fracs == []) }

    function Unsigned(): string { Text(ints) + if point then "." + Text(fracs) else "" }

    function Written(): string
      requires Valid()
    {
      seq(spaces, _ => ' ') + (if sign == 1 then "+" else if sign == -1 then "-" else "") + Unsigned()
    }

    /** The value of the digits up to the `k`th after the point. */
    function Value(k: nat): nat
      requires k <= |fracs|
    {
      ValueFrom(0, ints + fracs[..k])
    }
  }

  lemma {:induction false} ValueJoins(v: nat, a: seq<Digit>, b: seq<Digit>)
    ensures ValueFrom(v, a + b) == ValueFrom(ValueFrom(v, a), b)
    decreases |a|
  {
    if a == [] {
      assert a + b == b;
    } else {
      assert (a + b)[0] == a[0] && (a + b)[1..] == a[1..] + b;
      ValueJoins(10 * v + a[0], a[1..], b);
    }
  }

  lemma {:induction false} SpacesScan(n: nat, s: string)
    ensures Scan(seq(n, _ => ' ') + s) == Scan(s)
  {
    var t := seq(n, _ => ' ') + s;
    if n == 0 {
      assert t == s;
    } else {
      assert t[0] == ' ' && t[1..] == seq(n - 1, _ => ' ') + s;
      SpacesScan(n - 1, s);
    }
  }

  lemma SignScans(sign: int, s: string)
    requires sign in {-1, 1}
    ensures Scan((if sign == 1 then "+" else "-") + s) == ScanFrom(Acc(sign, -1, 0), s)
  {
    var t := (if sign == 1 then "+" else "-") + s;
    assert t[1..] == s;
  }

  /** The unsigned part, after a sign has been read. */
  lemma UnsignedScans(n: Numeral, rest: string)
    requires n.Valid() && Ends(rest) && n.ints + n.fracs != []
    ensures
      var a := Acc(n.sign, ValueFrom(0, n.ints), if n.point then 1 else 0);
      ScanFrom(Acc(n.sign, -1, 0), n.Unsigned() + rest) ==
      if a.value > INT32_MAX then ParseError
      else if n.point then FractionOutcome(a, 0, n.fracs) else Finish(a)
  {
    hide FractionOutcome, Finish, Step;
    var a := Acc(n.sign, -1, 0);
    var more := (if n.point then "." + Text(n.fracs) else "") + rest;
    assert n.Unsigned() + rest == Text(n.ints) + more;
    if n.ints == [] {
      assert Text(n.ints) + more == more;
    } else {
      IntegerScans(a, n.ints, more);
    }
    var v := ValueFrom(0, n.ints);
    var b := Acc(n.sign, if n.ints == [] then -1 else v, 0);
    if v <= INT32_MAX {
      if n.point {
        assert more == "." + (Text(n.fracs) + rest);
        PointScans(b, Text(n.fracs) + rest);
        FractionScans(b.(scale := 1), 0, n.fracs, rest);
        SameFraction(b.(scale := 1), b.(value := v, scale := 1), n.fracs);
      } else {
        assert more == rest;
      }
    }
  }

  lemma PointScans(a: Acc, s: string)
    requires a.scale == 0
    ensures ScanFrom(a, "." + s) == ScanFrom(a.(scale := 1), s)
  {
    assert ("." + s)[1..] == s;
  }

  lemma SameFraction(a: Acc, b: Acc, ds: seq<Digit>)
    requires a.sign == b.sign && -1 <= a.value && 0 <= b.value && ValueOf(a) == b.value
    ensures FractionOutcome(a, 0, ds) == FractionOutcome(b, 0, ds)
  {}

  function Signed(sign: int, v: nat): int { if sign == -1 then 0 - v else v }

  lemma ValueIs(n: Numeral, k: nat)
    requires k <= |n.fracs|
    ensures n.Value(k) == ValueFrom(ValueFrom(0, n.ints), n.fracs[..k])
    ensures n.Value(0) == ValueFrom(0, n.ints)
  {
    ValueJoins(0, n.ints, n.fracs[..k]);
    assert n.ints + n.fracs[..0] == n.ints;
  }

  lemma NumeralScans(n: Numeral, rest: string)
    requires n.Valid()
    ensures Scan(n.Written() + rest) == ScanFrom(Acc(n.sign, -1, 0), n.Unsigned() + rest)
  {
    hide ScanFrom, Scan;
    var sign := if n.sign == 1 then "+" else if n.sign == -1 then "-" else "";
    assert n.Written() + rest == seq(n.spaces, _ => ' ') + (sign + (n.Unsigned() + rest));
    SpacesScan(n.spaces, sign + (n.Unsigned() + rest));
    if n.sign == 0 {
      assert sign + (n.Unsigned() + rest) == n.Unsigned() + rest;
      ScanIs(n.Unsigned() + rest);
    } else {
      SignScans(n.sign, n.Unsigned() + rest);
    }
  }

  lemma ScanIs(s: string)
    ensures Scan(s) == ScanFrom(Acc(0, -1, 0), s)
  {}

  /** The scan of any number: an integer part beyond 32 bits is refused; otherwise the value of
      the longest prefix that fits is returned with its scale. The scale itself overflows
      exactly when ten fraction digits fit. */
  lemma NumberScans(n: Numeral, rest: string)
    requires n.Valid() && Ends(rest) && n.ints + n.fracs != []
    ensures
      var r := Scan(n.Written() + rest);
      var k := Fitting(n.Value(0), n.fracs);
      && (r == ParseError <==> n.Value(0) > INT32_MAX)
      && (r == Overflows <==> |n.fracs| >= 10 && n.Value(10) <= INT32_MAX)
      && (r.Num? ==> r == Num(Signed(n.sign, n.Value(k)), Pow10(k)))
      && (n.Value(0) <= INT32_MAX ==> n.Value(k) <= INT32_MAX && (k < |n.fracs| ==> n.Value(k + 1) > INT32_MAX))
  {
    hide ScanFrom, Scan, Numeral.Written, Numeral.Unsigned, Fitting;
    NumeralScans(n, rest);
    UnsignedScans(n, rest);
    var v, k := n.Value(0), Fitting(n.Value(0), n.fracs);
    ValueIs(n, 0);
    ValueIs(n, k);
    if v <= INT32_MAX {
      FittingIsLongest(v, n.fracs, k);
      if k < |n.fracs| {
        ValueIs(n, k + 1);
        FittingIsLongest(v, n.fracs, k + 1);
      }
      if |n.fracs| >= 10 {
        ValueIs(n, 10);
        FittingIsLongest(v, n.fracs, 10);
      }
      assert Pow10(0) == 1;
    } else if |n.fracs| >= 10 {
      ValueIs(n, 10);
      ValueGrows(v, n.fracs[..10]);
    }
  }

  /** Up to nine fraction digits and 32 bits of magnitude, the number is read back exactly. */
  lemma ShortNumberScansExactly(n: Numeral, rest: string)
    requires n.Valid() && Ends(rest) && n.ints + n.fracs != []
    requires |n.fracs| <= 9 && n.Value(|n.fracs|) <= INT32_MAX
    ensures Scan(n.Written() + rest) == Num(Signed(n.sign, n.Value(|n.fracs|)), Pow10(|n.fracs|))
  {
    hide Scan, Numeral.Written, Fitting;
    var f := |n.fracs|;
    ValueIs(n, f);
    ValueGrows(n.Value(0), n.fracs[..f]);
    NumberScans(n, rest);
    FittingIsLongest(n.Value(0), n.fracs, f);
  }

  /** Zero with ten fraction digits: the scale overflows. */
  lemma TenZerosOverflow()
    ensures Scan("0.0000000000") == Overflows
  {
    hide Scan, Numeral.Written;
    ZerosOverflow();
    ZerosText();
  }

  lemma ZerosOverflow()
    ensures Scan(Numeral(0, 0, [0], true, Zeros(10)).Written()) == Overflows
  {
    hide Scan, Numeral.Written, Numeral.Value, Zeros, Pow10, Fitting;
    var n := Numeral(0, 0, [0], true, Zeros(10));
    ZerosValue();
    NumberScans(n, "");
    assert n.Written() + "" == n.Written();
  }

  function Zeros(k: nat): (ds: seq<Digit>)
    ensures |ds| == k
  {
    seq(k, _ => 0)
  }

  lemma {:induction false} TextOfZeros(k: nat)
    ensures Text(Zeros(k)) == seq(k, _ => '0') && ValueFrom(0, Zeros(k)) == 0
  {
    if k == 0 {
    } else {
      assert Zeros(k)[1..] == Zeros(k - 1);
      TextOfZeros(k - 1);
    }
  }

  lemma ZerosText()
    ensures Numeral(0, 0, [0], true, Zeros(10)).Written() == "0.0000000000"
  {
    hide Zeros, Text;
    TextOfZeros(1);
    TextOfZeros(10);
    OneZero();
    assert Numeral(0, 0, [0], true, Zeros(10)).Unsigned() == "0" + ("." + "0000000000");
  }

  lemma OneZero()
    ensures Zeros(1) == [0] && seq(1, _ => '0') == "0" && seq(10, _ => '0') == "0000000000"
  {}

  lemma ZerosValue()
    ensures Numeral(0, 0, [0], true, Zeros(10)).Value(10) == 0
  {
    TextOfZeros(11);
    assert [0] + Zeros(10)[..10] == Zeros(11);
  }

  /** A tenth fraction digit can only fit behind a zero integer part. */
  lemma OverflowNeedsZero(n: Numeral)
    requires |n.fracs| >= 10 && n.Value(10) <= INT32_MAX
    ensures n.Value(0) == 0
  {
    ValueIs(n, 10);
    ValueScales(n.Value(0), n.fracs[..10]);
    assert Pow10(10) == 100_0000_0000 by {
      assert Pow10(4) == 1_0000 && Pow10(7) == 1000_0000;
    }
  }

  lemma {:induction false} ValueScales(v: nat, ds: seq<Digit>)
    ensures v * Pow10(|ds|) <= ValueFrom(v, ds)
    decreases |ds|
  {
    if ds == [] {
    } else {
      var p := Pow10(|ds| - 1);
      ValueScales(10 * v + ds[0], ds[1..]);
      Scaled(10 * v, 10 * v + ds[0], p);
      TenTimes(v, p);
    }
  }

  lemma TenTimes(v: int, p: int)
    ensures (10 * v) * p == 10 * (v * p) == v * (10 * p)
  {}

  /** No digits: a lone sign or point is refused, an empty field is the unknown value. */
  lemma NoDigitsScan(n: Numeral, rest: string)
    requires n.Valid() && Ends(rest) && n.ints == n.fracs == []
    ensures Scan(n.Written() + rest) == if n.sign != 0 || n.point then ParseError else Num(0, 0)
  {
    NumeralScans(n, rest);
    if n.point {
      assert n.Unsigned() + rest == "." + rest;
      PointScans(Acc(n.sign, -1, 0), rest);
    } else {
      assert n.Unsigned() + rest == rest;
    }
  }

  // ---- printed fixed-point numbers read back ----

  function Digits(n: nat): seq<Digit> { if n < 10 then [n] else Digits(n / 10) + [n % 10] }

  function Padded(n: nat, width: nat): (ds: seq<Digit>)
    ensures |ds| == width
  {
    if width == 0 then [] else Padded(n / 10, width - 1) + [n % 10]
  }

  function Magnitude(v: int): nat { if v < 0 then -v else v }

  /** `value / 10^k` in decimal, with `k` fraction digits. */
  function Fixed(value: int, k: nat): (n: Numeral)
    ensures n.Valid()
  {
    var (whole, part) := DivMod(Magnitude(value), Pow10(k));
    Numeral(0, if value < 0 then -1 else 0, Digits(whole), k > 0, Padded(part, k))
  }

  lemma LastDigit(v: nat, ds: seq<Digit>, d: Digit)
    ensures ValueFrom(v, ds + [d]) == 10 * ValueFrom(v, ds) + d
  {
    ValueJoins(v, ds, [d]);
    assert [d][1..] == [];
    assert ValueFrom(ValueFrom(v, ds), [d]) == ValueFrom(10 * ValueFrom(v, ds) + d, []);
  }

  lemma {:induction false} DigitsValue(n: nat)
    ensures ValueFrom(0, Digits(n)) == n && Digits(n) != []
  {
    if n < 10 {
      LastDigit(0, [], n);
      assert [] + [n] == Digits(n);
    } else {
      DigitsValue(n / 10);
      LastDigit(0, Digits(n / 10), n % 10);
    }
  }

  lemma {:induction false} PaddedValue(v: nat, n: nat, k: nat)
    requires n < Pow10(k)
    ensures ValueFrom(v, Padded(n, k)) == v * Pow10(k) + n
    decreases k
  {
    if k == 0 {
    } else {
      PaddedValue(v, n / 10, k - 1);
      LastDigit(v, Padded(n / 10, k - 1), n % 10);
      TenTimes(v, Pow10(k - 1));
    }
  }

  /** Round trip: what prints as a decimal with up to nine fraction digits scans to itself. */
  lemma FixedScansBack(value: int, k: nat, rest: string)
    requires k <= 9 && -INT32_MAX <= value <= INT32_MAX && Ends(rest)
    ensures Scan(Fixed(value, k).Written() + rest) == Num(value, Pow10(k))
  {
    hide Scan, Numeral.Written, Digits, Padded;
    var n := Fixed(value, k);
    var (whole, part) := DivMod(Magnitude(value), Pow10(k));
    DigitsValue(whole);
    PaddedValue(whole, part, k);
    assert n.fracs[..k] == n.fracs;
    ValueIs(n, k);
    assert n.Value(k) == Magnitude(value);
    ShortNumberScansExactly(n, rest);
  }

  // ---- rescaling ----

  /** C division truncates toward zero. */
  function TruncDiv(a: int, b: int): int
    requires b > 0
  {
    if a >= 0 then a / b else -(-a / b)
  }

  function Sign(v: int): int { if v > 0 then 1 else if v < 0 then -1 else 0 }

  function Int32(v: int): Option<int> { if -INT32_MAX - 1 <= v <= INT32_MAX then Some(v) else None }

  /** `minmea_rescale`; None marks a signed overflow. */
  function Rescale(value: int, scale: int, newScale: int): Option<int>
    requires 0 <= scale && 0 < newScale
  {
    if scale == 0 then Some(0)
    else if scale == newScale then Some(value)
    else if scale > newScale then
      match Int32(value + TruncDiv(TruncDiv(Sign(value) * scale, newScale), 2))
      case None => None
      case Some(sum) => Some(TruncDiv(sum, scale / newScale))
    else Int32(value * (newScale / scale))
  }

  /** The nearest multiple of `q`, halves up. */
  lemma NearestMultiple(a: nat, q: nat)
    requires 0 < q
    ensures var r := (a + q / 2) / q; 2 * (r * q - a) <= q && 2 * (a - r * q) <= q
  {
    var (r, rest) := DivMod(a + q / 2, q);
    assert r * q - a == q / 2 - rest;
  }

  lemma TruncDivNegative(a: int, d: int)
    requires 0 < a && 0 < d
    ensures TruncDiv(0 - a, d) == 0 - a / d
  {}

  lemma HalfAway(value: int, q: nat)
    requires 0 < q
    ensures TruncDiv(value + TruncDiv(Sign(value) * q, 2), q) ==
            if value >= 0 then (value + q / 2) / q else 0 - (q / 2 - value) / q
  {
    hide TruncDiv;
    if value < 0 {
      TruncDivNegative(q, 2);
      TruncDivNegative(q / 2 - value, q);
    } else {
      TruncDivPositive(value + q / 2, q);
      TruncDivPositive(q, 2);
      TruncDivPositive(0, 2);
      TruncDivPositive(0, q);
      DivisionIs(q / 2, 0, q / 2, q);
      DivisionIs(0, 0, 0, q);
    }
  }

  lemma TruncDivPositive(a: nat, d: nat)
    requires 0 < d
    ensures TruncDiv(a, d) == a / d
  {}

  /** Scaling the sign down again. */
  lemma SignScaled(value: int, q: nat, d: nat)
    requires 0 < d && 0 < q
    ensures TruncDiv(Sign(value) * (q * d), d) == Sign(value) * q
  {
    DivisionIs(q * d, q, 0, d);
    DivisionIs(0, 0, 0, d);
    assert q * d > 0;
    if value < 0 {
      TruncDivNegative(q * d, d);
    }
  }

  /** Rescaling to a coarser scale rounds to the nearest value, halves away from zero (the
      comment in the header says toward zero). */
  lemma RescaleRoundsToNearest(value: int, newScale: nat, q: nat)
    requires 0 < newScale && 1 < q
    ensures match Rescale(value, q * newScale, newScale)
            case Some(r) => 2 * (r * q - value) <= q && 2 * (value - r * q) <= q
            case None => Int32(value + TruncDiv(Sign(value) * q, 2)).None?
  {
    hide TruncDiv;
    Coarser(q, newScale);
    SignScaled(value, q, newScale);
    HalfAway(value, q);
    NearestMultiple(Magnitude(value), q);
    SignFlips((Magnitude(value) + q / 2) / q, q);
  }

  lemma QuotientStaysIff(a: nat, b: nat, q: nat)
    requires b < q
    ensures (a + b) / q == a / q <==> a % q + b < q
  {
    var (d, r) := DivMod(a, q);
    if r + b < q {
      DivisionIs(a + b, d, r + b, q);
    } else {
      assert (d + 1) * q == d * q + q;
      DivisionIs(a + b, d + 1, r + b - q, q);
    }
  }

  /** What the comment in the header promises, rounding toward zero, holds exactly when the rest
      is less than half a unit of the new scale (and the rounding addition fits 32 bits). */
  lemma RescaleTruncatesIff(value: int, newScale: nat, q: nat)
    requires 0 < newScale && 1 < q
    ensures Rescale(value, q * newScale, newScale) == Some(TruncDiv(value, q)) <==>
            Int32(value + TruncDiv(Sign(value) * q, 2)).Some? && Magnitude(value) % q + q / 2 < q
  {
    hide TruncDiv;
    Coarser(q, newScale);
    SignScaled(value, q, newScale);
    HalfAway(value, q);
    QuotientStaysIff(Magnitude(value), q / 2, q);
    if value < 0 {
      TruncDivNegative(0 - value, q);
    } else {
      TruncDivPositive(value, q);
    }
  }

  /** Overflow is marked exactly when the sum, or the product of a finer scale, leaves 32 bits. */
  lemma RescaleOverflowsIff(value: int, scale: nat, q: nat)
    requires 0 < scale && 1 < q
    ensures Rescale(value, q * scale, scale).None? <==>
            !(-0x8000_0000 <= value + Sign(value) * (q / 2) <= 0x7FFF_FFFF)
    ensures Rescale(value, scale, q * scale).None? <==> !(-0x8000_0000 <= value * q <= 0x7FFF_FFFF)
  {
    hide TruncDiv;
    Coarser(q, scale);
    SignScaled(value, q, scale);
    HalfSigned(value, q);
  }

  /** The unknown value, which has scale 0, counts as zero; at its own scale a value stays as it is. */
  lemma RescaleEnds(value: int, scale: nat)
    requires 0 < scale
    ensures Rescale(value, 0, scale) == Some(0) && SpeedOf(value, 0) == Some(0)
    ensures Rescale(value, scale, scale) == Some(value)
  {}

  lemma HalfSigned(value: int, q: nat)
    requires 0 < q
    ensures TruncDiv(Sign(value) * q, 2) == Sign(value) * (q / 2)
  {}

  /** 1.5 becomes 2, -1.5 becomes -2. */
  lemma RescaleRoundsAway()
    ensures Rescale(15, 10, 1) == Some(2) && TruncDiv(15, 10) == 1
    ensures Rescale(-15, 10, 1) == Some(-2) && TruncDiv(-15, 10) == -1
  {}

  lemma SignFlips(r: int, q: nat)
    ensures (0 - r) * q == 0 - r * q
  {}

  lemma Coarser(q: nat, newScale: nat)
    requires 0 < newScale && 1 < q
    ensures q * newScale > newScale && (q * newScale) / newScale == q
  {
    DivisionIs(q * newScale, q, 0, newScale);
  }

  /** Refining a value and coming back is the identity. */
  lemma RescaleBack(value: int, scale: nat, q: nat)
    requires 0 < scale && 1 < q
    requires Rescale(value, scale, q * scale).Some?
    requires Rescale(Rescale(value, scale, q * scale).value, q * scale, scale).Some?
    ensures Rescale(Rescale(value, scale, q * scale).value, q * scale, scale) == Some(value)
  {
    hide Rescale;
    var fine := Rescale(value, scale, q * scale).value;
    FinerIs(value, scale, q);
    RescaleRoundsToNearest(fine, scale, q);
    OnlyNearest(value, Rescale(fine, q * scale, scale).value, q);
  }

  lemma FinerIs(value: int, scale: nat, q: nat)
    requires 0 < scale && 1 < q && Rescale(value, scale, q * scale).Some?
    ensures Rescale(value, scale, q * scale).value == value * q
  {
    Coarser(q, scale);
  }

  lemma OnlyNearest(value: int, r: int, q: nat)
    requires 1 < q && 2 * (r * q - value * q) <= q && 2 * (value * q - r * q) <= q
    ensures r == value
  {
    ScaledDifference(r, value, q);
    Multiples(r - value, q);
  }

  // ---- knots to thousandths of a km/h ----

  /** The conversion in `task_gps`, in unsigned 32-bit arithmetic. */
  function SpeedOf(value: int, scale: int): Option<nat>
    requires 0 <= scale
  {
    match Rescale(value, scale, 1000)
    case None => None
    case Some(knots) => Some(Uint32(Uint32(knots) * 1852) / 1000)
  }

  /** The multiplication keeps its meaning up to 2319.096 knots and loses it beyond. */
  lemma SpeedWrapsIff(knots: nat)
    requires knots <= INT32_MAX
    ensures Uint32(Uint32(knots) * 1852) / 1000 == knots * 1852 / 1000 <==> knots <= 2319096
  {
    assert Uint32(knots) == knots;
  }

  /** Below 2319 knots the speed is within two units of 1852 times the scanned knots. */
  lemma SpeedIsAccurate(value: int, k: nat)
    requires k <= 9 && 0 <= value < 2319 * Pow10(k)
    requires k > 3 ==> value + Pow10(k) / 2000 <= INT32_MAX
    ensures var s := SpeedOf(value, Pow10(k));
            && s.Some?
            && -2 * Pow10(k) <= s.value * Pow10(k) - 1852 * value <= 2 * Pow10(k)
  {
    if k <= 3 {
      CoarseSpeed(value, k);
    } else {
      FineSpeed(value, k);
    }
  }

  lemma SmallPowers(k: nat)
    ensures Pow10(0) == 1 && Pow10(1) == 10 && Pow10(2) == 100 && Pow10(3) == 1000
    ensures k >= 3 ==> Pow10(k) == Pow10(k - 3) * 1000
    ensures k > 3 ==> Pow10(k - 3) == 10 * Pow10(k - 4)
  {
    assert Pow10(0) == 1 && Pow10(1) == 10 && Pow10(2) == 100 && Pow10(3) == 1000;
    if k >= 3 {
      assert Pow10(k) == 10 * Pow10(k - 1) == 100 * Pow10(k - 2) == 1000 * Pow10(k - 3);
    }
  }

  lemma CoarseSpeed(value: int, k: nat)
    requires k <= 3 && 0 <= value < 2319 * Pow10(k)
    ensures var s := SpeedOf(value, Pow10(k));
            && s.Some?
            && -2 * Pow10(k) <= s.value * Pow10(k) - 1852 * value <= 2 * Pow10(k)
  {
    SmallPowers(k);
    assert Pow10(k) in {1, 10, 100, 1000};
    var r := value * (1000 / Pow10(k));
    assert Rescale(value, Pow10(k), 1000) == Some(r);
    SpeedWrapsIff(r);
  }

  lemma FineSpeed(value: int, k: nat)
    requires 3 < k <= 9 && 0 <= value < 2319 * Pow10(k) && value + Pow10(k) / 2000 <= INT32_MAX
    ensures var s := SpeedOf(value, Pow10(k));
            && s.Some?
            && -2 * Pow10(k) <= s.value * Pow10(k) - 1852 * value <= 2 * Pow10(k)
  {
    hide Rescale, TruncDiv, Pow10, Uint32;
    SmallPowers(k);
    var q := Pow10(k - 3);
    HalfOfSign(value, q);
    RescaleRoundsToNearest(value, 1000, q);
    var r := Rescale(value, q * 1000, 1000).value;
    KnotsBound(value, r, q);
    SpeedWrapsIff(r);
    SpeedError(value, r, r * 1852 / 1000, q);
  }

  lemma HalfOfSign(value: nat, q: nat)
    ensures 0 <= TruncDiv(Sign(value) * q, 2) <= q / 2 == q * 1000 / 2000
  {}

  lemma KnotsBound(value: int, r: int, q: nat)
    requires 10 <= q && 0 <= value < 2319 * 1000 * q
    requires 2 * (r * q - value) <= q && 2 * (value - r * q) <= q
    ensures 0 <= r <= 2319000
  {
    if r < 0 {
      Multiples(r, q);
    }
    Multiples(r - 2319000, q);
    assert (r - 2319000) * q == r * q - 2319000 * q;
  }

  lemma SpeedError(value: int, r: int, s: int, q: nat)
    requires 0 <= r && s == r * 1852 / 1000
    requires 2 * (r * q - value) <= q && 2 * (value - r * q) <= q
    ensures -2 * (q * 1000) <= s * (q * 1000) - 1852 * value <= 2 * (q * 1000)
  {
    var e := r * 1852 - s * 1000;
    assert 0 <= e < 1000;
    ErrorScaled(r, s, e, q);
    Scaled(0, e, q);
    Scaled(e, 1000, q);
  }

  lemma ErrorScaled(r: int, s: int, e: int, q: int)
    requires s * 1000 == r * 1852 - e
    ensures s * (q * 1000) == 1852 * (r * q) - e * q
  {
    assert (s * 1000) * q == (r * 1852 - e) * q;
  }

  /** From the text of a speed field to km/h. */
  lemma SpeedFromText(n: Numeral, rest: string)
    requires n.Valid() && Ends(rest) && n.ints + n.fracs != [] && n.sign >= 0
    requires var k := |n.fracs|;
             k <= 9 && n.Value(k) < 2319 * Pow10(k) && n.Value(k) + Pow10(k) / 2000 <= INT32_MAX
    ensures var r := Scan(n.Written() + rest);
            var k := |n.fracs|;
            && r.Num? && r.scale == Pow10(k) && SpeedOf(r.value, r.scale).Some?
            && -2 * Pow10(k) <= SpeedOf(r.value, r.scale).value * Pow10(k) - 1852 * n.Value(k) <= 2 * Pow10(k)
  {
    hide Scan, SpeedOf, Numeral.Written, Numeral.Value;
    ShortNumberScansExactly(n, rest);
    SpeedIsAccurate(n.Value(|n.fracs|), |n.fracs|);
  }
}
