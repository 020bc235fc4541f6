/** Fields that are not numbers (minmea.c): what the scan refuses. */
module NmeaErrors {
  import opened Arithmetic
  import opened Nmea
  import opened Options

  /** What has been read when the scan is through with a number. */
  function Reached(n: Numeral): Acc
    requires n.Valid()
  {
    Acc(n.sign, if n.ints + n.fracs == [] then -1 else n.Value(|n.fracs|), if n.point then Pow10(|n.fracs|) else 0)
  }

  /** A number that fits, followed by anything. */
  lemma PrefixScans(n: Numeral, rest: string)
    requires n.Valid() && |n.fracs| <= 9 && n.Value(|n.fracs|) <= INT32_MAX
    ensures Scan(n.Written() + rest) == ScanFrom(Reached(n), rest)
  {
    hide Scan, ScanFrom, Numeral.Written, Pow10;
    var a, more := Acc(n.sign, -1, 0), (if n.point then "." + Text(n.fracs) else "") + rest;
    var v := ValueFrom(0, n.ints);
    NumeralScans(n, rest);
    ValueIs(n, |n.fracs|);
    ValueGrows(v, n.fracs[..|n.fracs|]);
    assert n.fracs[..|n.fracs|] == n.fracs;
    assert n.Unsigned() + rest == Text(n.ints) + more;
    if n.ints == [] {
      assert Text(n.ints) + more == more;
    } else {
      IntegerScans(a, n.ints, more);
    }
    var b := Acc(n.sign, if n.ints == [] then -1 else v, 0);
    if n.point {
      assert more == "." + (Text(n.fracs) + rest);
      PointScans(b, Text(n.fracs) + rest);
      PowerZero();
      FractionPrefix(b.(scale := 1), 0, n.fracs, rest);
    } else {
      assert more == rest;
    }
  }

  lemma PowerZero()
    ensures Pow10(0) == 1
  {}

  lemma {:induction false} FractionPrefix(a: Acc, i: nat, ds: seq<Digit>, rest: string)
    requires -1 <= a.value && i + |ds| <= 9 && a.scale == Pow10(i) && ValueFrom(ValueOf(a), ds) <= INT32_MAX
    ensures ScanFrom(a, Text(ds) + rest) ==
            ScanFrom(Acc(a.sign, if ds == [] then a.value else ValueFrom(ValueOf(a), ds), Pow10(i + |ds|)), rest)
    decreases |ds|
  {
    hide Pow10, ScanFrom;
    if ds == [] {
      assert Text(ds) + rest == rest;
    } else {
      var w := 10 * ValueOf(a) + ds[0];
      ValueGrows(w, ds[1..]);
      DigitScans(a, ds, rest);
      Powers(i);
      FractionPrefix(Acc(a.sign, w, Pow10(i + 1)), i + 1, ds[1..], rest);
    }
  }

  /** The characters that may follow: a digit, the point if there was none, a sign as long as there
      is neither sign nor digit, and a space as long as there is nothing at all. */
  predicate Continues(n: Numeral, c: char)
  {
    || IsDigit(c)
    || (c == '.' && !n.point)
    || ((c == '+' || c == '-') && n.sign == 0 && n.ints + n.fracs == [])
    || (c == ' ' && n.sign == 0 && !n.point && n.ints == [])
  }

  /** Any other character of a field behind a number that fits, or behind the beginning of one, makes
      the whole field an error. */
  lemma GarbageIsRefused(n: Numeral, c: char, rest: string)
    requires n.Valid() && |n.fracs| <= 9 && n.Value(|n.fracs|) <= INT32_MAX
    requires IsField(c) && !Continues(n, c)
    ensures Scan(n.Written() + ([c] + rest)) == ParseError
  {
    hide Scan, Numeral.Written, Numeral.Value;
    PrefixScans(n, [c] + rest);
    Refused(Reached(n), n, c);
    assert ([c] + rest)[1..] == rest;
  }

  lemma Refused(a: Acc, n: Numeral, c: char)
    requires n.Valid() && a == Reached(n) && !Continues(n, c)
    ensures Step(a, c) == Fail
  {}

  /** A sign behind the point is taken as one in front of it: ".-5" reads as "-.5". */
  lemma SignBehindPoint(spaces: nat, minus: bool, rest: string)
    ensures var sign := if minus then "-" else "+";
            Scan(seq(spaces, _ => ' ') + ("." + (sign + rest))) == Scan(seq(spaces, _ => ' ') + (sign + ("." + rest)))
  {
    hide ScanFrom, Scan;
    var sign := if minus then "-" else "+";
    SpacesScan(spaces, "." + (sign + rest));
    SpacesScan(spaces, sign + ("." + rest));
    ScanIs("." + (sign + rest));
    PointScans(Acc(0, -1, 0), sign + rest);
    SignReads(Acc(0, -1, 1), minus, rest);
    SignScans(if minus then -1 else 1, "." + rest);
    PointScans(Acc(if minus then -1 else 1, -1, 0), rest);
  }

  lemma SignReads(a: Acc, minus: bool, rest: string)
    requires a.sign == 0 && a.value == -1
    ensures ScanFrom(a, (if minus then "-" else "+") + rest) == ScanFrom(a.(sign := if minus then -1 else 1), rest)
  {
    var t := (if minus then "-" else "+") + rest;
    assert t[1..] == rest;
  }
}
