/** The few string operations the scheduling code relies on: decimal
    rendering (`Number.prototype.toString`), `padStart`, `split` on one
    character and `parseInt`, and the "HH:mm" clock text built from them. */
module Text {
  import opened Wrappers

  predicate IsDigit(c: char) {
    '0' <= c <= '9'
  }

  predicate AllDigits(s: string) {
    forall i :: 0 <= i < |s| ==> IsDigit(s[i])
  }

  function DigitChar(d: int): (c: char)
    requires 0 <= d < 10
    ensures IsDigit(c)
  {
    ['0', '1', '2', '3', '4', '5', '6', '7', '8', '9'][d]
  }

  function DigitValue(c: char): (d: nat)
    requires IsDigit(c)
    ensures d < 10
  {
    (c as int - '0' as int) as nat
  }

  lemma DigitRoundTrip(d: int)
    requires 0 <= d < 10
    ensures DigitValue(DigitChar(d)) == d
  {
  }

  /** The value of a string of decimal digits, most significant first. */
  function DigitsValue(s: string): nat
    requires AllDigits(s)
  {
    if s == [] then 0 else DigitsValue(s[..|s| - 1]) * 10 + DigitValue(s[|s| - 1])
  }

  /** `n.toString()` for a non-negative integer: no leading zeros. */
  function Decimal(n: nat): (s: string)
    ensures AllDigits(s) && |s| >= 1
    ensures n < 10 <==> |s| == 1
    ensures n < 100 ==> |s| <= 2
    ensures n < 10000 ==> |s| <= 4
  {
    if n < 10 then [DigitChar(n)] else Decimal(n / 10) + [DigitChar(n % 10)]
  }

  lemma {:induction false} DecimalRoundTrip(n: nat)
    ensures DigitsValue(Decimal(n)) == n
  {
    if n >= 10 {
      var s := Decimal(n);
      assert s[..|s| - 1] == Decimal(n / 10);
      DecimalRoundTrip(n / 10);
      DigitRoundTrip(n % 10);
    } else {
      DigitRoundTrip(n);
    }
  }

  /** `s.padStart(width, c)` */
  function PadStart(s: string, width: nat, c: char): (r: string)
    ensures |r| == if |s| >= width then |s| else width
    ensures r[|r| - |s|..] == s
    ensures forall i :: 0 <= i < |r| - |s| ==> r[i] == c
  {
    if |s| >= width then s else seq(width - |s|, _ => c) + s
  }

  /** Leading zeros do not change the value of a digit string. */
  lemma {:induction false} LeadingZeros(z: string, s: string)
    requires forall i :: 0 <= i < |z| ==> z[i] == '0'
    requires AllDigits(s)
    ensures AllDigits(z + s) && DigitsValue(z + s) == DigitsValue(s)
  {
    if s == [] {
      assert z + s == z;
      if z != [] {
        LeadingZeros(z[..|z| - 1], []);
        assert z[..|z| - 1] + [] == z[..|z| - 1];
      }
    } else {
      assert (z + s)[..|z + s| - 1] == z + s[..|s| - 1];
      LeadingZeros(z, s[..|s| - 1]);
    }
  }

  /** A number rendered with `toString().padStart(width, "0")`. */
  function Padded(n: nat, width: nat): (s: string)
    ensures AllDigits(s) && DigitsValue(s) == n
    ensures |s| >= width
    ensures (n < 100 && width == 2) || (n < 10000 && width == 4) ==> |s| == width
  {
    var d := Decimal(n);
    var r := PadStart(d, width, '0');
    DecimalRoundTrip(n);
    LeadingZeros(r[..|r| - |d|], d);
    assert r == r[..|r| - |d|] + d;
    r
  }

  /** `s.split([c])`: the pieces between occurrences of c; always at least one. */
  function Split(s: string, c: char): (parts: seq<string>)
    ensures |parts| >= 1
  {
    if s == [] then [""]
    else
      var rest := Split(s[1..], c);
      if s[0] == c then [""] + rest else [[s[0]] + rest[0]] + rest[1..]
  }

  lemma {:induction false} SplitWithout(a: string, c: char)
    requires c !in a
    ensures Split(a, c) == [a]
  {
    if a != [] {
      SplitWithout(a[1..], c);
      assert [a[0]] + a[1..] == a;
    }
  }

  lemma {:induction false} SplitOnce(a: string, b: string, c: char)
    requires c !in a && c !in b
    ensures Split(a + [c] + b, c) == [a, b]
  {
    if a == [] {
      assert a + [c] + b == [c] + b;
      assert ([c] + b)[1..] == b;
      SplitWithout(b, c);
    } else {
      assert (a + [c] + b)[1..] == a[1..] + [c] + b;
      SplitOnce(a[1..], b, c);
      assert [a[0]] + a[1..] == a;
    }
  }

  predicate IsSpace(c: char) {
    c == ' ' || c == '\t' || c == '\n' || c == '\r'
  }

  function TrimStart(s: string): (r: string)
    ensures r == [] || !IsSpace(r[0])
  {
    if s != [] && IsSpace(s[0]) then TrimStart(s[1..]) else s
  }

  /** The number of leading decimal digits of s. */
  function DigitRun(s: string): (n: nat)
    ensures n <= |s| && AllDigits(s[..n])
    ensures n < |s| ==> !IsDigit(s[n])
  {
    if s != [] && IsDigit(s[0]) then
      var n := 1 + DigitRun(s[1..]);
      assert s[..n] == [s[0]] + s[1..][..n - 1];
      n
    else 0
  }

  lemma {:induction false} DigitRunOfDigits(s: string)
    requires AllDigits(s)
    ensures DigitRun(s) == |s|
  {
    if s != [] {
      DigitRunOfDigits(s[1..]);
    }
  }

  /** `parseInt(s)` in base ten: leading white space, an optional sign, then
      the longest run of digits; None stands for NaN (no digit at all). */
  function ParseInt(s: string): Option<int> {
    var t := TrimStart(s);
    var signed := t != [] && (t[0] == '-' || t[0] == '+');
    var body := if signed then t[1..] else t;
    var n := DigitRun(body);
    if n == 0 then None
    else if signed && t[0] == '-' then Some(-(DigitsValue(body[..n]) as int))
    else Some(DigitsValue(body[..n]))
  }

  lemma ParseIntOfDigits(s: string)
    requires AllDigits(s) && s != []
    ensures ParseInt(s) == Some(DigitsValue(s))
  {
    assert !IsSpace(s[0]);
    assert TrimStart(s) == s;
    DigitRunOfDigits(s);
    assert s[..|s|] == s;
  }

  /** "HH:mm": hours and minutes each zero-padded to two digits. */
  function Clock(h: nat, m: nat): (s: string)
    ensures h < 100 && m < 100 ==> |s| == 5 && s[2] == ':'
  {
    var a, b := Padded(h, 2), Padded(m, 2);
    assert (a + ":" + b)[|a|] == ':';
    a + ":" + b
  }

  /** `const [hours, minutes] = s.split(":")` followed by `parseInt` of each:
      a missing second piece is `undefined`, which parses to NaN. */
  function ParseClock(s: string): (hm: (Option<int>, Option<int>)) {
    var parts := Split(s, ':');
    (ParseInt(parts[0]), if |parts| > 1 then ParseInt(parts[1]) else None)
  }

  lemma ClockRoundTrip(h: nat, m: nat)
    ensures ParseClock(Clock(h, m)) == (Some(h), Some(m))
  {
    var a, b := Padded(h, 2), Padded(m, 2);
    assert ':' !in a && ':' !in b by {
      assert !IsDigit(':');
    }
    SplitOnce(a, b, ':');
    assert Clock(h, m) == a + [':'] + b;
    ParseIntOfDigits(a);
    ParseIntOfDigits(b);
  }
}
