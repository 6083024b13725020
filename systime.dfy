/**
  The text layout of D3L's time stamps. `d3l_sys_time` formats the broken-down
  local time with `sprintf` into a fresh, zero-filled 35-byte buffer, and
  `d3l_sys_time_up` formats an elapsed time into a fresh 50-byte buffer. The
  clock reads are not modelled: the fields are parameters.

  Each `%d` conversion follows section 7.21.6.1 of ISO C11: the value in
  decimal with at least one digit, a '-' before negative values, and, when
  the text is shorter than the field width, padding on the left: spaces in
  front of the sign, or, with the `0` flag, zeros between sign and digits.
*/
module SysTime {
  import opened CText
  import opened Options

  predicate IsDigit(c: char)
  {
    '0' <= c <= '9'
  }

  predicate AllDigits(s: string)
  {
    forall i :: 0 <= i < |s| ==> IsDigit(s[i])
  }

  function DigitChar(d: nat): (c: char)
    requires d < 10
    ensures IsDigit(c)
  {
    ('0' as int + d) as char
  }

  /** The decimal text of `n`, without leading zeros ("0" for zero). */
  function Digits(n: nat): (s: string)
    ensures 0 < |s| && AllDigits(s)
    decreases n
  {
    if n < 10 then [DigitChar(n)] else Digits(n / 10) + [DigitChar(n % 10)]
  }

  /** The number a string of decimal digits denotes. */
  function Value(s: string): nat
    requires AllDigits(s)
    decreases |s|
  {
    if |s| == 0 then 0 else Value(s[..|s| - 1]) * 10 + (s[|s| - 1] as int - '0' as int)
  }

  lemma {:induction false} DigitsValue(n: nat)
    ensures Value(Digits(n)) == n
    decreases n
  {
    if n >= 10 {
      var d := Digits(n / 10);
      DigitsValue(n / 10);
      assert (d + [DigitChar(n % 10)])[..|d|] == d;
    }
  }

  function Pow10(k: nat): (p: nat)
    ensures p >= 1
  {
    if k == 0 then 1 else 10 * Pow10(k - 1)
  }

  /** `n` has exactly `k` decimal digits when it lies in [10^(k-1), 10^k). */
  lemma {:induction false} DigitsLength(n: nat, k: nat)
    requires 0 < k && (k == 1 || Pow10(k - 1) <= n) && n < Pow10(k)
    ensures |Digits(n)| == k
    decreases k
  {
    if k > 1 {
      var q := Pow10(k - 2);
      assert n / 10 < Pow10(k - 1) by {
        DivBelow(n, Pow10(k - 1));
      }
      assert k - 1 == 1 || q <= n / 10 by {
        DivAbove(n, q);
      }
      DigitsLength(n / 10, k - 1);
    }
  }

  lemma {:induction false} DivBelow(n: nat, b: nat)
    requires n < 10 * b
    ensures n / 10 < b
  {
  }

  lemma {:induction false} DivAbove(n: nat, a: nat)
    requires 10 * a <= n
    ensures a <= n / 10
  {
  }

  function Repeat(c: char, k: nat): (r: string)
    ensures |r| == k && forall i :: 0 <= i < k ==> r[i] == c
  {
    seq(k, _ => c)
  }

  function Abs(v: int): nat
  {
    if v < 0 then -v else v
  }

  /**
    The `%Wd` conversion (`zeroPad` false) and the `%0Wd` conversion
    (`zeroPad` true) of `v` with minimum field width `width`.
  */
  function Conv(v: int, width: nat, zeroPad: bool): (s: string)
    ensures |s| >= width
  {
    var body := Digits(Abs(v));
    var sign := if v < 0 then "-" else "";
    var len := |sign| + |body|;
    if len >= width then sign + body
    else if zeroPad then sign + Repeat('0', width - len) + body
    else Repeat(' ', width - len) + sign + body
  }

  /** The text of `%d` without a field width: an optional '-', then the digits. */
  function Signed(v: int): (s: string)
    ensures |s| > 0 && (s[0] == '-' <==> v < 0)
  {
    (if v < 0 then "-" else "") + Digits(Abs(v))
  }

  /** `%Wd` pads the unpadded text with spaces on the left up to the width. */
  lemma {:induction false} ConvSpacePadded(v: int, width: nat)
    requires |Signed(v)| <= width
    ensures Conv(v, width, false) == Repeat(' ', width - |Signed(v)|) + Signed(v)
  {
    var sign := if v < 0 then "-" else "";
    var body := Digits(Abs(v));
    if |Signed(v)| == width {
      assert Repeat(' ', 0) + Signed(v) == Signed(v);
    } else {
      assert Repeat(' ', width - |Signed(v)|) + sign + body == Repeat(' ', width - |Signed(v)|) + (sign + body);
    }
  }

  /** The sign goes before the zeros of `%0Wd` and after the spaces of `%Wd`. */
  lemma {:induction false} ConvExamples()
    ensures Conv(5, 2, true) == "05"
    ensures Conv(99, 4, false) == "  99"
    ensures Conv(-5, 3, true) == "-05"
    ensures Conv(-5, 3, false) == " -5"
    ensures Conv(123, 2, true) == "123"
  {
    assert Digits(5) == "5";
    assert Digits(99) == "99" by {
      assert Digits(9) == "9";
    }
    assert Digits(123) == "123" by {
      assert Digits(1) == "1";
      assert Digits(12) == "12";
    }
  }

  /**
    Reads back an integer written by a `%d` conversion: optional leading
    spaces, an optional '-', then at least one digit and nothing else.
  */
  function ParseInt(s: string): Option<int>
    decreases |s|
  {
    if |s| > 0 && s[0] == ' ' then ParseInt(s[1..])
    else if |s| > 0 && s[0] == '-' then
      match ReadNat(s[1..])
      case Some(n) => Some(-(n as int))
      case None => None
    else
      match ReadNat(s)
      case Some(n) => Some(n as int)
      case None => None
  }

  /** The value of a non-empty string of digits, or `None` if there is anything else. */
  function ReadNat(s: string): Option<nat>
    decreases |s|
  {
    if |s| == 0 || !IsDigit(s[|s| - 1]) then None
    else
      var d := s[|s| - 1] as int - '0' as int;
      if |s| == 1 then Some(d)
      else
        match ReadNat(s[..|s| - 1])
        case Some(n) => Some(n * 10 + d)
        case None => None
  }

  lemma {:induction false} ReadNatValue(s: string)
    requires 0 < |s| && AllDigits(s)
    ensures ReadNat(s) == Some(Value(s))
    decreases |s|
  {
    if |s| > 1 {
      ReadNatValue(s[..|s| - 1]);
    } else {
      assert s[..0] == [];
    }
  }

  lemma {:induction false} ValueZeros(k: nat, s: string)
    requires AllDigits(s)
    ensures AllDigits(Repeat('0', k) + s)
    ensures Value(Repeat('0', k) + s) == Value(s)
    decreases |s|
  {
    var z := Repeat('0', k);
    if |s| == 0 {
      assert z + s == z;
      ZerosValue(k);
    } else {
      var front := s[..|s| - 1];
      ValueZeros(k, front);
      assert (z + s)[..|z + s| - 1] == z + front;
    }
  }

  lemma {:induction false} ZerosValue(k: nat)
    ensures Value(Repeat('0', k)) == 0
    decreases k
  {
    if k > 0 {
      assert Repeat('0', k)[..k - 1] == Repeat('0', k - 1);
      ZerosValue(k - 1);
    }
  }

  /** Digits alone read back as their value. */
  lemma {:induction false} ParseDigits(x: string)
    requires 0 < |x| && AllDigits(x)
    ensures ParseInt(x) == Some(Value(x))
  {
    assert x[0] != ' ';
    ReadNatValue(x);
  }

  /** A '-' before digits reads back as the negated value. */
  lemma {:induction false} ParseMinus(x: string)
    requires 0 < |x| && AllDigits(x)
    ensures ParseInt("-" + x) == Some(-(Value(x) as int))
  {
    var t := "-" + x;
    assert t[0] == '-' && t[1..] == x;
    ReadNatValue(x);
  }

  /** Digits, zero-padded or not, after the sign of `v`, read back as `v`. */
  lemma {:induction false} ParseSigned(v: int, pad: string)
    requires AllDigits(pad + Digits(Abs(v))) && Value(pad + Digits(Abs(v))) == Abs(v)
    ensures ParseInt((if v < 0 then "-" else "") + pad + Digits(Abs(v))) == Some(v)
  {
    var body := pad + Digits(Abs(v));
    if v < 0 {
      ParseMinus(body);
      assert "-" + pad + Digits(Abs(v)) == "-" + body;
    } else {
      ParseDigits(body);
      assert "" + pad + Digits(Abs(v)) == body;
    }
  }

  /** Every `%Wd` and `%0Wd` conversion reads back as the value converted. */
  lemma {:induction false} ConvRoundTrip(v: int, width: nat, zeroPad: bool)
    ensures ParseInt(Conv(v, width, zeroPad)) == Some(v)
  {
    var len := (if v < 0 then 1 else 0) + |Digits(Abs(v))|;
    DigitsValue(Abs(v));
    if len >= width {
      UnpaddedRoundTrip(v);
    } else if zeroPad {
      ValueZeros(width - len, Digits(Abs(v)));
      ParseSigned(v, Repeat('0', width - len));
    } else {
      SpacePaddedRoundTrip(v, width - len);
    }
  }

  lemma {:induction false} UnpaddedRoundTrip(v: int)
    ensures ParseInt((if v < 0 then "-" else "") + Digits(Abs(v))) == Some(v)
  {
    var body := Digits(Abs(v));
    if v < 0 {
      assert ParseInt("-" + body) == Some(v) by {
        DigitsValue(Abs(v));
        ParseMinus(body);
      }
    } else {
      assert ParseInt(body) == Some(v) by {
        DigitsValue(Abs(v));
        ParseDigits(body);
      }
      assert "" + body == body;
    }
  }

  lemma {:induction false} ParseAfterSpaces(k: nat, x: string)
    requires |x| == 0 || x[0] != ' '
    ensures ParseInt(Repeat(' ', k) + x) == ParseInt(x)
    decreases k
  {
    if k > 0 {
      assert (Repeat(' ', k) + x)[1..] == Repeat(' ', k - 1) + x;
      ParseAfterSpaces(k - 1, x);
    } else {
      assert Repeat(' ', k) + x == x;
    }
  }

  lemma {:induction false} SpacePaddedRoundTrip(v: int, k: nat)
    ensures ParseInt(Repeat(' ', k) + (if v < 0 then "-" else "") + Digits(Abs(v))) == Some(v)
  {
    var rest := (if v < 0 then "-" else "") + Digits(Abs(v));
    assert rest[0] != ' ';
    ParseAfterSpaces(k, rest);
    UnpaddedRoundTrip(v);
    assert Repeat(' ', k) + (if v < 0 then "-" else "") + Digits(Abs(v)) == Repeat(' ', k) + rest;
  }

  /** A value of at most `width` digits fills the field exactly. */
  lemma {:induction false} ConvWidth(v: nat, width: nat, zeroPad: bool)
    requires 0 < width && v < Pow10(width)
    ensures |Conv(v, width, zeroPad)| == width
    ensures AllDigits(Conv(v, width, zeroPad)) || !zeroPad
  {
    var k := DigitCount(v, width);
    DigitsLength(v, k);
    if k < width && zeroPad {
      assert "" + Repeat('0', width - k) + Digits(v) == Repeat('0', width - k) + Digits(v);
      ValueZeros(width - k, Digits(v));
    }
  }

  lemma {:induction false} DigitCount(v: nat, width: nat) returns (k: nat)
    requires 0 < width && v < Pow10(width)
    ensures 0 < k <= width && (k == 1 || Pow10(k - 1) <= v) && v < Pow10(k)
    decreases width
  {
    if width > 1 && v < Pow10(width - 1) {
      k := DigitCount(v, width - 1);
    } else {
      k := width;
    }
  }

  /** The fields of `struct tm` that `d3l_sys_time` prints. */
  datatype Tm = Tm(year: int, mon: int, mday: int, hour: int, min: int, sec: int)

  const TimeHead: string := "D3L::Time:"

  /** The text `d3l_sys_time` formats for the broken-down time `t`. */
  function FormatTime(t: Tm): string
  {
    TimeHead + Conv(t.year + 1900, 4, false) + "-" + Conv(t.mon + 1, 2, true) + "-" +
    Conv(t.mday, 2, true) + " " + Conv(t.hour, 2, true) + ":" + Conv(t.min, 2, true) + ":" +
    Conv(t.sec, 2, true)
  }

  /** Fields as `localtime` fills them, for a year from 1000 to 9999. */
  predicate InRange(t: Tm)
  {
    1000 <= t.year + 1900 <= 9999 && 0 <= t.mon <= 11 && 1 <= t.mday <= 31 &&
    0 <= t.hour <= 23 && 0 <= t.min <= 59 && 0 <= t.sec <= 60
  }

  /** Reads a time stamp of the 29-character layout back into its fields. */
  function ParseTime(s: string): Option<Tm>
  {
    if |s| != 29 || s[..10] != TimeHead || s[14] != '-' || s[17] != '-' || s[20] != ' ' ||
       s[23] != ':' || s[26] != ':' then None
    else
      match (ParseInt(s[10..14]), ParseInt(s[15..17]), ParseInt(s[18..20]),
             ParseInt(s[21..23]), ParseInt(s[24..26]), ParseInt(s[27..29]))
      case (Some(y), Some(mo), Some(d), Some(h), Some(mi), Some(se)) =>
        Some(Tm(y - 1900, mo - 1, d, h, mi, se))
      case _ => None
  }

  /** Two zero-padded digits. */
  lemma {:induction false} TwoDigits(v: int)
    requires 0 <= v < 100
    ensures |Conv(v, 2, true)| == 2 && AllDigits(Conv(v, 2, true))
    ensures ParseInt(Conv(v, 2, true)) == Some(v)
  {
    ConvWidth(v, 2, true);
    ConvRoundTrip(v, 2, true);
  }

  /** A four-digit year fills its field with digits. */
  lemma {:induction false} FourDigits(v: int)
    requires 1000 <= v <= 9999
    ensures Conv(v, 4, false) == Digits(v) && |Digits(v)| == 4
    ensures ParseInt(Conv(v, 4, false)) == Some(v)
  {
    assert Pow10(3) == 1000 && Pow10(4) == 10000;
    DigitsLength(v, 4);
    assert "" + Digits(v) == Digits(v);
    ConvRoundTrip(v, 4, false);
  }

  /** The pieces of a time stamp sit at fixed places. */
  lemma {:induction false} TimeSlices(a: string, b: string, c: string, d: string, e: string, f: string)
    requires |a| == 4 && |b| == 2 && |c| == 2 && |d| == 2 && |e| == 2 && |f| == 2
    ensures var s := TimeHead + a + "-" + b + "-" + c + " " + d + ":" + e + ":" + f;
            |s| == 29 && s[..10] == TimeHead && s[10..14] == a && s[14] == '-' &&
            s[15..17] == b && s[17] == '-' && s[18..20] == c && s[20] == ' ' &&
            s[21..23] == d && s[23] == ':' && s[24..26] == e && s[26] == ':' && s[27..29] == f
  {
    var p1 := TimeHead + a;
    var p3 := p1 + "-" + b;
    var p5 := p3 + "-" + c;
    var p7 := p5 + " " + d;
    var p9 := p7 + ":" + e;
    var s := p9 + ":" + f;
    assert s[..26] == p9 && s[27..29] == f && s[26] == ':';
    assert p9[..23] == p7 && p9[24..26] == e && p9[23] == ':';
    assert p7[..20] == p5 && p7[21..23] == d && p7[20] == ' ';
    assert p5[..17] == p3 && p5[18..20] == c && p5[17] == '-';
    assert p3[..14] == p1 && p3[15..17] == b && p3[14] == '-';
    assert p1[..10] == TimeHead && p1[10..14] == a;
    assert s[..23] == p7 by {
      assert s[..26][..23] == s[..23];
    }
    assert s[..20] == p5 by {
      assert s[..23][..20] == s[..20];
    }
    assert s[..17] == p3 by {
      assert s[..20][..17] == s[..17];
    }
    assert s[..14] == p1 by {
      assert s[..17][..14] == s[..14];
    }
    assert s[10..14] == s[..14][10..];
    assert s[15..17] == s[..17][15..];
    assert s[18..20] == s[..20][18..];
    assert s[21..23] == s[..23][21..];
    assert s[24..26] == s[..26][24..];
    assert s[..10] == s[..14][..10];
  }

  /** A time stamp whose fields have the expected widths and read back reads back as a whole. */
  lemma {:induction false} ParseTimeOf(t: Tm)
    requires |Conv(t.year + 1900, 4, false)| == 4 && ParseInt(Conv(t.year + 1900, 4, false)) == Some(t.year + 1900)
    requires |Conv(t.mon + 1, 2, true)| == 2 && ParseInt(Conv(t.mon + 1, 2, true)) == Some(t.mon + 1)
    requires |Conv(t.mday, 2, true)| == 2 && ParseInt(Conv(t.mday, 2, true)) == Some(t.mday)
    requires |Conv(t.hour, 2, true)| == 2 && ParseInt(Conv(t.hour, 2, true)) == Some(t.hour)
    requires |Conv(t.min, 2, true)| == 2 && ParseInt(Conv(t.min, 2, true)) == Some(t.min)
    requires |Conv(t.sec, 2, true)| == 2 && ParseInt(Conv(t.sec, 2, true)) == Some(t.sec)
    ensures |FormatTime(t)| == 29
    ensures ParseTime(FormatTime(t)) == Some(t)
  {
    TimeSlices(Conv(t.year + 1900, 4, false), Conv(t.mon + 1, 2, true), Conv(t.mday, 2, true),
               Conv(t.hour, 2, true), Conv(t.min, 2, true), Conv(t.sec, 2, true));
  }

  /** No conversion writes a NUL or a line break. */
  lemma {:induction false} ConvPlain(v: int, width: nat, zeroPad: bool)
    ensures '\0' !in Conv(v, width, zeroPad) && '\n' !in Conv(v, width, zeroPad)
  {
    var body := Digits(Abs(v));
    assert '\0' !in body && '\n' !in body by {
      forall i | 0 <= i < |body|
        ensures body[i] != '\0' && body[i] != '\n'
      {
        assert IsDigit(body[i]);
      }
    }
    var len := (if v < 0 then 1 else 0) + |body|;
    if len < width {
      var k := width - len;
      assert '\0' !in Repeat('0', k) && '\n' !in Repeat('0', k);
      assert '\0' !in Repeat(' ', k) && '\n' !in Repeat(' ', k);
    }
  }

  /** A time stamp holds no NUL and no line break. */
  lemma {:induction false} FormatTimePlain(t: Tm)
    ensures NoNul(FormatTime(t)) && '\n' !in FormatTime(t)
  {
    var a := Conv(t.year + 1900, 4, false);
    var b := Conv(t.mon + 1, 2, true);
    var c := Conv(t.mday, 2, true);
    var d := Conv(t.hour, 2, true);
    var e := Conv(t.min, 2, true);
    var f := Conv(t.sec, 2, true);
    ConvPlain(t.year + 1900, 4, false);
    ConvPlain(t.mon + 1, 2, true);
    ConvPlain(t.mday, 2, true);
    ConvPlain(t.hour, 2, true);
    ConvPlain(t.min, 2, true);
    ConvPlain(t.sec, 2, true);
    PlainJoin(a, b, c, d, e, f);
  }

  lemma {:induction false} PlainJoin(a: string, b: string, c: string, d: string, e: string, f: string)
    requires '\0' !in a && '\0' !in b && '\0' !in c && '\0' !in d && '\0' !in e && '\0' !in f
    requires '\n' !in a && '\n' !in b && '\n' !in c && '\n' !in d && '\n' !in e && '\n' !in f
    ensures var s := TimeHead + a + "-" + b + "-" + c + " " + d + ":" + e + ":" + f;
            '\0' !in s && '\n' !in s
  {
    var s1 := TimeHead + a + "-";
    assert '\0' !in s1 && '\n' !in s1;
    var s2 := s1 + b + "-";
    assert '\0' !in s2 && '\n' !in s2;
    var s3 := s2 + c + " ";
    assert '\0' !in s3 && '\n' !in s3;
    var s4 := s3 + d + ":";
    assert '\0' !in s4 && '\n' !in s4;
    var s5 := s4 + e + ":";
    assert '\0' !in s5 && '\n' !in s5;
  }

  /**
    For in-range fields the time stamp is 29 characters, fits the 35-byte
    buffer with its NUL, has no line break, and reads back as the fields.
  */
  lemma {:induction false} FormatTimeLayout(t: Tm)
    requires InRange(t)
    ensures |FormatTime(t)| == 29 && |FormatTime(t)| < 35
    ensures '\n' !in FormatTime(t)
    ensures ParseTime(FormatTime(t)) == Some(t)
    ensures var s := FormatTime(t);
            AllDigits(s[10..14]) && AllDigits(s[15..17]) && AllDigits(s[18..20]) &&
            AllDigits(s[21..23]) && AllDigits(s[24..26]) && AllDigits(s[27..29])
  {
    FormatTimeParse(t);
    FormatTimePlain(t);
    FormatTimeDigits(t);
  }

  /**
    For in-range fields every number of the time stamp is written in digits
    only: the year fills its four places, and the `0` flag pads the other
    fields with zeros, never spaces.
  */
  lemma {:induction false} FormatTimeDigits(t: Tm)
    requires InRange(t)
    ensures var s := FormatTime(t);
            |s| == 29 &&
            AllDigits(s[10..14]) && AllDigits(s[15..17]) && AllDigits(s[18..20]) &&
            AllDigits(s[21..23]) && AllDigits(s[24..26]) && AllDigits(s[27..29])
  {
    FourDigits(t.year + 1900);
    TwoDigits(t.mon + 1);
    TwoDigits(t.mday);
    TwoDigits(t.hour);
    TwoDigits(t.min);
    TwoDigits(t.sec);
    TimeSlices(Conv(t.year + 1900, 4, false), Conv(t.mon + 1, 2, true), Conv(t.mday, 2, true),
               Conv(t.hour, 2, true), Conv(t.min, 2, true), Conv(t.sec, 2, true));
  }

  lemma {:induction false} FormatTimeParse(t: Tm)
    requires InRange(t)
    ensures |FormatTime(t)| == 29
    ensures ParseTime(FormatTime(t)) == Some(t)
  {
    FourDigits(t.year + 1900);
    TwoDigits(t.mon + 1);
    TwoDigits(t.mday);
    TwoDigits(t.hour);
    TwoDigits(t.min);
    TwoDigits(t.sec);
    ParseTimeOf(t);
  }

  /**
    A year with ten digits makes the text 35 characters: with its NUL that is
    one byte more than the buffer `d3l_sys_time` allocates.
  */
  lemma {:induction false} FormatTimeOverflow()
    ensures |FormatTime(Tm(2147481747, 0, 1, 0, 0, 0))| == 35
  {
    var t := Tm(2147481747, 0, 1, 0, 0, 0);
    assert Pow10(10) == 10000000000;
    DigitsLength(2147483647, 10);
    TwoDigits(1);
    TwoDigits(0);
  }

  /** `d3l_sys_time`: a fresh zero-filled 35-byte buffer holding the time stamp. */
  method SysTimeText(t: Tm) returns (buf: array<char>, status: int)
    requires |FormatTime(t)| < 35
    ensures fresh(buf) && buf.Length == 35
    ensures CStr(buf[..]) == FormatTime(t)
    ensures status == 0
  {
    FormatTimePlain(t);
    buf := NewText(FormatTime(t), 35);
    status := 0;
  }

  /** A `struct timeval`: seconds and microseconds. */
  datatype TimeVal = TimeVal(sec: int, usec: int)

  const CostHead: string := "D3l:Cost time: "

  /**
    The line `d3l_sys_time_up` formats for the difference of the seconds
    `dsec` and the difference of the microseconds `dusec`, each taken on its
    own, as two `%8ld` conversions.
  */
  function CostText(dsec: int, dusec: int): string
  {
    CostLine(Conv(dsec, 8, false), Conv(dusec, 8, false))
  }

  /** The elapsed-time line around its two printed fields. */
  function CostLine(a: string, b: string): string
  {
    CostHead + a + " sec " + b + " usec\n"
  }

  /** A signed value fits a field of `width` characters, sign included. */
  predicate FitsField(v: int, width: nat)
  {
    0 < width && (if v >= 0 then v < Pow10(width) else width > 1 && -v < Pow10(width - 1))
  }

  /** A value that fits its field is padded to exactly the field width. */
  lemma {:induction false} ConvFits(v: int, width: nat, zeroPad: bool)
    requires FitsField(v, width)
    ensures |Conv(v, width, zeroPad)| == width
  {
    if v >= 0 {
      var k := DigitCount(v, width);
      DigitsLength(v, k);
    } else {
      var k := DigitCount(-v, width - 1);
      DigitsLength(-v, k);
    }
  }

  /** The pieces of the elapsed-time line sit at fixed places. */
  lemma {:induction false} CostSlices(a: string, b: string)
    requires |a| == 8 && |b| == 8
    ensures var s := CostLine(a, b);
            |s| == 42 && s[15..23] == a && s[28..36] == b && s[41] == '\n'
    ensures var s := CostLine(a, b);
            |s| == 42 && s[..15] == "D3l:Cost time: " && s[23..28] == " sec " && s[36..41] == " usec"
  {
    var p1 := CostHead + a;
    var p3 := p1 + " sec " + b;
    var s := p3 + " usec\n";
    assert s[..36] == p3;
    assert p3[..23] == p1 && p3[28..36] == b && p3[23..28] == " sec ";
    assert s[..23] == p1 by {
      assert s[..36][..23] == s[..23];
    }
    assert s[..15] == s[..23][..15];
    assert s[15..23] == s[..23][15..];
    assert s[23..28] == s[..36][23..28];
    assert s[28..36] == s[..36][28..];
    assert s[36..41] == " usec";
  }

  /**
    When both differences fit eight characters the line is 42 characters,
    fits the 50-byte buffer with its NUL, ends in a line break, holds the
    fixed head and unit words around its two fields, each field is spaces
    then the unpadded number, and the two numbers read back as the two
    differences.
  */
  lemma {:induction false} CostTextLayout(dsec: int, dusec: int)
    requires FitsField(dsec, 8) && FitsField(dusec, 8)
    ensures var s := CostText(dsec, dusec);
            |s| == 42 && |s| < 50 && s[41] == '\n' &&
            ParseInt(s[15..23]) == Some(dsec) && ParseInt(s[28..36]) == Some(dusec)
    ensures var s := CostText(dsec, dusec);
            var x, y := Signed(dsec), Signed(dusec);
            |x| <= 8 && |y| <= 8 &&
            s[15..23] == Repeat(' ', 8 - |x|) + x && s[28..36] == Repeat(' ', 8 - |y|) + y
    ensures var s := CostText(dsec, dusec);
            s[..15] == "D3l:Cost time: " && s[23..28] == " sec " && s[36..41] == " usec"
  {
    var a, b := Conv(dsec, 8, false), Conv(dusec, 8, false);
    FieldReadsBack(dsec);
    FieldReadsBack(dusec);
    CostSlices(a, b);
    LineReadsBack(a, b, dsec, dusec);
    FieldPadding(dsec);
    FieldPadding(dusec);
    LinePadding(a, b, Signed(dsec), Signed(dusec));
  }

  /** Fields padded on the left with spaces stay so inside the line. */
  lemma {:induction false} LinePadding(a: string, b: string, x: string, y: string)
    requires |x| <= 8 && |y| <= 8
    requires a == Repeat(' ', 8 - |x|) + x && b == Repeat(' ', 8 - |y|) + y
    ensures var s := CostLine(a, b);
            |s| == 42 && s[15..23] == Repeat(' ', 8 - |x|) + x && s[28..36] == Repeat(' ', 8 - |y|) + y
  {
    CostSlices(a, b);
  }

  /** The two eight-character fields of the line read back as what was printed in them. */
  lemma {:induction false} LineReadsBack(a: string, b: string, x: int, y: int)
    requires |a| == 8 && |b| == 8 && ParseInt(a) == Some(x) && ParseInt(b) == Some(y)
    ensures var s := CostLine(a, b);
            |s| == 42 && s[41] == '\n' && ParseInt(s[15..23]) == Some(x) && ParseInt(s[28..36]) == Some(y)
  {
    CostSlices(a, b);
  }

  /** A value that fits an eight-character field fills it and reads back. */
  lemma {:induction false} FieldReadsBack(v: int)
    requires FitsField(v, 8)
    ensures |Conv(v, 8, false)| == 8 && ParseInt(Conv(v, 8, false)) == Some(v)
  {
    ConvFits(v, 8, false);
    ConvRoundTrip(v, 8, false);
  }

  /** A value that fits an eight-character field fills it with spaces, then its unpadded text. */
  lemma {:induction false} FieldPadding(v: int)
    requires FitsField(v, 8)
    ensures |Conv(v, 8, false)| == 8
    ensures |Signed(v)| <= 8 && Conv(v, 8, false) == Repeat(' ', 8 - |Signed(v)|) + Signed(v)
  {
    ConvFits(v, 8, false);
    ConvSpacePadded(v, 8);
  }

  /**
    The two printed differences are not normalised, but read back from the
    line they give the elapsed time in microseconds.
  */
  lemma {:induction false} CostFieldsTotal(start: TimeVal, end: TimeVal)
    requires FitsField(end.sec - start.sec, 8) && FitsField(end.usec - start.usec, 8)
    ensures var s := CostText(end.sec - start.sec, end.usec - start.usec);
            |s| == 42 && ParseInt(s[15..23]).Some? && ParseInt(s[28..36]).Some? &&
            ParseInt(s[15..23]).value * 1000000 + ParseInt(s[28..36]).value ==
              (end.sec * 1000000 + end.usec) - (start.sec * 1000000 + start.usec)
  {
    FieldsTotal(end.sec - start.sec, end.usec - start.usec);
  }

  lemma {:induction false} FieldsTotal(dsec: int, dusec: int)
    requires FitsField(dsec, 8) && FitsField(dusec, 8)
    ensures var s := CostText(dsec, dusec);
            |s| == 42 && ParseInt(s[15..23]).Some? && ParseInt(s[28..36]).Some? &&
            ParseInt(s[15..23]).value * 1000000 + ParseInt(s[28..36]).value == dsec * 1000000 + dusec
  {
    CostTextLayout(dsec, dusec);
  }

  /** An elapsed 0.2 s that crosses a second boundary prints 1 sec and -800000 usec. */
  lemma {:induction false} CostTextNegativeUsec()
    ensures var start, end := TimeVal(1, 900000), TimeVal(2, 100000);
            var s := CostText(end.sec - start.sec, end.usec - start.usec);
            ParseInt(s[15..23]) == Some(1) && ParseInt(s[28..36]) == Some(-800000)
  {
    assert Pow10(7) == 10000000 && Pow10(8) == 100000000;
    CostTextLayout(1, -800000);
  }

  /** The elapsed-time line holds no NUL. */
  lemma {:induction false} CostTextPlain(dsec: int, dusec: int)
    ensures NoNul(CostText(dsec, dusec))
  {
    ConvPlain(dsec, 8, false);
    ConvPlain(dusec, 8, false);
    LinePlain(Conv(dsec, 8, false), Conv(dusec, 8, false));
  }

  lemma {:induction false} LinePlain(a: string, b: string)
    requires NoNul(a) && NoNul(b)
    ensures NoNul(CostLine(a, b))
  {
    var p := CostHead + a + " sec ";
    assert '\0' !in p;
  }

  /**
    `d3l_sys_time_up`: a fresh zero-filled 50-byte buffer holding the line for
    the differences of the end and start fields.
  */
  method SysTimeUpText(start: TimeVal, end: TimeVal) returns (buf: array<char>, status: int)
    requires |CostText(end.sec - start.sec, end.usec - start.usec)| < 50
    ensures fresh(buf) && buf.Length == 50
    ensures CStr(buf[..]) == CostText(end.sec - start.sec, end.usec - start.usec)
    ensures status == 0
  {
    var dsec, dusec := end.sec - start.sec, end.usec - start.usec;
    CostTextPlain(dsec, dusec);
    buf := NewText(CostText(dsec, dusec), 50);
    status := 0;
  }
}
