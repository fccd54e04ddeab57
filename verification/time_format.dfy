/** The audio player's clock display: `formatTime(seconds)` renders a
    position or duration as minutes and seconds, each padded to two digits. */
module TimeFormat {
  import opened JsText
  import opened JsNumber

  /** `s.padStart(2, '0')`. */
  function Pad2(s: string): string {
    PadStart(s, 2, '0')
  }

  /** `formatTime(seconds)`. NaN (the duration before metadata has loaded)
      shows "00:00". Otherwise the minutes are `floor(seconds / 60)` and the
      seconds `floor(seconds % 60)`, both turned into strings and padded. An
      infinite duration gives infinite minutes and a NaN remainder. So NaN
      shows the clock of zero seconds, and a non-negative time shows the
      clock of its whole seconds: the fraction is dropped, never rounded. */
  function FormatTime(seconds: Number): (r: string)
    ensures seconds.NaN? ==> r == Clock(0)
    ensures seconds.Finite? && seconds.value >= 0.0 ==> r == Clock(seconds.value.Floor)
  {
    match seconds
    case NaN => ClockOfZero(); "00:00"
    case PosInfinity => "Infinity:NaN"
    case NegInfinity => "-Infinity:NaN"
    case Finite(x) =>
      var face := Face((x / 60.0).Floor, Rem(x, 60.0).Floor);
      if x >= 0.0 then FloorDivision(x); face else face
  }

  /** Minutes and seconds, each printed and padded to two places, joined
      by a colon. */
  function Face(mins: int, secs: int): string {
    Pad2(IntToString(mins)) + ":" + Pad2(IntToString(secs))
  }

  /** The clock face for a whole number of seconds: minutes and seconds as
      the division and remainder by 60. */
  function Clock(n: nat): string {
    Face(n / 60, n % 60)
  }

  /** For a non-negative finite time, the minutes and seconds computed on
      the real value agree with those of its whole seconds. */
  lemma FloorDivision(x: real)
    requires x >= 0.0
    ensures (x / 60.0).Floor == x.Floor / 60
    ensures Rem(x, 60.0).Floor == x.Floor % 60
  {
    var n := x.Floor;
    var q, r := n / 60, n % 60;
    assert n == 60 * q + r && 0 <= r < 60;
    assert n as real <= x < n as real + 1.0;
    assert q as real <= x / 60.0 by {
      assert (60 * q) as real <= x;
    }
    assert x / 60.0 < q as real + 1.0 by {
      assert x < (60 * q + r + 1) as real;
      assert (60 * q + r + 1) as real <= (60 * (q + 1)) as real;
    }
    assert (x / 60.0).Floor == q;
    assert Trunc(x / 60.0) == q;
    assert Rem(x, 60.0) == x - (60 * q) as real;
    assert r as real <= Rem(x, 60.0) < r as real + 1.0;
  }

  /** A number below 100 padded to two places reads back as itself. */
  lemma Pad2Value(m: nat)
    requires m < 100
    ensures |Pad2(NatToString(m))| == 2
    ensures AllDigits(Pad2(NatToString(m)))
    ensures DigitsValue(Pad2(NatToString(m))) == m
  {
    var s := NatToString(m);
    NatToStringValue(m);
    NatToStringLength(m);
    var p := Pad2(s);
    if m < 10 {
      assert p == ['0', s[0]];
      assert p[..1] == ['0'];
      assert s[..0] == [];
    } else {
      assert p == s;
    }
  }

  /** Below 100 minutes the clock face has the shape `MM:SS`, and reading
      its two fields back (minutes times 60 plus seconds, the seconds field
      below 60) recovers the number of seconds. */
  lemma ClockRoundTrip(n: nat)
    requires n < 6000
    ensures var c := Clock(n);
      && |c| == 5 && c[2] == ':'
      && AllDigits(c[..2]) && AllDigits(c[3..])
      && DigitsValue(c[3..]) < 60
      && DigitsValue(c[..2]) * 60 + DigitsValue(c[3..]) == n
  {
    FaceRoundTrip(n / 60, n % 60);
  }

  /** The round trip for minutes below 100 and seconds below 60. */
  lemma FaceRoundTrip(m: nat, s: nat)
    requires m < 100 && s < 60
    ensures var c := Face(m, s);
      && |c| == 5 && c[2] == ':'
      && AllDigits(c[..2]) && AllDigits(c[3..])
      && DigitsValue(c[3..]) == s
      && DigitsValue(c[..2]) == m
  {
    Pad2Value(m);
    Pad2Value(s);
    var a, b := Pad2(NatToString(m)), Pad2(NatToString(s));
    Fields(a, b);
    FaceOfNaturals(m, s);
  }

  /** For natural numbers the face prints them without a sign. */
  lemma FaceOfNaturals(m: nat, s: nat)
    ensures Face(m, s) == Pad2(NatToString(m)) + ":" + Pad2(NatToString(s))
  {
    assert IntToString(m) == NatToString(m);
    assert IntToString(s) == NatToString(s);
  }

  /** Two two-character fields joined by a colon sit at the expected places. */
  lemma Fields(a: string, b: string)
    requires |a| == 2 && |b| == 2
    ensures var c := a + ":" + b; |c| == 5 && c[2] == ':' && c[..2] == a && c[3..] == b
  {
    var c := a + ":" + b;
    assert c[..2] == a;
    assert c[3..] == b;
  }

  /** From 100 minutes on, the minutes field outgrows its two places. */
  lemma ClockWidens(n: nat)
    requires n >= 6000
    ensures |Clock(n)| > 5
  {
    WideFace(n / 60, n % 60);
  }

  /** A minutes field of three digits or more widens the face. */
  lemma WideFace(mins: nat, secs: nat)
    requires mins >= 100
    ensures |Face(mins, secs)| > 5
  {
    NatToStringLength(mins);
  }

  /** Zero seconds show as "00:00". */
  lemma ClockOfZero()
    ensures Clock(0) == "00:00"
  {
    var zero := NatToString(0);
    assert zero == ['0'] by {
      assert DigitChar(0) == '0';
    }
    var padded := Pad2(zero);
    assert padded == ['0', '0'] by {
      assert PadStart(['0'], 2, '0') == PadStart(['0', '0'], 2, '0');
    }
    assert 0 / 60 == 0 && 0 % 60 == 0;
    assert Clock(0) == padded + ":" + padded;
  }
}
