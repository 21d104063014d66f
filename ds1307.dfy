/** The DS1307 real-time clock driver without its I2C transfers: the packed-BCD
    register image written by `setDateTimeBCD`, the decoding done by `parseData`,
    and the text produced by `makeStr`. */
module Ds1307 {
  import opened Bits

  /** Register offsets inside the chip's seven time-keeping registers. */
  const SecOff: nat := 0
  const MinOff: nat := 1
  const HourOff: nat := 2
  const DowOff: nat := 3
  const DateOff: nat := 4
  const MonthOff: nat := 5
  const YearOff: nat := 6

  /** The values of the driver's mode enumeration (AM, PM, 24-hour). */
  const ModeAM: int := 0
  const ModePM: int := 1
  const Mode24: int := 0x100

  /** The packed-BCD byte of a decimal value below 100: tens in the high nibble,
      units in the low nibble. */
  function ToBcd(v: nat): Byte
    requires v < 100
  {
    (v / 10) * 16 + v % 10
  }

  /* ---------------------------------------------------------------- encoding */

  /** `v & mask` stored into a byte, for an `int` argument: only the argument's low
      eight bits (two's complement, which Dafny's `%` yields for negative values too)
      can survive a mask below 0x100. */
  function Masked(v: int, mask: Byte): (r: Byte)
    ensures r <= mask
  {
    AndBound(v % 0x100, mask);
    And(v % 0x100, mask)
  }

  /** The hour register: the 5-bit hour, with bit 0x20 set for PM. Bit 0x40 (the
      12-hour flag of the chip) is never set. */
  function HourRegister(h: int, pm: bool): (r: Byte)
    ensures r < 0x40
    ensures BitSet(r, 5) == pm
  {
    var b := Masked(h, 0x1f);
    assert Pow2(5) == 0x20;
    HourBit(b, pm);
    if pm then
      OrHighBit(b, 5);
      Or(b, 0x20)
    else
      b
  }

  lemma HourBit(b: nat, pm: bool)
    requires b < 0x20
    ensures BitSet(b + (if pm then 0x20 else 0), 5) == pm
  {
    assert Pow2(5) == 0x20;
    var r := b + (if pm then 0x20 else 0);
    DivModUnique(r, 0x20, if pm then 1 else 0, b);
  }

  /* ---------------------------------------------------------------- decoding */

  /** `BCD_Byte(x, h, l)`: the low digit masked by l plus ten times the high digit
      masked by h. */
  function BcdByte(x: Byte, h: Byte, l: Byte): (r: nat)
    ensures r <= l + 10 * h
  {
    AndBound(x, l);
    AndHighNibble(x, h);
    AndBound(x / 16, h);
    And(x, l) + And(x, h * 16) / 16 * 10
  }

  /** A tens mask of the form 2^k - 1 that `parseData` uses. */
  predicate TensMask(h: Byte)
  {
    h == 0x1 || h == 0x3 || h == 0x7 || h == 0xf
  }

  /** `BCD_Byte` with the low-nibble mask 0xf reads the two nibbles as decimal digits,
      the high one cut to the bits of the tens mask. */
  lemma BcdByteDigits(x: Byte, h: Byte)
    requires TensMask(h)
    ensures BcdByte(x, h, 0xf) == (x / 16) % (h + 1) * 10 + x % 16
  {
    AndLowMaskConst(x, 0xf);
    AndHighNibble(x, h);
    AndLowMaskConst(x / 16, h);
  }

  /** A byte whose nibbles are decimal digits t <= h and u <= 9 decodes to 10t + u. */
  lemma BcdByteOfDigits(t: nat, u: nat, h: Byte)
    requires TensMask(h) && t <= h && u <= 9
    ensures 16 * t + u < 0x100
    ensures BcdByte(16 * t + u, h, 0xf) == 10 * t + u
  {
    var x := 16 * t + u;
    BcdByteDigits(x, h);
    assert x / 16 == t && x % 16 == u;
    DivModUnique(t, h + 1, 0, t);
  }

  /** The mode the hour register announces: the 24-hour flag wins over the PM flag. */
  function HourMode(x: Byte): int
  {
    if And(x, 0x40) != 0 then Mode24
    else if And(x, 0x20) != 0 then ModePM
    else ModeAM
  }

  /** HourMode classifies the register by bit 6 first, then bit 5, and nothing else. */
  lemma HourModeBits(x: Byte)
    ensures HourMode(x) == Mode24 <==> BitSet(x, 6)
    ensures HourMode(x) == ModePM <==> !BitSet(x, 6) && BitSet(x, 5)
    ensures HourMode(x) == ModeAM <==> !BitSet(x, 6) && !BitSet(x, 5)
  {
    assert Pow2(6) == 0x40 && Pow2(5) == 0x20;
    AndSingleBit(x, 6);
    AndSingleBit(x, 5);
  }

  /** What `parseData` stores into the driver's eight public fields. */
  datatype DateTime = DateTime(
    sec: int, min: int, hour: int, dow: int, day: int, month: int, year: int, mode: int)

  /** The decoding of the seven registers read from the chip. */
  function Decode(buf: seq<Byte>): (t: DateTime)
    requires |buf| >= 7
    ensures 0 <= t.sec <= 85 && 0 <= t.min <= 85 && 0 <= t.hour <= 25
    ensures 0 <= t.dow <= 7 && 0 <= t.day <= 45 && 0 <= t.month <= 25 && 0 <= t.year <= 165
    ensures t.mode == ModeAM || t.mode == ModePM || t.mode == Mode24
  {
    AndBound(buf[DowOff], 7);
    DateTime(
      sec := BcdByte(buf[SecOff], 0x7, 0xf),
      min := BcdByte(buf[MinOff], 0x7, 0xf),
      hour := BcdByte(buf[HourOff], 0x1, 0xf),
      dow := And(buf[DowOff], 0x7),
      day := BcdByte(buf[DateOff], 0x3, 0xf),
      month := BcdByte(buf[MonthOff], 0x1, 0xf),
      year := BcdByte(buf[YearOff], 0xf, 0xf),
      mode := HourMode(buf[HourOff]))
  }

  /** A register image agrees with what `setDateTimeBCD` writes for these BCD
      arguments; the day-of-week register is left free. */
  predicate EncodedImage(img: seq<Byte>, y: int, mo: int, d: int, h: int, mi: int, s: int, pm: bool)
  {
    |img| == 7 &&
    img[YearOff] == Masked(y, 0x7f) && img[MonthOff] == Masked(mo, 0x1f) &&
    img[DateOff] == Masked(d, 0x3f) && img[HourOff] == HourRegister(h, pm) &&
    img[MinOff] == Masked(mi, 0x7f) && img[SecOff] == Masked(s, 0x7f)
  }

  /** A value that fits below a low-bit mask passes it unchanged. */
  lemma MaskedIdentity(b: Byte, mask: Byte)
    requires mask == 0x1f || mask == 0x3f || mask == 0x7f
    requires b <= mask
    ensures Masked(b, mask) == b
  {
    assert b % 0x100 == b;
    AndLowMaskConst(b, mask);
    DivModUnique(b, mask + 1, 0, b);
  }

  /** Decoding a digit pair that went through a register mask wide enough for it, with
      a tens mask wide enough for its tens digit. */
  lemma FieldRoundTrip(v: nat, mask: Byte, h: Byte)
    requires v < 100 && TensMask(h) && v / 10 <= h
    requires mask == 0x1f || mask == 0x3f || mask == 0x7f
    requires ToBcd(v) <= mask
    ensures BcdByte(Masked(ToBcd(v), mask), h, 0xf) == v
  {
    var t, u := v / 10, v % 10;
    var b := 16 * t + u;
    assert ToBcd(v) == b;
    MaskedIdentity(b, mask);
    BcdByteOfDigits(t, u, h);
  }

  /** Round trip: decoding the register image of valid BCD arguments returns the
      decimal values and the AM/PM choice. Seconds and minutes up to 79, hours up to
      19, dates up to 39, months up to 19 and years up to 79 survive the masks. */
  lemma RegisterRoundTrip(
    y: nat, mo: nat, d: nat, h: nat, mi: nat, s: nat, pm: bool, img: seq<Byte>)
    requires s < 80 && mi < 80 && h < 20 && d < 40 && mo < 20 && y < 80
    requires EncodedImage(img, ToBcd(y), ToBcd(mo), ToBcd(d), ToBcd(h), ToBcd(mi), ToBcd(s), pm)
    ensures Decode(img).sec == s && Decode(img).min == mi && Decode(img).hour == h
    ensures Decode(img).day == d && Decode(img).month == mo && Decode(img).year == y
    ensures Decode(img).mode == (if pm then ModePM else ModeAM)
  {
    var t := Decode(img);
    assert t.sec == s by { FieldRoundTrip(s, 0x7f, 0x7); }
    assert t.min == mi by { FieldRoundTrip(mi, 0x7f, 0x7); }
    assert t.day == d by { FieldRoundTrip(d, 0x3f, 0x3); }
    assert t.month == mo by { FieldRoundTrip(mo, 0x1f, 0x1); }
    assert t.year == y by { FieldRoundTrip(y, 0x7f, 0xf); }
    assert t.hour == h && t.mode == (if pm then ModePM else ModeAM) by { HourRoundTrip(h, pm); }
  }

  /** The hour register of a BCD hour is the hour with bit 5 added for PM. */
  lemma HourRegisterOfBcd(h: nat, pm: bool)
    requires h < 20
    ensures HourRegister(ToBcd(h), pm) == ToBcd(h) + (if pm then 0x20 else 0)
  {
    var b := ToBcd(h);
    MaskedIdentity(b, 0x1f);
    if pm {
      assert Pow2(5) == 0x20;
      OrHighBit(b, 5);
    }
  }

  /** The hour register decodes to the hour and to PM exactly when pm was given. */
  lemma HourRoundTrip(h: nat, pm: bool)
    requires h < 20
    ensures BcdByte(HourRegister(ToBcd(h), pm), 0x1, 0xf) == h
    ensures HourMode(HourRegister(ToBcd(h), pm)) == (if pm then ModePM else ModeAM)
  {
    HourRegisterOfBcd(h, pm);
    HourDigits(h, pm);
    HourFlag(h, pm);
  }

  lemma HourDigits(h: nat, pm: bool)
    requires h < 20
    ensures BcdByte(ToBcd(h) + (if pm then 0x20 else 0), 0x1, 0xf) == h
  {
    var t, u := h / 10, h % 10;
    var x := ToBcd(h) + (if pm then 0x20 else 0);
    var q := t + (if pm then 2 else 0);
    assert x == 16 * q + u;
    DivModUnique(x, 16, q, u);
    BcdByteDigits(x, 1);
    DivModUnique(q, 2, if pm then 1 else 0, t);
  }

  lemma HourFlag(h: nat, pm: bool)
    requires h < 20
    ensures HourMode(ToBcd(h) + (if pm then 0x20 else 0)) == (if pm then ModePM else ModeAM)
  {
    var x := ToBcd(h) + (if pm then 0x20 else 0);
    HourModeBits(x);
    assert Pow2(6) == 0x40 && Pow2(5) == 0x20;
    DivModUnique(x, 0x40, 0, x);
    DivModUnique(x, 0x20, if pm then 1 else 0, ToBcd(h));
  }

  /** Years 80 to 99 lose their bit 7 to the 0x7f mask and read back 80 lower. */
  lemma YearHighBitLost(y: nat, img: seq<Byte>)
    requires 80 <= y < 100
    requires |img| == 7 && img[YearOff] == Masked(ToBcd(y), 0x7f)
    ensures Decode(img).year == y - 80
  {
    assert BcdByte(img[YearOff], 0xf, 0xf) == y - 80 by {
      var t, u := y / 10 - 8, y % 10;
      DivModUnique(y - 80, 10, t, u);
      assert ToBcd(y - 80) == 16 * t + u;
      YearMask(y);
      BcdByteOfDigits(t, u, 0xf);
    }
  }

  lemma YearMask(y: nat)
    requires 80 <= y < 100
    ensures Masked(ToBcd(y), 0x7f) == ToBcd(y - 80)
  {
    var t, u := y / 10, y % 10;
    DivModUnique(y - 80, 10, t - 8, u);
    var b := 16 * t + u;
    assert ToBcd(y) == b && ToBcd(y - 80) == b - 0x80;
    DivModUnique(b, 0x100, 0, b);
    AndLowMaskConst(b, 0x7f);
    DivModUnique(b, 0x80, 1, b - 0x80);
  }

  /* ---------------------------------------------------------------- serial command */

  /** Two ASCII digits of the serial `T` command packed as `(hi - '0') << 4 | (lo - '0')`. */
  function PackDigits(hi: char, lo: char): (r: int)
    requires '0' <= hi <= '9' && '0' <= lo <= '9'
    ensures r == ToBcd(10 * (hi as int - '0' as int) + (lo as int - '0' as int))
  {
    var d1, d0 := hi as int - '0' as int, lo as int - '0' as int;
    DivModUnique(10 * d1 + d0, 10, d1, d0);
    OrNibbles(d1, d0);
    Or(d1 * 16, d0)
  }

  /** Two command digits packed into a seconds or minutes value, stored through the
      0x7f mask of `setDateTimeBCD` and decoded by `parseData`, read back as the
      number they spell. */
  lemma PackedFieldReads(hi: char, lo: char)
    requires '0' <= hi <= '7' && '0' <= lo <= '9'
    ensures BcdByte(Masked(PackDigits(hi, lo), 0x7f), 0x7, 0xf)
         == 10 * (hi as int - '0' as int) + (lo as int - '0' as int)
  {
    var d1, d0 := hi as int - '0' as int, lo as int - '0' as int;
    var b := 16 * d1 + d0;
    assert PackDigits(hi, lo) == b by {
      DivModUnique(10 * d1 + d0, 10, d1, d0);
    }
    MaskedIdentity(b, 0x7f);
    BcdByteOfDigits(d1, d0, 0x7);
  }

  /* ---------------------------------------------------------------- text */

  function Digit(n: nat): char
    requires n < 10
  {
    ('0' as int + n) as char
  }

  function DecimalDigits(n: nat): string
  {
    if n < 10 then [Digit(n)] else DecimalDigits(n / 10) + [Digit(n % 10)]
  }

  /** `%02d`: at least two characters, padded with a leading zero. */
  function Pad2(n: int): string
  {
    if 0 <= n < 10 then ['0', Digit(n)]
    else if n >= 0 then DecimalDigits(n)
    else "-" + DecimalDigits(-n)
  }

  /** The value of two decimal digit characters. */
  function TwoDigitValue(s: string): int
    requires |s| == 2
  {
    (s[0] as int - '0' as int) * 10 + (s[1] as int - '0' as int)
  }

  /** A value below 100 prints as exactly two digits that read back as the value. */
  lemma Pad2Reads(n: int)
    requires 0 <= n < 100
    ensures |Pad2(n)| == 2 && TwoDigitValue(Pad2(n)) == n
    ensures '0' <= Pad2(n)[0] <= '9' && '0' <= Pad2(n)[1] <= '9'
  {
    if n >= 10 {
      assert DecimalDigits(n / 10) == [Digit(n / 10)];
    }
  }

  /** The suffix chosen from the mode. */
  function Suffix(mode: int): (s: string)
    ensures |s| == 0 || |s| == 2
  {
    if mode == Mode24 then "" else if mode == ModeAM then "AM" else "PM"
  }

  /** `"%02d/%02d %02d:%02d:%02d%s"` over month, day, hour, minute, second and suffix. */
  function Format(month: int, day: int, hour: int, min: int, sec: int, mode: int): string
  {
    Pad2(month) + "/" + Pad2(day) + " " + Pad2(hour) + ":" + Pad2(min) + ":" +
    Pad2(sec) + Suffix(mode)
  }

  /** With every field below 100 the text is fourteen characters of two-digit fields
      and separators, each field reading back as its value, then the suffix. */
  lemma FormatLayout(month: int, day: int, hour: int, min: int, sec: int, mode: int)
    requires 0 <= month < 100 && 0 <= day < 100 && 0 <= hour < 100
    requires 0 <= min < 100 && 0 <= sec < 100
    ensures var s := Format(month, day, hour, min, sec, mode);
      |s| == 14 + |Suffix(mode)| &&
      s[2] == '/' && s[5] == ' ' && s[8] == ':' && s[11] == ':' &&
      TwoDigitValue(s[0..2]) == month && TwoDigitValue(s[3..5]) == day &&
      TwoDigitValue(s[6..8]) == hour && TwoDigitValue(s[9..11]) == min &&
      TwoDigitValue(s[12..14]) == sec && s[14..] == Suffix(mode)
  {
    Pad2Reads(month);
    Pad2Reads(day);
    Pad2Reads(hour);
    Pad2Reads(min);
    Pad2Reads(sec);
    FieldsLayout(Pad2(month), Pad2(day), Pad2(hour), Pad2(min), Pad2(sec), Suffix(mode));
  }

  /** Where the five two-character fields and the separators land. */
  lemma FieldsLayout(p1: string, p2: string, p3: string, p4: string, p5: string, suf: string)
    requires |p1| == 2 && |p2| == 2 && |p3| == 2 && |p4| == 2 && |p5| == 2
    ensures var s := p1 + "/" + p2 + " " + p3 + ":" + p4 + ":" + p5 + suf;
      |s| == 14 + |suf| && s[2] == '/' && s[5] == ' ' && s[8] == ':' && s[11] == ':' &&
      s[0..2] == p1 && s[3..5] == p2 && s[6..8] == p3 && s[9..11] == p4 &&
      s[12..14] == p5 && s[14..] == suf
  {
    var a := p1 + "/" + p2 + " " + p3 + ":" + p4 + ":" + p5;
    assert a[0..2] == p1 && a[3..5] == p2 && a[6..8] == p3;
    assert a[9..11] == p4 && a[12..14] == p5;
    var s := a + suf;
    assert s[..14] == a;
  }

  /** Every field `parseData` decodes prints as two digits that read back as it. */
  lemma DecodePrints(buf: seq<Byte>)
    requires |buf| >= 7
    ensures var t := Decode(buf);
      var s := Format(t.month, t.day, t.hour, t.min, t.sec, t.mode);
      |s| == 14 + |Suffix(t.mode)| &&
      TwoDigitValue(s[0..2]) == t.month && TwoDigitValue(s[3..5]) == t.day &&
      TwoDigitValue(s[6..8]) == t.hour && TwoDigitValue(s[9..11]) == t.min &&
      TwoDigitValue(s[12..14]) == t.sec && s[14..] == Suffix(t.mode)
  {
    var t := Decode(buf);
    FormatLayout(t.month, t.day, t.hour, t.min, t.sec, t.mode);
  }

  /** The driver object: the fields that `parseData` fills and `makeStr` prints. */
  class Clock {
    var sec: int
    var min: int
    var hour: int
    var dow: int
    var day: int
    var month: int
    var year: int
    var m: int

    function Fields(): DateTime
      reads this
    {
      DateTime(sec, min, hour, dow, day, month, year, m)
    }

    /** `setDateTimeBCD`: the register image that is sent to the chip. The
        day-of-week byte of the local buffer is never assigned. */
    method SetDateTimeBCD(y: int, mo: int, d: int, h: int, mi: int, s: int, pm: bool)
      returns (buf: array<Byte>)
      ensures fresh(buf) && buf.Length == 7
      ensures forall k :: 0 <= k < 7 && k != DowOff ==>
        buf[k] == (if k == YearOff then Masked(y, 0x7f)
                   else if k == MonthOff then Masked(mo, 0x1f)
                   else if k == DateOff then Masked(d, 0x3f)
                   else if k == HourOff then HourRegister(h, pm)
                   else if k == MinOff then Masked(mi, 0x7f)
                   else Masked(s, 0x7f))
      ensures EncodedImage(buf[..], y, mo, d, h, mi, s, pm)
    {
      buf := new Byte[7];
      buf[YearOff] := Masked(y, 0x7f);
      buf[MonthOff] := Masked(mo, 0x1f);
      buf[DateOff] := Masked(d, 0x3f);
      buf[HourOff] := Masked(h, 0x1f);
      if pm {
        assert Pow2(5) == 0x20;
        OrHighBit(buf[HourOff], 5);
        buf[HourOff] := Or(buf[HourOff], 0x20);
      }
      buf[MinOff] := Masked(mi, 0x7f);
      buf[SecOff] := Masked(s, 0x7f);
    }

    /** `parseData`: decodes the seven registers into the eight fields. */
    method ParseData(buf: array<Byte>)
      requires buf.Length >= 7
      modifies this
      ensures Fields() == Decode(buf[..])
    {
      sec := BcdByte(buf[SecOff], 0x7, 0xf);
      min := BcdByte(buf[MinOff], 0x7, 0xf);
      hour := BcdByte(buf[HourOff], 0x1, 0xf);
      if And(buf[HourOff], 0x40) != 0 {
        m := Mode24;
      } else if And(buf[HourOff], 0x20) != 0 {
        m := ModePM;
      } else {
        m := ModeAM;
      }
      dow := And(buf[DowOff], 0x7);
      day := BcdByte(buf[DateOff], 0x3, 0xf);
      month := BcdByte(buf[MonthOff], 0x1, 0xf);
      year := BcdByte(buf[YearOff], 0xf, 0xf);
    }

    /** `makeStr`: the text of the fields last decoded. */
    function MakeStr(): (s: string)
      reads this
      ensures (0 <= month < 100 && 0 <= day < 100 && 0 <= hour < 100 && 0 <= min < 100 &&
               0 <= sec < 100) ==>
              |s| == 14 + |Suffix(m)| &&
              TwoDigitValue(s[0..2]) == month && TwoDigitValue(s[3..5]) == day &&
              TwoDigitValue(s[6..8]) == hour && TwoDigitValue(s[9..11]) == min &&
              TwoDigitValue(s[12..14]) == sec && s[14..] == Suffix(m)
    {
      if 0 <= month < 100 && 0 <= day < 100 && 0 <= hour < 100 && 0 <= min < 100 &&
         0 <= sec < 100 then
        FormatLayout(month, day, hour, min, sec, m);
        Format(month, day, hour, min, sec, m)
      else
        Format(month, day, hour, min, sec, m)
    }
  }
}
