/**
 The numeral conversions of libk/ultostr.c and libk/strtoul.c, which the source calls
 complements of each other. Words are 32-bit, longs are two's complement.
 */
module Numerals {
  import B = Bytes

  type Word = B.Word
  type Long = l: int | -0x8000_0000 <= l < 0x8000_0000

  const OCT := 8
  const DEC := 10
  const HEX := 16
  const NR_DIGITS := 11

  function ToWord(x: int): Word
  {
    x % 0x1_0000_0000
  }

  /** Unary minus on words. */
  function Negate(x: int): Word
  {
    ToWord(-x)
  }

  function ToLong(w: Word): Long
  {
    if w < 0x8000_0000 then w else w - 0x1_0000_0000
  }

  // ---------------------------------------------------------------- writing

  function DigitChar(d: nat): char
    requires d < HEX
  {
    if d >= 10 then 'A' + (d - 10) as char else '0' + d as char
  }

  /** One step of each conversion loop; kept behind names so that proofs need no division by a variable. */
  function Quot(v: nat, base: nat): (q: nat)
    requires base >= 2
    ensures v > 0 ==> q < v
  {
    QuotSmaller(v, base);
    v / base
  }

  lemma QuotSmaller(v: nat, base: nat)
    requires base >= 2
    ensures v > 0 ==> 0 <= v / base < v
  {
  }

  function Rem(v: nat, base: nat): (r: nat)
    requires base >= 2
    ensures r < base
  {
    v % base
  }

  function Shift(x: nat, base: nat, d: nat): nat
  {
    x * base + d
  }

  lemma ShiftBack(v: nat, base: nat)
    requires base >= 2
    ensures Shift(Quot(v, base), base, Rem(v, base)) == v
    ensures Quot(v, base) == 0 ==> Rem(v, base) == v
  {
  }

  /** The digits of v, most significant first; none for 0. */
  function Digits(v: nat, base: nat): (s: string)
    requires 2 <= base <= HEX
    ensures v > 0 ==> s != []
  {
    if v == 0 then [] else Digits(Quot(v, base), base) + [DigitChar(Rem(v, base))]
  }

  function Prefix(base: nat): string
  {
    if base == OCT then "0" else if base == HEX then "0x" else ""
  }

  /** What ultostr leaves in buf, without the terminator. */
  function Ultostr(v: Word, base: nat): string
    requires base == 0 || 2 <= base <= HEX
  {
    var b := if base == 0 then DEC else base;
    Prefix(b) + if v == 0 then "0" else Digits(v, b)
  }

  function Ltostr(v: Long, base: nat): string
    requires base == 0 || 2 <= base <= HEX
  {
    if v < 0 && (base == DEC || base == 0) then "-" + Ultostr(Negate(v), DEC)
    else Ultostr(ToWord(v), base)
  }

  // ---------------------------------------------------------------- reading

  function CharAt(s: string, i: nat): char
  {
    if i < |s| then s[i] else '\0'
  }

  predicate IsDigit(c: char)
  {
    '0' <= c <= '9' || 'a' <= c <= 'f' || 'A' <= c <= 'F'
  }

  function DigitValue(c: char): nat
    requires IsDigit(c)
  {
    if '0' <= c <= '9' then (c - '0') as nat
    else if 'a' <= c <= 'f' then (c - 'a') as nat + 10
    else (c - 'A') as nat + 10
  }

  /** The base and the first character to convert: a prefix is looked for only with base 0. */
  function Detect(s: string, base: nat): (r: (nat, nat))
    ensures r.1 <= |s|
  {
    if base != 0 then (base, 0)
    else if CharAt(s, 0) != '0' then (DEC, 0)
    else if CharAt(s, 1) == 'x' && IsDigit(CharAt(s, 2)) then (HEX, 2)
    else (OCT, 1)
  }

  /** Where the conversion stops: digits of any base and every 'x' are taken. */
  function Stop(s: string, i: nat): (e: nat)
    requires i <= |s|
    ensures i <= e <= |s| && !(IsDigit(CharAt(s, e)) || CharAt(s, e) == 'x')
    ensures forall k | i <= k < e :: IsDigit(s[k]) || s[k] == 'x'
    decreases |s| - i
  {
    if i < |s| && (IsDigit(s[i]) || s[i] == 'x') then Stop(s, i + 1) else i
  }

  ghost predicate Accepted(s: string)
  {
    forall k | 0 <= k < |s| :: IsDigit(s[k]) || s[k] == 'x'
  }

  /** The positional value of the digits, the 'x' passed over. */
  ghost function Value(s: string, base: nat): nat
    requires Accepted(s)
  {
    if s == [] then 0 else
      var n := |s| - 1;
      if s[n] == 'x' then Value(s[..n], base) else Shift(Value(s[..n], base), base, DigitValue(s[n]))
  }

  /** The value modulo the word size, and the position stored in *endptr. */
  ghost function Strtoul(s: string, base: nat): (Word, nat)
  {
    var d := Detect(s, base);
    var e := Stop(s, d.1);
    assert forall k | 0 <= k < e - d.1 :: s[d.1..e][k] == s[d.1 + k];
    (ToWord(Value(s[d.1..e], d.0)), e)
  }

  ghost function Strtol(s: string, base: nat): (Long, nat)
  {
    if CharAt(s, 0) == '-' then
      var r := Strtoul(s[1..], base);
      (ToLong(Negate(r.0)), r.1 + 1)
    else
      var r := Strtoul(s, base);
      (ToLong(r.0), r.1)
  }

  /** Every digit character and its value. */
  lemma DigitValues(i: nat)
    ensures i < 10 ==> IsDigit("0123456789"[i]) && DigitValue("0123456789"[i]) == i
    ensures i < 6 ==> IsDigit("abcdef"[i]) && DigitValue("abcdef"[i]) == 10 + i
    ensures i < 6 ==> IsDigit("ABCDEF"[i]) && DigitValue("ABCDEF"[i]) == 10 + i
  {
  }

  lemma DigitsAre(c: char)
    ensures IsDigit(c) <==> c in "0123456789abcdefABCDEF"
  {
    var digits := "0123456789abcdefABCDEF";
    if '0' <= c <= '9' {
      assert digits[(c - '0') as int] == c;
    } else if 'a' <= c <= 'f' {
      assert digits[10 + (c - 'a') as int] == c;
    } else if 'A' <= c <= 'F' {
      assert digits[16 + (c - 'A') as int] == c;
    }
  }

  /** The digit that is written for each value. */
  lemma DigitChars(d: nat)
    requires d < HEX
    ensures DigitChar(d) == "0123456789ABCDEF"[d]
  {
  }

  /** The text with small letters for the digits above nine. */
  function Lowered(s: string): (t: string)
    ensures |t| == |s|
  {
    seq(|s|, i requires 0 <= i < |s| => if 'A' <= s[i] <= 'F' then (s[i] - 'A') + 'a' else s[i])
  }

  lemma LoweredDigit(s: string, i: nat)
    requires i < |s|
    ensures IsDigit(Lowered(s)[i]) == IsDigit(s[i]) && (Lowered(s)[i] == 'x' <==> s[i] == 'x')
    ensures IsDigit(s[i]) ==> DigitValue(Lowered(s)[i]) == DigitValue(s[i])
    ensures s[i] == '0' || s[i] == '-' || Lowered(s)[i] == '0' || Lowered(s)[i] == '-' ==> Lowered(s)[i] == s[i]
  {
  }

  lemma {:induction false} SameValue(s: string, t: string, base: nat)
    requires |s| == |t| && Accepted(s) && Accepted(t)
    requires forall k | 0 <= k < |s| :: (s[k] == 'x' <==> t[k] == 'x') && (s[k] != 'x' ==> DigitValue(s[k]) == DigitValue(t[k]))
    ensures Value(s, base) == Value(t, base)
  {
    if s != [] {
      SameValue(s[..|s| - 1], t[..|t| - 1], base);
    }
  }

  lemma {:induction false} SameStop(s: string, t: string, i: nat)
    requires |s| == |t| && i <= |s|
    requires forall k | 0 <= k < |s| :: IsDigit(s[k]) == IsDigit(t[k]) && (s[k] == 'x' <==> t[k] == 'x')
    ensures Stop(s, i) == Stop(t, i)
    decreases |s| - i
  {
    if i < |s| {
      SameStop(s, t, i + 1);
    }
  }

  /** Small and capital letters are the same digits, in every text and base. */
  lemma CaseIgnored(s: string, base: nat)
    ensures Strtoul(Lowered(s), base) == Strtoul(s, base)
  {
    hide Lowered, Value, Stop;
    var t := Lowered(s);
    forall k | 0 <= k < |s|
      ensures IsDigit(t[k]) == IsDigit(s[k]) && (t[k] == 'x' <==> s[k] == 'x') && (t[k] == '0' <==> s[k] == '0')
      ensures IsDigit(s[k]) ==> DigitValue(t[k]) == DigitValue(s[k])
    {
      LoweredDigit(s, k);
    }
    var d := Detect(s, base);
    assert Detect(t, base) == d;
    SameStop(s, t, d.1);
    var e := Stop(s, d.1);
    SameValue(s[d.1..e], t[d.1..e], d.0);
  }

  // ---------------------------------------------------------------- the loops

  function Reversed(s: string): string
  {
    if s == [] then [] else Reversed(s[1..]) + [s[0]]
  }

  function Pow(b: nat, n: nat): nat
  {
    if n == 0 then 1 else b * Pow(b, n - 1)
  }

  /** A value has at most n digits exactly when it is below base^n. */
  lemma {:induction false} DigitCount(v: nat, base: nat, n: nat)
    requires 2 <= base <= HEX
    ensures |Digits(v, base)| <= n <==> v < Pow(base, n)
    decreases n
  {
    if n > 0 && v > 0 {
      DigitCount(Quot(v, base), base, n - 1);
      var p := Pow(base, n - 1);
      assert v / base < p <==> v < base * p by {
        DivBelow(v, base, p);
      }
    } else if n > 0 {
      PowPositive(base, n);
    }
  }

  lemma DivBelow(v: nat, b: nat, p: nat)
    requires b > 0
    ensures v / b < p <==> v < b * p
  {
    var q := v / b;
    assert v == b * q + v % b;
    if q < p {
      assert b * (q + 1) <= b * p;
    } else {
      assert b * p <= b * q;
    }
  }

  lemma PowPositive(b: nat, n: nat)
    requires b > 0
    ensures Pow(b, n) > 0
  {
  }

  lemma {:induction false} PowGrows(b: nat, c: nat, n: nat)
    requires b <= c
    ensures Pow(b, n) <= Pow(c, n)
  {
    if n > 0 {
      PowGrows(b, c, n - 1);
      Products(b, c, Pow(b, n - 1), Pow(c, n - 1));
    }
  }

  lemma Products(b: nat, c: nat, p: nat, q: nat)
    requires b <= c && p <= q
    ensures b * p <= c * q
  {
  }

  lemma EnoughFrom6(base: nat)
    ensures base >= 6 ==> Pow(base, NR_DIGITS + 2) >= 0x1_0000_0000
  {
    assert Pow(6, 13) >= 0x1_0000_0000 by {
      assert Pow(6, 6) == 46656;
      assert Pow(6, 13) == 6 * (6 * (6 * (6 * (6 * (6 * (6 * Pow(6, 6)))))));
    }
    if base >= 6 {
      PowGrows(6, base, NR_DIGITS + 2);
    }
  }

  /** The Nr_DIGITS + 2 characters of tbuf hold every word exactly from base 6 on; BIN, base 2, overruns it. */
  lemma BufferFits(base: nat)
    requires 2 <= base <= HEX
    ensures (forall v: Word :: |Digits(v, base)| <= NR_DIGITS + 2) <==> base >= 6
  {
    var n := NR_DIGITS + 2;
    if base >= 6 {
      EnoughFrom6(base);
      forall v: Word
        ensures |Digits(v, base)| <= n
      {
        DigitCount(v, base, n);
      }
    } else {
      assert Pow(5, n) < 0x1_0000_0000 by {
        assert Pow(5, 6) == 15625;
        assert Pow(5, 13) == 5 * (5 * (5 * (5 * (5 * (5 * (5 * Pow(5, 6)))))));
      }
      PowGrows(base, 5, n);
      var v: Word := 0xFFFF_FFFF;
      DigitCount(v, base, n);
      assert |Digits(v, base)| > n;
    }
  }

  /** The text and the count returned, or digits written past tbuf. */
  datatype Written = Text(buf: string, count: nat) | Overrun

  /** ultostr: the digits are built backwards in tbuf, whose size decides which values it can take. */
  method WriteUnsigned(v: Word, base: nat) returns (r: Written)
    requires base == 0 || 2 <= base <= HEX
    ensures r.Overrun? <==> v >= Pow(if base == 0 then DEC else base, NR_DIGITS + 2)
    ensures r.Text? ==> r.buf == Ultostr(v, base) && r.count == |r.buf|
  {
    var b := if base == 0 then DEC else base;
    var buf := Prefix(b);
    if v == 0 {
      PowPositive(b, NR_DIGITS + 2);
      buf := buf + "0";
      return Text(buf, |buf|);
    }
    var tbuf := new char[NR_DIGITS + 2];
    DigitCount(v, b, NR_DIGITS + 2);
    var ok, tp := FillBackwards(v, b, tbuf);
    if !ok {
      return Overrun;
    }
    buf := CopyReversed(buf, tbuf, tp);
    return Text(buf, |buf|);
  }

  /** The conversion loop. */
  method FillBackwards(v: nat, b: nat, tbuf: array<char>) returns (ok: bool, tp: nat)
    requires 2 <= b <= HEX
    modifies tbuf
    ensures ok <==> |Digits(v, b)| <= tbuf.Length
    ensures ok ==> tp <= tbuf.Length && Digits(v, b) == Reversed(tbuf[..tp])
  {
    hide DigitChar, Quot, Rem;
    var val: nat := v;
    tp := 0;
    while val != 0 && tp < tbuf.Length
      invariant 0 <= tp <= tbuf.Length
      invariant Digits(v, b) == Digits(val, b) + Reversed(tbuf[..tp])
      invariant |Digits(v, b)| == |Digits(val, b)| + tp
    {
      ghost var before := tbuf[..tp];
      var c := DigitChar(Rem(val, b));
      tbuf[tp] := c;
      ReversedSnoc(before, c);
      assert tbuf[..tp + 1] == before + [c];
      assert Digits(val, b) + Reversed(before) == Digits(Quot(val, b), b) + ([c] + Reversed(before));
      tp := tp + 1;
      val := Quot(val, b);
    }
    ok := val == 0;
  }

  /** The copy loop, from the last digit written to the first. */
  method CopyReversed(head: string, tbuf: array<char>, tp: nat) returns (buf: string)
    requires tp <= tbuf.Length
    ensures buf == head + Reversed(tbuf[..tp])
  {
    buf := head;
    var i := tp;
    while i > 0
      invariant 0 <= i <= tp
      invariant head + Reversed(tbuf[..tp]) == buf + Reversed(tbuf[..i])
    {
      i := i - 1;
      assert tbuf[..i + 1] == tbuf[..i] + [tbuf[i]];
      ReversedSnoc(tbuf[..i], tbuf[i]);
      buf := buf + [tbuf[i]];
    }
  }

  lemma {:induction false} ReversedSnoc(s: string, c: char)
    ensures Reversed(s + [c]) == [c] + Reversed(s)
  {
    if s != [] {
      ReversedSnoc(s[1..], c);
      assert (s + [c])[1..] == s[1..] + [c];
    }
  }

  /** strtoul. */
  method ReadUnsigned(s: string, base: nat) returns (res: Word, end: nat)
    ensures (res, end) == Strtoul(s, base)
  {
    var b, i := base, 0;
    if b == 0 {
      b := DEC;
      if CharAt(s, i) == '0' {
        i := i + 1;
        b := OCT;
      }
      if b == OCT && CharAt(s, i) == 'x' && IsDigit(CharAt(s, i + 1)) {
        i := i + 1;
        b := HEX;
      }
    }
    assert (b, i) == Detect(s, base);
    res, end := Accumulate(s, b, i);
  }

  /** The accumulating loop. */
  method Accumulate(s: string, b: nat, start: nat) returns (res: Word, i: nat)
    requires start <= |s|
    ensures i == Stop(s, start) && Accepted(s[start..i]) && res == ToWord(Value(s[start..i], b))
  {
    hide IsDigit, DigitValue, ToWord, Shift;
    ghost var e := Stop(s, start);
    res, i := 0, start;
    SmallWord(0);
    assert Accepted(s[start..start]) && Value(s[start..start], b) == 0;
    hide Value, Accepted;
    while IsDigit(CharAt(s, i)) || CharAt(s, i) == 'x'
      invariant start <= i <= e && Stop(s, i) == e && Accepted(s[start..i])
      invariant res == ToWord(Value(s[start..i], b))
      decreases e - i
    {
      assert s[start..i + 1] == s[start..i] + [s[i]];
      ValueSnoc(s[start..i], s[i], b);
      if s[i] != 'x' {
        WrapStep(Value(s[start..i], b), b, DigitValue(s[i]));
        res := ToWord(Shift(res, b, DigitValue(s[i])));
      }
      i := i + 1;
    }
  }

  lemma SmallWord(w: Word)
    ensures ToWord(w) == w
  {
  }

  lemma ValueSnoc(s: string, c: char, base: nat)
    requires Accepted(s) && (IsDigit(c) || c == 'x')
    ensures Accepted(s + [c])
    ensures Value(s + [c], base) == if c == 'x' then Value(s, base) else Shift(Value(s, base), base, DigitValue(c))
  {
  }

  /** Reducing at every step is reducing once at the end. */
  lemma WrapStep(x: nat, b: nat, d: nat)
    ensures ToWord(Shift(ToWord(x), b, d)) == ToWord(Shift(x, b, d))
  {
    var m := 0x1_0000_0000;
    var q := x / m;
    assert x == m * q + x % m;
    assert x * b + d == (x % m * b + d) + m * (q * b);
    ModShift(x % m * b + d, q * b);
  }

  lemma {:induction false} ModShift(y: nat, k: nat)
    ensures ToWord(y + 0x1_0000_0000 * k) == ToWord(y)
  {
  }

  /** ltostr. */
  method WriteSigned(v: Long, base: nat) returns (r: Written)
    requires base == 0 || 2 <= base <= HEX
    ensures r.Overrun? <==> base != 0 && base < 6 && ToWord(v) >= Pow(base, NR_DIGITS + 2)
    ensures r.Text? ==> r.buf == Ltostr(v, base) && r.count == |r.buf|
  {
    EnoughFrom6(if base == 0 then DEC else base);
    EnoughFrom6(DEC);
    if v < 0 && (base == DEC || base == 0) {
      r := WriteUnsigned(Negate(v), DEC);
      return Text("-" + r.buf, r.count + 1);
    }
    r := WriteUnsigned(ToWord(v), base);
  }

  /** strtol. */
  method ReadSigned(s: string, base: nat) returns (res: Long, end: nat)
    ensures (res, end) == Strtol(s, base)
  {
    if CharAt(s, 0) == '-' {
      var w, e := ReadUnsigned(s[1..], base);
      return ToLong(Negate(w)), e + 1;
    }
    var w, e := ReadUnsigned(s, base);
    return ToLong(w), e;
  }

  // ---------------------------------------------------------------- round trips

  lemma DigitCharValue(d: nat)
    requires d < HEX
    ensures IsDigit(DigitChar(d)) && DigitValue(DigitChar(d)) == d && DigitChar(d) != 'x'
    ensures DigitChar(d) == '0' <==> d == 0
  {
  }

  /** The digits of v are digits, stand for v, and do not start with 0. */
  lemma {:induction false} DigitsValue(v: nat, base: nat)
    requires 2 <= base <= HEX
    ensures forall k | 0 <= k < |Digits(v, base)| :: IsDigit(Digits(v, base)[k])
    ensures Value(Digits(v, base), base) == v
    ensures v > 0 ==> Digits(v, base)[0] != '0'
  {
    hide DigitChar, DigitValue, IsDigit, Quot, Rem, Shift;
    if v > 0 {
      DigitsValue(Quot(v, base), base);
      DigitCharValue(Rem(v, base));
      var s := Digits(v, base);
      assert s[..|s| - 1] == Digits(Quot(v, base), base);
      ShiftBack(v, base);
    }
  }

  /** The text after the prefix, for zero as well. */
  lemma BodyValue(v: Word, base: nat)
    requires 2 <= base <= HEX
    ensures var s := if v == 0 then "0" else Digits(v, base);
            && s != [] && (forall k | 0 <= k < |s| :: IsDigit(s[k]))
            && Value(s, base) == v && (s[0] == '0' <==> v == 0 && s == "0")
  {
    DigitsValue(v, base);
    assert Value("0", base) == Shift(Value([], base), base, 0);
  }

  lemma PrefixValue(base: nat)
    ensures Accepted(Prefix(base)) && Value(Prefix(base), base) == 0
  {
    assert Value("0", base) == Shift(Value([], base), base, 0);
    assert "0x"[..1] == "0";
  }

  /** Leading zeros and 'x' add nothing. */
  lemma {:induction false} ValuePrefix(p: string, s: string, base: nat)
    requires Accepted(p) && Accepted(s) && Value(p, base) == 0
    ensures Value(p + s, base) == Value(s, base)
    decreases |s|
  {
    var n := |s| - 1;
    if s == [] {
      assert p + s == p;
    } else {
      ValuePrefix(p, s[..n], base);
      assert (p + s)[..|p| + n] == p + s[..n];
    }
  }

  /** A text of accepted characters is read to its end. */
  lemma {:induction false} StopAtEnd(s: string, i: nat)
    requires i <= |s| && forall k | i <= k < |s| :: IsDigit(s[k]) || s[k] == 'x'
    ensures Stop(s, i) == |s|
    decreases |s| - i
  {
    if i < |s| {
      StopAtEnd(s, i + 1);
    }
  }

  /** strtoul undoes ultostr for every word, with the same base, and stops at the terminator. */
  lemma UnsignedRoundTrip(v: Word, base: nat)
    requires 2 <= base <= HEX
    ensures Strtoul(Ultostr(v, base), base) == (v, |Ultostr(v, base)|)
  {
    hide Digits, Value, IsDigit, Prefix;
    var p, s := Prefix(base), if v == 0 then "0" else Digits(v, base);
    BodyValue(v, base);
    PrefixValue(base);
    ValuePrefix(p, s, base);
    StopAtEnd(p + s, 0);
    assert (p + s)[0..|p + s|] == p + s;
  }

  /** With base 0 the prefix is enough to recognise octal, decimal and hexadecimal. */
  lemma DetectedRoundTrip(v: Word, base: nat)
    requires base == 0 || base == OCT || base == DEC || base == HEX
    ensures Strtoul(Ultostr(v, base), 0) == (v, |Ultostr(v, base)|)
  {
    var b := if base == 0 then DEC else base;
    var s := if v == 0 then "0" else Digits(v, b);
    BodyValue(v, b);
    hide Digits, Value, IsDigit, Strtoul, ToWord, Detect, Prefix;
    SmallWord(v);
    if b == DEC && v == 0 {
      ReadZero();
    } else {
      DetectPrefix(s, b);
      ReadBody(Prefix(b), s, b);
    }
  }

  /** A decimal 0 is read as an octal prefix without digits. */
  lemma ReadZero()
    ensures Ultostr(0, DEC) == Ultostr(0, 0) == "0" && Strtoul("0", 0) == (0, 1)
  {
    assert Detect("0", 0) == (OCT, 1);
    assert "0"[1..1] == "";
  }

  lemma DetectPrefix(s: string, base: nat)
    requires s != [] && IsDigit(s[0])
    requires base == OCT || base == HEX || (base == DEC && s[0] != '0')
    ensures Detect(Prefix(base) + s, 0) == (base, |Prefix(base)|)
  {
  }

  /** Once the prefix is passed, digits are read to the end. */
  lemma ReadBody(p: string, s: string, base: nat)
    requires Detect(p + s, 0) == (base, |p|) && forall k | 0 <= k < |s| :: IsDigit(s[k])
    ensures Strtoul(p + s, 0) == (ToWord(Value(s, base)), |p + s|)
  {
    hide Detect, IsDigit, Value, ToWord;
    StopAtEnd(p + s, |p|);
    assert (p + s)[|p|..|p + s|] == s;
  }

  /** strtol undoes ltostr for every long, negative ones and the smallest included. */
  lemma SignedRoundTrip(v: Long, base: nat)
    requires 2 <= base <= HEX
    ensures Strtol(Ltostr(v, base), base) == (v, |Ltostr(v, base)|)
  {
    hide Strtoul, Ultostr, ToWord, ToLong, Negate;
    SignsInvert(v);
    if v < 0 && base == DEC {
      UnsignedRoundTrip(Negate(v), DEC);
      assert Ltostr(v, base)[1..] == Ultostr(Negate(v), DEC);
    } else {
      UnsignedRoundTrip(ToWord(v), base);
      NoSign(ToWord(v), base);
    }
  }

  /** Two's complement: converting there and back, or negating twice, gives the long again. */
  lemma SignsInvert(v: Long)
    ensures ToLong(ToWord(v)) == v && ToLong(Negate(Negate(v))) == v
  {
    hide ToWord;
    WordOf(v);
    WordOf(-(v as int));
    WordOf(-(Negate(v) as int));
  }

  lemma WordOf(x: int)
    requires -0x1_0000_0000 <= x < 0x1_0000_0000
    ensures ToWord(x) == if x < 0 then x + 0x1_0000_0000 else x
  {
  }

  lemma DetectedSignedRoundTrip(v: Long, base: nat)
    requires base == 0 || base == OCT || base == DEC || base == HEX
    ensures Strtol(Ltostr(v, base), 0) == (v, |Ltostr(v, base)|)
  {
    hide Strtoul, Ultostr, ToWord, ToLong, Negate;
    SignsInvert(v);
    if v < 0 && (base == DEC || base == 0) {
      DetectedRoundTrip(Negate(v), DEC);
      assert Ltostr(v, base)[1..] == Ultostr(Negate(v), DEC);
    } else {
      DetectedRoundTrip(ToWord(v), base);
      NoSign(ToWord(v), base);
    }
  }

  lemma NoSign(v: Word, base: nat)
    requires base == 0 || 2 <= base <= HEX
    ensures CharAt(Ultostr(v, base), 0) != '-'
  {
    BodyValue(v, if base == 0 then DEC else base);
  }
}
