/** Hexadecimal and decimal text, as Python's `bytes.hex`, `bytes.fromhex`, `int(s, 16)`,
    `format(n, "064x")` and `str(n)` write and read it. */
module Digits {
  import opened Bytes

  const HEX_DIGITS: string := "0123456789abcdef"

  function Digit(n: nat): (c: char)
    requires n < 16
  {
    HEX_DIGITS[n]
  }

  predicate IsDigit(c: char) {
    '0' <= c <= '9' || 'a' <= c <= 'f' || 'A' <= c <= 'F'
  }

  predicate IsHex(s: string) {
    s == "" || (IsDigit(s[0]) && IsHex(s[1..]))
  }

  lemma {:induction false} IsHexConcat(a: string, b: string)
    ensures IsHex(a + b) <==> IsHex(a) && IsHex(b)
  {
    if a == "" {
      assert a + b == b;
    } else {
      assert (a + b)[1..] == a[1..] + b;
      IsHexConcat(a[1..], b);
    }
  }

  lemma {:induction false} IsHexDigits(s: string)
    ensures IsHex(s) <==> forall i | 0 <= i < |s| :: IsDigit(s[i])
  {
    if s != "" {
      IsHexDigits(s[1..]);
      assert s == [s[0]] + s[1..];
      if IsHex(s) {
        forall i | 0 <= i < |s| ensures IsDigit(s[i]) {
          if i > 0 { assert s[i] == s[1..][i - 1]; }
        }
      }
    }
  }

  lemma IsHexSlice(s: string, i: nat, j: nat)
    requires IsHex(s) && i <= j <= |s|
    ensures IsHex(s[i..j])
  {
    SplitThree(s, i, j);
    IsHexConcat(s[..i] + s[i..j], s[j..]);
    IsHexConcat(s[..i], s[i..j]);
  }

  function DigitValue(c: char): (n: nat)
    requires IsDigit(c)
    ensures n < 16
  {
    if '0' <= c <= '9' then c as int - '0' as int
    else if 'a' <= c <= 'f' then c as int - 'a' as int + 10
    else c as int - 'A' as int + 10
  }

  function LowerChar(c: char): (r: char) {
    if 'A' <= c <= 'Z' then (c as int + 32) as char else c
  }

  /** `str.lower` on ASCII text. */
  function Lower(s: string): (r: string)
    ensures |r| == |s|
  {
    if s == "" then "" else [LowerChar(s[0])] + Lower(s[1..])
  }

  lemma {:induction false} LowerIdempotent(s: string)
    ensures Lower(Lower(s)) == Lower(s)
  {
    if s != "" { LowerIdempotent(s[1..]); }
  }

  lemma {:induction false} LowerAt(s: string, i: nat)
    requires i < |s|
    ensures Lower(s)[i] == LowerChar(s[i])
  {
    if i > 0 { LowerAt(s[1..], i - 1); }
  }

  /** Letter case does not matter for being hex digits. */
  lemma LowerIsHex(s: string)
    ensures IsHex(Lower(s)) <==> IsHex(s)
  {
    IsHexDigits(s);
    IsHexDigits(Lower(s));
    forall i | 0 <= i < |s| ensures Lower(s)[i] == LowerChar(s[i]) { LowerAt(s, i); }
  }

  lemma {:induction false} LowerConcat(a: string, b: string)
    ensures Lower(a + b) == Lower(a) + Lower(b)
  {
    if a == "" {
      assert a + b == b;
    } else {
      assert (a + b)[1..] == a[1..] + b;
      LowerConcat(a[1..], b);
    }
  }

  /** `bytes.hex()` */
  function Hex(b: bytes): (s: string)
    ensures |s| == 2 * |b| && IsHex(s)
  {
    if b == [] then ""
    else
      var hi, lo := Digit(b[0] as nat / 16), Digit(b[0] as nat % 16);
      assert [hi, lo][1..] == [lo];
      IsHexConcat([hi, lo], Hex(b[1..]));
      [hi, lo] + Hex(b[1..])
  }

  function ByteOf(hi: char, lo: char): byte
    requires IsDigit(hi) && IsDigit(lo)
  {
    (16 * DigitValue(hi) + DigitValue(lo)) as byte
  }

  /** `bytes.fromhex()` on an even number of hex digits. */
  function FromHex(s: string): (b: bytes)
    requires IsHex(s) && |s| % 2 == 0
    ensures 2 * |b| == |s|
  {
    if s == "" then []
    else
      assert IsHex(s[1..]) && s[2..] == s[1..][1..] && s[1] == s[1..][0];
      [ByteOf(s[0], s[1])] + FromHex(s[2..])
  }

  lemma DigitRoundTrip(n: nat)
    requires n < 16
    ensures IsDigit(Digit(n)) && DigitValue(Digit(n)) == n && LowerChar(Digit(n)) == Digit(n)
  {
  }

  lemma DigitOfValue(c: char)
    requires IsDigit(c)
    ensures Digit(DigitValue(c)) == LowerChar(c)
  {
  }

  lemma {:induction false} FromHexOfHex(b: bytes)
    ensures FromHex(Hex(b)) == b
  {
    if b != [] {
      var hi, lo := Digit(b[0] as nat / 16), Digit(b[0] as nat % 16);
      ByteOfDigits(b[0]);
      FromHexOfHex(b[1..]);
      assert Hex(b)[2..] == Hex(b[1..]) && Hex(b)[0] == hi && Hex(b)[1] == lo;
      hide ByteOf, Digit, IsDigit, IsHex;
      assert [b[0]] + b[1..] == b;
    }
  }

  lemma ByteOfDigits(x: byte)
    ensures IsDigit(Digit(x as nat / 16)) && IsDigit(Digit(x as nat % 16))
    ensures ByteOf(Digit(x as nat / 16), Digit(x as nat % 16)) == x
  {
    hide Digit, DigitValue, IsDigit;
    DigitRoundTrip(x as nat / 16);
    DigitRoundTrip(x as nat % 16);
  }

  lemma HexOfPair(c: char, d: char)
    requires IsDigit(c) && IsDigit(d)
    ensures Hex([ByteOf(c, d)]) == [LowerChar(c), LowerChar(d)]
  {
    hide Hex, IsHex, DigitValue, Digit, LowerChar;
    HexOfByte(ByteOf(c, d));
    DivMod16(DigitValue(c), DigitValue(d));
    DigitOfValue(c);
    DigitOfValue(d);
  }

  lemma DivMod16(hi: nat, lo: nat)
    requires lo < 16
    ensures (16 * hi + lo) / 16 == hi && (16 * hi + lo) % 16 == lo
  {
  }

  lemma LowerPair(c: char, d: char, t: string)
    ensures Lower([c, d] + t) == [LowerChar(c), LowerChar(d)] + Lower(t)
  {
    LowerConcat([c, d], t);
    assert [c, d][1..] == [d] && [d][1..] == "";
    assert Lower([d]) == [LowerChar(d)] + Lower("");
  }

  lemma {:induction false} HexOfFromHex(s: string)
    requires IsHex(s) && |s| % 2 == 0
    ensures Hex(FromHex(s)) == Lower(s)
  {
    if s != "" {
      assert IsHex(s[1..]) && s[2..] == s[1..][1..] && s[1] == s[1..][0];
      HexOfFromHex(s[2..]);
      HexOfPair(s[0], s[1]);
      HexConcat([ByteOf(s[0], s[1])], FromHex(s[2..]));
      LowerPair(s[0], s[1], s[2..]);
      assert s == [s[0], s[1]] + s[2..];
    }
  }

  lemma HexLower(b: bytes)
    ensures Lower(Hex(b)) == Hex(b)
  {
    FromHexOfHex(b);
    HexOfFromHex(Hex(b));
  }

  lemma HexCons(b: bytes)
    requires b != []
    ensures Hex(b) == [Digit(b[0] as nat / 16), Digit(b[0] as nat % 16)] + Hex(b[1..])
  {
  }

  lemma {:induction false} HexConcat(a: bytes, b: bytes)
    ensures Hex(a + b) == Hex(a) + Hex(b)
  {
    hide Hex, IsHex, Digit;
    if a == [] {
      assert a + b == b;
    } else {
      HexCons(a);
      HexCons(a + b);
      HexConcat(a[1..], b);
      assert (a + b)[1..] == a[1..] + b && (a + b)[0] == a[0];
    }
  }

  lemma HexOfMiddle(x: bytes, y: bytes, z: bytes)
    ensures Hex(x + y + z)[2 * |x|..2 * |x| + 2 * |y|] == Hex(y)
  {
    hide Hex, IsHex;
    HexConcat(x, y);
    HexConcat(x + y, z);
    SliceMiddle(Hex(x), Hex(y), Hex(z));
  }

  lemma HexSlice(b: bytes, i: nat, j: nat)
    requires i <= j <= |b|
    ensures Hex(b)[2 * i..2 * j] == Hex(b[i..j])
  {
    hide Hex, IsHex;
    SplitThree(b, i, j);
    HexOfMiddle(b[..i], b[i..j], b[j..]);
  }

  lemma HexAt(data: bytes, pos: nat, b: bytes)
    requires At(data, pos, b)
    ensures At(Hex(data), 2 * pos, Hex(b))
  {
    hide Hex, IsHex;
    HexSlice(data, pos, pos + |b|);
  }

  lemma HexInjective(a: bytes, b: bytes)
    requires Hex(a) == Hex(b)
    ensures a == b
  {
    FromHexOfHex(a);
    FromHexOfHex(b);
  }

  lemma FromHexConcat(a: string, b: string)
    requires IsHex(a) && IsHex(b) && |a| % 2 == 0 && |b| % 2 == 0
    ensures IsHex(a + b) && FromHex(a + b) == FromHex(a) + FromHex(b)
  {
    hide IsHex, Hex, FromHex, Lower;
    IsHexConcat(a, b);
    HexOfFromHex(a);
    HexOfFromHex(b);
    HexOfFromHex(a + b);
    HexConcat(FromHex(a), FromHex(b));
    LowerConcat(a, b);
    HexInjective(FromHex(a + b), FromHex(a) + FromHex(b));
  }

  /** `int(s, 16)`; the empty string is read as zero, as `int(body or "0", 16)` does. */
  function ParseHex(s: string): (n: nat)
    requires IsHex(s)
  {
    if s == "" then 0
    else
      var n := |s| - 1;
      assert s == s[..n] + [s[n]];
      IsHexConcat(s[..n], [s[n]]);
      16 * ParseHex(s[..n]) + DigitValue(s[n])
  }

  /** Hex digits read as zero exactly when all of them are zero. */
  lemma {:induction false} ParseHexZero(s: string)
    requires IsHex(s)
    ensures ParseHex(s) == 0 <==> forall i | 0 <= i < |s| :: s[i] == '0'
  {
    if s != "" {
      var n := |s| - 1;
      IsHexSlice(s, 0, n);
      assert s[0..n] == s[..n] && s == s[..n] + [s[n]];
      IsHexConcat(s[..n], [s[n]]);
      assert IsDigit(s[n]);
      ParseHexZero(s[..n]);
    }
  }

  lemma {:induction false} ParseHexOfHex(b: bytes)
    ensures ParseHex(Hex(b)) == FromBigEndian(b)
  {
    if b != [] {
      var init, last := b[..|b| - 1], b[|b| - 1];
      assert b == init + [last];
      HexConcat(init, [last]);
      var hi, lo := Digit(last as nat / 16), Digit(last as nat % 16);
      assert Hex([last]) == [hi, lo];
      assert Hex(b)[..|Hex(b)| - 1] == Hex(init) + [hi];
      assert (Hex(init) + [hi])[..|Hex(init)|] == Hex(init);
      DigitRoundTrip(last as nat / 16);
      DigitRoundTrip(last as nat % 16);
      ParseHexOfHex(init);
    }
  }

  /** `format(n, "x")` */
  function HexNumber(n: nat): (s: string)
    ensures s != ""
  {
    if n < 16 then [Digit(n)] else HexNumber(n / 16) + [Digit(n % 16)]
  }

  lemma {:induction false} ParseHexNumber(n: nat)
    ensures IsHex(HexNumber(n)) && ParseHex(HexNumber(n)) == n
    ensures Lower(HexNumber(n)) == HexNumber(n)
  {
    DigitRoundTrip(n % 16);
    if n < 16 {
      assert HexNumber(n)[..0] == "";
    } else {
      ParseHexNumber(n / 16);
      IsHexConcat(HexNumber(n / 16), [Digit(n % 16)]);
      assert HexNumber(n)[..|HexNumber(n)| - 1] == HexNumber(n / 16);
      LowerConcat(HexNumber(n / 16), [Digit(n % 16)]);
    }
  }

  /** `s.rjust(width, "0")` */
  function PadZero(s: string, width: nat): (r: string) {
    if |s| < width then seq(width - |s|, _ => '0') + s else s
  }

  /** `format(n, "0{width}x")`: not truncated when `n` needs more digits. */
  function FormatHex(n: nat, width: nat): (s: string) {
    PadZero(HexNumber(n), width)
  }

  lemma {:induction false} PadZeroAppend(s: string, t: string, width: nat)
    ensures PadZero(s + t, width + |t|) == PadZero(s, width) + t
  {
    if |s| < width {
      var zeros := seq(width - |s|, _ => '0');
      assert zeros == seq(width + |t| - |s + t|, _ => '0');
      assert zeros + (s + t) == (zeros + s) + t;
    }
  }

  lemma PadZeroTwice(s: string, narrow: nat, wide: nat)
    requires narrow <= wide
    ensures PadZero(PadZero(s, narrow), wide) == PadZero(s, wide)
  {
  }

  lemma HexNumberByte(n: nat)
    requires n < 256
    ensures PadZero(HexNumber(n), 2) == [Digit(n / 16), Digit(n % 16)]
  {
    if n >= 16 { assert HexNumber(n / 16) == [Digit(n / 16)]; }
  }

  lemma HexNumberSnoc(n: nat)
    requires n >= 16
    ensures HexNumber(n) == HexNumber(n / 16) + [Digit(n % 16)]
  {
  }

  lemma HexNumberStep(n: nat)
    requires n >= 256
    ensures HexNumber(n) == HexNumber(n / 256) + [Digit(n % 256 / 16), Digit(n % 256 % 16)]
  {
    hide HexNumber, Digit;
    HexNumberSnoc(n);
    HexNumberSnoc(n / 16);
    assert n / 16 % 16 == n % 256 / 16 && n % 256 % 16 == n % 16 && n / 16 / 16 == n / 256;
    var s, c, d := HexNumber(n / 256), Digit(n % 256 / 16), Digit(n % 16);
    assert (s + [c]) + [d] == s + [c, d];
  }

  /** A number takes at most `2 * k` hex digits exactly when it fits in `k` bytes. */
  lemma {:induction false} HexNumberLength(n: nat, k: nat)
    requires k > 0
    ensures |HexNumber(n)| <= 2 * k <==> n < Pow256(k)
  {
    if n < 256 {
      Pow256Monotone(1, k);
      assert n >= 16 ==> |HexNumber(n / 16)| == 1;
    } else {
      HexNumberStep(n);
      hide HexNumber;
      if k > 1 { HexNumberLength(n / 256, k - 1); }
    }
  }

  /** The hex digits of a number with a low part of `k` bytes: those of the high part, then two for each byte. */
  lemma {:induction false} HexNumberSplit(x: nat, k: nat, r: nat)
    requires x > 0 && r < Pow256(k)
    ensures HexNumber(x * Pow256(k) + r) == HexNumber(x) + Hex(BigEndian(k, r))
  {
    hide HexNumber, Hex, IsHex, Digit;
    if k == 0 {
      NoBytes(r);
      assert x * Pow256(0) + r == x && HexNumber(x) + "" == HexNumber(x);
    } else {
      var n, d := x * Pow256(k) + r, (r % 256) as byte;
      LowByte(x, k, r);
      BigEndianSnoc(k, r);
      HexNumberSplit(x, k - 1, r / 256);
      HexNumberStep(n);
      HexOfByte(d);
      HexConcat(BigEndian(k - 1, r / 256), [d]);
      assert (HexNumber(x) + Hex(BigEndian(k - 1, r / 256))) + Hex([d])
        == HexNumber(x) + (Hex(BigEndian(k - 1, r / 256)) + Hex([d]));
    }
  }

  lemma NoBytes(r: nat)
    requires r < Pow256(0)
    ensures r == 0 && Pow256(0) == 1 && Hex(BigEndian(0, r)) == ""
  {
  }

  lemma LowByte(x: nat, k: nat, r: nat)
    requires x > 0 && k > 0
    ensures var n := x * Pow256(k) + r; n >= 256 && n / 256 == x * Pow256(k - 1) + r / 256 && n % 256 == r % 256
  {
    var high := x * Pow256(k - 1);
    assert x * Pow256(k) == 256 * high && high >= 1 by { MulThree(x, Pow256(k - 1)); }
  }

  lemma MulThree(x: nat, p: nat)
    ensures x * (256 * p) == 256 * (x * p)
    ensures x > 0 && p > 0 ==> x * p >= 1
  {
  }

  lemma HexOfByte(b: byte)
    ensures Hex([b]) == [Digit(b as nat / 16), Digit(b as nat % 16)]
  {
    assert Hex([b]) == [Digit(b as nat / 16), Digit(b as nat % 16)] + Hex([]);
  }

  lemma FormatHexLarge(n: nat, k: nat)
    requires n >= 256
    ensures FormatHex(n, 2 * k + 2) == FormatHex(n / 256, 2 * k) + Hex([(n % 256) as byte])
  {
    HexOfByte((n % 256) as byte);
    HexNumberStep(n);
    PadZeroAppend(HexNumber(n / 256), Hex([(n % 256) as byte]), 2 * k);
  }

  lemma FormatHexSmall(n: nat, k: nat)
    requires k > 0 && n < 256
    ensures FormatHex(n, 2 * k + 2) == FormatHex(0, 2 * k) + Hex([n as byte])
  {
    var pair := Hex([n as byte]);
    HexOfByte(n as byte);
    HexNumberByte(n);
    PadZeroTwice(HexNumber(n), 2, 2 * k + 2);
    PadZeroAppend("", pair, 2 * k);
    assert "" + pair == pair;
    assert HexNumber(0) == "0";
    assert PadZero("", 2 * k) == PadZero("0", 2 * k);
  }

  lemma BigEndianSnoc(k: nat, n: nat)
    requires k > 0 && n < Pow256(k)
    ensures n / 256 < Pow256(k - 1)
    ensures BigEndian(k, n) == BigEndian(k - 1, n / 256) + [(n % 256) as byte]
    ensures k == 1 ==> n < 256 && BigEndian(0, n / 256) == []
  {
    assert Pow256(0) == 1;
  }

  lemma FormatHexByte(n: nat)
    requires n < 256
    ensures FormatHex(n, 2) == Hex([]) + Hex([n as byte])
  {
    HexNumberByte(n);
    HexOfByte(n as byte);
  }

  /** Zero-padded hex of a number that fits is the hex of its big-endian bytes. */
  lemma {:induction false} FormatHexIsBigEndian(n: nat, k: nat)
    requires k > 0 && n < Pow256(k)
    ensures FormatHex(n, 2 * k) == Hex(BigEndian(k, n))
  {
    hide Hex, IsHex, FormatHex, Digit;
    BigEndianSnoc(k, n);
    HexConcat(BigEndian(k - 1, n / 256), [(n % 256) as byte]);
    if k == 1 {
      FormatHexByte(n);
    } else {
      if n >= 256 { FormatHexLarge(n, k - 1); } else { FormatHexSmall(n, k - 1); }
      FormatHexIsBigEndian(n / 256, k - 1);
    }
  }

  /** `str(n)` for an integer. */
  function Decimal(n: int): (s: string) {
    if n < 0 then "-" + DecimalNat(-n) else DecimalNat(n)
  }

  function DecimalNat(n: nat): (s: string)
    ensures s != "" && forall i | 0 <= i < |s| :: '0' <= s[i] <= '9'
  {
    if n < 10 then [HEX_DIGITS[n]] else DecimalNat(n / 10) + [HEX_DIGITS[n % 10]]
  }

  lemma {:induction false} DecimalNatInjective(m: nat, n: nat)
    requires DecimalNat(m) == DecimalNat(n)
    ensures m == n
  {
    var s, t := DecimalNat(m), DecimalNat(n);
    assert s[|s| - 1] == HEX_DIGITS[m % 10] && t[|t| - 1] == HEX_DIGITS[n % 10];
    DigitRoundTrip(m % 10);
    DigitRoundTrip(n % 10);
    if m >= 10 && n >= 10 {
      assert s[..|s| - 1] == DecimalNat(m / 10) && t[..|t| - 1] == DecimalNat(n / 10);
      DecimalNatInjective(m / 10, n / 10);
    }
  }

  lemma DecimalSign(n: int)
    ensures Decimal(n) != "" && (Decimal(n)[0] == '-' <==> n < 0)
  {
    if n < 0 { assert Decimal(n)[0] == '-'; } else { assert '0' <= Decimal(n)[0] <= '9'; }
  }

  lemma DecimalTail(n: int)
    requires n < 0
    ensures Decimal(n)[1..] == DecimalNat(-n)
  {
  }

  lemma DecimalPlain(n: nat)
    ensures Decimal(n) == DecimalNat(n)
  {
  }

  /** No leading zeros, and a sign for negative numbers only. */
  lemma {:induction false} DecimalIsCanonical(n: int)
    ensures n >= 10 ==> Decimal(n)[0] != '0'
    ensures 0 <= n < 10 ==> |Decimal(n)| == 1
    ensures n < 0 ==> Decimal(n) == "-" + Decimal(-n)
  {
    if n >= 10 {
      DecimalIsCanonical(n / 10);
      assert Decimal(n)[0] == Decimal(n / 10)[0];
      if n < 100 { NonZeroDigit(n / 10); }
    }
  }

  lemma NonZeroDigit(n: nat)
    requires 0 < n < 10
    ensures Decimal(n)[0] != '0'
  {
  }

  /** Different integers print differently. */
  lemma {:induction false} DecimalInjective(m: int, n: int)
    requires Decimal(m) == Decimal(n)
    ensures m == n
  {
    hide Decimal, DecimalNat;
    DecimalSign(m);
    DecimalSign(n);
    if m < 0 {
      DecimalTail(m);
      DecimalTail(n);
      assert Decimal(m)[1..] == Decimal(n)[1..];
      DecimalNatInjective(-m, -n);
    } else {
      DecimalPlain(m);
      DecimalPlain(n);
      DecimalNatInjective(m, n);
    }
  }

  lemma DecimalHasNoColon(n: int)
    ensures forall i | 0 <= i < |Decimal(n)| :: Decimal(n)[i] != ':'
  {
  }
}
