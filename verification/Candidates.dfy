/**
 * main.c: how a worker turns a number or a wordlist line into the 16 bytes
 * it hands to bt_bis_gsk as a Broadcast Code. Text is bytes, as in the
 * uint8_t buffers the C uses.
 */
module Candidates {
  import opened Octet
  import opened Bytes

  const PercentSign: byte := 0x25
  const ZeroDigit: byte := 0x30
  const LowerX: byte := 0x78
  const LineFeed: byte := 0x0A
  const CarriageReturn: byte := 0x0D
  const Space: byte := 0x20
  const Nul: byte := 0

  /** '0' to '9'. */
  const DecDigits: seq<byte> := [0x30, 0x31, 0x32, 0x33, 0x34, 0x35, 0x36, 0x37, 0x38, 0x39]

  /** '0' to '9', then 'a' to 'f': the digits of `%x`. */
  const HexDigits: seq<byte> :=
    [0x30, 0x31, 0x32, 0x33, 0x34, 0x35, 0x36, 0x37, 0x38, 0x39, 0x61, 0x62, 0x63, 0x64, 0x65, 0x66]

  /* ------------------------------------------------------- text basics */

  function Repeat(c: byte, n: nat): (r: seq<byte>)
    ensures |r| == n && forall k :: 0 <= k < n ==> r[k] == c
  {
    if n == 0 then [] else Repeat(c, n - 1) + [c]
  }

  /** A printf field: `s` right-aligned in `width` columns, filled with `fill`. */
  function PadLeft(s: seq<byte>, width: nat, fill: byte): (r: seq<byte>)
    ensures |s| >= width ==> r == s
    ensures |s| < width ==>
      (|r| == width && r[width - |s|..] == s && forall k :: 0 <= k < width - |s| ==> r[k] == fill)
  {
    if |s| >= width then s else Repeat(fill, width - |s|) + s
  }

  /** Where `b` first occurs in `t`. */
  function IndexOf(t: seq<byte>, b: byte): (i: nat)
    requires b in t
    ensures i < |t| && t[i] == b && b !in t[..i]
  {
    if t[0] == b then 0 else 1 + IndexOf(t[1..], b)
  }

  predicate Distinct(t: seq<byte>)
  {
    forall i, j :: 0 <= i < j < |t| ==> t[i] != t[j]
  }

  /** In a table without repeats, looking up the k-th entry gives k. */
  lemma IndexOfDistinct(t: seq<byte>, k: nat)
    requires Distinct(t) && k < |t|
    ensures IndexOf(t, t[k]) == k
  {
  }

  lemma DigitTablesDistinct()
    ensures Distinct(DecDigits) && Distinct(HexDigits)
  {
    HexDigitCodes();
    assert DecDigits == HexDigits[..10];
  }

  /** '0' + k for the ten digits, 'a' + (k - 10) for the six letters. */
  lemma HexDigitCodes()
    ensures forall k :: 0 <= k < 16 ==> HexDigits[k] as int == if k < 10 then 0x30 + k else 0x57 + k
  {
  }

  /** The value of the k-th decimal digit is k. */
  lemma DecDigitValue(k: nat)
    requires k < 10
    ensures IndexOf(DecDigits, DecDigits[k]) == k
  {
    DigitTablesDistinct();
    IndexOfDistinct(DecDigits, k);
  }

  lemma HexDigitsDiffer(a: nat, b: nat)
    requires a < 16 && b < 16 && HexDigits[a] == HexDigits[b]
    ensures a == b
  {
    DigitTablesDistinct();
  }

  /* ------------------------------------------------------------ %u, %x */

  /** `%u`: the decimal digits of n, without leading zeros. */
  function Decimal(n: nat): (s: seq<byte>)
    ensures |s| >= 1 && forall k :: 0 <= k < |s| ==> s[k] in DecDigits
  {
    if n < 10 then [DecDigits[n]] else Decimal(n / 10) + [DecDigits[n % 10]]
  }

  predicate AllDecimal(s: seq<byte>)
  {
    forall k :: 0 <= k < |s| ==> s[k] in DecDigits
  }

  /** The number a string of decimal digits denotes, as printf reads a field width. */
  function DecValue(s: seq<byte>): nat
    requires AllDecimal(s)
  {
    if s == [] then 0 else 10 * DecValue(s[..|s| - 1]) + IndexOf(DecDigits, s[|s| - 1])
  }

  /** Reading back what `%u` prints gives the number. */
  lemma {:induction false} DecValueOfDecimal(n: nat)
    ensures DecValue(Decimal(n)) == n
  {
    var s := Decimal(n);
    if n < 10 {
      DecDigitValue(n);
      assert s[..0] == [];
    } else {
      DecValueOfDecimal(n / 10);
      DecDigitValue(n % 10);
      assert s[..|s| - 1] == Decimal(n / 10);
    }
  }

  /** `%u` has no leading zero unless the number is 0, and two digits suffice below 100. */
  lemma {:induction false} DecimalShape(n: nat)
    ensures n >= 1 ==> Decimal(n)[0] != ZeroDigit
    ensures n < 10 ==> Decimal(n) == [DecDigits[n]]
    ensures 10 <= n < 100 ==> Decimal(n) == [DecDigits[n / 10], DecDigits[n % 10]]
  {
    if n >= 10 {
      DecimalShape(n / 10);
    }
  }

  /** `%x`: the lowercase hex digits of v, without leading zeros. */
  function HexString(v: nat): (s: seq<byte>)
    ensures |s| >= 1
  {
    if v < 16 then [HexDigits[v]] else HexString(v / 16) + [HexDigits[v % 16]]
  }

  /** The n low hex digits of v, most significant first, leading zeros kept. */
  function HexFixed(v: nat, n: nat): (s: seq<byte>)
    ensures |s| == n
  {
    if n == 0 then [] else HexFixed(v / 16, n - 1) + [HexDigits[v % 16]]
  }

  /** A value below 16^n prints in at most n hex digits. */
  lemma {:induction false} HexStringLength(v: nat, n: nat)
    requires n >= 1 && v < Pow(16, n)
    ensures |HexString(v)| <= n
  {
    if v >= 16 {
      assert n >= 2;
      assert v / 16 < Pow(16, n - 1);
      HexStringLength(v / 16, n - 1);
    }
  }

  lemma {:induction false} HexFixedZero(n: nat)
    ensures HexFixed(0, n) == Repeat(ZeroDigit, n)
  {
    if n > 0 {
      HexFixedZero(n - 1);
    }
  }

  /** `%0<n>x` of a value below 16^n is exactly its n-digit hex form. */
  lemma {:induction false} ZeroPaddedHexIsFixed(v: nat, n: nat)
    requires n >= 1 && v < Pow(16, n)
    ensures PadLeft(HexString(v), n, ZeroDigit) == HexFixed(v, n)
  {
    if v < 16 {
      OneHexDigitPadded(v, n);
    } else {
      assert n >= 2;
      assert v / 16 < Pow(16, n - 1);
      ZeroPaddedHexIsFixed(v / 16, n - 1);
      HexStringLength(v / 16, n - 1);
      var h := HexString(v / 16);
      assert PadLeft(h + [HexDigits[v % 16]], n, ZeroDigit) == PadLeft(h, n - 1, ZeroDigit) + [HexDigits[v % 16]];
    }
  }

  lemma OneHexDigitPadded(v: nat, n: nat)
    requires n >= 1 && v < 16
    ensures PadLeft(HexString(v), n, ZeroDigit) == HexFixed(v, n)
  {
    assert v / 16 == 0 && v % 16 == v;
    var d := HexDigits[v];
    assert HexString(v) == [d];
    HexFixedZero(n - 1);
    assert HexFixed(v, n) == Repeat(ZeroDigit, n - 1) + [d];
    assert PadLeft([d], n, ZeroDigit) == Repeat(ZeroDigit, n - 1) + [d];
  }

  /** Distinct values below 16^n have distinct n-digit hex forms. */
  lemma {:induction false} HexFixedInjective(u: nat, v: nat, n: nat)
    requires u < Pow(16, n) && v < Pow(16, n)
    requires HexFixed(u, n) == HexFixed(v, n)
    ensures u == v
  {
    if n > 0 {
      assert HexFixed(u, n)[n - 1] == HexDigits[u % 16];
      HexDigitsDiffer(u % 16, v % 16);
      assert HexFixed(u / 16, n - 1) == HexFixed(u, n)[..n - 1];
      HexFixedInjective(u / 16, v / 16, n - 1);
    }
  }

  lemma {:induction false} Pow16(n: nat)
    ensures Pow(16, n) == Pow(2, 4 * n)
  {
    if n > 0 {
      Pow16(n - 1);
      PowAdd(2, 4 * (n - 1), 4);
    }
  }

  /* ------------------------------------------- the computed format */

  /** The characters snprintf(buf, size, ...) stores before its terminating NUL. */
  function Snprintf(text: seq<byte>, size: nat): (s: seq<byte>)
    requires size >= 1
    ensures |s| <= size - 1 && |s| <= |text| && s == text[..|s|]
    ensures |s| == if |text| < size then |text| else size - 1
  {
    if |text| < size then text else text[..size - 1]
  }

  /** `"%%%02ux\n"` with `bc_length*2`, before truncation. */
  function FormatTemplate(bcLength: nat): seq<byte>
  {
    [PercentSign] + PadLeft(Decimal(2 * bcLength), 2, ZeroDigit) + [LowerX, LineFeed]
  }

  /** bc_format: the template written into five bytes, so its newline is cut off. */
  function BcFormat(bcLength: nat): seq<byte>
  {
    Snprintf(FormatTemplate(bcLength), 5)
  }

  /** A `%x` conversion: whether the `0` flag is present, and the field width. */
  datatype Conversion = Conversion(zeroPad: bool, width: nat)

  function LeadingZeros(s: seq<byte>): (n: nat)
    ensures n <= |s| && forall k :: 0 <= k < n ==> s[k] == ZeroDigit
    ensures n < |s| ==> s[n] != ZeroDigit
  {
    if s == [] || s[0] != ZeroDigit then 0 else 1 + LeadingZeros(s[1..])
  }

  /**
   * How printf reads a `%[0-flags][width]x` directive: leading '0's are the
   * zero flag, the digits after them the width.
   */
  function ParseConversion(f: seq<byte>): Option<Conversion>
  {
    if |f| < 2 || f[0] != PercentSign || f[|f| - 1] != LowerX then None
    else
      var body := f[1..|f| - 1];
      var z := LeadingZeros(body);
      if AllDecimal(body[z..]) then Some(Conversion(z > 0, DecValue(body[z..]))) else None
  }

  /** The five-byte buffer keeps the percent sign, the two width digits and the x. */
  lemma BcFormatShape(bcLength: nat)
    requires bcLength < 50
    ensures BcFormat(bcLength) == [PercentSign] + PadLeft(Decimal(2 * bcLength), 2, ZeroDigit) + [LowerX]
  {
    DecimalShape(2 * bcLength);
  }

  /** `%0d x` with a single digit d from 1 to 9: the zero flag, then width d. */
  lemma ParseZeroFlagged(f: seq<byte>, n: nat)
    requires 1 <= n < 10 && f == [PercentSign, ZeroDigit, DecDigits[n], LowerX]
    ensures ParseConversion(f) == Some(Conversion(true, n))
  {
    var body := [ZeroDigit, DecDigits[n]];
    assert f[1..|f|-1] == body;
    assert LeadingZeros(body) == 1 by {
      assert body[1..] == [DecDigits[n]];
    }
    assert body[1..] == [DecDigits[n]];
    DecDigitValue(n);
    assert DecValue([DecDigits[n]]) == n by {
      assert [DecDigits[n]][..0] == [];
    }
  }

  /** `%00x`: two zero flags and no width. */
  lemma ParseDoubleZero(f: seq<byte>)
    requires f == [PercentSign, ZeroDigit, ZeroDigit, LowerX]
    ensures ParseConversion(f) == Some(Conversion(true, 0))
  {
    var body := [ZeroDigit, ZeroDigit];
    assert f[1..|f| - 1] == body;
    assert LeadingZeros(body) == 2 by {
      assert body[1..][1..] == [];
    }
    assert body[2..] == [];
  }

  /** `%dd x` with two digits, the first not zero: no flag, width dd. */
  lemma ParseTwoDigitWidth(f: seq<byte>, n: nat)
    requires 10 <= n < 100 && f == [PercentSign] + Decimal(n) + [LowerX]
    ensures ParseConversion(f) == Some(Conversion(false, n))
  {
    DecimalShape(n);
    assert f[1..|f| - 1] == Decimal(n);
    assert LeadingZeros(Decimal(n)) == 0;
    assert Decimal(n)[0..] == Decimal(n);
    DecValueOfDecimal(n);
  }

  lemma BcFormatShort(bcLength: nat)
    requires bcLength <= 4
    ensures BcFormat(bcLength) == [PercentSign, ZeroDigit, DecDigits[2 * bcLength], LowerX]
    ensures ParseConversion(BcFormat(bcLength)) == Some(Conversion(true, 2 * bcLength))
  {
    BcFormatShape(bcLength);
    DecimalShape(2 * bcLength);
    var f := BcFormat(bcLength);
    assert f == [PercentSign, ZeroDigit, DecDigits[2 * bcLength], LowerX];
    if bcLength == 0 {
      ParseDoubleZero(f);
    } else {
      ParseZeroFlagged(f, 2 * bcLength);
    }
  }

  lemma BcFormatLong(bcLength: nat)
    requires 5 <= bcLength < 50
    ensures BcFormat(bcLength) == [PercentSign] + Decimal(2 * bcLength) + [LowerX]
    ensures |Decimal(2 * bcLength)| == 2
    ensures ParseConversion(BcFormat(bcLength)) == Some(Conversion(false, 2 * bcLength))
  {
    BcFormatShape(bcLength);
    DecimalShape(2 * bcLength);
    ParseTwoDigitWidth(BcFormat(bcLength), 2 * bcLength);
  }

  /**
   * For every byte length below 50 the format keeps its conversion: it is
   * `%0` + one digit for lengths up to 4 (zero flag, width 2L) and `%` + two
   * digits from 5 on (no zero flag, width 2L). The newline never survives.
   */
  lemma BcFormatConversion(bcLength: nat)
    requires bcLength < 50
    ensures |BcFormat(bcLength)| == 4 && BcFormat(bcLength)[3] == LowerX
    ensures ParseConversion(BcFormat(bcLength)) == Some(Conversion(bcLength <= 4, 2 * bcLength))
  {
    if bcLength <= 4 {
      BcFormatShort(bcLength);
    } else {
      BcFormatLong(bcLength);
    }
  }

  lemma Pow2To32()
    ensures Pow(2, 32) == 0x1_0000_0000 && Pow(16, 8) == 0x1_0000_0000
  {
    Pow16(8);
    PowAdd(2, 16, 16);
    assert Pow(2, 16) == 0x1_0000;
  }

  /** The text `%x` prints for an argument: the conversion applied to v. */
  function ConvertHex(c: Conversion, v: nat): seq<byte>
  {
    PadLeft(HexString(v), c.width, if c.zeroPad then ZeroDigit else Space)
  }

  /**
   * The uint64_t i passed for an unsigned-int `%x`: on the x86-64 calling
   * convention printf reads the low 32 bits.
   */
  function AsUnsigned(i: nat): nat
  {
    i % 0x1_0000_0000
  }

  /** What snprintf(broadcast_code, 16, bc_format, i) writes before its NUL. */
  function NumericText(i: nat, bcLength: nat): seq<byte>
  {
    match ParseConversion(BcFormat(bcLength))
    case Some(c) => Snprintf(ConvertHex(c, AsUnsigned(i)), 16)
    case None => []
  }

  /** The 16-byte Broadcast Code candidate i: the text, then the zeros the cleared buffer still holds. */
  function NumericCandidate(i: nat, bcLength: nat): (code: seq<byte>)
    ensures |code| == 16
  {
    var t := NumericText(i, bcLength);
    t + Zeros(16 - |t|)
  }

  lemma NumericTextIs(i: nat, bcLength: nat, c: Conversion)
    requires ParseConversion(BcFormat(bcLength)) == Some(c)
    ensures NumericText(i, bcLength) == Snprintf(ConvertHex(c, AsUnsigned(i)), 16)
  {
  }

  /**
   * For byte lengths 1 to 7 the computed format parses as width 2L (with the
   * zero flag up to 4), and the hex conversion of the low 32 bits of i is at
   * most 15 characters, so snprintf's 16 bytes keep all of it.
   */
  lemma NumericTextUntruncated(i: nat, bcLength: nat)
    requires 1 <= bcLength <= 7
    ensures var c := Conversion(bcLength <= 4, 2 * bcLength);
      var h := ConvertHex(c, AsUnsigned(i));
      && ParseConversion(BcFormat(bcLength)) == Some(c)
      && |h| <= 15
      && NumericText(i, bcLength) == h
  {
    var c := Conversion(bcLength <= 4, 2 * bcLength);
    BcFormatConversion(bcLength);
    Pow2To32();
    HexStringLength(AsUnsigned(i), 8);
    NumericTextIs(i, bcLength, c);
  }

  /**
   * From byte length 8 on the field is 2L >= 16 characters wide, and
   * snprintf keeps only its first 15.
   */
  lemma NumericTextTruncated(i: nat, bcLength: nat)
    requires 8 <= bcLength < 50
    ensures var h := ConvertHex(Conversion(false, 2 * bcLength), AsUnsigned(i));
      && |h| == 2 * bcLength
      && NumericText(i, bcLength) == h[..15]
  {
    var c := Conversion(false, 2 * bcLength);
    BcFormatConversion(bcLength);
    Pow2To32();
    HexStringLength(AsUnsigned(i), 8);
    NumericTextIs(i, bcLength, c);
  }

  /** Whatever the format, the text fits snprintf's 16 bytes: the candidate is that text, zero-padded. */
  lemma NumericTextFits(i: nat, bcLength: nat)
    ensures var t := NumericText(i, bcLength);
      |t| <= 15 && Snprintf(t, 16) == t && NumericCandidate(i, bcLength) == t + Zeros(16 - |t|)
  {
  }

  /**
   * For byte lengths 1 to 4 candidate i is i in exactly 2L lowercase hex
   * digits, zero-padded, followed by zero bytes.
   */
  lemma NumericZeroPadded(i: nat, bcLength: nat)
    requires 1 <= bcLength <= 4 && i < Pow(2, 8 * bcLength)
    ensures NumericCandidate(i, bcLength) == HexFixed(i, 2 * bcLength) + Zeros(16 - 2 * bcLength)
  {
    var n := 2 * bcLength;
    ShortRangeBounds(bcLength);
    BcFormatConversion(bcLength);
    NumericTextIs(i, bcLength, Conversion(true, n));
    AsUnsignedSmall(i);
    ZeroPaddedHexIsFixed(i, n);
    var h := ConvertHex(Conversion(true, n), i);
    assert h == HexFixed(i, n);
    assert Snprintf(h, 16) == h;
  }

  /** For byte lengths 1 to 4 the numbers below 2^(8L) are those below 16^(2L), all below 2^32. */
  lemma ShortRangeBounds(bcLength: nat)
    requires 1 <= bcLength <= 4
    ensures Pow(2, 8 * bcLength) == Pow(16, 2 * bcLength) <= 0x1_0000_0000
  {
    Pow16(2 * bcLength);
    assert 4 * (2 * bcLength) == 8 * bcLength;
    PowMonotone(2, 8 * bcLength, 32);
    Pow2To32();
  }

  lemma AsUnsignedSmall(i: nat)
    requires i < 0x1_0000_0000
    ensures AsUnsigned(i) == i
  {
    DivModUnique(i, 0x1_0000_0000, 0, i);
  }

  /** For byte lengths 1 to 4 no two numbers of the range share a candidate. */
  lemma NumericInjective(i: nat, j: nat, bcLength: nat)
    requires 1 <= bcLength <= 4 && i < Pow(2, 8 * bcLength) && j < Pow(2, 8 * bcLength)
    requires NumericCandidate(i, bcLength) == NumericCandidate(j, bcLength)
    ensures i == j
  {
    NumericZeroPadded(i, bcLength);
    NumericZeroPadded(j, bcLength);
    var n := 2 * bcLength;
    assert HexFixed(i, n) == NumericCandidate(i, bcLength)[..n];
    assert HexFixed(j, n) == NumericCandidate(j, bcLength)[..n];
    ShortRangeBounds(bcLength);
    HexFixedInjective(i, j, n);
  }

  /**
   * For byte lengths 5 to 7 the format has no zero flag: the candidate is
   * the hex digits of the low 32 bits of i right-aligned in 2L columns of
   * spaces, so it always starts with at least 2L - 8 spaces.
   */
  lemma NumericSpacePadded(i: nat, bcLength: nat)
    requires 5 <= bcLength <= 7
    ensures var h := HexString(AsUnsigned(i));
      && |h| <= 8
      && NumericCandidate(i, bcLength) == Repeat(Space, 2 * bcLength - |h|) + h + Zeros(16 - 2 * bcLength)
    ensures forall k :: 0 <= k < 2 * bcLength - 8 ==> NumericCandidate(i, bcLength)[k] == Space
  {
    var n := 2 * bcLength;
    BcFormatConversion(bcLength);
    NumericTextIs(i, bcLength, Conversion(false, n));
    Pow2To32();
    var h := HexString(AsUnsigned(i));
    HexStringLength(AsUnsigned(i), 8);
    var t := ConvertHex(Conversion(false, n), AsUnsigned(i));
    assert t == Repeat(Space, n - |h|) + h;
    assert Snprintf(t, 16) == t;
    assert NumericText(i, bcLength) == t;
    var code := NumericCandidate(i, bcLength);
    assert code == t + Zeros(16 - n);
    assert forall k :: 0 <= k < n - 8 ==> code[k] == t[k];
  }

  /** For byte lengths of 5 and more, i and i + 2^32 are the same candidate. */
  lemma NumericWrapCollision(i: nat, bcLength: nat)
    requires 5 <= bcLength < 50
    ensures NumericCandidate(i + 0x1_0000_0000, bcLength) == NumericCandidate(i, bcLength)
  {
    assert AsUnsigned(i + 0x1_0000_0000) == AsUnsigned(i);
  }

  /* ------------------------------------------------------- wordlist */

  /**
   * What fgets(buf, 17, f) reads from offset pos of the wordlist: bytes up
   * to and including the first newline, at most 16 of them, fewer at the
   * end of the file; nothing at all at the end of the file.
   */
  function FgetsRead(w: seq<byte>, pos: nat, room: nat): (c: seq<byte>)
    ensures |c| <= room
    ensures pos + |c| <= |w| || c == []
    ensures pos < |w| && room > 0 ==> |c| >= 1
    decreases room
  {
    if room == 0 || pos >= |w| then []
    else if w[pos] == LineFeed then [w[pos]]
    else [w[pos]] + FgetsRead(w, pos + 1, room - 1)
  }

  /**
   * The chunk fgets reads is the wordlist's next bytes; only its last byte
   * can be a newline, and it stops short of room bytes only at a newline or
   * at the end of the file.
   */
  lemma {:induction false} FgetsReadLine(w: seq<byte>, pos: nat, room: nat)
    ensures var c := FgetsRead(w, pos, room);
      && (pos + |c| <= |w| ==> c == w[pos..pos + |c|])
      && (forall k :: 0 <= k < |c| - 1 ==> c[k] != LineFeed)
      && (|c| == room || pos + |c| >= |w| || (|c| >= 1 && c[|c| - 1] == LineFeed))
    decreases room
  {
    if !(room == 0 || pos >= |w|) && w[pos] != LineFeed {
      FgetsReadLine(w, pos + 1, room - 1);
      var c, c' := FgetsRead(w, pos, room), FgetsRead(w, pos + 1, room - 1);
      assert c == [w[pos]] + c';
      assert forall k :: 1 <= k < |c| ==> c[k] == c'[k - 1];
    }
  }

  /** The 17-byte buffer after fgets stored chunk c: c, its NUL, the old bytes behind them. */
  function AfterFgets(buf: seq<byte>, c: seq<byte>): (r: seq<byte>)
    requires |buf| == 17 && |c| <= 16
    ensures |r| == 17
  {
    c + [Nul] + buf[|c| + 1..]
  }

  /** strlen: the index of the first NUL. */
  function Strlen(s: seq<byte>): (n: nat)
    ensures n <= |s| && forall k :: 0 <= k < n ==> s[k] != Nul
    ensures n < |s| ==> s[n] == Nul
  {
    if s == [] || s[0] == Nul then 0 else 1 + Strlen(s[1..])
  }

  /**
   * The newline strip: a newline right before the string's end becomes NUL.
   * An empty string (a line starting with NUL) would read buf[-1]; here it is
   * left alone.
   */
  function StripNewline(buf: seq<byte>): (r: seq<byte>)
    ensures |r| == |buf|
  {
    var n := Strlen(buf);
    if n > 0 && buf[n - 1] == LineFeed then buf[n - 1 := Nul] else buf
  }

  /** The Broadcast Code a worker tries after reading chunk c into buffer buf. */
  function LineCandidate(buf: seq<byte>, c: seq<byte>): (code: seq<byte>)
    requires |buf| == 17 && |c| <= 16
    ensures |code| == 16
  {
    StripNewline(AfterFgets(buf, c))[..16]
  }

  /** From a cleared buffer, fgets leaves a chunk without NUL bytes as the whole string. */
  lemma CleanChunkLength(c: seq<byte>)
    requires 1 <= |c| <= 16 && Nul !in c
    ensures Strlen(AfterFgets(Zeros(17), c)) == |c|
  {
    var b := AfterFgets(Zeros(17), c);
    assert b[|c|] == Nul;
    assert forall k :: 0 <= k < |c| ==> b[k] == c[k];
    StrlenPrefix(b, |c|);
  }

  /**
   * From a cleared buffer, a chunk without NUL bytes that ends in a newline
   * loses exactly that newline (a carriage return before it stays) and is
   * zero-padded to 16 bytes.
   */
  lemma LineWithNewline(c: seq<byte>)
    requires 1 <= |c| <= 16 && Nul !in c && c[|c| - 1] == LineFeed
    ensures LineCandidate(Zeros(17), c) == c[..|c| - 1] + Zeros(17 - |c|)
  {
    CleanChunkLength(c);
    var b := AfterFgets(Zeros(17), c);
    assert StripNewline(b) == b[|c| - 1 := Nul];
  }

  /** From a cleared buffer, a chunk without NUL bytes or final newline is the candidate as is, zero-padded. */
  lemma LineWithoutNewline(c: seq<byte>)
    requires 1 <= |c| <= 16 && Nul !in c && c[|c| - 1] != LineFeed
    ensures LineCandidate(Zeros(17), c) == c + Zeros(16 - |c|)
  {
    CleanChunkLength(c);
    var b := AfterFgets(Zeros(17), c);
    assert StripNewline(b) == b;
  }

  lemma {:induction false} StrlenPrefix(s: seq<byte>, n: nat)
    requires n < |s| && s[n] == Nul && forall k :: 0 <= k < n ==> s[k] != Nul
    ensures Strlen(s) == n
  {
    if n > 0 {
      StrlenPrefix(s[1..], n - 1);
    }
  }

  /**
   * A line with more than 16 bytes before its newline is not read in one
   * go: fgets returns its first 16 bytes, and the next fgets, from the
   * offset after them, starts with the line's 17th byte.
   */
  lemma LongLineSplits(w: seq<byte>, pos: nat)
    requires pos + 16 < |w| && LineFeed !in w[pos..pos + 16]
    ensures FgetsRead(w, pos, 16) == w[pos..pos + 16]
    ensures var c := FgetsRead(w, pos + 16, 16); |c| >= 1 && c[0] == w[pos + 16]
  {
    FgetsReadLine(w, pos, 16);
    var c := FgetsRead(w, pos, 16);
    assert |c| >= 1 ==> c[|c| - 1] == w[pos..pos + 16][|c| - 1];
  }

  /**
   * A NUL inside a line hides its newline from strlen: the newline is kept
   * and the candidate ends at the NUL.
   */
  lemma EmbeddedNulKeepsNewline(c: seq<byte>, j: nat)
    requires 2 <= |c| <= 16 && j < |c| - 1 && c[j] == Nul && Nul !in c[..j] && c[|c| - 1] == LineFeed
    requires j == 0 || c[j - 1] != LineFeed
    ensures LineCandidate(Zeros(17), c) == c + Zeros(16 - |c|)
  {
    var b := AfterFgets(Zeros(17), c);
    assert forall k :: 0 <= k < j ==> b[k] != Nul by {
      assert forall k :: 0 <= k < j ==> b[k] == c[..j][k];
    }
    StrlenPrefix(b, j);
  }

  /**
   * Without the clearing memset, bytes a previous longer line left behind
   * the new chunk's NUL stay in the candidate.
   */
  lemma StaleBytesSurvive(buf: seq<byte>, c: seq<byte>)
    requires |buf| == 17 && 1 <= |c| <= 16
    ensures forall k :: |c| < k < 16 ==> LineCandidate(buf, c)[k] == buf[k]
    ensures |c| < 16 ==> LineCandidate(buf, c)[|c|] == Nul
  {
  }
}
