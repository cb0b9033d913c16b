/**
 * The tile file name built by `loadTileFromFile` in src/core/worker.ts:
 * "../assets/terrain/5" + `${level}` + the tile index in uppercase hexadecimal,
 * left-padded with '0' to at least eight characters, + ".hght".
 *
 * JavaScript's `Number.prototype.toString(radix)`, `toUpperCase` and `padStart`
 * are modelled on integers and ASCII strings.
 */
module TileKey {
  import opened Common

  // ---------------------------------------------------------------------------
  // The string functions of JavaScript, on integers and ASCII
  // ---------------------------------------------------------------------------

  /** The digit character `toString` writes for the value `d` < 36: '0'..'9', then 'a'..'z'. */
  function DigitChar(d: nat): char
    requires d < 36
  {
    if d < 10 then ('0' as int + d) as char else ('a' as int + d - 10) as char
  }

  /** The digits of `n` in base `radix`, most significant first, without leading zeros. */
  function Digits(n: nat, radix: nat): (s: string)
    requires 2 <= radix <= 36
    decreases n
    ensures |s| >= 1
  {
    if n < radix then [DigitChar(n)]
    else Digits(n / radix, radix) + [DigitChar(n % radix)]
  }

  /** `n.toString(radix)` for an integer `n`: a '-' sign before the digits of a negative number. */
  function NumberToString(n: int, radix: nat): string
    requires 2 <= radix <= 36
  {
    if n < 0 then "-" + Digits(-n, radix) else Digits(n, radix)
  }

  function UpperChar(c: char): char {
    if 'a' <= c <= 'z' then (c as int - 32) as char else c
  }

  /** `s.toUpperCase()` on ASCII: lower-case letters become capitals, everything else stays. */
  function ToUpperCase(s: string): (u: string)
    ensures |u| == |s|
    ensures forall i :: 0 <= i < |s| ==> u[i] == UpperChar(s[i])
  {
    seq(|s|, i requires 0 <= i < |s| => UpperChar(s[i]))
  }

  /** `s.padStart(width, c)`: copies of `c` before `s` up to `width` characters; a longer `s` is unchanged. */
  function PadStart(s: string, width: nat, c: char): (p: string)
    ensures |s| >= width ==> p == s
    ensures |s| < width ==>
      (|p| == width && p[width - |s|..] == s && forall i :: 0 <= i < width - |s| ==> p[i] == c)
  {
    if |s| >= width then s else seq(width - |s|, _ => c) + s
  }

  // ---------------------------------------------------------------------------
  // The tile file name
  // ---------------------------------------------------------------------------

  const Prefix: string := "../assets/terrain/5"
  const Suffix: string := ".hght"
  const HexWidth: nat := 8

  /** `tileIdx.toString(16).toUpperCase().padStart(8, '0')`. */
  function HexKey(tileIdx: int): string {
    PadStart(ToUpperCase(NumberToString(tileIdx, 16)), HexWidth, '0')
  }

  /** `../assets/terrain/5${level}${idxInHex}.hght`. */
  function FileName(level: int, tileIdx: int): string {
    Prefix + NumberToString(level, 10) + HexKey(tileIdx) + Suffix
  }

  // ---------------------------------------------------------------------------
  // Reading a name back
  // ---------------------------------------------------------------------------

  /** The value of a digit of either case, as `parseInt` reads it; 36 for anything else. */
  function DigitValue(c: char): nat {
    if '0' <= c <= '9' then c as int - '0' as int
    else if 'a' <= c <= 'z' then c as int - 'a' as int + 10
    else if 'A' <= c <= 'Z' then c as int - 'A' as int + 10
    else 36
  }

  /** The number the digits of `s` denote in base `radix`. */
  function ParseDigits(s: string, radix: nat): nat
    decreases |s|
  {
    if s == [] then 0 else ParseDigits(s[..|s| - 1], radix) * radix + DigitValue(s[|s| - 1])
  }

  /** The level and tile index a file name encodes, when it has the shape `FileName` produces. */
  function ParseFileName(name: string): Option<(nat, nat)> {
    if |name| > |Prefix| + HexWidth + |Suffix| && name[..|Prefix|] == Prefix && name[|name| - |Suffix|..] == Suffix then
      var body := name[|Prefix|..|name| - |Suffix|];
      Some((ParseDigits(body[..|body| - HexWidth], 10), ParseDigits(body[|body| - HexWidth..], 16)))
    else None
  }

  // ---------------------------------------------------------------------------
  // Properties
  // ---------------------------------------------------------------------------

  /** Reading back the digits gives the number. */
  lemma {:induction false} DigitsRoundTrip(n: nat, radix: nat)
    requires 2 <= radix <= 36
    decreases n
    ensures ParseDigits(Digits(n, radix), radix) == n
  {
    if n >= radix {
      var m := n / radix;
      assert m < n by { DivLess(n, radix); }
      DigitsRoundTrip(m, radix);
      DigitsStep(n, radix);
    }
  }

  /** The digits of `n` are those of `n / radix` followed by the digit of `n % radix`. */
  lemma DigitsStep(n: nat, radix: nat)
    requires 2 <= radix <= 36 && n >= radix
    requires ParseDigits(Digits(n / radix, radix), radix) == n / radix
    ensures ParseDigits(Digits(n, radix), radix) == n
  {
    var s := Digits(n, radix);
    assert s[..|s| - 1] == Digits(n / radix, radix);
    assert s[|s| - 1] == DigitChar(n % radix);
    DivMod(n, radix);
  }

  lemma DivLess(n: nat, d: nat)
    requires 2 <= d && n >= d
    ensures n / d < n
  {
    DivMod(n, d);
    MulAtLeastTwice(n / d, d);
  }

  lemma MulAtLeastTwice(q: nat, d: nat)
    requires d >= 2
    ensures q * d >= 2 * q
  {
    assert q * d == 2 * q + q * (d - 2);
  }

  lemma DivMod(n: nat, d: nat)
    requires d > 0
    ensures n == (n / d) * d + n % d
  {
  }

  /** Upper-casing does not change the value of a digit. */
  lemma {:induction false} UpperCaseRoundTrip(s: string, radix: nat)
    decreases |s|
    ensures ParseDigits(ToUpperCase(s), radix) == ParseDigits(s, radix)
  {
    if s != [] {
      var u := ToUpperCase(s);
      assert u[..|u| - 1] == ToUpperCase(s[..|s| - 1]);
      UpperCaseRoundTrip(s[..|s| - 1], radix);
    }
  }

  /** Leading zeros do not change the value. */
  lemma {:induction false} LeadingZeros(z: string, s: string, radix: nat)
    requires forall i :: 0 <= i < |z| ==> z[i] == '0'
    decreases |s|
    ensures ParseDigits(z + s, radix) == ParseDigits(s, radix)
  {
    if s == [] {
      assert z + s == z;
      ZerosValue(z, radix);
    } else {
      assert (z + s)[..|z + s| - 1] == z + s[..|s| - 1];
      LeadingZeros(z, s[..|s| - 1], radix);
    }
  }

  lemma {:induction false} ZerosValue(z: string, radix: nat)
    requires forall i :: 0 <= i < |z| ==> z[i] == '0'
    decreases |z|
    ensures ParseDigits(z, radix) == 0
  {
    if z != [] {
      ZerosValue(z[..|z| - 1], radix);
    }
  }

  /** A number below 16^k has at most k hexadecimal digits. */
  lemma {:induction false} HexLength(n: nat, k: nat)
    requires k >= 1 && n < Pow2(4 * k)
    decreases k
    ensures |Digits(n, 16)| <= k
  {
    if n >= 16 {
      Pow2Add(4, 4 * (k - 1));
      assert Pow2(4) == 16;
      assert k != 1;
      assert n / 16 < Pow2(4 * (k - 1));
      HexLength(n / 16, k - 1);
    }
  }

  predicate IsUpperHexDigit(c: char) {
    '0' <= c <= '9' || 'A' <= c <= 'F'
  }

  predicate IsLowerHexDigit(c: char) {
    '0' <= c <= '9' || 'a' <= c <= 'f'
  }

  /** Every character of the key of a non-negative index is '0'..'9' or 'A'..'F'. */
  lemma HexKeyDigits(tileIdx: nat)
    ensures forall c :: c in HexKey(tileIdx) ==> IsUpperHexDigit(c)
  {
    var d := Digits(tileIdx, 16);
    var u := ToUpperCase(d);
    DigitsHex(tileIdx);
    forall i | 0 <= i < |u|
      ensures IsUpperHexDigit(u[i])
    {
      assert d[i] in d;
    }
    if |u| < HexWidth {
      var z := seq(HexWidth - |u|, _ => '0');
      assert HexKey(tileIdx) == z + u;
    }
  }

  lemma {:induction false} DigitsHex(n: nat)
    decreases n
    ensures forall c :: c in Digits(n, 16) ==> IsLowerHexDigit(c)
  {
    if n >= 16 {
      DigitsHex(n / 16);
    }
  }

  /** For an index in [0, 2^32) the key has exactly eight characters and reads back as the index. */
  lemma HexKeyRoundTrip(tileIdx: nat)
    requires tileIdx < Pow2(32)
    ensures |HexKey(tileIdx)| == HexWidth
    ensures ParseDigits(HexKey(tileIdx), 16) == tileIdx
  {
    var d := Digits(tileIdx, 16);
    var u := ToUpperCase(d);
    HexLength(tileIdx, 8);
    DigitsRoundTrip(tileIdx, 16);
    UpperCaseRoundTrip(d, 16);
    if |u| < HexWidth {
      var z := seq(HexWidth - |u|, _ => '0');
      assert HexKey(tileIdx) == z + u;
      LeadingZeros(z, u, 16);
    }
  }

  /**
   * The file name determines the tile: for a non-negative level and an index in
   * [0, 2^32) it reads back as that level and index, so distinct tiles load distinct files.
   */
  lemma FileNameRoundTrip(level: nat, tileIdx: nat)
    requires tileIdx < Pow2(32)
    ensures ParseFileName(FileName(level, tileIdx)) == Some((level, tileIdx))
  {
    HexKeyRoundTrip(tileIdx);
    DigitsRoundTrip(level, 10);
    ParseNameParts(NumberToString(level, 10), HexKey(tileIdx));
  }

  /** A name made of the prefix, a decimal part, an eight-character key and the suffix splits back into those parts. */
  lemma ParseNameParts(dec: string, hex: string)
    requires |dec| >= 1 && |hex| == HexWidth
    ensures ParseFileName(Prefix + dec + hex + Suffix) == Some((ParseDigits(dec, 10), ParseDigits(hex, 16)))
  {
    var name := Prefix + dec + hex + Suffix;
    assert name == Prefix + (dec + hex) + Suffix;
    assert name[..|Prefix|] == Prefix;
    assert name[|name| - |Suffix|..] == Suffix;
    var body := name[|Prefix|..|name| - |Suffix|];
    assert body == dec + hex;
    assert body[..|body| - HexWidth] == dec;
    assert body[|body| - HexWidth..] == hex;
  }
}
