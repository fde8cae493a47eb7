/** `hashHex`: the 32-bit FNV-1a hash of a string's UTF-16 code units,
    written as eight lower-case hexadecimal digits. It is the event id and the
    seed of each calendar entry's UID. */
module Fnv {
  import opened Text

  /** A UTF-16 code unit: what `length` counts and `charCodeAt` returns. */
  type CodeUnit = u: int | 0 <= u < 0x10000

  /** The UTF-16 encoding of one character: itself below U+10000, a surrogate pair above. */
  function Utf16Char(c: char): (r: seq<CodeUnit>)
    ensures |r| == (if c as int < 0x10000 then 1 else 2)
    ensures c as int < 0x10000 ==> r[0] == c as int
  {
    var n := c as int;
    if n < 0x10000 then [n]
    else
      var v := n - 0x10000;
      [0xD800 + v / 0x400, 0xDC00 + v % 0x400]
  }

  /** A JavaScript string's code units. */
  function Utf16(s: string): seq<CodeUnit> {
    if s == [] then [] else Utf16Char(s[0]) + Utf16(s[1..])
  }

  lemma {:induction false} Utf16Append(a: string, b: string)
    ensures Utf16(a + b) == Utf16(a) + Utf16(b)
  {
    if a == [] {
      assert a + b == b;
    } else {
      assert (a + b)[0] == a[0] && (a + b)[1..] == a[1..] + b;
      Utf16Append(a[1..], b);
    }
  }

  /** Each character takes one or two code units. */
  lemma {:induction false} Utf16Length(s: string)
    ensures |s| <= |Utf16(s)| <= 2 * |s|
  {
    if s != [] {
      Utf16Length(s[1..]);
    }
  }

  /** The character a single code unit or a surrogate pair stands for. */
  function DecodeUnits(hi: CodeUnit, lo: CodeUnit, pair: bool): int {
    if pair then 0x10000 + (hi - 0xD800) * 0x400 + (lo - 0xDC00) else hi
  }

  /** Decoding a character's code units gives the character back, so that the
      encoding of a string loses nothing. */
  lemma Utf16CharDecodes(c: char)
    ensures var r := Utf16Char(c);
      if |r| == 1 then DecodeUnits(r[0], 0, false) == c as int
      else 0xD800 <= r[0] < 0xDC00 <= r[1] < 0xE000 && DecodeUnits(r[0], r[1], true) == c as int
  {
  }

  /** In a string of characters below U+10000 the code units are the characters. */
  lemma {:induction false} Utf16OfBmp(s: string)
    requires forall i :: 0 <= i < |s| ==> s[i] as int < 0x10000
    ensures |Utf16(s)| == |s|
    ensures forall i :: 0 <= i < |s| ==> Utf16(s)[i] == s[i] as int
  {
    if s != [] {
      Utf16OfBmp(s[1..]);
      forall i | 0 <= i < |s|
        ensures Utf16(s)[i] == s[i] as int
      {
        if i > 0 {
          assert Utf16(s)[i] == Utf16(s[1..])[i - 1];
          assert s[1..][i - 1] == s[i];
        }
      }
    }
  }

  const FnvOffsetBasis: nat := 2166136261
  const FnvPrime: nat := 16777619
  const TwoTo32: nat := 0x1_0000_0000

  /** Bitwise exclusive or of two naturals, one binary digit at a time. */
  function Xor(a: nat, b: nat): nat
    decreases a + b
  {
    if a == 0 && b == 0 then 0 else 2 * Xor(a / 2, b / 2) + (a % 2 + b % 2) % 2
  }

  lemma {:induction false} XorZero(a: nat)
    ensures Xor(a, 0) == a
    decreases a
  {
    if a != 0 {
      XorZero(a / 2);
    }
  }

  /** The binary digits of `Xor(a, b)`: its last digit and the rest. */
  lemma XorHalves(a: nat, b: nat)
    ensures Xor(a, b) / 2 == Xor(a / 2, b / 2)
    ensures Xor(a, b) % 2 == (a % 2 + b % 2) % 2
  {
  }

  lemma ParityCancels(p: nat, q: nat)
    requires p < 2 && q < 2
    ensures ((p + q) % 2 + q) % 2 == p
  {
  }

  /** XOR-ing the same value in twice cancels out. */
  lemma {:induction false} XorCancels(a: nat, b: nat)
    ensures Xor(Xor(a, b), b) == a
    decreases a + b
  {
    var r := Xor(a, b);
    if b == 0 {
      XorZero(a);
      XorZero(r);
    } else {
      XorHalves(a, b);
      XorHalves(r, b);
      XorCancels(a / 2, b / 2);
      ParityCancels(a % 2, b % 2);
      var t := Xor(r, b);
      assert t == 2 * (t / 2) + t % 2;
    }
  }

  /** One round: XOR in the code unit, then multiply by the prime modulo 2^32
      (`Math.imul` keeps the low 32 bits; `>>> 0` reads them unsigned). */
  function FnvStep(hash: nat, unit: CodeUnit): (r: nat)
    ensures r < TwoTo32
  {
    (Xor(hash, unit) * FnvPrime) % TwoTo32
  }

  /** FNV-1a over a sequence of code units, one round per unit from the left. */
  function Fnv1a(units: seq<CodeUnit>): (hash: nat)
    ensures hash < TwoTo32
    ensures units == [] ==> hash == FnvOffsetBasis
  {
    if units == [] then FnvOffsetBasis
    else FnvStep(Fnv1a(units[..|units| - 1]), units[|units| - 1])
  }

  predicate IsHexDigit(c: char) {
    ('0' <= c <= '9') || ('a' <= c <= 'f')
  }

  function HexDigit(n: int): (c: char)
    requires 0 <= n < 16
    ensures IsHexDigit(c)
  {
    if n < 10 then ('0' as int + n) as char else ('a' as int + n - 10) as char
  }

  function HexDigitValue(c: char): (n: nat)
    requires IsHexDigit(c)
    ensures n < 16
  {
    if c <= '9' then c as int - '0' as int else c as int - 'a' as int + 10
  }

  /** `Number.prototype.toString(16)`: the shortest lower-case hexadecimal numeral. */
  function ToHex(n: nat): (s: string)
    ensures |s| >= 1
    ensures forall i :: 0 <= i < |s| ==> IsHexDigit(s[i])
  {
    if n < 16 then [HexDigit(n)] else ToHex(n / 16) + [HexDigit(n % 16)]
  }

  /** `String.prototype.padStart(width, fill)`. */
  function PadStart(s: string, width: nat, fill: char): (r: string)
    ensures |r| == if |s| >= width then |s| else width
    ensures forall i :: |r| - |s| <= i < |r| ==> r[i] == s[i - (|r| - |s|)]
    ensures forall i :: 0 <= i < |r| - |s| ==> r[i] == fill
  {
    if |s| >= width then s else seq(width - |s|, _ => fill) + s
  }

  /** The number a string of hexadecimal digits denotes. */
  function HexValue(s: string): nat
    requires forall i :: 0 <= i < |s| ==> IsHexDigit(s[i])
  {
    if s == [] then 0 else HexValue(s[..|s| - 1]) * 16 + HexDigitValue(s[|s| - 1])
  }

  function Pow16(k: nat): (p: nat)
    ensures p >= 1
  {
    if k == 0 then 1 else 16 * Pow16(k - 1)
  }

  /** A number below 16^k needs at most k hexadecimal digits. */
  lemma {:induction false} ToHexLength(n: nat, k: nat)
    requires 1 <= k && n < Pow16(k)
    ensures |ToHex(n)| <= k
  {
    if n >= 16 {
      ToHexLength(n / 16, k - 1);
    }
  }

  lemma {:induction false} HexValueToHex(n: nat)
    ensures HexValue(ToHex(n)) == n
  {
    if n >= 16 {
      HexValueToHex(n / 16);
      var s := ToHex(n);
      assert s[..|s| - 1] == ToHex(n / 16);
    }
  }

  /** Leading zeros do not change the value of a numeral. */
  lemma {:induction false} HexValueLeadingZeros(z: nat, s: string)
    requires forall i :: 0 <= i < |s| ==> IsHexDigit(s[i])
    ensures HexValue(seq(z, _ => '0') + s) == HexValue(s)
    decreases |s|, z
  {
    var t := seq(z, _ => '0') + s;
    if s == [] {
      assert t == seq(z, _ => '0');
      if z > 0 {
        assert t[..|t| - 1] == seq(z - 1, _ => '0') + [];
        HexValueLeadingZeros(z - 1, []);
      }
    } else {
      assert t[..|t| - 1] == seq(z, _ => '0') + s[..|s| - 1];
      HexValueLeadingZeros(z, s[..|s| - 1]);
    }
  }

  /** `hashHex(text)`: the hash of the text's code units as exactly eight
      lower-case hexadecimal digits that read back as the hash. */
  function Fingerprint(text: string): (id: string)
    ensures |id| == 8
    ensures forall i :: 0 <= i < |id| ==> IsHexDigit(id[i])
  {
    var hash := Fnv1a(Utf16(text));
    ToHexLength(hash, 8);
    PadStart(ToHex(hash), 8, '0')
  }

  /** Zeros put in front of a numeral do not change its value. */
  lemma PaddedHexValue(s: string, width: nat)
    requires forall i :: 0 <= i < |s| ==> IsHexDigit(s[i])
    ensures forall i :: 0 <= i < |PadStart(s, width, '0')| ==> IsHexDigit(PadStart(s, width, '0')[i])
    ensures HexValue(PadStart(s, width, '0')) == HexValue(s)
  {
    if |s| < width {
      assert PadStart(s, width, '0') == seq(width - |s|, _ => '0') + s;
      HexValueLeadingZeros(width - |s|, s);
    }
  }

  /** The eight digits read back as the hash. */
  lemma FingerprintValue(text: string)
    ensures HexValue(Fingerprint(text)) == Fnv1a(Utf16(text))
  {
    var hash := Fnv1a(Utf16(text));
    HexValueToHex(hash);
    PaddedHexValue(ToHex(hash), 8);
  }

  /** `hashHex` as written: a loop over the code units updating the hash. */
  method HashHex(text: string) returns (id: string)
    ensures id == Fingerprint(text)
  {
    var units := Utf16(text);
    var hash := FnvOffsetBasis;
    for index := 0 to |units|
      invariant hash == Fnv1a(units[..index])
    {
      assert units[..index + 1][..index] == units[..index];
      hash := FnvStep(hash, units[index]);
    }
    assert units[..|units|] == units;
    ToHexLength(hash, 8);
    id := PadStart(ToHex(hash), 8, '0');
  }
}
