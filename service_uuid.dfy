/**
 * The Adafruit service and characteristic UUIDs: a sub-ID written with
 * `"{:04x}"` into the base `ADAFnnnn-C332-42A8-93BD-25E905756CB8`.
 * Only the text is modelled; turning it into 128 bits is the BLE library's job.
 */
module ServiceUuid {

  /** Lower-case hexadecimal digits, as Python's `x` presentation type writes them. */
  const LowerHex: string := "0123456789abcdef"

  /** The text before the sub-ID. */
  const Head: string := "ADAF"

  /** The text after the sub-ID. */
  const Tail: string := "-C332-42A8-93BD-25E905756CB8"

  function HexDigit(d: int): (c: char)
    requires 0 <= d < 16
  {
    LowerHex[d]
  }

  /** `n` in hexadecimal without leading zeros (`"0"` for zero). */
  function HexDigits(n: nat): (s: string)
    ensures |s| >= 1
    decreases n
  {
    if n < 16 then [HexDigit(n)] else HexDigits(n / 16) + [HexDigit(n % 16)]
  }

  /** `s` right-aligned in a field of `width` characters, filled with '0' on the left. */
  function ZeroPad(s: string, width: nat): (r: string)
    ensures |r| == if |s| >= width then |s| else width
  {
    if |s| >= width then s else ZeroChars(width - |s|) + s
  }

  /** `k` '0' characters. */
  function ZeroChars(k: nat): (z: string)
    ensures |z| == k
  {
    if k == 0 then [] else ZeroChars(k - 1) + ['0']
  }

  /** The magnitude `m` in hexadecimal, zero-filled to `width` characters. */
  function Padded(m: nat, width: nat): string
  {
    ZeroPad(HexDigits(m), width)
  }

  /**
   * `"{:04x}".format(n)`: at least four characters, zero-filled; for a negative
   * value the '0' fill goes after the sign, so the sign takes one of the four.
   */
  function Format04x(n: int): string
  {
    if n < 0 then "-" + Padded(-n, 3) else Padded(n, 4)
  }

  /** `AdafruitService.adafruit_service_uuid(n)`, as the text handed to `VendorUUID`. */
  function AdafruitServiceUuid(n: int): string
  {
    Head + Format04x(n) + Tail
  }

  // ---------------------------------------------------------------------------
  // A reading of hexadecimal text, the partner of the formatting above

  predicate IsHexChar(c: char)
  {
    '0' <= c <= '9' || 'a' <= c <= 'f' || 'A' <= c <= 'F'
  }

  function HexValue(c: char): (d: nat)
    requires IsHexChar(c)
    ensures d < 16
  {
    if '0' <= c <= '9' then c as int - '0' as int
    else if 'a' <= c <= 'f' then c as int - 'a' as int + 10
    else c as int - 'A' as int + 10
  }

  /** Every character of `s` is a hexadecimal digit (stated last character first, as `ParseHex` reads). */
  predicate AllHex(s: string)
  {
    s == [] || (AllHex(s[..|s| - 1]) && IsHexChar(s[|s| - 1]))
  }

  /** The number a string of hexadecimal digits denotes, most significant digit first. */
  function ParseHex(s: string): nat
    requires AllHex(s)
  {
    if s == [] then 0 else 16 * ParseHex(s[..|s| - 1]) + HexValue(s[|s| - 1])
  }

  function Pow16(k: nat): (p: nat)
    ensures p >= 1
  {
    if k == 0 then 1 else 16 * Pow16(k - 1)
  }

  /**
   * The textual UUID layout of section 3 of RFC 4122: 32 hexadecimal digits in
   * groups of 8-4-4-4-12, separated by hyphens (36 characters).
   */
  predicate IsUuidText(s: string)
  {
    |s| == 36 &&
    forall i :: 0 <= i < |s| ==>
      if i == 8 || i == 13 || i == 18 || i == 23 then s[i] == '-' else IsHexChar(s[i])
  }

  // ---------------------------------------------------------------------------
  // Properties

  lemma {:induction false} AllHexAt(s: string, i: int)
    requires AllHex(s) && 0 <= i < |s|
    ensures IsHexChar(s[i])
    decreases |s|
  {
    if i < |s| - 1 {
      AllHexAt(s[..|s| - 1], i);
    }
  }

  lemma HexValueOfDigit(d: int)
    requires 0 <= d < 16
    ensures IsHexChar(HexDigit(d)) && HexValue(HexDigit(d)) == d
  {
  }

  /** Every character `HexDigits` writes is a hexadecimal digit, and reading them back gives `n`. */
  lemma {:induction false} ParseHexDigits(n: nat)
    ensures AllHex(HexDigits(n)) && ParseHex(HexDigits(n)) == n
    decreases n
  {
    var s := HexDigits(n);
    if n < 16 {
      HexValueOfDigit(n);
      assert s[..0] == [];
    } else {
      var q, r := n / 16, n % 16;
      ParseHexDigits(q);
      HexValueOfDigit(r);
      assert s == HexDigits(q) + [HexDigit(r)];
      assert s[..|s| - 1] == HexDigits(q) && s[|s| - 1] == HexDigit(r);
      assert n == 16 * q + r;
    }
  }

  /** Leading zeros do not change the value of hexadecimal text. */
  lemma {:induction false} ParseHexLeadingZeros(k: nat, s: string)
    requires AllHex(s)
    ensures AllHex(ZeroChars(k) + s) && ParseHex(ZeroChars(k) + s) == ParseHex(s)
    decreases |s|
  {
    var z: string := ZeroChars(k);
    if s == [] {
      assert z + s == z;
      AllZeros(k);
    } else {
      ParseHexLeadingZeros(k, s[..|s| - 1]);
      assert (z + s)[..|z + s| - 1] == z + s[..|s| - 1];
    }
  }

  lemma {:induction false} AllZeros(k: nat)
    ensures AllHex(ZeroChars(k)) && ParseHex(ZeroChars(k)) == 0
  {
    if k > 0 {
      AllZeros(k - 1);
      assert ZeroChars(k)[..k - 1] == ZeroChars(k - 1);
    }
  }

  /** `HexDigits(n)` is at most `k` characters long exactly when `n < 16^k`. */
  lemma {:induction false} HexDigitsLength(n: nat, k: nat)
    requires k >= 1
    ensures |HexDigits(n)| <= k <==> n < Pow16(k)
    decreases n
  {
    if n >= 16 {
      if k == 1 {
        assert |HexDigits(n)| == |HexDigits(n / 16)| + 1;
      } else {
        HexDigitsLength(n / 16, k - 1);
        assert n / 16 < Pow16(k - 1) <==> n < 16 * Pow16(k - 1);
      }
    } else {
      Pow16AtLeast16(k);
    }
  }

  lemma {:induction false} Pow16AtLeast16(k: nat)
    requires k >= 1
    ensures Pow16(k) >= 16
  {
    if k > 1 {
      Pow16AtLeast16(k - 1);
    }
  }

  /** Zero-padded hexadecimal text reads back as the number it was written from. */
  lemma ParseZeroPadded(n: nat, width: nat)
    ensures AllHex(Padded(n, width)) && ParseHex(Padded(n, width)) == n
  {
    ParseHexDigits(n);
    var s := HexDigits(n);
    if |s| < width {
      ParseHexLeadingZeros(width - |s|, s);
    }
  }

  /** `HexDigits` writes only lower-case digits, as the `x` presentation type does. */
  lemma {:induction false} HexDigitsLower(n: nat)
    ensures forall i :: 0 <= i < |HexDigits(n)| ==> HexDigits(n)[i] in LowerHex
    decreases n
  {
    if n >= 16 {
      HexDigitsLower(n / 16);
    }
  }

  /** The zero fill is made of '0' characters only. */
  lemma {:induction false} ZeroCharsAreZeros(k: nat)
    ensures forall i :: 0 <= i < k ==> ZeroChars(k)[i] == '0'
  {
    if k > 0 {
      ZeroCharsAreZeros(k - 1);
    }
  }

  /** Within 16 bits the sub-ID is written as exactly four lower-case hexadecimal digits. */
  lemma Format04xOfU16(n: int)
    requires 0 <= n <= 0xFFFF
    ensures |Format04x(n)| == 4 && AllHex(Format04x(n)) && ParseHex(Format04x(n)) == n
    ensures forall i :: 0 <= i < 4 ==> Format04x(n)[i] in LowerHex
  {
    HexDigitsLength(n, 4);
    ParseZeroPadded(n, 4);
    HexDigitsLower(n);
    var s := HexDigits(n);
    if |s| < 4 {
      var z := ZeroChars(4 - |s|);
      ZeroCharsAreZeros(4 - |s|);
      assert Format04x(n) == z + s;
      forall i | 0 <= i < 4
        ensures Format04x(n)[i] in LowerHex
      {
        if i < |z| {
          assert Format04x(n)[i] == z[i] == '0' == LowerHex[0];
        } else {
          assert Format04x(n)[i] == s[i - |z|];
        }
      }
    }
  }

  lemma SignThenDigits(digits: string)
    ensures ("-" + digits)[0] == '-' && ("-" + digits)[1..] == digits
  {
  }

  /** Distinct integers are formatted differently: the sign and the digits give the value back. */
  lemma Format04xInjective(m: int, n: int)
    requires Format04x(m) == Format04x(n)
    ensures m == n
  {
    if m < 0 && n < 0 {
      NegativeInjective(m, n);
    } else if m >= 0 && n >= 0 {
      NonNegativeInjective(m, n);
    } else if m < 0 {
      SignsDiffer(m, n);
    } else {
      SignsDiffer(n, m);
    }
  }

  lemma NegativeInjective(m: int, n: int)
    requires m < 0 && n < 0 && Format04x(m) == Format04x(n)
    ensures m == n
  {
    NegativeFormat(m);
    NegativeFormat(n);
    ParseZeroPadded(-m, 3);
    ParseZeroPadded(-n, 3);
  }

  lemma NonNegativeInjective(m: int, n: int)
    requires m >= 0 && n >= 0 && Format04x(m) == Format04x(n)
    ensures m == n
  {
    ParseZeroPadded(m, 4);
    ParseZeroPadded(n, 4);
  }

  lemma SignsDiffer(neg: int, pos: int)
    requires neg < 0 <= pos
    ensures Format04x(neg) != Format04x(pos)
  {
    NegativeFormat(neg);
    ParseZeroPadded(pos, 4);
    AllHexAt(Format04x(pos), 0);
  }

  /** A negative value is written as '-' and then its magnitude's digits, zero-filled to three. */
  lemma NegativeFormat(n: int)
    requires n < 0
    ensures Format04x(n)[0] == '-' && Format04x(n)[1..] == Padded(-n, 3)
  {
    SignThenDigits(Padded(-n, 3));
  }

  /** Distinct sub-IDs give distinct UUID strings. */
  lemma AdafruitServiceUuidInjective(m: int, n: int)
    requires AdafruitServiceUuid(m) == AdafruitServiceUuid(n)
    ensures m == n
  {
    var a, b := AdafruitServiceUuid(m), AdafruitServiceUuid(n);
    assert |Format04x(m)| == |Format04x(n)|;
    assert Format04x(m) == a[4..|a| - |Tail|];
    assert Format04x(n) == b[4..|b| - |Tail|];
    Format04xInjective(m, n);
  }

  /** For a 16-bit sub-ID: 36 characters, the base text everywhere but at positions 4 to 7, which hold the digits. */
  lemma AdafruitServiceUuidLayout(n: int)
    requires 0 <= n <= 0xFFFF
    ensures var s := AdafruitServiceUuid(n);
      |s| == 36 && s[..4] == Head && s[4..8] == Format04x(n) && s[8..] == Tail &&
      s[8] == '-' && s[13] == '-' && s[18] == '-' && s[23] == '-'
  {
    Format04xOfU16(n);
    FixedTextShape();
    var s := AdafruitServiceUuid(n);
    assert s[8..] == Tail;
    assert s[8] == Tail[0] && s[13] == Tail[5] && s[18] == Tail[10] && s[23] == Tail[15];
  }

  /** Two 16-bit sub-IDs give strings that agree everywhere outside positions 4 to 7. */
  lemma OnlySubIdCharactersVary(m: int, n: int, i: int)
    requires 0 <= m <= 0xFFFF && 0 <= n <= 0xFFFF
    requires 0 <= i < 36 && !(4 <= i < 8)
    ensures |AdafruitServiceUuid(m)| == |AdafruitServiceUuid(n)| == 36
    ensures AdafruitServiceUuid(m)[i] == AdafruitServiceUuid(n)[i]
  {
    AdafruitServiceUuidLayout(m);
    AdafruitServiceUuidLayout(n);
    var a, b := AdafruitServiceUuid(m), AdafruitServiceUuid(n);
    if i < 4 {
      assert a[i] == a[..4][i] == b[..4][i] == b[i];
    } else {
      assert a[i] == a[8..][i - 8] == b[8..][i - 8] == b[i];
    }
  }

  /** The fixed text around the sub-ID fits the 8-4-4-4-12 layout. */
  lemma FixedTextShape()
    ensures |Head| == 4 && forall j :: 0 <= j < |Head| ==> IsHexChar(Head[j])
    ensures |Tail| == 28
    ensures forall j :: 0 <= j < |Tail| ==>
      if j == 0 || j == 5 || j == 10 || j == 15 then Tail[j] == '-' else IsHexChar(Tail[j])
  {
  }

  /** The string is a well-formed RFC 4122 UUID exactly when the sub-ID is a 16-bit value. */
  lemma AdafruitServiceUuidIsUuidTextIff(n: int)
    ensures IsUuidText(AdafruitServiceUuid(n)) <==> 0 <= n <= 0xFFFF
  {
    var s := AdafruitServiceUuid(n);
    if 0 <= n <= 0xFFFF {
      Format04xOfU16(n);
      FixedTextShape();
      var f := Format04x(n);
      assert |s| == 36;
      forall i | 0 <= i < |s|
        ensures if i == 8 || i == 13 || i == 18 || i == 23 then s[i] == '-' else IsHexChar(s[i])
      {
        if i < 4 {
          assert s[i] == Head[i];
        } else if i < 8 {
          AllHexAt(f, i - 4);
          assert s[i] == f[i - 4];
        } else {
          assert s[i] == Tail[i - 8];
        }
      }
    } else if n < 0 {
      assert s[4] == Format04x(n)[0] == '-';
    } else {
      HexDigitsLength(n, 4);
      assert |s| > 36;
    }
  }

  /** The pixel service's UUID: the docstring's template `ADAFnnnn-…` with nnnn = 0900. */
  lemma PixelServiceUuidText()
    ensures AdafruitServiceUuid(0x900) == "ADAF0900" + "-C332-42A8-93BD-25E905756CB8"
  {
    Format04xOf900();
    FillTemplate(Format04x(0x900));
  }

  lemma FillTemplate(f: string)
    requires f == "0900"
    ensures Head + f + Tail == "ADAF0900" + "-C332-42A8-93BD-25E905756CB8"
  {
  }

  lemma Format04xOf900()
    ensures Format04x(0x900) == "0900"
  {
    assert HexDigits(0x900) == "900" by {
      assert HexDigits(0x90) == "90";
    }
  }
}
