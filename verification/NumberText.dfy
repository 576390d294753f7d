/** The text printf_unsigned and printf_signed print (src/kernel/libs/stdio.c), and how it reads
    back. */
module NumberText {
  import opened Arithmetic

  function Digit(d: nat, uppercase: bool): char
    requires d < 16
  {
    if uppercase then "0123456789ABCDEF"[d] else "0123456789abcdef"[d]
  }

  /** The digits of n, most significant first, no leading zero unless n is 0. */
  function Digits(n: nat, radix: nat, uppercase: bool): (s: string)
    requires 2 <= radix <= 16
    ensures |s| > 0
  {
    if n < radix then [Digit(n, uppercase)] else Digits(n / radix, radix, uppercase) + [Digit(n % radix, uppercase)]
  }

  lemma QuotientShrinks(n: nat, d: nat)
    requires n > 0 && d >= 2
    ensures 0 <= n / d < n
  {
    var q := n / d;
    Quotient(n, d);
    assert q * d == q * 2 + q * (d - 2);
  }

  /** One round of the conversion loops. */
  lemma LastDigit(n: nat, radix: nat, uppercase: bool)
    requires 2 <= radix <= 16
    ensures n % radix < radix && n / radix >= 0 && (n > 0 ==> n / radix < n)
    ensures var d := Digits(n, radix, uppercase);
            d[|d| - 1] == Digit(n % radix, uppercase)
            && if n / radix > 0 then |d| > 1 && d[..|d| - 1] == Digits(n / radix, radix, uppercase) else |d| == 1
  {
    Quotient(n, radix);
    if n > 0 {
      QuotientShrinks(n, radix);
    }
    hide Digit;
  }

  function Repeat(c: char, n: int): (s: string)
    ensures |s| == if n < 0 then 0 else n
    ensures forall k :: 0 <= k < |s| ==> s[k] == c
  {
    if n <= 0 then "" else seq(n, _ => c)
  }

  function UnsignedText(n: nat, radix: nat, width: int, padding: char, uppercase: bool): string
    requires 2 <= radix <= 16
  {
    var d := Digits(n, radix, uppercase);
    Repeat(padding, width - |d|) + d
  }

  /** With zero padding the sign comes first, otherwise it follows the padding. */
  function SignedText(n: int, radix: nat, width: int, padding: char, uppercase: bool): string
    requires 2 <= radix <= 16
  {
    if n >= 0 then UnsignedText(n, radix, width, padding, uppercase)
    else
      var d := Digits(-n, radix, uppercase);
      if padding == '0' then "-" + Repeat('0', width - 1 - |d|) + d
      else Repeat(padding, width - 1 - |d|) + "-" + d
  }

  // ---------------------------------------------------------------- reading a number back

  function DigitValue(c: char): int
  {
    if '0' <= c <= '9' then c as int - '0' as int
    else if 'a' <= c <= 'f' then c as int - 'a' as int + 10
    else if 'A' <= c <= 'F' then c as int - 'A' as int + 10
    else -1
  }

  function Read(s: string, radix: nat): int
  {
    if s == [] then 0 else Read(s[..|s| - 1], radix) * radix + DigitValue(s[|s| - 1])
  }

  /** Skip blanks, take a sign, read digits. */
  function ReadSigned(s: string, radix: nat): int
  {
    if s == [] then 0
    else if s[0] == ' ' then ReadSigned(s[1..], radix)
    else if s[0] == '-' then -Read(s[1..], radix)
    else Read(s, radix)
  }

  lemma DigitReads(d: nat, uppercase: bool)
    requires d < 16
    ensures DigitValue(Digit(d, uppercase)) == d
  {
  }

  lemma ReadLast(s: string, c: char, radix: nat)
    ensures Read(s + [c], radix) == Read(s, radix) * radix + DigitValue(c)
  {
    assert (s + [c])[..|s|] == s;
  }

  lemma ReadNone(radix: nat)
    ensures Read("", radix) == 0
  {
  }

  lemma {:induction false} DigitsRead(n: nat, radix: nat, uppercase: bool)
    requires 2 <= radix <= 16
    ensures Read(Digits(n, radix, uppercase), radix) == n
    ensures forall c <- Digits(n, radix, uppercase) :: 0 <= DigitValue(c) < radix
  {
    hide Read, Digit, DigitValue;
    if n < radix {
      DigitReads(n, uppercase);
      ReadLast("", Digit(n, uppercase), radix);
      ReadNone(radix);
      assert "" + [Digit(n, uppercase)] == [Digit(n, uppercase)];
    } else {
      var q, d := n / radix, n % radix;
      Quotient(n, radix);
      DigitsRead(q, radix, uppercase);
      DigitReads(d, uppercase);
      ReadLast(Digits(q, radix, uppercase), Digit(d, uppercase), radix);
    }
  }

  lemma {:induction false} ZerosRead(s: string, k: nat, radix: nat)
    ensures Read(Repeat('0', k) + s, radix) == Read(s, radix)
  {
    var t := Repeat('0', k) + s;
    if s == [] {
      if k > 0 {
        assert t[..|t| - 1] == Repeat('0', k - 1) + s;
        ZerosRead(s, k - 1, radix);
      }
    } else {
      assert t[..|t| - 1] == Repeat('0', k) + s[..|s| - 1];
      ZerosRead(s[..|s| - 1], k, radix);
    }
  }

  lemma {:induction false} BlanksRead(s: string, k: nat, radix: nat)
    ensures ReadSigned(Repeat(' ', k) + s, radix) == ReadSigned(s, radix)
  {
    if k == 0 {
      assert Repeat(' ', k) + s == s;
    } else {
      assert (Repeat(' ', k) + s)[1..] == Repeat(' ', k - 1) + s;
      BlanksRead(s, k - 1, radix);
    }
  }

  lemma UnpaddedReads(d: string, radix: nat)
    requires |d| > 0 && DigitValue(d[0]) >= 0
    ensures ReadSigned(d, radix) == Read(d, radix) && ReadSigned("-" + d, radix) == -Read(d, radix)
  {
    assert ("-" + d)[1..] == d;
  }

  lemma PaddedReads(d: string, k: nat, radix: nat)
    requires |d| > 0 && DigitValue(d[0]) >= 0
    ensures ReadSigned(Repeat(' ', k) + d, radix) == ReadSigned(Repeat('0', k) + d, radix) == Read(d, radix)
    ensures ReadSigned(Repeat(' ', k) + "-" + d, radix) == ReadSigned("-" + Repeat('0', k) + d, radix) ==
            -Read(d, radix)
  {
    hide Read, ReadSigned, DigitValue;
    UnpaddedReads(d, radix);
    BlanksRead(d, k, radix);
    BlanksRead("-" + d, k, radix);
    assert Repeat(' ', k) + "-" + d == Repeat(' ', k) + ("-" + d);
    var z := Repeat('0', k) + d;
    ZerosRead(d, k, radix);
    assert DigitValue(z[0]) >= 0 by {
      assert k == 0 ==> z[0] == d[0];
      DigitReads(0, false);
    }
    UnpaddedReads(z, radix);
    assert "-" + Repeat('0', k) + d == "-" + z;
  }

  /** Padded with blanks or zeros, every number reads back as itself. */
  lemma SignedTextReadsBack(n: int, radix: nat, width: int, padding: char, uppercase: bool)
    requires 2 <= radix <= 16 && (padding == ' ' || padding == '0')
    ensures ReadSigned(SignedText(n, radix, width, padding, uppercase), radix) == n
  {
    hide Digits, Read, ReadSigned, DigitValue;
    var m := if n < 0 then -n else n;
    var d := Digits(m, radix, uppercase);
    DigitsRead(m, radix, uppercase);
    assert d[0] in d;
    var k := width - (if n < 0 then 1 else 0) - |d|;
    assert Repeat(padding, k) == Repeat(padding, if k < 0 then 0 else k);
    PaddedReads(d, if k < 0 then 0 else k, radix);
  }

  /** The text is as wide as asked for, and wider only if the digits and the sign need it. */
  lemma SignedTextWidth(n: int, radix: nat, width: int, padding: char, uppercase: bool)
    requires 2 <= radix <= 16
    ensures var need := |Digits(if n < 0 then -n else n, radix, uppercase)| + if n < 0 then 1 else 0;
            |SignedText(n, radix, width, padding, uppercase)| == if width > need then width else need
  {
  }

  lemma {:induction false} PowerGrows(b: nat, k: nat)
    requires b >= 2 && k > 0
    ensures Power(b, k) >= b
  {
    if k > 1 {
      PowerGrows(b, k - 1);
      assert b * Power(b, k - 1) >= b * 1;
    }
  }

  /** Digits are counted by the powers of the radix, so no buffer is overrun. */
  lemma {:induction false} DigitCountIff(n: nat, radix: nat, uppercase: bool, k: nat)
    requires 2 <= radix <= 16 && k > 0
    ensures |Digits(n, radix, uppercase)| <= k <==> n < Power(radix, k)
  {
    if n < radix {
      PowerGrows(radix, k);
    } else if k > 1 {
      DigitCountIff(n / radix, radix, uppercase, k - 1);
      QuotientBelowIff(n, radix, Power(radix, k - 1));
    } else {
      assert Power(radix, 1) == radix * Power(radix, 0);
    }
  }

  lemma {:induction false} PowerMonotone(a: nat, b: nat, k: nat)
    requires a <= b
    ensures Power(a, k) <= Power(b, k)
  {
    if k > 0 {
      PowerMonotone(a, b, k - 1);
      var x, y := Power(a, k - 1), Power(b, k - 1);
      assert a * x <= a * y <= b * y by {
        MulMonotone(x, y, a);
        MulMonotone(a, b, y);
      }
    }
  }

  /** The 64 characters of printf_unsigned hold every 64-bit number in every radix; the 32 of
      printf_signed hold every magnitude up to 2^63 from radix 4 on, and no 33-bit one in radix 2. */
  lemma BuffersSuffice(n: nat, radix: nat, uppercase: bool)
    requires 2 <= radix <= 16
    ensures n < 0x1_0000_0000_0000_0000 ==> |Digits(n, radix, uppercase)| <= 64
    ensures n <= 0x8000_0000_0000_0000 && radix >= 4 ==> |Digits(n, radix, uppercase)| <= 32
    ensures radix == 2 ==> (|Digits(n, radix, uppercase)| <= 32 <==> n < 0x1_0000_0000)
  {
    WordSizes();
    DigitCountIff(n, radix, uppercase, 64);
    DigitCountIff(n, radix, uppercase, 32);
    PowerMonotone(2, radix, 64);
    if radix >= 4 {
      PowerMonotone(4, radix, 32);
    }
  }

  /** Letters, padding and the place of the sign. */
  lemma Samples()
    ensures UnsignedText(0xAF, 16, 0, ' ', true) == "AF" && UnsignedText(0xBE, 16, 0, ' ', false) == "be"
    ensures UnsignedText(7, 2, 6, '0', false) == "000111" && UnsignedText(42, 10, 5, '*', false) == "***42"
    ensures SignedText(-42, 10, 6, '0', false) == "-00042" && SignedText(-42, 10, 6, ' ', false) == "   -42"
  {
    assert Digits(7 / 2 / 2, 2, false) == "1" && Digits(7 / 2, 2, false) == "11" && Digits(7, 2, false) == "111";
    assert Digits(42, 10, false) == "42";
  }
}
