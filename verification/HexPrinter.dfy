/** How the two words of a hashed set are printed: `toString(16).padStart(8, '0')` on a
    signed word, twice. A negative word carries its minus sign after the padding. */
module HexPrinter {
  import opened Words
  import opened Text

  const DIGITS: string := "0123456789abcdef"

  predicate IsHex(c: char) {
    '0' <= c <= '9' || 'a' <= c <= 'f'
  }

  function Digit(d: nat): (c: char)
    requires d < 16
    ensures IsHex(c) && DigitValue(c) == d
  {
    DIGITS[d]
  }

  function DigitValue(c: char): nat
    requires IsHex(c)
  {
    if c <= '9' then (c as int) - ('0' as int) else (c as int) - ('a' as int) + 10
  }

  /** toString(16) of a non-negative number. */
  function HexDigits(n: nat): string {
    if n < 16 then [Digit(n)] else HexDigits(n / 16) + [Digit(n % 16)]
  }

  /** toString(16): the minus sign comes first. */
  function ToString16(x: int): string {
    if x < 0 then "-" + HexDigits(-x) else HexDigits(x)
  }

  function PrintWord(x: Int32): string {
    PadStart(ToString16(x), 8)
  }

  function PrintWords(high: Int32, low: Int32): string {
    PrintWord(high) + PrintWord(low)
  }

  // Reading back. The program never does this; the reader exists to show that nothing is lost.

  predicate AllHex(s: string) {
    forall i | 0 <= i < |s| :: IsHex(s[i])
  }

  function HexValue(s: string): nat
    requires AllHex(s)
  {
    if s == [] then 0 else HexValue(s[..|s| - 1]) * 16 + DigitValue(s[|s| - 1])
  }

  function ReadMagnitude(s: string): int {
    if AllHex(s) then HexValue(s) else 0
  }

  /** Skips zeros, then takes an optional sign, then digits. */
  function ReadWord(s: string): int {
    if s == [] then 0
    else if s[0] == '0' then ReadWord(s[1..])
    else if s[0] == '-' then -ReadMagnitude(s[1..])
    else ReadMagnitude(s)
  }

  /** The first printed word has nine characters only as a minus sign and eight digits. */
  function FirstWidth(s: string): nat {
    if |s| >= 17 && s[0] == '-' && s[8] != '-' then 9 else 8
  }

  function ReadWords(s: string): (int, int)
    requires |s| >= 16
  {
    var w := FirstWidth(s);
    (ReadWord(s[..w]), ReadWord(s[w..]))
  }

  lemma {:induction false} HexDigitsShape(n: nat, k: nat)
    requires k >= 1 && n < Pow(16, k)
    ensures 1 <= |HexDigits(n)| <= k && AllHex(HexDigits(n))
    ensures HexValue(HexDigits(n)) == n
    ensures n > 0 ==> HexDigits(n)[0] != '0'
    decreases k
  {
    if n >= 16 {
      assert Pow(16, 1) == 16;
      assert Pow(16, k) == 16 * Pow(16, k - 1);
      HexDigitsShape(n / 16, k - 1);
      var front := HexDigits(n / 16);
      assert HexDigits(n)[..|front|] == front;
    } else {
      assert HexDigits(n)[..0] == [];
    }
  }

  lemma {:induction false} ReadSkipsZeros(k: nat, s: string)
    ensures ReadWord(Zeros(k) + s) == ReadWord(s)
  {
    if k == 0 {
      assert Zeros(0) + s == s;
    } else {
      assert (Zeros(k) + s)[1..] == Zeros(k - 1) + s;
      ReadSkipsZeros(k - 1, s);
    }
  }

  /** Hexadecimal digits of a number, the first of them not zero unless it is the only one. */
  predicate Spells(h: string, n: nat) {
    h != "" && AllHex(h) && HexValue(h) == n && (|h| > 1 ==> h[0] != '0')
  }

  function Magnitude(x: int): nat {
    if x < 0 then -x else x
  }

  lemma DigitsSpell(n: nat)
    requires n <= TWO31
    ensures Spells(HexDigits(n), n)
  {
    assert Pow(16, 4) == 65536;
    assert Pow(16, 8) == 65536 * 65536;
    HexDigitsShape(n, 8);
  }

  function Widened(t: string): string {
    Zeros(if |t| < 8 then 8 - |t| else 0) + t
  }

  /** How a word is printed: zeros up to eight characters, then the sign of a negative word, then the
      digits of its magnitude. */
  lemma PrintedWord(x: Int32)
    ensures Spells(HexDigits(Magnitude(x)), Magnitude(x))
    ensures PrintWord(x) == Widened((if x < 0 then "-" else "") + HexDigits(Magnitude(x)))
  {
    DigitsSpell(Magnitude(x));
    if x >= 0 {
      assert "" + HexDigits(x) == HexDigits(x);
    }
  }

  /** The reader undoes the printer on one word, whatever its sign and width. */
  lemma ReadPrintedWord(x: Int32)
    ensures ReadWord(PrintWord(x)) == x
    ensures 8 <= |PrintWord(x)| <= 9
    ensures |PrintWord(x)| == 9 ==> PrintWord(x)[0] == '-' && AllHex(PrintWord(x)[1..])
    ensures |PrintWord(x)| == 8 && PrintWord(x)[0] != '-' ==> IsHex(PrintWord(x)[0])
  {
    var n: int := x;
    var m := if n < 0 then -n else n;
    HexDigitsShape(m, 8);
    var t := ToString16(x);
    if x < 0 {
      assert t[1..] == HexDigits(m);
    }
    if |t| < 8 {
      ReadSkipsZeros(8 - |t|, t);
    }
    if x == 0 {
      assert t == "0" && t[1..] == "";
    }
  }

  /** The reader undoes the printer on both words at once, so printing is injective. */
  lemma ReadPrintedWords(high: Int32, low: Int32)
    ensures |PrintWords(high, low)| >= 16
    ensures ReadWords(PrintWords(high, low)) == (high as int, low as int)
  {
    ReadPrintedWord(high);
    ReadPrintedWord(low);
    var a, b := PrintWord(high), PrintWord(low);
    var s := PrintWords(high, low);
    assert s[..|a|] == a && s[|a|..] == b;
    if |a| == 9 {
      assert s[8] == a[1..][7];
      assert FirstWidth(s) == 9;
    } else if |b| == 9 {
      assert s[8] == b[0];
    }
  }

  lemma PrintWordsInjective(high: Int32, low: Int32, high': Int32, low': Int32)
    ensures PrintWords(high, low) == PrintWords(high', low') <==> high == high' && low == low'
  {
    ReadPrintedWords(high, low);
    ReadPrintedWords(high', low');
  }
}
