/** String operations shared by the printers, the text cleaner and the cookie reader. */
module Text {
  /** White space and line terminators, as String.prototype.trim removes them. */
  predicate IsSpace(c: char) {
    var u := c as int;
    || 9 <= u <= 13 || u == 0x20 || u == 0xA0 || u == 0x1680 || 0x2000 <= u <= 0x200A
    || u == 0x2028 || u == 0x2029 || u == 0x202F || u == 0x205F || u == 0x3000 || u == 0xFEFF
  }

  /** The white space and line terminators of ECMA-262 (sections 12.2 and 12.3), one by one. */
  const WHITE_SPACE: set<int> := {
    0x09, 0x0A, 0x0B, 0x0C, 0x0D, 0x20, 0xA0, 0x1680, 0x2000, 0x2001, 0x2002, 0x2003, 0x2004, 0x2005,
    0x2006, 0x2007, 0x2008, 0x2009, 0x200A, 0x2028, 0x2029, 0x202F, 0x205F, 0x3000, 0xFEFF
  }

  lemma SpacesListed(c: char)
    ensures IsSpace(c) <==> c as int in WHITE_SPACE
  {
  }

  function TrimStart(s: string): string {
    if s != [] && IsSpace(s[0]) then TrimStart(s[1..]) else s
  }

  function TrimEnd(s: string): string {
    if s != [] && IsSpace(s[|s| - 1]) then TrimEnd(s[..|s| - 1]) else s
  }

  function Trim(s: string): string {
    TrimEnd(TrimStart(s))
  }

  predicate Trimmed(s: string) {
    s == [] || (!IsSpace(s[0]) && !IsSpace(s[|s| - 1]))
  }

  predicate Blank(s: string) {
    forall c | c in s :: IsSpace(c)
  }

  lemma {:induction false} TrimStartShape(s: string)
    ensures TrimStart(s) == [] || !IsSpace(TrimStart(s)[0])
    ensures exists before: string :: Blank(before) && before + TrimStart(s) == s
  {
    if s != [] && IsSpace(s[0]) {
      TrimStartShape(s[1..]);
      var before: string :| Blank(before) && before + TrimStart(s[1..]) == s[1..];
      assert Blank([s[0]] + before) && [s[0]] + before + TrimStart(s) == s;
    } else {
      assert Blank("") && "" + TrimStart(s) == s;
    }
  }

  lemma {:induction false} TrimEndShape(s: string)
    ensures s == [] || !IsSpace(s[0]) ==> Trimmed(TrimEnd(s))
    ensures exists after: string :: Blank(after) && TrimEnd(s) + after == s
  {
    if s != [] && IsSpace(s[|s| - 1]) {
      var front := s[..|s| - 1];
      TrimEndShape(front);
      var after: string :| Blank(after) && TrimEnd(front) + after == front;
      assert Blank(after + [s[|s| - 1]]) && TrimEnd(s) + (after + [s[|s| - 1]]) == s;
    } else {
      assert Blank("") && TrimEnd(s) + "" == s;
    }
  }

  /** Trimming takes white space off both ends, all there is and nothing else. */
  lemma TrimIsTrimmed(s: string)
    ensures Trimmed(Trim(s))
    ensures exists before: string, after: string :: Blank(before) && Blank(after) && before + Trim(s) + after == s
  {
    TrimStartShape(s);
    TrimEndShape(TrimStart(s));
    var before: string :| Blank(before) && before + TrimStart(s) == s;
    var after: string :| Blank(after) && Trim(s) + after == TrimStart(s);
    assert before + Trim(s) + after == before + (Trim(s) + after);
  }

  /** Nothing is left exactly of a string of white space. */
  lemma TrimmedAway(s: string)
    ensures Trim(s) == [] <==> Blank(s)
  {
    TrimIsTrimmed(s);
    if Trim(s) != [] {
      var before: string, after: string :| Blank(before) && Blank(after) && before + Trim(s) + after == s;
      assert s[|before|] == Trim(s)[0];
    }
  }

  lemma TrimFixes(s: string)
    requires Trimmed(s)
    ensures Trim(s) == s
  {
  }

  function Zeros(n: nat): (s: string)
    ensures |s| == n && forall i | 0 <= i < n :: s[i] == '0'
  {
    seq(n, _ => '0')
  }

  /** padStart(width, '0') */
  function PadStart(s: string, width: nat): string {
    if |s| >= width then s else Zeros(width - |s|) + s
  }

  function DecimalDigit(d: nat): char
    requires d < 10
  {
    ('0' as int + d) as char
  }

  function NatToString(n: nat): string {
    if n < 10 then [DecimalDigit(n)] else NatToString(n / 10) + [DecimalDigit(n % 10)]
  }

  function IntToString(n: int): string {
    if n < 0 then "-" + NatToString(-n) else NatToString(n)
  }

  /** The number that decimal digits spell, if they are digits. */
  function Decimal(s: string): int {
    if s == [] then 0
    else 10 * Decimal(s[..|s| - 1]) + s[|s| - 1] as int - '0' as int
  }

  predicate AllDecimal(s: string) {
    forall i | 0 <= i < |s| :: '0' <= s[i] <= '9'
  }

  /** A number is printed in decimal digits that spell it, without a leading zero. */
  lemma {:induction false} NatToStringSpells(n: nat)
    ensures AllDecimal(NatToString(n)) && Decimal(NatToString(n)) == n
    ensures NatToString(n) == "0" || (NatToString(n) != "" && NatToString(n)[0] != '0')
    decreases n
  {
    if n >= 10 {
      NatToStringSpells(n / 10);
      assert NatToString(n)[..|NatToString(n)| - 1] == NatToString(n / 10);
    }
  }
}
