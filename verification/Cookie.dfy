/** Reading one cookie from a Cookie header, and the printer of such headers that it undoes
    (section 4.2.1 of RFC 6265). Values are left percent-encoded. */
module Cookies {
  import opened Collections
  import opened Text

  // ---------------------------------------------------------------- split and join

  function Split(s: string, sep: char): (parts: seq<string>)
    ensures parts != []
  {
    if s == [] then [""]
    else if s[0] == sep then [""] + Split(s[1..], sep)
    else var rest := Split(s[1..], sep); [[s[0]] + rest[0]] + rest[1..]
  }

  function Join(parts: seq<string>, sep: char): string {
    if parts == [] then ""
    else if |parts| == 1 then parts[0]
    else parts[0] + [sep] + Join(parts[1..], sep)
  }

  /** Splitting takes off what stands before the first separator. */
  lemma {:induction false} SplitFirst(a: string, b: string, sep: char)
    requires sep !in a
    ensures Split(a + [sep] + b, sep) == [a] + Split(b, sep)
    decreases |a|
  {
    if a == [] {
      assert a + [sep] + b == [sep] + b;
    } else {
      assert (a + [sep] + b)[1..] == a[1..] + [sep] + b;
      SplitFirst(a[1..], b, sep);
      assert [a[0]] + a[1..] == a;
    }
  }

  lemma {:induction false} SplitNone(a: string, sep: char)
    requires sep !in a
    ensures Split(a, sep) == [a]
    decreases |a|
  {
    if a != [] {
      SplitNone(a[1..], sep);
      assert [a[0]] + a[1..] == a;
    }
  }

  /** Joining undoes splitting, and no part holds the separator. */
  lemma {:induction false} JoinSplit(s: string, sep: char)
    ensures Join(Split(s, sep), sep) == s
    ensures forall part | part in Split(s, sep) :: sep !in part
    decreases |s|
  {
    if s != [] {
      var rest := Split(s[1..], sep);
      JoinSplit(s[1..], sep);
      if s[0] == sep {
        assert ([""] + rest)[1..] == rest;
      } else {
        var parts := [[s[0]] + rest[0]] + rest[1..];
        assert parts[1..] == rest[1..];
        assert Join(parts, sep) == [s[0]] + Join(rest, sep);
        assert rest[0] in rest && forall part | part in rest[1..] :: part in rest;
      }
    }
  }

  // ---------------------------------------------------------------- pairs and headers

  datatype Pair = Pair(name: string, value: string) {
    function Text(): string {
      name + ['='] + value
    }

    /** The name has no equals sign, nothing has a semicolon, and trimming takes nothing off. */
    predicate Printable() {
      '=' !in name && ';' !in name && ';' !in value && Trimmed(Text())
    }
  }

  /** A part of a header as it is read: a name up to the first equals sign, and the rest. */
  function PairOf(part: string): Pair {
    var fields := Split(Trim(part), '=');
    Pair(fields[0], Join(fields[1..], '='))
  }

  function PairsIn(parts: seq<string>): seq<Pair> {
    if parts == [] then [] else [PairOf(parts[0])] + PairsIn(parts[1..])
  }

  function PairsOf(header: string): seq<Pair> {
    PairsIn(Split(header, ';'))
  }

  /** How a part is read: the name is what stands before the first equals sign, the value everything after
      it; without one the whole part is the name. */
  lemma PartRead(part: string)
    ensures '=' !in PairOf(part).name
    ensures if '=' in Trim(part) then PairOf(part).Text() == Trim(part) else PairOf(part) == Pair(Trim(part), "")
  {
    var text := Trim(part);
    var fields := Split(text, '=');
    JoinSplit(text, '=');
    assert fields[0] in fields;
    if '=' !in text {
      SplitNone(text, '=');
    }
  }

  /** The pairs of a header are those of its parts, in their order. */
  lemma {:induction false} PairsAreRead(parts: seq<string>)
    ensures |PairsIn(parts)| == |parts| && forall i | 0 <= i < |parts| :: PairsIn(parts)[i] == PairOf(parts[i])
  {
    if parts != [] {
      PairsAreRead(parts[1..]);
    }
  }

  lemma HeaderRead(header: string)
    ensures exists parts: seq<string> ::
              && Join(parts, ';') == header && |parts| == |PairsOf(header)| > 0
              && forall i | 0 <= i < |parts| :: ';' !in parts[i] && PairsOf(header)[i] == PairOf(parts[i])
  {
    var parts := Split(header, ';');
    JoinSplit(header, ';');
    PairsAreRead(parts);
    assert Join(parts, ';') == header;
    forall i | 0 <= i < |parts| ensures ';' !in parts[i] {
      assert parts[i] in parts;
    }
  }

  function Lookup(pairs: seq<Pair>, name: string): Option<string> {
    if pairs == [] then None
    else if pairs[0].name == name then Some(pairs[0].value)
    else Lookup(pairs[1..], name)
  }

  /** The value found is that of the first pair with the name; without such a pair there is none. */
  lemma {:induction false} LookupIsFirst(pairs: seq<Pair>, name: string)
    ensures Lookup(pairs, name).None? <==> forall p | p in pairs :: p.name != name
    ensures Lookup(pairs, name).Some? ==>
              exists i | 0 <= i < |pairs| ::
                  pairs[i] == Pair(name, Lookup(pairs, name).value) && forall j | 0 <= j < i :: pairs[j].name != name
    decreases |pairs|
  {
    if pairs != [] && pairs[0].name != name {
      LookupIsFirst(pairs[1..], name);
      if Lookup(pairs, name).Some? {
        var i :| 0 <= i < |pairs[1..]| && pairs[1..][i] == Pair(name, Lookup(pairs, name).value)
                 && forall j | 0 <= j < i :: pairs[1..][j].name != name;
        assert pairs[i + 1] == Pair(name, Lookup(pairs, name).value);
        assert forall j | 0 < j < i + 1 :: pairs[j] == pairs[1..][j - 1];
      } else {
        assert forall p | p in pairs :: p == pairs[0] || p in pairs[1..];
      }
    } else if pairs != [] {
      assert pairs[0] == Pair(name, Lookup(pairs, name).value);
    }
  }

  method GetCookie(header: Option<string>, name: string) returns (value: Option<string>)
    ensures value == if header.None? || header.value == "" then None else Lookup(PairsOf(header.value), name)
  {
    if header.None? || header.value == "" {
      return None;
    }
    var parts := Split(header.value, ';');
    for i := 0 to |parts|
      invariant Lookup(PairsIn(parts), name) == Lookup(PairsIn(parts[i..]), name)
    {
      var fields := Split(Trim(parts[i]), '=');
      assert PairsIn(parts[i..]) == [PairOf(parts[i])] + PairsIn(parts[i..][1..]);
      assert parts[i..][1..] == parts[i + 1..];
      if fields[0] == name {
        return Some(Join(fields[1..], '='));
      }
    }
    return None;
  }

  // ---------------------------------------------------------------- the printer

  function Header(pairs: seq<Pair>): string {
    if pairs == [] then ""
    else if |pairs| == 1 then pairs[0].Text()
    else pairs[0].Text() + [';'] + ([' '] + Header(pairs[1..]))
  }

  predicate AllPrintable(pairs: seq<Pair>) {
    forall p: Pair | p in pairs :: p.Printable()
  }

  /** One printed pair is read back, whether or not a space stands before it. */
  lemma PairReadBack(lead: string, p: Pair)
    requires lead in {"", " "} && p.Printable()
    ensures PairOf(lead + p.Text()) == p
    ensures ';' !in lead + p.Text()
  {
    if lead == " " {
      assert (lead + p.Text())[1..] == p.Text();
      assert TrimStart(lead + p.Text()) == TrimStart(p.Text());
    } else {
      assert lead + p.Text() == p.Text();
    }
    TrimFixes(p.Text());
    SplitFirst(p.name, p.value, '=');
    assert ([p.name] + Split(p.value, '='))[1..] == Split(p.value, '=');
    JoinSplit(p.value, '=');
  }

  /** A header is read part by part. */
  lemma FirstPartRead(first: string, rest: string)
    requires ';' !in first
    ensures PairsOf(first + [';'] + rest) == [PairOf(first)] + PairsOf(rest)
    ensures PairsOf(first) == [PairOf(first)]
  {
    SplitFirst(first, rest, ';');
    SplitNone(first, ';');
    assert ([first] + Split(rest, ';'))[1..] == Split(rest, ';') && [first][1..] == [];
  }

  lemma Regroup(a: string, b: string, c: string, d: string)
    ensures a + (b + c + d) == a + b + c + d
  {
  }

  lemma HeaderUnfolds(lead: string, pairs: seq<Pair>)
    requires pairs != []
    ensures var first := lead + pairs[0].Text();
            lead + Header(pairs) == if |pairs| == 1 then first else first + [';'] + ([' '] + Header(pairs[1..]))
  {
    Regroup(lead, pairs[0].Text(), [';'], [' '] + Header(pairs[1..]));
  }

  lemma {:induction false} PairsReadBack(lead: string, pairs: seq<Pair>)
    requires lead in {"", " "} && pairs != [] && AllPrintable(pairs)
    ensures PairsOf(lead + Header(pairs)) == pairs
    decreases |pairs|
  {
    var first, rest := lead + pairs[0].Text(), [' '] + Header(pairs[1..]);
    assert pairs[0] in pairs;
    PairReadBack(lead, pairs[0]);
    FirstPartRead(first, rest);
    HeaderUnfolds(lead, pairs);
    if |pairs| > 1 {
      PairsReadBack(" ", pairs[1..]);
      assert pairs == [pairs[0]] + pairs[1..];
    } else {
      assert pairs == [pairs[0]];
    }
  }

  lemma TrimChars(s: string, c: char)
    requires c in Trim(s)
    ensures c in s
  {
    TrimStartChars(s, c);
    TrimEndChars(TrimStart(s), c);
  }

  lemma {:induction false} TrimStartChars(s: string, c: char)
    ensures c in TrimStart(s) ==> c in s
  {
    if s != [] && IsSpace(s[0]) {
      TrimStartChars(s[1..], c);
    }
  }

  lemma {:induction false} TrimEndChars(s: string, c: char)
    ensures c in TrimEnd(s) ==> c in s
  {
    if s != [] && IsSpace(s[|s| - 1]) {
      TrimEndChars(s[..|s| - 1], c);
    }
  }

  /** Whatever is read from a part can be printed; a part without an equals sign reads as one with an
      empty value. */
  lemma ReadIsPrintable(part: string)
    requires ';' !in part
    ensures PairOf(part).Printable()
  {
    var text := Trim(part);
    var fields := Split(text, '=');
    var pair := PairOf(part);
    TrimIsTrimmed(part);
    JoinSplit(text, '=');
    assert fields[0] in fields;
    if ';' in text {
      TrimChars(part, ';');
    }
    if |fields| == 1 {
      assert pair.Text() == text + ['='];
    } else {
      assert pair.Text() == text;
    }
    assert forall c | c in pair.name || c in pair.value :: c in pair.Text();
    assert ';' !in pair.Text();
  }

  lemma {:induction false} AllReadPrintable(parts: seq<string>)
    requires forall part | part in parts :: ';' !in part
    ensures AllPrintable(PairsIn(parts)) && |PairsIn(parts)| == |parts|
  {
    if parts != [] {
      ReadIsPrintable(parts[0]);
      AllReadPrintable(parts[1..]);
    }
  }

  lemma ReadPairsPrintable(header: string)
    ensures AllPrintable(PairsOf(header)) && PairsOf(header) != []
  {
    JoinSplit(header, ';');
    AllReadPrintable(Split(header, ';'));
  }

  /** The header printed for a list of pairs is read back as that list exactly when all of them are
      printable; then each name gives the value of its first pair. */
  lemma HeaderRoundTripExactly(pairs: seq<Pair>)
    requires pairs != []
    ensures Header(pairs) != ""
    ensures PairsOf(Header(pairs)) == pairs <==> AllPrintable(pairs)
  {
    assert pairs[0].Text() != "";
    ReadPairsPrintable(Header(pairs));
    if AllPrintable(pairs) {
      PairsReadBack("", pairs);
      assert "" + Header(pairs) == Header(pairs);
    }
  }

  /** For every header, the header printed for its pairs reads the same. (An absent or empty header is
      not read at all.) */
  lemma ReprintedReadsTheSame(header: string)
    ensures PairsOf(Header(PairsOf(header))) == PairsOf(header)
  {
    ReadPairsPrintable(header);
    HeaderRoundTripExactly(PairsOf(header));
  }
}
