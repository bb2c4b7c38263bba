/** Schemas of JSON values as the page's parser reads them: what they accept, what they give back, and
    that no own `__proto__` entry gets through. */
module SubscriptionPageSchemas {
  import opened Collections
  import opened SubscriptionPages

  // ---------------------------------------------------------------- schemas and parsing

  /** A schema accepts a value and gives it back as it understood it. `read` may normalise a string.
      Localized is the record of texts under keys of two lower-case letters, not empty. */
  datatype Schema =
    | Text(read: string -> Option<string>)
    | Flag
    | Localized
    | List(item: Schema, least: nat)
    | Record(allows: string -> bool, item: Schema)
    | Object(fields: seq<Field>)

  datatype Field = Field(name: string, schema: Schema, presence: Presence)
  datatype Presence = Required | Optional | Default(value: Json)

  function Find(es: seq<Entry>, key: string): Option<Json> {
    if es == [] then None else if es[0].key == key then Some(es[0].value) else Find(es[1..], key)
  }

  predicate LocaleKey(key: string) {
    |key| == 2 && forall c | c in key :: 'a' <= c <= 'z'
  }

  predicate LocalizedEntries(es: seq<Entry>) {
    es != [] && forall e | e in es :: LocaleKey(e.key) && e.value.Str?
  }

  /** An object keeps its known fields in the order of the schema and nothing else. A record keeps its
      entries; an own `__proto__` is passed over, any other key must be allowed. */
  function Parse(x: Json, s: Schema): Option<Json>
    decreases s, 0
  {
    match s
    case Text(read) =>
      if x.Str? && read(x.s).Some? then Some(Str(read(x.s).value)) else None
    case Flag => if x.Bool? then Some(x) else None
    case Localized =>
      if x.Obj? && LocalizedEntries(WithoutProto(x.entries)) then Some(Obj(WithoutProto(x.entries))) else None
    case List(item, least) =>
      if !x.Arr? then None
      else
        var items := ParseItems(x.items, item);
        if items.Some? && |items.value| >= least then Some(Arr(items.value)) else None
    case Record(allows, item) =>
      if !x.Obj? then None
      else
        var es := ParseEntries(x.entries, allows, item);
        if es.Some? then Some(Obj(es.value)) else None
    case Object(fields) =>
      if !x.Obj? then None
      else
        var es := ParseFields(x.entries, fields);
        if es.Some? then Some(Obj(es.value)) else None
  }

  function ParseItems(xs: seq<Json>, item: Schema): Option<seq<Json>>
    decreases item, 1, |xs|
  {
    if xs == [] then Some([])
    else
      var first, rest := Parse(xs[0], item), ParseItems(xs[1..], item);
      if first.Some? && rest.Some? then Some([first.value] + rest.value) else None
  }

  function ParseEntries(es: seq<Entry>, allows: string -> bool, item: Schema): Option<seq<Entry>>
    decreases item, 1, |es|
  {
    if es == [] then Some([])
    else if es[0].key == PROTO then ParseEntries(es[1..], allows, item)
    else
      var first, rest := Parse(es[0].value, item), ParseEntries(es[1..], allows, item);
      if allows(es[0].key) && first.Some? && rest.Some?
      then Some([Entry(es[0].key, first.value)] + rest.value) else None
  }

  /** One field: None fails, an empty list leaves the field out. */
  function ParseField(es: seq<Entry>, f: Field): Option<seq<Entry>>
    decreases f, 1
  {
    var found := Find(es, f.name);
    if found.Some? then
      var value := Parse(found.value, f.schema);
      if value.Some? then Some([Entry(f.name, value.value)]) else None
    else
      match f.presence
      case Required => None
      case Optional => Some([])
      case Default(value) => Some([Entry(f.name, value)])
  }

  function ParseFields(es: seq<Entry>, fields: seq<Field>): Option<seq<Entry>>
    decreases fields, 1
  {
    if fields == [] then Some([])
    else
      var first, rest := ParseField(es, fields[0]), ParseFields(es, fields[1..]);
      if first.Some? && rest.Some? then Some(first.value + rest.value) else None
  }

  // ---------------------------------------------------------------- what parsing gives back

  /** Finding gives the first entry of the name, and nothing exactly when no entry has it. */
  lemma {:induction false} FindIsFirst(es: seq<Entry>, key: string)
    ensures Find(es, key).None? <==> forall e | e in es :: e.key != key
    ensures Find(es, key).Some? ==>
              exists i | 0 <= i < |es| ::
                  es[i] == Entry(key, Find(es, key).value) && forall j | 0 <= j < i :: es[j].key != key
    decreases |es|
  {
    if es != [] && es[0].key != key {
      FindIsFirst(es[1..], key);
      assert es == [es[0]] + es[1..];
      if Find(es, key).Some? {
        var i :| 0 <= i < |es[1..]| && es[1..][i] == Entry(key, Find(es, key).value)
                 && forall j | 0 <= j < i :: es[1..][j].key != key;
        assert es[i + 1] == es[1..][i];
        assert forall j | 0 < j < i + 1 :: es[j] == es[1..][j - 1];
      }
    } else if es != [] {
      assert es[0] == Entry(key, Find(es, key).value);
    }
  }

  /** What a field of the schema asks of the entries is there. */
  predicate FieldFails(es: seq<Entry>, f: Field) {
    match Find(es, f.name)
    case Some(value) => Parse(value, f.schema).None?
    case None => f.presence.Required?
  }

  /** An object is refused exactly for a field that is missing though required, or that its schema refuses. */
  lemma {:induction false} FieldsRefused(es: seq<Entry>, fields: seq<Field>)
    ensures ParseFields(es, fields).None? <==> exists f | f in fields :: FieldFails(es, f)
    decreases |fields|
  {
    if fields != [] {
      FieldsRefused(es, fields[1..]);
      assert forall f | f in fields :: f == fields[0] || f in fields[1..];
      assert fields[0] in fields && forall f | f in fields[1..] :: f in fields;
      assert ParseField(es, fields[0]).None? <==> FieldFails(es, fields[0]);
    }
  }

  /** The object given back has for each field what its schema makes of the entry, or the default. */
  lemma {:induction false} FieldsGiven(es: seq<Entry>, fields: seq<Field>, f: Field)
    requires WellFormedFields(fields) && f in fields && ParseFields(es, fields).Some?
    ensures Find(ParseFields(es, fields).value, f.name)
         == match Find(es, f.name)
            case Some(value) => Parse(value, f.schema)
            case None => if f.presence.Default? then Some(f.presence.value) else None
    decreases |fields|
  {
    var first, rest := ParseField(es, fields[0]).value, ParseFields(es, fields[1..]).value;
    FoundAfter(first, rest, f.name);
    if f == fields[0] {
      ParsedNames(es, fields[1..], f.name);
    } else {
      assert f in fields[1..] && Named(fields[1..], f.name);
      FieldsGiven(es, fields[1..], f);
    }
  }

  /** It has them in the order of the schema: the fields of a, then those of b. */
  lemma {:induction false} FieldsInOrder(es: seq<Entry>, a: seq<Field>, b: seq<Field>)
    requires ParseFields(es, a + b).Some?
    ensures ParseFields(es, a).Some? && ParseFields(es, b).Some?
    ensures ParseFields(es, a + b).value == ParseFields(es, a).value + ParseFields(es, b).value
    decreases |a|
  {
    if a == [] {
      assert a + b == b;
    } else {
      assert (a + b)[0] == a[0] && (a + b)[1..] == a[1..] + b;
      FieldsInOrder(es, a[1..], b);
    }
  }

  /** Strings are given back as they are read, flags as they are; a localized text needs one entry other than
      `__proto__`, all such keys of two lower-case letters and all such values strings. */
  lemma LeavesGiven(x: Json, read: string -> Option<string>)
    ensures Parse(x, Text(read)).Some? <==> exists t, u :: x == Str(t) && read(t) == Some(u)
    ensures Parse(x, Text(read)).Some? ==> x.Str? && Parse(x, Text(read)).value == Str(read(x.s).value)
    ensures Parse(x, Flag) == (if x == Bool(true) || x == Bool(false) then Some(x) else None)
    ensures Parse(x, Localized).Some?
       <==> x.Obj? && WithoutProto(x.entries) != []
            && forall e | e in WithoutProto(x.entries) ::
                 && e.value.Str? && |e.key| == 2
                 && e.key[0] in "abcdefghijklmnopqrstuvwxyz" && e.key[1] in "abcdefghijklmnopqrstuvwxyz"
    ensures Parse(x, Localized).Some? ==> Parse(x, Localized).value == Obj(WithoutProto(x.entries))
  {
    forall e: Entry
      ensures LocaleKey(e.key) <==> |e.key| == 2 && e.key[0] in "abcdefghijklmnopqrstuvwxyz"
                                    && e.key[1] in "abcdefghijklmnopqrstuvwxyz"
    {
      TwoLetters(e.key);
    }
  }

  lemma LowerCase(c: char)
    ensures c in "abcdefghijklmnopqrstuvwxyz" <==> 'a' <= c <= 'z'
  {
    var letters := "abcdefghijklmnopqrstuvwxyz";
    assert forall i | 0 <= i < 26 :: letters[i] as int == 'a' as int + i;
    if 'a' <= c <= 'z' {
      assert letters[c as int - 'a' as int] == c;
    }
  }

  lemma TwoLetters(key: string)
    ensures LocaleKey(key) <==> |key| == 2 && key[0] in "abcdefghijklmnopqrstuvwxyz"
                                && key[1] in "abcdefghijklmnopqrstuvwxyz"
  {
    if |key| == 2 {
      LowerCase(key[0]);
      LowerCase(key[1]);
      assert forall c | c in key :: c == key[0] || c == key[1];
      assert key[0] in key && key[1] in key;
    }
  }

  /** A list is refused for one item that is refused; each item is given back in its place. */
  lemma {:induction false} ItemsGiven(xs: seq<Json>, item: Schema)
    ensures ParseItems(xs, item).None? <==> exists x | x in xs :: Parse(x, item).None?
    ensures ParseItems(xs, item).Some? ==>
              && |ParseItems(xs, item).value| == |xs|
              && forall i | 0 <= i < |xs| :: Parse(xs[i], item) == Some(ParseItems(xs, item).value[i])
    decreases |xs|
  {
    if xs != [] {
      ItemsGiven(xs[1..], item);
      assert forall x | x in xs :: x == xs[0] || x in xs[1..];
      assert xs[0] in xs && forall x | x in xs[1..] :: x in xs;
      if ParseItems(xs, item).Some? {
        assert forall i | 0 < i < |xs| :: ParseItems(xs, item).value[i] == ParseItems(xs[1..], item).value[i - 1];
        assert forall i | 0 < i < |xs| :: xs[i] == xs[1..][i - 1];
      }
    }
  }

  /** A record is refused exactly for a key that is not allowed, other than `__proto__`, or a value that is
      refused. */
  lemma {:induction false} EntriesRefused(es: seq<Entry>, allows: string -> bool, item: Schema)
    ensures ParseEntries(es, allows, item).None?
       <==> exists e | e in WithoutProto(es) :: !allows(e.key) || Parse(e.value, item).None?
    decreases |es|
  {
    if es != [] {
      EntriesRefused(es[1..], allows, item);
      if es[0].key == PROTO {
        assert WithoutProto(es) == WithoutProto(es[1..]);
      } else {
        assert WithoutProto(es) == [es[0]] + WithoutProto(es[1..]);
      }
    }
  }

  /** The entry is given back under its key, as its value is given back. */
  predicate GivenAs(given: Entry, e: Entry, item: Schema) {
    given.key == e.key && Parse(e.value, item) == Some(given.value)
  }

  lemma GivenExtends(given: Entry, a: seq<Entry>, e: Entry, b: seq<Entry>, item: Schema)
    requires GivenAs(given, e, item) && |a| == |b| && forall i | 0 <= i < |b| :: GivenAs(a[i], b[i], item)
    ensures forall i | 0 <= i < |[e] + b| :: GivenAs(([given] + a)[i], ([e] + b)[i], item)
  {
  }

  /** Otherwise its entries, but for `__proto__`, are given back in their places. */
  lemma {:induction false} EntriesGiven(es: seq<Entry>, allows: string -> bool, item: Schema)
    requires ParseEntries(es, allows, item).Some?
    ensures |ParseEntries(es, allows, item).value| == |WithoutProto(es)|
    ensures forall i | 0 <= i < |WithoutProto(es)| ::
              GivenAs(ParseEntries(es, allows, item).value[i], WithoutProto(es)[i], item)
    decreases |es|
  {
    if es != [] {
      EntriesGiven(es[1..], allows, item);
      var a, b := ParseEntries(es[1..], allows, item).value, WithoutProto(es[1..]);
      if es[0].key == PROTO {
        assert WithoutProto(es) == b;
      } else {
        var given := Entry(es[0].key, Parse(es[0].value, item).value);
        assert WithoutProto(es) == [es[0]] + b && ParseEntries(es, allows, item).value == [given] + a;
        GivenExtends(given, a, es[0], b, item);
      }
    }
  }

  // ---------------------------------------------------------------- schemas that make sense

  ghost predicate Named(fields: seq<Field>, name: string) {
    exists f | f in fields :: f.name == name
  }

  /** Names differ and none is `__proto__`, reading a string twice is reading it once, and a default
      is accepted as it is. */
  ghost predicate WellFormed(s: Schema)
    decreases s, 0
  {
    match s
    case Text(read) => forall t :: read(t).Some? ==> read(read(t).value) == read(t)
    case List(item, _) => WellFormed(item)
    case Record(_, item) => WellFormed(item)
    case Object(fields) => WellFormedFields(fields)
    case _ => true
  }

  ghost predicate WellFormedFields(fields: seq<Field>)
    decreases fields, 1
  {
    fields == []
    || (WellFormedField(fields[0]) && !Named(fields[1..], fields[0].name) && WellFormedFields(fields[1..]))
  }

  ghost predicate WellFormedField(f: Field)
    decreases f, 1
  {
    && f.name != PROTO && WellFormed(f.schema)
    && (f.presence.Default? ==> Parse(f.presence.value, f.schema) == Some(f.presence.value))
  }

  // ---------------------------------------------------------------- parsing again

  /** The entries agree on a field: both have it with one value, or neither has it. */
  lemma {:induction false} FieldsDependOnNames(a: seq<Entry>, b: seq<Entry>, fields: seq<Field>)
    requires forall f | f in fields :: Find(a, f.name) == Find(b, f.name)
    ensures ParseFields(a, fields) == ParseFields(b, fields)
    decreases |fields|
  {
    if fields != [] {
      assert fields[0] in fields;
      assert forall f | f in fields[1..] :: f in fields;
      FieldsDependOnNames(a, b, fields[1..]);
    }
  }

  lemma {:induction false} FoundAfter(a: seq<Entry>, b: seq<Entry>, key: string)
    ensures Find(a + b, key) == if Find(a, key).Some? then Find(a, key) else Find(b, key)
  {
    if a == [] {
      assert a + b == b;
    } else {
      assert (a + b)[1..] == a[1..] + b;
      FoundAfter(a[1..], b, key);
    }
  }

  lemma {:induction false} ParsedNames(es: seq<Entry>, fields: seq<Field>, key: string)
    requires ParseFields(es, fields).Some? && !Named(fields, key)
    ensures Find(ParseFields(es, fields).value, key).None?
    decreases |fields|
  {
    if fields != [] {
      assert fields[0] in fields && forall f | f in fields[1..] :: f in fields;
      ParsedNames(es, fields[1..], key);
      FoundAfter(ParseField(es, fields[0]).value, ParseFields(es, fields[1..]).value, key);
    }
  }

  /** Other fields' entries in front do not matter. */
  lemma OthersInFront(first: seq<Entry>, rest: seq<Entry>, fields: seq<Field>)
    requires forall e | e in first :: !Named(fields, e.key)
    ensures ParseFields(first + rest, fields) == ParseFields(rest, fields)
  {
    forall f | f in fields ensures Find(first + rest, f.name) == Find(rest, f.name) {
      FoundAfter(first, rest, f.name);
      NotFound(first, f.name);
    }
    FieldsDependOnNames(first + rest, rest, fields);
  }

  lemma {:induction false} NotFound(es: seq<Entry>, key: string)
    requires forall e | e in es :: e.key != key
    ensures Find(es, key).None?
  {
    if es != [] {
      NotFound(es[1..], key);
    }
  }

  lemma {:induction false} NothingToPass(es: seq<Entry>)
    ensures WithoutProto(WithoutProto(es)) == WithoutProto(es)
    ensures forall e | e in WithoutProto(es) :: e.key != PROTO
  {
    if es != [] {
      var rest := WithoutProto(es[1..]);
      NothingToPass(es[1..]);
      if es[0].key == PROTO {
        assert WithoutProto(es) == rest;
      } else {
        assert WithoutProto(es) == [es[0]] + rest && ([es[0]] + rest)[1..] == rest;
      }
    }
  }

  /** What a schema gives back it accepts again, unchanged. */
  lemma {:induction false} ParseTwice(x: Json, s: Schema)
    requires WellFormed(s) && Parse(x, s).Some?
    ensures Parse(Parse(x, s).value, s) == Parse(x, s)
    decreases s, 0
  {
    match s
    case Text(_) =>
    case Flag =>
    case Localized => NothingToPass(x.entries);
    case List(item, _) => ParseItemsTwice(x.items, item);
    case Record(allows, item) => ParseEntriesTwice(x.entries, allows, item);
    case Object(fields) => ParseFieldsTwice(x.entries, fields);
  }

  lemma {:induction false} ParseItemsTwice(xs: seq<Json>, item: Schema)
    requires WellFormed(item) && ParseItems(xs, item).Some?
    ensures ParseItems(ParseItems(xs, item).value, item) == ParseItems(xs, item)
    decreases item, 1, |xs|
  {
    if xs != [] {
      ParseTwice(xs[0], item);
      ParseItemsTwice(xs[1..], item);
      var rest := ParseItems(xs[1..], item).value;
      assert ParseItems(xs, item).value[1..] == rest;
    }
  }

  lemma {:induction false} ParseEntriesTwice(es: seq<Entry>, allows: string -> bool, item: Schema)
    requires WellFormed(item) && ParseEntries(es, allows, item).Some?
    ensures ParseEntries(ParseEntries(es, allows, item).value, allows, item) == ParseEntries(es, allows, item)
    decreases item, 1, |es|
  {
    if es != [] {
      ParseEntriesTwice(es[1..], allows, item);
      if es[0].key != PROTO {
        ParseTwice(es[0].value, item);
        assert ParseEntries(es, allows, item).value[1..] == ParseEntries(es[1..], allows, item).value;
      }
    }
  }

  lemma {:induction false} ParseFieldsTwice(es: seq<Entry>, fields: seq<Field>)
    requires WellFormedFields(fields) && ParseFields(es, fields).Some?
    ensures ParseFields(ParseFields(es, fields).value, fields) == ParseFields(es, fields)
    decreases fields, 1
  {
    if fields != [] {
      var f, later := fields[0], fields[1..];
      var first, rest := ParseField(es, f).value, ParseFields(es, later).value;
      ParseFieldsTwice(es, later);
      OthersInFront(first, rest, later);
      ParsedNames(es, later, f.name);
      FoundAfter(first, rest, f.name);
      if Find(es, f.name).Some? {
        ParseTwice(Find(es, f.name).value, f.schema);
      }
    }
  }

  // ---------------------------------------------------------------- no own __proto__ gets through

  predicate NoProto(x: Json)
    decreases x, 1
  {
    match x
    case Arr(items) => NoProtoItems(items)
    case Obj(entries) => NoProtoEntries(entries)
    case _ => true
  }

  predicate NoProtoItems(xs: seq<Json>)
    decreases xs, 0
  {
    xs == [] || (NoProto(xs[0]) && NoProtoItems(xs[1..]))
  }

  predicate NoProtoEntries(es: seq<Entry>)
    decreases es, 0
  {
    es == [] || (es[0].key != PROTO && NoProto(es[0].value) && NoProtoEntries(es[1..]))
  }

  lemma {:induction false} NoProtoConcat(a: seq<Entry>, b: seq<Entry>)
    ensures NoProtoEntries(a + b) <==> NoProtoEntries(a) && NoProtoEntries(b)
  {
    if a == [] {
      assert a + b == b;
    } else {
      assert (a + b)[1..] == a[1..] + b;
      NoProtoConcat(a[1..], b);
    }
  }

  lemma {:induction false} TextsHaveNoProto(es: seq<Entry>)
    requires forall e | e in es :: e.value.Str? && e.key != PROTO
    ensures NoProtoEntries(es)
  {
    if es != [] {
      assert es[0] in es;
      TextsHaveNoProto(es[1..]);
    }
  }

  lemma {:induction false} ParsedHasNoProto(x: Json, s: Schema)
    requires WellFormed(s) && Parse(x, s) == Some(x)
    ensures NoProto(x)
    decreases s, 0
  {
    match s
    case Text(_) =>
    case Flag =>
    case Localized =>
      NothingToPass(x.entries);
      TextsHaveNoProto(x.entries);
    case List(item, _) => ParsedItemsHaveNoProto(x.items, item);
    case Record(allows, item) => ParsedEntriesHaveNoProto(x.entries, allows, item);
    case Object(fields) => ParsedFieldsHaveNoProto(x.entries, fields);
  }

  lemma {:induction false} ParsedItemsHaveNoProto(xs: seq<Json>, item: Schema)
    requires WellFormed(item) && ParseItems(xs, item) == Some(xs)
    ensures NoProtoItems(xs)
    decreases item, 1, |xs|
  {
    if xs != [] {
      var first, rest := Parse(xs[0], item).value, ParseItems(xs[1..], item).value;
      assert xs[0] == first && xs[1..] == rest;
      ParsedHasNoProto(xs[0], item);
      ParsedItemsHaveNoProto(xs[1..], item);
    }
  }

  lemma {:induction false} EntriesShrink(es: seq<Entry>, allows: string -> bool, item: Schema)
    requires ParseEntries(es, allows, item).Some?
    ensures |ParseEntries(es, allows, item).value| <= |es|
    decreases |es|
  {
    if es != [] {
      EntriesShrink(es[1..], allows, item);
    }
  }

  /** A record that is given back as it was: entry by entry. */
  lemma FirstEntry(es: seq<Entry>, allows: string -> bool, item: Schema)
    requires es != [] && ParseEntries(es, allows, item) == Some(es)
    ensures es[0].key != PROTO && allows(es[0].key) && Parse(es[0].value, item) == Some(es[0].value)
    ensures ParseEntries(es[1..], allows, item) == Some(es[1..])
  {
    if es[0].key == PROTO {
      EntriesShrink(es[1..], allows, item);
    } else {
      var first, rest := Parse(es[0].value, item).value, ParseEntries(es[1..], allows, item).value;
      assert es == [Entry(es[0].key, first)] + rest;
      assert es[1..] == rest;
    }
  }

  lemma {:induction false} ParsedEntriesHaveNoProto(es: seq<Entry>, allows: string -> bool, item: Schema)
    requires WellFormed(item) && ParseEntries(es, allows, item) == Some(es)
    ensures NoProtoEntries(es)
    decreases item, 1, |es|
  {
    if es != [] {
      FirstEntry(es, allows, item);
      ParsedHasNoProto(es[0].value, item);
      ParsedEntriesHaveNoProto(es[1..], allows, item);
    }
  }

  /** An object that is given back as it was: its first field's entry, if there is one, and the rest. */
  lemma FirstField(es: seq<Entry>, fields: seq<Field>) returns (first: seq<Entry>, rest: seq<Entry>)
    requires fields != [] && WellFormedFields(fields) && ParseFields(es, fields) == Some(es)
    ensures es == first + rest
    ensures ParseFields(rest, fields[1..]) == Some(rest)
    ensures first == [] || (|first| == 1 && first[0].key == fields[0].name)
    ensures first != [] ==> Parse(first[0].value, fields[0].schema) == Some(first[0].value)
    ensures first == [] ==> fields[0].presence == Optional
    ensures Find(rest, fields[0].name).None?
  {
    var f, later := fields[0], fields[1..];
    first, rest := ParseField(es, f).value, ParseFields(es, later).value;
    ParsedNames(es, later, f.name);
    OthersInFront(first, rest, later);
    FoundAfter(first, rest, f.name);
  }

  lemma {:induction false} ParsedFieldsHaveNoProto(es: seq<Entry>, fields: seq<Field>)
    requires WellFormedFields(fields) && ParseFields(es, fields) == Some(es)
    ensures NoProtoEntries(es)
    decreases fields, 1
  {
    if fields != [] {
      var first, rest := FirstField(es, fields);
      if first != [] {
        ParsedHasNoProto(first[0].value, fields[0].schema);
        assert first[1..] == [];
      }
      ParsedFieldsHaveNoProto(rest, fields[1..]);
      NoProtoConcat(first, rest);
    }
  }

  /** Without own `__proto__` entries nothing is masked. */
  lemma {:induction false} NoProtoIsUnmasked(x: Json)
    requires NoProto(x)
    ensures Unmasked(x)
    decreases x, 1
  {
    match x
    case Arr(items) => NoProtoItemsUnmasked(items);
    case Obj(entries) =>
      NoProtoEntriesUnmasked(entries);
      NothingDropped(entries);
    case _ =>
  }

  lemma {:induction false} NoProtoItemsUnmasked(xs: seq<Json>)
    requires NoProtoItems(xs)
    ensures UnmaskedItems(xs)
    decreases xs, 0
  {
    if xs != [] {
      NoProtoIsUnmasked(xs[0]);
      NoProtoItemsUnmasked(xs[1..]);
    }
  }

  lemma {:induction false} NoProtoEntriesUnmasked(es: seq<Entry>)
    requires NoProtoEntries(es)
    ensures UnmaskedEntries(es)
    decreases es, 0
  {
    if es != [] {
      NoProtoIsUnmasked(es[0].value);
      NoProtoEntriesUnmasked(es[1..]);
    }
  }

  lemma {:induction false} NothingDropped(es: seq<Entry>)
    requires NoProtoEntries(es)
    ensures WithoutProto(es) == es
  {
    if es != [] {
      NothingDropped(es[1..]);
    }
  }
}
