/** The subscription page's own schema, and the saving of a page: parse, validate, clean, store. At every
    start the stored pages are parsed and validated again, and a page that fails is deleted, so whatever
    is saved has to be accepted again. */
module SubscriptionPageSaving {
  import opened Collections
  import opened Text
  import opened SubscriptionPages
  import opened SubscriptionPageValidators
  import opened SubscriptionPageSchemas
  import opened SubscriptionPageContents

  // ---------------------------------------------------------------- cleaning what a schema accepted

  /** Values that are never strings or booleans. */
  predicate Structured(s: Schema) {
    !s.Text? && !s.Flag?
  }

  /** Objects can be told from localized texts: some field that is always there is not a string. */
  ghost predicate Cleanable(s: Schema)
    decreases s, 0
  {
    match s
    case List(item, _) => Cleanable(item)
    case Record(_, item) => Cleanable(item) && Structured(item)
    case Object(fields) =>
      CleanableFields(fields) && exists f | f in fields :: f.presence.Required? && Structured(f.schema)
    case _ => true
  }

  ghost predicate CleanableFields(fields: seq<Field>)
    decreases fields, 1
  {
    fields == [] || (Cleanable(fields[0].schema) && CleanableFields(fields[1..]))
  }

  lemma {:induction false} FoundIsThere(es: seq<Entry>, key: string)
    requires Find(es, key).Some?
    ensures Entry(key, Find(es, key).value) in es
  {
    if es[0].key != key {
      FoundIsThere(es[1..], key);
    }
  }

  lemma {:induction false} RequiredIsThere(es: seq<Entry>, fields: seq<Field>, f: Field)
    requires ParseFields(es, fields).Some? && f in fields && f.presence.Required?
    ensures Find(es, f.name).Some? && Parse(Find(es, f.name).value, f.schema).Some?
    decreases |fields|
  {
    if fields[0] != f {
      RequiredIsThere(es, fields[1..], f);
    }
  }

  lemma ObjectIsNoText(es: seq<Entry>, fields: seq<Field>)
    requires ParseFields(es, fields).Some?
    requires exists f | f in fields :: f.presence.Required? && Structured(f.schema)
    ensures !IsLocalizedText(Obj(es))
  {
    var f :| f in fields && f.presence.Required? && Structured(f.schema);
    RequiredIsThere(es, fields, f);
    FoundIsThere(es, f.name);
  }

  lemma RecordIsNoText(es: seq<Entry>, allows: string -> bool, item: Schema)
    requires ParseEntries(es, allows, item) == Some(es) && Structured(item)
    ensures !IsLocalizedText(Obj(es))
  {
    if es != [] {
      FirstEntry(es, allows, item);
    }
  }

  /** The locales of a page: known codes, at least one. */
  predicate PageLocales(locales: seq<string>) {
    locales != [] && KnownLocales(AsSet(locales))
  }

  lemma {:induction false} CleanedTextsKeys(es: seq<Entry>, allowed: set<string>)
    requires forall e | e in es :: LocaleKey(e.key)
    ensures forall e | e in CleanTexts(es, allowed) :: LocaleKey(e.key)
  {
    if es != [] {
      CleanedTextsKeys(es[1..], allowed);
    }
  }

  lemma CleanedTextAccepted(x: Json, path: string, locales: seq<string>)
    requires PageLocales(locales) && Parse(x, Localized) == Some(x) && LocaleIssues(x, path, locales) == []
    ensures IsLocalizedText(x)
    ensures Parse(Clean(x, AsSet(locales)), Localized) == Some(Clean(x, AsSet(locales)))
  {
    var es := x.entries;
    NothingToPass(es);
    assert es[0] in es;
    var r := CleanTexts(es, AsSet(locales));
    NoTextIssues(es, path, locales);
    CleanedTextFound(es, locales[0], AsSet(locales));
    assert r != [];
    CleanTextsShape(es, AsSet(locales));
    CleanedTextsKeys(es, AsSet(locales));
    TextsHaveNoProto(r);
    NothingDropped(r);
  }

  /** Cleaning what a schema accepted, with no locale missing, gives what it accepts again. */
  lemma {:induction false} CleanedIsAccepted(x: Json, s: Schema, path: string, locales: seq<string>)
    requires WellFormed(s) && Cleanable(s) && Parse(x, s) == Some(x)
    requires PageLocales(locales) && LocaleIssues(x, path, locales) == []
    ensures Parse(Clean(x, AsSet(locales)), s) == Some(Clean(x, AsSet(locales)))
    decreases s, 0
  {
    match s
    case Text(_) =>
    case Flag =>
    case Localized => CleanedTextAccepted(x, path, locales);
    case List(item, _) => CleanedItemsAccepted(x.items, item, 0, path, locales);
    case Record(allows, item) =>
      RecordIsNoText(x.entries, allows, item);
      CleanedEntriesAccepted(x.entries, allows, item, path, locales);
    case Object(fields) =>
      ObjectIsNoText(x.entries, fields);
      CleanedFieldsAccepted(x.entries, fields, path, locales);
  }

  lemma {:induction false} CleanedItemsAccepted(xs: seq<Json>, item: Schema, i: nat, path: string, locales: seq<string>)
    requires WellFormed(item) && Cleanable(item) && ParseItems(xs, item) == Some(xs)
    requires PageLocales(locales) && LocaleItems(xs, i, path, locales) == []
    ensures ParseItems(CleanItems(xs, AsSet(locales)), item) == Some(CleanItems(xs, AsSet(locales)))
    decreases item, 1, |xs|
  {
    if xs != [] {
      var first, rest := Parse(xs[0], item).value, ParseItems(xs[1..], item).value;
      assert xs[0] == first && xs[1..] == rest;
      CleanedIsAccepted(xs[0], item, AtIndex(path, i), locales);
      CleanedItemsAccepted(xs[1..], item, i + 1, path, locales);
      assert CleanItems(xs, AsSet(locales))[1..] == CleanItems(xs[1..], AsSet(locales));
    }
  }

  /** The issues of an entry's value, and none for strings, which cleaning leaves alone. */
  lemma CleanedValueAccepted(e: Entry, s: Schema, path: string, locales: seq<string>)
    requires WellFormed(s) && Cleanable(s) && Parse(e.value, s) == Some(e.value)
    requires PageLocales(locales) && LocaleEntries([e], path, locales) == []
    ensures Parse(Clean(e.value, AsSet(locales)), s) == Some(Clean(e.value, AsSet(locales)))
    decreases s, 1
  {
    if e.value.Arr? || e.value.Obj? {
      CleanedIsAccepted(e.value, s, AtKey(path, e.key), locales);
    }
  }

  lemma {:induction false} EntryIssuesSplit(a: seq<Entry>, b: seq<Entry>, path: string, locales: seq<string>)
    ensures LocaleEntries(a + b, path, locales) == LocaleEntries(a, path, locales) + LocaleEntries(b, path, locales)
  {
    if a == [] {
      assert a + b == b;
    } else {
      assert (a + b)[1..] == a[1..] + b;
      EntryIssuesSplit(a[1..], b, path, locales);
      var first := if a[0].value.Arr? || a[0].value.Obj?
        then LocaleIssues(a[0].value, AtKey(path, a[0].key), locales) else [];
      assert first + (LocaleEntries(a[1..], path, locales) + LocaleEntries(b, path, locales))
          == first + LocaleEntries(a[1..], path, locales) + LocaleEntries(b, path, locales);
    }
  }

  lemma {:induction false} CleanedEntriesAccepted(
    es: seq<Entry>, allows: string -> bool, item: Schema, path: string, locales: seq<string>)
    requires WellFormed(item) && Cleanable(item) && ParseEntries(es, allows, item) == Some(es)
    requires PageLocales(locales) && LocaleEntries(es, path, locales) == []
    ensures ParseEntries(CleanEntries(es, AsSet(locales)), allows, item) == Some(CleanEntries(es, AsSet(locales)))
    decreases item, 2, |es|
  {
    if es != [] {
      FirstEntry(es, allows, item);
      assert es == [es[0]] + es[1..];
      EntryIssuesSplit([es[0]], es[1..], path, locales);
      CleanedValueAccepted(es[0], item, path, locales);
      CleanedEntriesAccepted(es[1..], allows, item, path, locales);
      assert CleanEntries(es, AsSet(locales))[1..] == CleanEntries(es[1..], AsSet(locales));
    }
  }

  lemma {:induction false} CleanEntriesConcat(a: seq<Entry>, b: seq<Entry>, allowed: set<string>)
    ensures CleanEntries(a + b, allowed) == CleanEntries(a, allowed) + CleanEntries(b, allowed)
  {
    if a == [] {
      assert a + b == b;
    } else {
      assert (a + b)[1..] == a[1..] + b;
      CleanEntriesConcat(a[1..], b, allowed);
      var first := if a[0].key == PROTO then [] else [Entry(a[0].key, Clean(a[0].value, allowed))];
      assert first + (CleanEntries(a[1..], allowed) + CleanEntries(b, allowed))
          == first + CleanEntries(a[1..], allowed) + CleanEntries(b, allowed);
    }
  }

  lemma {:induction false} CleaningKeepsNames(es: seq<Entry>, allowed: set<string>, key: string)
    requires Find(es, key).None?
    ensures Find(CleanEntries(es, allowed), key).None?
  {
    if es != [] {
      CleaningKeepsNames(es[1..], allowed, key);
      if es[0].key == PROTO {
        assert CleanEntries(es, allowed) == CleanEntries(es[1..], allowed);
      } else {
        assert CleanEntries(es, allowed)[1..] == CleanEntries(es[1..], allowed);
      }
    }
  }

  lemma {:induction false} CleanedFieldsAccepted(es: seq<Entry>, fields: seq<Field>, path: string, locales: seq<string>)
    requires WellFormedFields(fields) && CleanableFields(fields) && ParseFields(es, fields) == Some(es)
    requires PageLocales(locales) && LocaleEntries(es, path, locales) == []
    ensures ParseFields(CleanEntries(es, AsSet(locales)), fields) == Some(CleanEntries(es, AsSet(locales)))
    decreases fields, 1
  {
    if fields != [] {
      var allowed := AsSet(locales);
      var first, rest := FirstField(es, fields);
      EntryIssuesSplit(first, rest, path, locales);
      CleanEntriesConcat(first, rest, allowed);
      CleanedFieldsAccepted(rest, fields[1..], path, locales);
      CleaningKeepsNames(rest, allowed, fields[0].name);
      var cleanedFirst := CleanEntries(first, allowed);
      if first != [] {
        assert first == [first[0]];
        CleanedValueAccepted(first[0], fields[0].schema, path, locales);
        assert cleanedFirst == [Entry(fields[0].name, Clean(first[0].value, allowed))];
      }
      FieldsJoin(cleanedFirst, CleanEntries(rest, allowed), fields);
    }
  }

  /** The other way round from FirstField. */
  lemma FieldsJoin(first: seq<Entry>, rest: seq<Entry>, fields: seq<Field>)
    requires fields != [] && WellFormedFields(fields)
    requires ParseFields(rest, fields[1..]) == Some(rest) && Find(rest, fields[0].name).None?
    requires if first == [] then fields[0].presence == Optional
             else |first| == 1 && first[0].key == fields[0].name
                  && Parse(first[0].value, fields[0].schema) == Some(first[0].value)
    ensures ParseFields(first + rest, fields) == Some(first + rest)
  {
    OthersInFront(first, rest, fields[1..]);
    FoundAfter(first, rest, fields[0].name);
    if first != [] {
      assert first == [Entry(fields[0].name, first[0].value)];
    }
  }

  // ---------------------------------------------------------------- the page's schema

  function AnyText(): Schema {
    Text(t => Some(t))
  }

  function TextThat(accepts: string -> bool): Schema {
    Text(t => if accepts(t) then Some(t) else None)
  }

  function OneOf(values: set<string>): Schema {
    TextThat(t => t in values)
  }

  predicate IsHexDigit(c: char) {
    '0' <= c <= '9' || 'a' <= c <= 'f' || 'A' <= c <= 'F'
  }

  predicate IsColor(t: string) {
    || t in {"blue", "cyan", "dark", "grape", "gray", "green", "indigo", "lime", "orange", "pink", "red",
             "teal", "violet", "yellow"}
    || (4 <= |t| <= 9 && t[0] == '#' && forall c | c in t[1..] :: IsHexDigit(c))
  }

  predicate IsIconName(t: string) {
    t != "" && forall c | c in t :: 'a' <= c <= 'z' || 'A' <= c <= 'Z'
  }

  predicate IsPlatform(t: string) {
    t in {"ios", "android", "linux", "macos", "windows", "androidTV", "appleTV"}
  }

  function Always(name: string, schema: Schema): Field {
    Field(name, schema, Required)
  }

  // Each schema takes those of the values inside it.

  function Button(): Schema {
    Object([
      Always("link", AnyText()),
      Always("type", OneOf({"external", "subscriptionLink", "copyButton"})),
      Always("text", Localized),
      Always("svgIconKey", AnyText())])
  }

  function Block(button: Schema): Schema {
    Object([
      Always("svgIconKey", AnyText()),
      Always("svgIconColor", TextThat(IsColor)),
      Always("title", Localized),
      Always("description", Localized),
      Always("buttons", List(button, 0))])
  }

  function PlatformApp(block: Schema): Schema {
    Object([
      Always("name", TextThat(t => |t| >= 2)),
      Field("svgIconKey", AnyText(), Optional),
      Always("featured", Flag),
      Always("blocks", List(block, 0))])
  }

  function Platform(app: Schema): Schema {
    Object([
      Always("displayName", Localized),
      Always("svgIconKey", AnyText()),
      Always("apps", List(app, 0))])
  }

  function Platforms(): Schema {
    Record(IsPlatform, Platform(PlatformApp(Block(Button()))))
  }

  /** `url` is how the parser reads an address; it may normalise it. */
  function Branding(url: string -> Option<string>): Schema {
    Object([Always("title", AnyText()), Always("logoUrl", AnyText()), Always("supportUrl", Text(url))])
  }

  function Ui(): Schema {
    Object([
      Always("subscriptionInfoBlockType", OneOf({"collapsed", "expanded", "cards", "hidden"})),
      Always("installationGuidesBlockType", OneOf({"cards", "accordion", "minimal", "timeline"}))])
  }

  const TRANSLATIONS: seq<string> := [
    "installationGuideHeader", "connectionKeysHeader", "linkCopied", "linkCopiedToClipboard", "getLink",
    "scanQrCode", "scanQrCodeDescription", "copyLink", "name", "status", "active", "inactive", "expires",
    "bandwidth", "scanToImport", "expiresIn", "expired", "unknown", "indefinitely"]

  function Translations(): Schema {
    Object(seq(|TRANSLATIONS|, i requires 0 <= i < |TRANSLATIONS| => Always(TRANSLATIONS[i], Localized)))
  }

  function SettingsFields(): seq<Field> {
    [Field("metaTitle", AnyText(), Default(Str("Subscription"))),
     Field("metaDescription", AnyText(), Default(Str("Subscription"))),
     Field("showConnectionKeys", Flag, Default(Bool(false))),
     Field("hideGetLinkButton", Flag, Default(Bool(false)))]
  }

  /** The object of all defaults. */
  function Defaults(fields: seq<Field>): seq<Entry> {
    if fields == [] then []
    else (match fields[0].presence case Default(v) => [Entry(fields[0].name, v)] case _ => []) + Defaults(fields[1..])
  }

  function PageFieldsOf(
    branding: Schema, ui: Schema, settings: Schema, defaults: Json, translations: Schema, platforms: Schema): seq<Field>
  {
    [Always("version", OneOf({"1"})),
     Always("locales", List(OneOf(LANGUAGE_CODES), 1)),
     Always("brandingSettings", branding),
     Always("uiConfig", ui),
     Field("baseSettings", settings, Default(defaults)),
     Always("baseTranslations", translations),
     Always("svgLibrary", Record(IsIconName, AnyText())),
     Always("platforms", platforms)]
  }

  function PageFields(url: string -> Option<string>): seq<Field> {
    PageFieldsOf(
      Branding(url), Ui(), Object(SettingsFields()), Obj(Defaults(SettingsFields())), Translations(), Platforms())
  }

  // ---------------------------------------------------------------- validating and saving

  function ValueOf(es: seq<Entry>, key: string): Json {
    if Find(es, key).Some? then Find(es, key).value else Null
  }

  function Texts(items: seq<Json>): seq<string> {
    if items == [] then [] else (if items[0].Str? then [items[0].s] else []) + Texts(items[1..])
  }

  function LocalesOf(page: seq<Entry>): seq<string> {
    var x := ValueOf(page, "locales");
    if x.Arr? then Texts(x.items) else []
  }

  function IconsOf(page: seq<Entry>): set<string> {
    var x := ValueOf(page, "svgLibrary");
    if x.Obj? then set e | e in x.entries :: e.key else {}
  }

  function PageIssues(page: seq<Entry>): seq<Issue> {
    LocaleIssues(ValueOf(page, "platforms"), "platforms", LocalesOf(page))
    + LocaleIssues(ValueOf(page, "baseTranslations"), "baseTranslations", LocalesOf(page))
    + SvgIssues(ValueOf(page, "platforms"), "platforms", IconsOf(page))
  }

  /** safeParse: the page as the schema gives it back, if the validators raise no issue. */
  function Validated(input: Json, url: string -> Option<string>): Option<seq<Entry>> {
    if !input.Obj? then None
    else
      var page := ParseFields(input.entries, PageFields(url));
      if page.Some? && PageIssues(page.value) == [] then page else None
  }

  /** An assignment to a field that is there. */
  function With(es: seq<Entry>, key: string, value: Json): seq<Entry> {
    if es == [] then []
    else if es[0].key == key then [Entry(key, value)] + es[1..]
    else [es[0]] + With(es[1..], key, value)
  }

  function CleanedPage(page: seq<Entry>): seq<Entry> {
    var allowed := AsSet(LocalesOf(page));
    With(With(page, "platforms", Clean(ValueOf(page, "platforms"), allowed)),
         "baseTranslations", Clean(ValueOf(page, "baseTranslations"), allowed))
  }

  /** What is stored for an input, or None when it is refused. */
  function Save(input: Json, url: string -> Option<string>): Option<seq<Entry>> {
    var page := Validated(input, url);
    if page.Some? then Some(CleanedPage(page.value)) else None
  }

  lemma {:induction false} WithFinds(es: seq<Entry>, key: string, value: Json, other: string)
    requires Find(es, key).Some?
    ensures Find(With(es, key, value), other) == if other == key then Some(value) else Find(es, other)
  {
    if es[0].key != key {
      WithFinds(es[1..], key, value, other);
    }
  }

  lemma {:induction false} WithSame(es: seq<Entry>, key: string)
    requires Find(es, key).Some?
    ensures With(es, key, Find(es, key).value) == es
  {
    if es[0].key != key {
      WithSame(es[1..], key);
    }
  }

  lemma {:induction false} WithConcat(a: seq<Entry>, b: seq<Entry>, key: string, value: Json)
    ensures With(a + b, key, value) == if Find(a, key).Some? then With(a, key, value) + b else a + With(b, key, value)
  {
    if a == [] {
      assert a + b == b;
    } else {
      assert (a + b)[1..] == a[1..] + b;
      WithConcat(a[1..], b, key, value);
    }
  }

  lemma {:induction false} FieldKept(es: seq<Entry>, fields: seq<Field>, f: Field)
    requires WellFormedFields(fields) && ParseFields(es, fields) == Some(es) && f in fields
    requires Find(es, f.name).Some?
    ensures Parse(Find(es, f.name).value, f.schema) == Some(Find(es, f.name).value)
    decreases |fields|
  {
    var first, rest := FirstField(es, fields);
    FoundAfter(first, rest, f.name);
    if fields[0] != f {
      assert f in fields[1..] && Named(fields[1..], f.name);
      FieldKept(rest, fields[1..], f);
    }
  }

  lemma {:induction false} FieldReplaced(es: seq<Entry>, fields: seq<Field>, f: Field, value: Json)
    requires WellFormedFields(fields) && ParseFields(es, fields) == Some(es) && f in fields
    requires Find(es, f.name).Some? && Parse(value, f.schema) == Some(value)
    ensures ParseFields(With(es, f.name, value), fields) == Some(With(es, f.name, value))
    decreases |fields|
  {
    var first, rest := FirstField(es, fields);
    FoundAfter(first, rest, f.name);
    WithConcat(first, rest, f.name, value);
    if fields[0] == f {
      assert With(first, f.name, value) == [Entry(f.name, value)];
      FieldsJoin([Entry(f.name, value)], rest, fields);
    } else {
      assert f in fields[1..] && Named(fields[1..], f.name);
      FieldReplaced(rest, fields[1..], f, value);
      WithFinds(rest, f.name, value, fields[0].name);
      FieldsJoin(first, With(rest, f.name, value), fields);
    }
  }

  // ---------------------------------------------------------------- the page's schema makes sense

  ghost predicate ReadsOnce(url: string -> Option<string>) {
    forall t :: url(t).Some? ==> url(url(t).value) == url(t)
  }

  /** A well-formed field, with an index by which its name is recognised. */
  ghost predicate FieldFits(f: Field, rank: string -> int, i: int) {
    && rank(f.name) == i && f.name != PROTO && WellFormed(f.schema)
    && (f.presence.Default? ==> Parse(f.presence.value, f.schema) == Some(f.presence.value))
  }

  lemma {:induction false} RankedFields(fields: seq<Field>, rank: string -> int, from: int)
    requires forall i | 0 <= i < |fields| :: FieldFits(fields[i], rank, from + i)
    ensures WellFormedFields(fields)
  {
    if fields != [] {
      assert FieldFits(fields[0], rank, from + 0);
      forall i | 0 <= i < |fields[1..]| ensures FieldFits(fields[1..][i], rank, from + 1 + i) {
        assert FieldFits(fields[i + 1], rank, from + (i + 1));
      }
      forall f | f in fields[1..] ensures f.name != fields[0].name {
        var i :| 0 <= i < |fields[1..]| && fields[1..][i] == f;
        assert FieldFits(fields[1..][i], rank, from + 1 + i);
      }
      assert WellFormedField(fields[0]);
      assert !Named(fields[1..], fields[0].name);
      RankedFields(fields[1..], rank, from + 1);
    }
  }

  lemma {:induction false} CleanableAll(fields: seq<Field>)
    requires forall f | f in fields :: Cleanable(f.schema)
    ensures CleanableFields(fields)
  {
    if fields != [] {
      assert fields[0] in fields;
      CleanableAll(fields[1..]);
    }
  }

  lemma ObjectFits(fields: seq<Field>, rank: string -> int, main: nat)
    requires forall i | 0 <= i < |fields| :: FieldFits(fields[i], rank, i) && Cleanable(fields[i].schema)
    requires main < |fields| && fields[main].presence.Required? && Structured(fields[main].schema)
    ensures WellFormed(Object(fields)) && Cleanable(Object(fields))
  {
    forall i | 0 <= i < |fields| ensures FieldFits(fields[i], rank, 0 + i) {
      assert FieldFits(fields[i], rank, i);
    }
    RankedFields(fields, rank, 0);
    CleanableAll(fields);
    assert fields[main] in fields;
  }

  lemma ButtonFits()
    ensures WellFormed(Button()) && Cleanable(Button())
  {
    var fields := Button().fields;
    var rank := (name: string) => if |name| == 10 then 3 else if |name| < 4 then -1
      else if name[0] == 'l' then 0 else if name[1] == 'y' then 1 else 2;
    assert FieldFits(fields[0], rank, 0);
    assert FieldFits(fields[1], rank, 1);
    assert FieldFits(fields[2], rank, 2);
    assert FieldFits(fields[3], rank, 3);
    ObjectFits(fields, rank, 2);
  }

  lemma BlockFits(button: Schema)
    requires WellFormed(button) && Cleanable(button)
    ensures WellFormed(Block(button)) && Cleanable(Block(button))
  {
    var fields := Block(button).fields;
    var rank := (name: string) => if |name| == 10 then 0 else if |name| == 12 then 1 else if |name| == 5 then 2
      else if |name| == 11 then 3 else 4;
    assert FieldFits(fields[0], rank, 0);
    assert FieldFits(fields[1], rank, 1);
    assert FieldFits(fields[2], rank, 2);
    assert FieldFits(fields[3], rank, 3);
    assert FieldFits(fields[4], rank, 4);
    ObjectFits(fields, rank, 2);
  }

  lemma PlatformAppFits(block: Schema)
    requires WellFormed(block) && Cleanable(block)
    ensures WellFormed(PlatformApp(block)) && Cleanable(PlatformApp(block))
  {
    var fields := PlatformApp(block).fields;
    var rank := (name: string) => if |name| == 4 then 0 else if |name| == 10 then 1 else if |name| == 8 then 2 else 3;
    assert FieldFits(fields[0], rank, 0);
    assert FieldFits(fields[1], rank, 1);
    assert FieldFits(fields[2], rank, 2);
    assert FieldFits(fields[3], rank, 3);
    ObjectFits(fields, rank, 3);
  }

  lemma PlatformFits(app: Schema)
    requires WellFormed(app) && Cleanable(app)
    ensures WellFormed(Platform(app)) && Cleanable(Platform(app))
  {
    var fields := Platform(app).fields;
    var rank := (name: string) => if |name| == 11 then 0 else if |name| == 10 then 1 else 2;
    assert FieldFits(fields[0], rank, 0);
    assert FieldFits(fields[1], rank, 1);
    assert FieldFits(fields[2], rank, 2);
    ObjectFits(fields, rank, 0);
  }

  lemma PlatformsFit()
    ensures WellFormed(Platforms()) && Cleanable(Platforms())
  {
    ButtonFits();
    BlockFits(Button());
    PlatformAppFits(Block(Button()));
    PlatformFits(PlatformApp(Block(Button())));
  }

  /** The translations' names differ in length or in their last letter. */
  function TranslationRank(name: string): int {
    if name == [] then -1 else RankOf(|name|, name[|name| - 1])
  }

  function RankOf(n: nat, last: char): int {
    match n
    case 23 => 0
    case 20 => 1
    case 10 => if last == 'd' then 2 else 5
    case 21 => if last == 'd' then 3 else 6
    case 7 => if last == 'k' then 4 else if last == 's' then 12 else if last == 'd' then 16 else 17
    case 8 => if last == 'k' then 7 else 11
    case 4 => 8
    case 6 => if last == 's' then 9 else 10
    case 9 => if last == 'h' then 13 else 15
    case 12 => if last == 't' then 14 else 18
    case _ => -1
  }

  lemma TranslationsFit()
    ensures WellFormed(Translations()) && Cleanable(Translations())
  {
    ObjectFits(Translations().fields, TranslationRank, 0);
  }

  lemma {:induction false} DefaultsAccepted(fields: seq<Field>)
    requires WellFormedFields(fields) && forall f | f in fields :: f.presence.Default?
    ensures ParseFields(Defaults(fields), fields) == Some(Defaults(fields))
  {
    if fields != [] {
      assert fields[0] in fields && forall f | f in fields[1..] :: f in fields;
      DefaultsAccepted(fields[1..]);
      ParsedNames(Defaults(fields[1..]), fields[1..], fields[0].name);
      FieldsJoin([Entry(fields[0].name, fields[0].presence.value)], Defaults(fields[1..]), fields);
    }
  }

  lemma SettingsFit()
    ensures WellFormedFields(SettingsFields())
    ensures ParseFields(Defaults(SettingsFields()), SettingsFields()) == Some(Defaults(SettingsFields()))
  {
    var fields := SettingsFields();
    var rank := (name: string) => if |name| == 9 then 0 else if |name| == 15 then 1 else if |name| == 18 then 2 else 3;
    assert FieldFits(fields[0], rank, 0 + 0);
    assert FieldFits(fields[1], rank, 0 + 1);
    assert FieldFits(fields[2], rank, 0 + 2);
    assert FieldFits(fields[3], rank, 0 + 3);
    RankedFields(fields, rank, 0);
    DefaultsAccepted(fields);
  }

  lemma SmallSchemasFit(url: string -> Option<string>)
    requires ReadsOnce(url)
    ensures WellFormed(Branding(url)) && WellFormed(Ui())
  {
    var fields, rank := Branding(url).fields, (name: string) => if |name| == 5 then 0 else if |name| == 7 then 1 else 2;
    assert FieldFits(fields[0], rank, 0 + 0);
    assert FieldFits(fields[1], rank, 0 + 1);
    assert FieldFits(fields[2], rank, 0 + 2);
    RankedFields(fields, rank, 0);
    fields, rank := Ui().fields, (name: string) => if |name| == 25 then 0 else 1;
    assert FieldFits(fields[0], rank, 0 + 0);
    assert FieldFits(fields[1], rank, 0 + 1);
    RankedFields(fields, rank, 0);
  }

  function PageRank(name: string): int {
    var n := |name|;
    if n == 7 then if name[0] == 'v' then 0 else 1
    else if n == 16 then if name[1] == 'r' then 2 else 5
    else if n == 8 then 3 else if n == 12 then 4 else if n == 10 then 6 else 7
  }

  lemma PageNames(fields: seq<Field>)
    requires |fields| == 8 && fields[0].name == "version" && fields[1].name == "locales"
    requires fields[2].name == "brandingSettings" && fields[3].name == "uiConfig" && fields[4].name == "baseSettings"
    requires fields[5].name == "baseTranslations" && fields[6].name == "svgLibrary" && fields[7].name == "platforms"
    ensures forall i | 0 <= i < 8 :: PageRank(fields[i].name) == i && fields[i].name != PROTO
  {
  }

  lemma EightFit(fields: seq<Field>, rank: string -> int)
    requires |fields| == 8
    requires FieldFits(fields[0], rank, 0) && FieldFits(fields[1], rank, 1) && FieldFits(fields[2], rank, 2)
    requires FieldFits(fields[3], rank, 3) && FieldFits(fields[4], rank, 4) && FieldFits(fields[5], rank, 5)
    requires FieldFits(fields[6], rank, 6) && FieldFits(fields[7], rank, 7)
    ensures WellFormedFields(fields)
  {
    forall i | 0 <= i < 8 ensures FieldFits(fields[i], rank, 0 + i) {
    }
    RankedFields(fields, rank, 0);
  }

  lemma OwnSchemasFit()
    ensures WellFormed(OneOf({"1"})) && WellFormed(List(OneOf(LANGUAGE_CODES), 1))
    ensures WellFormed(Record(IsIconName, AnyText()))
  {
  }

  lemma PageFieldsFit(
    branding: Schema, ui: Schema, settings: Schema, defaults: Json, translations: Schema, platforms: Schema)
    requires WellFormed(branding) && WellFormed(ui)
    requires WellFormed(settings) && Parse(defaults, settings) == Some(defaults)
    requires WellFormed(translations) && WellFormed(platforms)
    ensures WellFormedFields(PageFieldsOf(branding, ui, settings, defaults, translations, platforms))
  {
    var fields := PageFieldsOf(branding, ui, settings, defaults, translations, platforms);
    OwnSchemasFit();
    PageNames(fields);
    EightFit(fields, PageRank);
  }

  lemma PageFits(url: string -> Option<string>)
    requires ReadsOnce(url)
    ensures WellFormedFields(PageFields(url))
  {
    SmallSchemasFit(url);
    SettingsFit();
    TranslationsFit();
    PlatformsFit();
    PageFieldsFit(
      Branding(url), Ui(), Object(SettingsFields()), Obj(Defaults(SettingsFields())), Translations(), Platforms());
  }

  // ---------------------------------------------------------------- what is saved

  lemma {:induction false} TextsOf(items: seq<Json>, values: set<string>)
    requires ParseItems(items, OneOf(values)) == Some(items)
    ensures |Texts(items)| == |items| && AsSet(Texts(items)) <= values
  {
    if items != [] {
      var first, rest := Parse(items[0], OneOf(values)).value, ParseItems(items[1..], OneOf(values)).value;
      assert items[0] == first && items[1..] == rest;
      TextsOf(items[1..], values);
    }
  }

  /** A field of a page that the schema gave back. */
  lemma PageField(page: seq<Entry>, url: string -> Option<string>, i: nat)
    requires ReadsOnce(url) && ParseFields(page, PageFields(url)) == Some(page)
    requires i < 8 && PageFields(url)[i].presence.Required?
    ensures var f := PageFields(url)[i];
            Find(page, f.name).Some? && Parse(Find(page, f.name).value, f.schema) == Some(Find(page, f.name).value)
  {
    PageFits(url);
    var f := PageFields(url)[i];
    RequiredIsThere(page, PageFields(url), f);
    FieldKept(page, PageFields(url), f);
  }

  lemma AcceptedLocales(page: seq<Entry>, url: string -> Option<string>)
    requires ReadsOnce(url) && ParseFields(page, PageFields(url)) == Some(page)
    ensures PageLocales(LocalesOf(page))
  {
    PageField(page, url, 1);
    TextsOf(Find(page, "locales").value.items, LANGUAGE_CODES);
  }

  /** The two parts that are cleaned are accepted by their schemas and have no own `__proto__`. */
  lemma AcceptedParts(page: seq<Entry>, url: string -> Option<string>)
    requires ReadsOnce(url) && ParseFields(page, PageFields(url)) == Some(page)
    ensures Find(page, "platforms").Some? && Find(page, "baseTranslations").Some?
    ensures Parse(ValueOf(page, "platforms"), Platforms()) == Some(ValueOf(page, "platforms"))
    ensures Parse(ValueOf(page, "baseTranslations"), Translations()) == Some(ValueOf(page, "baseTranslations"))
    ensures Unmasked(ValueOf(page, "platforms")) && Unmasked(ValueOf(page, "baseTranslations"))
  {
    PageField(page, url, 7);
    PageField(page, url, 5);
    PlatformsFit();
    TranslationsFit();
    ParsedHasNoProto(ValueOf(page, "platforms"), Platforms());
    ParsedHasNoProto(ValueOf(page, "baseTranslations"), Translations());
    NoProtoIsUnmasked(ValueOf(page, "platforms"));
    NoProtoIsUnmasked(ValueOf(page, "baseTranslations"));
  }

  /** Validation gives back what it accepts again, and no own `__proto__` anywhere in it, whatever the
      input has. */
  lemma ValidatedAgain(input: Json, url: string -> Option<string>)
    requires ReadsOnce(url) && Validated(input, url).Some?
    ensures Validated(Obj(Validated(input, url).value), url) == Validated(input, url)
    ensures NoProtoEntries(Validated(input, url).value)
  {
    PageFits(url);
    ParseFieldsTwice(input.entries, PageFields(url));
    ParsedFieldsHaveNoProto(Validated(input, url).value, PageFields(url));
  }

  /** One cleaned part: accepted again, no issue, and a fixed point of cleaning. */
  lemma CleanedPart(x: Json, s: Schema, path: string, locales: seq<string>)
    requires WellFormed(s) && Cleanable(s) && Parse(x, s) == Some(x) && Unmasked(x)
    requires PageLocales(locales) && LocaleIssues(x, path, locales) == []
    ensures var y := Clean(x, AsSet(locales));
            Parse(y, s) == Some(y) && LocaleIssues(y, path, locales) == [] && Clean(y, AsSet(locales)) == y
  {
    CleanedIsAccepted(x, s, path, locales);
    UnmaskedComplete(x, locales);
    CleaningKeepsLocalesExactly(x, path, locales);
    CleanIdempotentExactly(x);
  }

  lemma CleanedPageFinds(page: seq<Entry>, key: string)
    requires Find(page, "platforms").Some? && Find(page, "baseTranslations").Some?
    ensures var allowed := AsSet(LocalesOf(page));
            Find(CleanedPage(page), key) ==
            if key == "platforms" then Some(Clean(ValueOf(page, "platforms"), allowed))
            else if key == "baseTranslations" then Some(Clean(ValueOf(page, "baseTranslations"), allowed))
            else Find(page, key)
  {
    var once := With(page, "platforms", Clean(ValueOf(page, "platforms"), AsSet(LocalesOf(page))));
    WithFinds(page, "platforms", Clean(ValueOf(page, "platforms"), AsSet(LocalesOf(page))), key);
    WithFinds(page, "platforms", Clean(ValueOf(page, "platforms"), AsSet(LocalesOf(page))), "baseTranslations");
    WithFinds(once, "baseTranslations", Clean(ValueOf(page, "baseTranslations"), AsSet(LocalesOf(page))), key);
  }

  lemma CleanedPageAccepted(page: seq<Entry>, url: string -> Option<string>)
    requires ReadsOnce(url) && ParseFields(page, PageFields(url)) == Some(page) && PageIssues(page) == []
    ensures ParseFields(CleanedPage(page), PageFields(url)) == Some(CleanedPage(page))
    ensures LocalesOf(CleanedPage(page)) == LocalesOf(page) && PageIssues(CleanedPage(page)) == []
    ensures CleanedPage(CleanedPage(page)) == CleanedPage(page)
  {
    PageFits(url);
    PlatformsFit();
    TranslationsFit();
    AcceptedLocales(page, url);
    AcceptedParts(page, url);
    var locales, fields := LocalesOf(page), PageFields(url);
    var platforms, translations := ValueOf(page, "platforms"), ValueOf(page, "baseTranslations");
    CleanedPart(platforms, Platforms(), "platforms", locales);
    CleanedPart(translations, Translations(), "baseTranslations", locales);
    var once := With(page, "platforms", Clean(platforms, AsSet(locales)));
    FieldReplaced(page, fields, fields[7], Clean(platforms, AsSet(locales)));
    WithFinds(page, "platforms", Clean(platforms, AsSet(locales)), "baseTranslations");
    FieldReplaced(once, fields, fields[5], Clean(translations, AsSet(locales)));
    CleanedPageFinds(page, "locales");
    CleanedPageFinds(page, "svgLibrary");
    CleanedPageFinds(page, "platforms");
    CleanedPageFinds(page, "baseTranslations");
    CleaningAddsNoSvgIssue(platforms, "platforms", IconsOf(page), AsSet(locales));
    assert |multiset(SvgIssues(Clean(platforms, AsSet(locales)), "platforms", IconsOf(page)))| == 0;
    WithSame(CleanedPage(page), "platforms");
    WithSame(CleanedPage(page), "baseTranslations");
  }

  /** For every input: what is saved passes validation again as it is, so the next start keeps it, and
      saving it again stores the same. */
  lemma SavedIsAcceptedAgain(input: Json, url: string -> Option<string>)
    requires ReadsOnce(url)
    ensures var saved := Save(input, url);
            saved.Some? ==> Validated(Obj(saved.value), url) == saved && Save(Obj(saved.value), url) == saved
  {
    if Save(input, url).Some? {
      PageFits(url);
      ParseFieldsTwice(input.entries, PageFields(url));
      CleanedPageAccepted(Validated(input, url).value, url);
    }
  }

  // ---------------------------------------------------------------- when a page is saved, and as what

  lemma {:induction false} TextsAreStrings(items: seq<Json>, t: string)
    ensures t in Texts(items) <==> Str(t) in items
    decreases |items|
  {
    if items != [] {
      TextsAreStrings(items[1..], t);
      assert items == [items[0]] + items[1..];
    }
  }

  /** No localized text lacks a locale of the page, and every icon that is used is in its library. */
  ghost predicate Faultless(page: seq<Entry>) {
    && (forall p, l :: Str(l) in ItemsOf(ValueOf(page, "locales")) ==>
          !Lacks(ValueOf(page, "platforms"), p, l) && !Lacks(ValueOf(page, "baseTranslations"), p, l))
    && (forall p, name :: Icon(ValueOf(page, "platforms"), p, name) ==>
          exists v :: Entry(name, v) in EntriesOf(ValueOf(page, "svgLibrary")))
  }

  function ItemsOf(x: Json): seq<Json> {
    if x.Arr? then x.items else []
  }

  function EntriesOf(x: Json): seq<Entry> {
    if x.Obj? then x.entries else []
  }

  lemma NoneLacking(x: Json, path: string, required: seq<string>)
    ensures LocaleIssues(x, path, required) == [] <==> forall p, l | l in required :: !Lacks(x, p, l)
  {
    if LocaleIssues(x, path, required) == [] {
      forall p, l | l in required ensures !Lacks(x, p, l) {
        ReportedExactly(x, path, required, MissingLocale(path + Printed(p), l));
      }
    } else {
      var issue := LocaleIssues(x, path, required)[0];
      ReportedExactly(x, path, required, issue);
      var p :| Lacks(x, p, issue.locale) && issue.path == path + Printed(p);
    }
  }

  lemma NoneUnknown(x: Json, path: string, known: set<string>)
    ensures SvgIssues(x, path, known) == [] <==> forall p, name | Icon(x, p, name) :: name in known
  {
    if SvgIssues(x, path, known) == [] {
      forall p, name | Icon(x, p, name) ensures name in known {
        IconsReportedExactly(x, path, known, UnknownSvgKey(path + IconPrinted(p, false), name));
      }
    } else {
      var issue := SvgIssues(x, path, known)[0];
      IconsReportedExactly(x, path, known, issue);
      var p :| Icon(x, p, issue.value) && issue.path == path + IconPrinted(p, false);
    }
  }

  lemma NoIssueExactly(page: seq<Entry>)
    ensures PageIssues(page) == [] <==> Faultless(page)
  {
    var locales, icons := LocalesOf(page), IconsOf(page);
    forall l ensures l in locales <==> Str(l) in ItemsOf(ValueOf(page, "locales")) {
      TextsAreStrings(ItemsOf(ValueOf(page, "locales")), l);
    }
    forall name ensures name in icons <==> exists v :: Entry(name, v) in EntriesOf(ValueOf(page, "svgLibrary")) {
      if v :| Entry(name, v) in EntriesOf(ValueOf(page, "svgLibrary")) {
        assert Entry(name, v).key == name;
      }
      if name in icons {
        var e :| e in EntriesOf(ValueOf(page, "svgLibrary")) && e.key == name;
        assert Entry(name, e.value) in EntriesOf(ValueOf(page, "svgLibrary"));
      }
    }
    NoneLacking(ValueOf(page, "platforms"), "platforms", locales);
    NoneLacking(ValueOf(page, "baseTranslations"), "baseTranslations", locales);
    NoneUnknown(ValueOf(page, "platforms"), "platforms", icons);
  }

  lemma {:induction false} WithNames(es: seq<Entry>, key: string, value: Json)
    ensures Names(With(es, key, value)) == Names(es)
  {
    if es != [] && es[0].key != key {
      WithNames(es[1..], key, value);
      assert Names(es) == [es[0].key] + Names(es[1..]);
    }
  }

  function LocaleSet(page: seq<Entry>): set<string> {
    set x | x in ItemsOf(ValueOf(page, "locales")) && x.Str? :: x.s
  }

  lemma LocalesAre(page: seq<Entry>)
    ensures AsSet(LocalesOf(page)) == LocaleSet(page)
  {
    var items := ItemsOf(ValueOf(page, "locales"));
    forall l ensures l in AsSet(LocalesOf(page)) <==> l in LocaleSet(page) {
      TextsAreStrings(items, l);
      assert Str(l) in items ==> Str(l).s in LocaleSet(page);
    }
  }

  /** The cleaned page: its platforms and translations cleaned for its locales, in their places, and every
      other field as it was. */
  lemma CleanedPageIs(page: seq<Entry>, key: string)
    requires Find(page, "platforms").Some? && Find(page, "baseTranslations").Some?
    ensures Names(CleanedPage(page)) == Names(page)
    ensures Find(CleanedPage(page), key)
         == if key == "platforms" || key == "baseTranslations" then Some(Clean(ValueOf(page, key), LocaleSet(page)))
            else Find(page, key)
  {
    LocalesAre(page);
    CleanedPageFinds(page, key);
    var allowed := AsSet(LocalesOf(page));
    var once := With(page, "platforms", Clean(ValueOf(page, "platforms"), allowed));
    WithNames(page, "platforms", Clean(ValueOf(page, "platforms"), allowed));
    WithNames(once, "baseTranslations", Clean(ValueOf(page, "baseTranslations"), allowed));
  }

  /** The page as the schema gives it back. */
  function Parsed(input: Json, url: string -> Option<string>): Option<seq<Entry>> {
    if input.Obj? then ParseFields(input.entries, PageFields(url)) else None
  }

  lemma ParsedHasParts(input: Json, url: string -> Option<string>)
    requires ReadsOnce(url) && Parsed(input, url).Some?
    ensures Find(Parsed(input, url).value, "platforms").Some?
    ensures Find(Parsed(input, url).value, "baseTranslations").Some?
  {
    PageFits(url);
    ParseFieldsTwice(input.entries, PageFields(url));
    AcceptedParts(Parsed(input, url).value, url);
  }

  /** A page is saved exactly when the schema accepts it and neither validator finds a fault. */
  lemma SavedExactly(input: Json, url: string -> Option<string>)
    ensures Save(input, url).Some? <==> Parsed(input, url).Some? && Faultless(Parsed(input, url).value)
    ensures Save(input, url).Some? ==> Save(input, url).value == CleanedPage(Parsed(input, url).value)
  {
    if Parsed(input, url).Some? {
      NoIssueExactly(Parsed(input, url).value);
    }
  }

  /** Saved is the page as the schema gave it back, with its platforms and translations cleaned for its
      locales and every other field as it was. */
  lemma SavedAs(input: Json, url: string -> Option<string>, key: string)
    requires ReadsOnce(url) && Save(input, url).Some?
    ensures var page, saved := Parsed(input, url), Save(input, url).value;
            && page.Some? && Names(saved) == Names(page.value)
            && Find(saved, key)
               == if key == "platforms" || key == "baseTranslations"
                  then Some(Clean(ValueOf(page.value, key), LocaleSet(page.value))) else Find(page.value, key)
  {
    SavedExactly(input, url);
    ParsedHasParts(input, url);
    CleanedPageIs(Parsed(input, url).value, key);
  }
}
