/** The subscription page configuration: the cleaner of localized texts and the two validators,
    three recursive walks over arbitrary JSON. */
module SubscriptionPages {
  import opened Text

  /** A JavaScript value built from JSON. `entries` are the object's own enumerable entries. */
  datatype Json =
    | Null
    | Bool(b: bool)
    | Num(n: real)
    | Str(s: string)
    | Arr(items: seq<Json>)
    | Obj(entries: seq<Entry>)

  datatype Entry = Entry(key: string, value: Json)

  const LANGUAGE_CODES: set<string> := {
    "en", "ru", "zh", "fr", "fa", "uz", "de", "hi", "tr", "az",
    "es", "vi", "ja", "be", "uk", "pt", "pl", "id", "tk", "th"
  }

  /** Names that every object inherits, which the `in` operator finds as well. */
  const INHERITED: set<string> := {
    "constructor", "__defineGetter__", "__defineSetter__", "hasOwnProperty", "__lookupGetter__",
    "__lookupSetter__", "isPrototypeOf", "propertyIsEnumerable", "toString", "valueOf",
    "__proto__", "toLocaleString"
  }

  predicate IsLanguageCode(key: string) {
    key in LANGUAGE_CODES || key in INHERITED
  }

  /** Assigning to this key of an ordinary object sets its prototype and adds no entry. */
  const PROTO: string := "__proto__"

  predicate IsLocalizedText(x: Json) {
    && x.Obj?
    && x.entries != []
    && (forall e | e in x.entries :: e.value.Str?)
    && (exists e | e in x.entries :: |e.key| == 2)
  }

  // ---------------------------------------------------------------- cleaning

  /** The cleaned value as it is stored: by its own entries. A prototype that cleaning sets is lost. */
  function Clean(x: Json, allowed: set<string>): Json
    decreases x, 1
  {
    if IsLocalizedText(x) then Obj(CleanTexts(x.entries, allowed))
    else match x
      case Arr(items) => Arr(CleanItems(items, allowed))
      case Obj(entries) => Obj(CleanEntries(entries, allowed))
      case _ => x
  }

  /** What is left of one entry of a localized text. */
  function CleanText(e: Entry, allowed: set<string>): seq<Entry> {
    if e.value.Str? && IsLanguageCode(e.key) && e.key in allowed && Trim(e.value.s) != []
    then [Entry(e.key, Str(Trim(e.value.s)))] else []
  }

  function CleanTexts(es: seq<Entry>, allowed: set<string>): seq<Entry> {
    if es == [] then [] else CleanText(es[0], allowed) + CleanTexts(es[1..], allowed)
  }

  function CleanItems(xs: seq<Json>, allowed: set<string>): (r: seq<Json>)
    ensures |r| == |xs|
    decreases xs, 0
  {
    if xs == [] then [] else [Clean(xs[0], allowed)] + CleanItems(xs[1..], allowed)
  }

  function CleanEntries(es: seq<Entry>, allowed: set<string>): seq<Entry>
    decreases es, 0
  {
    if es == [] then []
    else
      var first := if es[0].key == PROTO then [] else [Entry(es[0].key, Clean(es[0].value, allowed))];
      first + CleanEntries(es[1..], allowed)
  }

  // ---------------------------------------------------------------- when a node changes its nature

  function WithoutProto(es: seq<Entry>): seq<Entry> {
    if es == [] then []
    else (if es[0].key == PROTO then [] else [es[0]]) + WithoutProto(es[1..])
  }

  /** Not a localized text, but only because of an own `__proto__` entry. */
  predicate Masked(x: Json) {
    x.Obj? && !IsLocalizedText(x) && IsLocalizedText(Obj(WithoutProto(x.entries)))
  }

  /** No masked node, other than inside an entry that cleaning loses anyway. */
  predicate Unmasked(x: Json)
    decreases x, 1
  {
    && !Masked(x)
    && match x
       case Arr(items) => UnmaskedItems(items)
       case Obj(entries) => UnmaskedEntries(entries)
       case _ => true
  }

  predicate UnmaskedItems(xs: seq<Json>)
    decreases xs, 0
  {
    xs == [] || (Unmasked(xs[0]) && UnmaskedItems(xs[1..]))
  }

  predicate UnmaskedEntries(es: seq<Entry>)
    decreases es, 0
  {
    es == [] || ((es[0].key == PROTO || Unmasked(es[0].value)) && UnmaskedEntries(es[1..]))
  }

  lemma CleanKeepsKind(x: Json, allowed: set<string>)
    ensures Clean(x, allowed).Str? <==> x.Str?
    ensures x.Str? ==> Clean(x, allowed) == x
    ensures Clean(x, allowed).Obj? <==> x.Obj?
    ensures Clean(x, allowed).Arr? <==> x.Arr?
  {
  }

  predicate Alike(a: Entry, b: Entry) {
    a.key == b.key && (a.value.Str? <==> b.value.Str?)
  }

  /** Entry by entry: cleaning a node that is not a text keeps keys and kinds, losing `__proto__`. */
  lemma {:induction false} CleanEntriesKinds(es: seq<Entry>, allowed: set<string>)
    ensures |CleanEntries(es, allowed)| == |WithoutProto(es)|
    ensures forall i | 0 <= i < |WithoutProto(es)| :: Alike(CleanEntries(es, allowed)[i], WithoutProto(es)[i])
  {
    if es != [] {
      var a, b := CleanEntries(es[1..], allowed), WithoutProto(es[1..]);
      CleanEntriesKinds(es[1..], allowed);
      CleanKeepsKind(es[0].value, allowed);
      if es[0].key == PROTO {
        assert CleanEntries(es, allowed) == a && WithoutProto(es) == b;
      } else {
        var e := Entry(es[0].key, Clean(es[0].value, allowed));
        assert CleanEntries(es, allowed) == [e] + a && WithoutProto(es) == [es[0]] + b;
        AlikeExtends(e, a, es[0], b);
      }
    }
  }

  lemma AlikeExtends(e: Entry, a: seq<Entry>, f: Entry, b: seq<Entry>)
    requires Alike(e, f) && |a| == |b| && forall i | 0 <= i < |b| :: Alike(a[i], b[i])
    ensures forall i | 0 <= i < |[f] + b| :: Alike(([e] + a)[i], ([f] + b)[i])
  {
  }

  lemma LocalizedByKinds(a: seq<Entry>, b: seq<Entry>)
    requires |a| == |b|
    requires forall i | 0 <= i < |a| :: Alike(a[i], b[i])
    requires IsLocalizedText(Obj(a))
    ensures IsLocalizedText(Obj(b))
  {
  }

  /** Exactly the masked nodes turn into localized texts, whatever the locales. */
  lemma TurnsLocalizedExactly(x: Json, allowed: set<string>)
    requires !IsLocalizedText(x)
    ensures IsLocalizedText(Clean(x, allowed)) <==> Masked(x)
  {
    if x.Obj? {
      var a, b := CleanEntries(x.entries, allowed), WithoutProto(x.entries);
      CleanEntriesKinds(x.entries, allowed);
      if IsLocalizedText(Obj(a)) {
        LocalizedByKinds(a, b);
      }
      if IsLocalizedText(Obj(b)) {
        LocalizedByKinds(b, a);
      }
    }
  }

  // ---------------------------------------------------------------- fusion

  predicate KnownLocales(allowed: set<string>) {
    allowed <= LANGUAGE_CODES
  }

  lemma CodesHaveTwoLetters(key: string)
    requires key in LANGUAGE_CODES
    ensures |key| == 2 && key != PROTO && key != "svgIconKey"
  {
  }

  lemma {:induction false} CleanTextsShape(es: seq<Entry>, allowed: set<string>)
    requires KnownLocales(allowed)
    ensures forall e | e in CleanTexts(es, allowed) ::
              e.value.Str? && e.key in allowed && Trimmed(e.value.s) && e.value.s != []
  {
    if es != [] {
      CleanTextsShape(es[1..], allowed);
      if es[0].value.Str? {
        TrimIsTrimmed(es[0].value.s);
      }
    }
  }

  lemma CleanedTextIsTextOrEmpty(es: seq<Entry>, allowed: set<string>)
    requires KnownLocales(allowed)
    ensures CleanTexts(es, allowed) == [] || IsLocalizedText(Obj(CleanTexts(es, allowed)))
  {
  }

  lemma {:induction false} CleanTextsFuse(es: seq<Entry>, a: set<string>, b: set<string>)
    requires KnownLocales(a) && KnownLocales(b)
    ensures CleanTexts(CleanTexts(es, a), b) == CleanTexts(es, a * b)
  {
    if es != [] {
      CleanTextsFuse(es[1..], a, b);
      var e := es[0];
      var rest := CleanTexts(es[1..], a);
      if e.value.Str? && e.key in a && Trim(e.value.s) != [] {
        var kept := Entry(e.key, Str(Trim(e.value.s)));
        TrimIsTrimmed(e.value.s);
        TrimFixes(Trim(e.value.s));
        assert CleanTexts(es, a) == [kept] + rest;
        assert ([kept] + rest)[0] == kept && ([kept] + rest)[1..] == rest;
      } else {
        assert CleanTexts(es, a) == rest;
      }
    }
  }

  /** Fusion: cleaning with one list and then with another is cleaning once with what they share. */
  lemma {:induction false} CleanFuses(x: Json, a: set<string>, b: set<string>)
    requires Unmasked(x) && KnownLocales(a) && KnownLocales(b)
    ensures Clean(Clean(x, a), b) == Clean(x, a * b)
    decreases x, 1
  {
    if IsLocalizedText(x) {
      CleanTextsFuse(x.entries, a, b);
      CleanedTextIsTextOrEmpty(x.entries, a);
    } else {
      TurnsLocalizedExactly(x, a);
      match x
      case Arr(items) => CleanItemsFuse(items, a, b);
      case Obj(entries) => CleanEntriesFuse(entries, a, b);
      case _ =>
    }
  }

  lemma {:induction false} CleanItemsFuse(xs: seq<Json>, a: set<string>, b: set<string>)
    requires UnmaskedItems(xs) && KnownLocales(a) && KnownLocales(b)
    ensures CleanItems(CleanItems(xs, a), b) == CleanItems(xs, a * b)
    decreases xs, 0
  {
    if xs != [] {
      CleanFuses(xs[0], a, b);
      CleanItemsFuse(xs[1..], a, b);
      assert CleanItems(xs, a)[1..] == CleanItems(xs[1..], a);
    }
  }

  lemma {:induction false} CleanEntriesFuse(es: seq<Entry>, a: set<string>, b: set<string>)
    requires UnmaskedEntries(es) && KnownLocales(a) && KnownLocales(b)
    ensures CleanEntries(CleanEntries(es, a), b) == CleanEntries(es, a * b)
    decreases es, 0
  {
    if es != [] {
      CleanEntriesFuse(es[1..], a, b);
      if es[0].key != PROTO {
        CleanFuses(es[0].value, a, b);
        var kept := Entry(es[0].key, Clean(es[0].value, a));
        var rest := CleanEntries(es[1..], a);
        assert CleanEntries(es, a) == [kept] + rest;
        assert ([kept] + rest)[1..] == rest;
      } else {
        assert CleanEntries(es, a) == CleanEntries(es[1..], a);
      }
    }
  }

  /** A masked node survives one cleaning with its texts untouched, and not the next. */
  lemma {:induction false} CleanTwiceDiffers(x: Json)
    requires !Unmasked(x)
    ensures Clean(Clean(x, {}), {}) != Clean(x, {})
    decreases x, 1
  {
    if Masked(x) {
      TurnsLocalizedExactly(x, {});
      CleanTextsEmpty(CleanEntries(x.entries, {}));
    } else if IsLocalizedText(x) {
      TextsUnmasked(x.entries);
    } else {
      TurnsLocalizedExactly(x, {});
      match x
      case Arr(items) => CleanItemsTwiceDiffer(items);
      case Obj(entries) => CleanEntriesTwiceDiffer(entries);
    }
  }

  lemma {:induction false} CleanTextsEmpty(es: seq<Entry>)
    ensures CleanTexts(es, {}) == []
  {
    if es != [] {
      CleanTextsEmpty(es[1..]);
    }
  }

  lemma {:induction false} TextsUnmasked(es: seq<Entry>)
    requires forall e | e in es :: e.value.Str?
    ensures UnmaskedEntries(es)
  {
    if es != [] {
      assert es[0] in es;
      TextsUnmasked(es[1..]);
    }
  }

  lemma {:induction false} CleanItemsTwiceDiffer(xs: seq<Json>)
    requires !UnmaskedItems(xs)
    ensures CleanItems(CleanItems(xs, {}), {}) != CleanItems(xs, {})
    decreases xs, 0
  {
    var once := CleanItems(xs, {});
    var twice := CleanItems(once, {});
    assert once[1..] == CleanItems(xs[1..], {});
    assert twice[1..] == CleanItems(once[1..], {});
    if !Unmasked(xs[0]) {
      CleanTwiceDiffers(xs[0]);
      assert once[0] != twice[0];
    } else {
      CleanItemsTwiceDiffer(xs[1..]);
    }
  }

  lemma {:induction false} CleanEntriesTwiceDiffer(es: seq<Entry>)
    requires !UnmaskedEntries(es)
    ensures CleanEntries(CleanEntries(es, {}), {}) != CleanEntries(es, {})
    decreases es, 0
  {
    if es[0].key == PROTO {
      assert CleanEntries(es, {}) == CleanEntries(es[1..], {});
      CleanEntriesTwiceDiffer(es[1..]);
    } else {
      var once := CleanEntries(es, {});
      var twice := CleanEntries(once, {});
      assert once[1..] == CleanEntries(es[1..], {});
      assert twice[1..] == CleanEntries(once[1..], {});
      if !Unmasked(es[0].value) {
        CleanTwiceDiffers(es[0].value);
        assert once[0] != twice[0];
      } else {
        CleanEntriesTwiceDiffer(es[1..]);
      }
    }
  }

  ghost predicate FusesForAll(x: Json) {
    forall a, b :: KnownLocales(a) && KnownLocales(b) ==> Clean(Clean(x, a), b) == Clean(x, a * b)
  }

  /** The fusion law holds of a value exactly when it has no masked node. */
  lemma FusionExactly(x: Json)
    ensures FusesForAll(x) <==> Unmasked(x)
  {
    if Unmasked(x) {
      forall a, b | KnownLocales(a) && KnownLocales(b) ensures Clean(Clean(x, a), b) == Clean(x, a * b) {
        CleanFuses(x, a, b);
      }
    } else {
      CleanTwiceDiffers(x);
      var none: set<string> := {};
      assert KnownLocales(none) && none * none == none;
    }
  }

  ghost predicate IdempotentForAll(x: Json) {
    forall a :: KnownLocales(a) ==> Clean(Clean(x, a), a) == Clean(x, a)
  }

  /** So does idempotence. */
  lemma CleanIdempotentExactly(x: Json)
    ensures IdempotentForAll(x) <==> Unmasked(x)
  {
    if Unmasked(x) {
      forall a | KnownLocales(a) ensures Clean(Clean(x, a), a) == Clean(x, a) {
        CleanFuses(x, a, a);
        assert a * a == a;
      }
    } else {
      CleanTwiceDiffers(x);
      var none: set<string> := {};
      assert KnownLocales(none);
    }
  }
}
