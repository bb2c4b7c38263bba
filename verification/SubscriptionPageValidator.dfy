/** The two validators of the subscription page, and how cleaning acts on what they report. */
module SubscriptionPageValidators {
  import opened Collections
  import opened Text
  import opened SubscriptionPages

  datatype Issue =
    | MissingLocale(path: string, locale: string)
    | UnknownSvgKey(path: string, value: string)

  // ---------------------------------------------------------------- what is reported

  function Lookup(es: seq<Entry>, key: string): Json {
    if es == [] then Null else if es[0].key == key then es[0].value else Lookup(es[1..], key)
  }

  /** The text of a locale is absent or blank. */
  predicate Missing(es: seq<Entry>, locale: string) {
    var v := Lookup(es, locale);
    !v.Str? || v.s == [] || Trim(v.s) == []
  }

  function TextIssues(es: seq<Entry>, path: string, required: seq<string>): seq<Issue> {
    if required == [] then []
    else
      (if Missing(es, required[0]) then [MissingLocale(path, required[0])] else [])
      + TextIssues(es, path, required[1..])
  }

  function AtIndex(path: string, i: nat): string {
    path + "[" + NatToString(i) + "]"
  }

  function AtKey(path: string, key: string): string {
    path + "." + key
  }

  function LocaleIssues(x: Json, path: string, required: seq<string>): seq<Issue>
    decreases x, 1
  {
    if IsLocalizedText(x) then TextIssues(x.entries, path, required)
    else match x
      case Arr(items) => LocaleItems(items, 0, path, required)
      case Obj(entries) => LocaleEntries(entries, path, required)
      case _ => []
  }

  function LocaleItems(xs: seq<Json>, i: nat, path: string, required: seq<string>): seq<Issue>
    decreases xs, 0
  {
    if xs == [] then []
    else LocaleIssues(xs[0], AtIndex(path, i), required) + LocaleItems(xs[1..], i + 1, path, required)
  }

  function LocaleEntries(es: seq<Entry>, path: string, required: seq<string>): seq<Issue>
    decreases es, 0
  {
    if es == [] then []
    else
      (if es[0].value.Arr? || es[0].value.Obj?
       then LocaleIssues(es[0].value, AtKey(path, es[0].key), required) else [])
      + LocaleEntries(es[1..], path, required)
  }

  /** Every entry of an object or an array is visited; the keys of an array are its indices. */
  function SvgIssues(x: Json, path: string, known: set<string>): seq<Issue>
    decreases x, 1
  {
    match x
    case Arr(items) => SvgItemEntries(items, 0, path, known)
    case Obj(entries) => SvgEntries(entries, path, known)
    case _ => []
  }

  function SvgEntry(key: string, value: Json, path: string, known: set<string>): seq<Issue>
    decreases value, 2
  {
    if key == "svgIconKey" && value.Str? then
      if value.s in known then [] else [UnknownSvgKey(AtKey(path, key), value.s)]
    else if value.Arr? then SvgItems(value.items, 0, AtKey(path, key), known)
    else if value.Obj? then SvgIssues(value, AtKey(path, key), known)
    else []
  }

  function SvgEntries(es: seq<Entry>, path: string, known: set<string>): seq<Issue>
    decreases es, 0
  {
    if es == [] then []
    else SvgEntry(es[0].key, es[0].value, path, known) + SvgEntries(es[1..], path, known)
  }

  function SvgItemEntries(xs: seq<Json>, i: nat, path: string, known: set<string>): seq<Issue>
    decreases xs, 0
  {
    if xs == [] then []
    else SvgEntry(NatToString(i), xs[0], path, known) + SvgItemEntries(xs[1..], i + 1, path, known)
  }

  function SvgItems(xs: seq<Json>, i: nat, path: string, known: set<string>): seq<Issue>
    decreases xs, 0
  {
    if xs == [] then []
    else SvgIssues(xs[0], AtIndex(path, i), known) + SvgItems(xs[1..], i + 1, path, known)
  }

  // ---------------------------------------------------------------- the validators push to a list

  class RefinementContext {
    var issues: seq<Issue>

    constructor ()
      ensures issues == []
    {
      issues := [];
    }

    /** The loop over the required locales. */
    method CheckTexts(entries: seq<Entry>, path: string, required: seq<string>)
      modifies this
      ensures issues == old(issues) + TextIssues(entries, path, required)
    {
      for i := 0 to |required|
        invariant issues + TextIssues(entries, path, required[i..]) == old(issues) + TextIssues(entries, path, required)
      {
        assert required[i..][1..] == required[i + 1..];
        if Missing(entries, required[i]) {
          issues := issues + [MissingLocale(path, required[i])];
        }
      }
    }

    method CheckLocalizedText(x: Json, path: string, required: seq<string>)
      modifies this
      ensures issues == old(issues) + LocaleIssues(x, path, required)
      decreases x
    {
      if IsLocalizedText(x) {
        CheckTexts(x.entries, path, required);
        return;
      }
      match x
      case Arr(items) => CheckLocalizedItems(items, path, required);
      case Obj(entries) => CheckLocalizedEntries(entries, path, required);
      case _ =>
    }

    method CheckLocalizedItems(items: seq<Json>, path: string, required: seq<string>)
      modifies this
      ensures issues == old(issues) + LocaleItems(items, 0, path, required)
      decreases items
    {
      for i := 0 to |items|
        invariant issues + LocaleItems(items[i..], i, path, required)
                == old(issues) + LocaleItems(items, 0, path, required)
      {
        assert items[i..][1..] == items[i + 1..];
        CheckLocalizedText(items[i], AtIndex(path, i), required);
      }
    }

    method CheckLocalizedEntries(entries: seq<Entry>, path: string, required: seq<string>)
      modifies this
      ensures issues == old(issues) + LocaleEntries(entries, path, required)
      decreases entries
    {
      for i := 0 to |entries|
        invariant issues + LocaleEntries(entries[i..], path, required)
                == old(issues) + LocaleEntries(entries, path, required)
      {
        assert entries[i..][1..] == entries[i + 1..];
        var e := entries[i];
        if e.value.Arr? || e.value.Obj? {
          CheckLocalizedText(e.value, AtKey(path, e.key), required);
        }
      }
    }

    method CheckSvgEntry(key: string, value: Json, path: string, known: set<string>)
      modifies this
      ensures issues == old(issues) + SvgEntry(key, value, path, known)
      decreases value, 2
    {
      if key == "svgIconKey" && value.Str? {
        if value.s !in known {
          issues := issues + [UnknownSvgKey(AtKey(path, key), value.s)];
        }
      } else if value.Arr? {
        var items := value.items;
        for i := 0 to |items|
          invariant issues + SvgItems(items[i..], i, AtKey(path, key), known)
                 == old(issues) + SvgItems(items, 0, AtKey(path, key), known)
        {
          assert items[i..][1..] == items[i + 1..];
          CheckSvgRef(items[i], AtIndex(AtKey(path, key), i), known);
        }
      } else if value.Obj? {
        CheckSvgRef(value, AtKey(path, key), known);
      }
    }

    method CheckSvgRef(x: Json, path: string, known: set<string>)
      modifies this
      ensures issues == old(issues) + SvgIssues(x, path, known)
      decreases x, 1
    {
      match x
      case Arr(items) =>
        for i := 0 to |items|
          invariant issues + SvgItemEntries(items[i..], i, path, known)
                  == old(issues) + SvgItemEntries(items, 0, path, known)
        {
          assert items[i..][1..] == items[i + 1..];
          CheckSvgEntry(NatToString(i), items[i], path, known);
        }
      case Obj(entries) =>
        for i := 0 to |entries|
          invariant issues + SvgEntries(entries[i..], path, known) == old(issues) + SvgEntries(entries, path, known)
        {
          assert entries[i..][1..] == entries[i + 1..];
          CheckSvgEntry(entries[i].key, entries[i].value, path, known);
        }
      case _ =>
    }
  }

  // ---------------------------------------------------------------- cleaning keeps a valid value valid

  lemma {:induction false} NoTextIssues(es: seq<Entry>, path: string, required: seq<string>)
    ensures TextIssues(es, path, required) == [] <==> forall l | l in required :: !Missing(es, l)
  {
    if required != [] {
      NoTextIssues(es, path, required[1..]);
    }
  }

  lemma {:induction false} CleanedTextFound(es: seq<Entry>, locale: string, allowed: set<string>)
    requires locale in allowed && KnownLocales(allowed) && !Missing(es, locale)
    ensures !Missing(CleanTexts(es, allowed), locale)
  {
    if es != [] {
      var rest := CleanTexts(es[1..], allowed);
      if es[0].key == locale {
        var kept := Entry(locale, Str(Trim(es[0].value.s)));
        TrimIsTrimmed(es[0].value.s);
        TrimFixes(Trim(es[0].value.s));
        assert CleanTexts(es, allowed) == [kept] + rest;
      } else {
        CleanedTextFound(es[1..], locale, allowed);
        if |CleanTexts(es, allowed)| > |rest| {
          assert CleanTexts(es, allowed)[1..] == rest;
        } else {
          assert CleanTexts(es, allowed) == rest;
        }
      }
    }
  }

  lemma CleanedTextValid(es: seq<Entry>, path: string, required: seq<string>)
    requires KnownLocales(AsSet(required)) && TextIssues(es, path, required) == []
    ensures LocaleIssues(Obj(CleanTexts(es, AsSet(required))), path, required) == []
  {
    var r := CleanTexts(es, AsSet(required));
    NoTextIssues(es, path, required);
    forall l | l in required ensures !Missing(r, l) {
      CleanedTextFound(es, l, AsSet(required));
    }
    NoTextIssues(r, path, required);
    CleanedTextIsTextOrEmpty(es, AsSet(required));
  }

  /** Every node that cleaning uncovers as a localized text has all required locales. */
  predicate UncoveredComplete(x: Json, required: seq<string>)
    decreases x, 1
  {
    if IsLocalizedText(x) then true
    else if Masked(x) then forall l | l in required :: !Missing(WithoutProto(x.entries), l)
    else match x
      case Arr(items) => UncoveredCompleteItems(items, required)
      case Obj(entries) => UncoveredCompleteEntries(entries, required)
      case _ => true
  }

  predicate UncoveredCompleteItems(xs: seq<Json>, required: seq<string>)
    decreases xs, 0
  {
    xs == [] || (UncoveredComplete(xs[0], required) && UncoveredCompleteItems(xs[1..], required))
  }

  predicate UncoveredCompleteEntries(es: seq<Entry>, required: seq<string>)
    decreases es, 0
  {
    || es == []
    || ((es[0].key == PROTO || UncoveredComplete(es[0].value, required))
        && UncoveredCompleteEntries(es[1..], required))
  }

  lemma {:induction false} TextsAreKept(es: seq<Entry>, allowed: set<string>)
    requires forall e | e in WithoutProto(es) :: e.value.Str?
    ensures CleanEntries(es, allowed) == WithoutProto(es)
  {
    if es != [] {
      var rest := WithoutProto(es[1..]);
      if es[0].key != PROTO {
        assert WithoutProto(es) == [es[0]] + rest;
        assert es[0] in WithoutProto(es) && forall e | e in rest :: e in WithoutProto(es);
      }
      TextsAreKept(es[1..], allowed);
    }
  }

  /** A value without missing locales has none when it is stored after cleaning with the same locales,
      exactly when every text that cleaning uncovers has them all. (Before it is stored, an object that
      cleaning gave a prototype may still find a locale there.) */
  lemma {:induction false} CleaningKeepsLocalesExactly(x: Json, path: string, required: seq<string>)
    requires KnownLocales(AsSet(required)) && LocaleIssues(x, path, required) == []
    ensures LocaleIssues(Clean(x, AsSet(required)), path, required) == [] <==> UncoveredComplete(x, required)
    decreases x, 1
  {
    if IsLocalizedText(x) {
      CleanedTextValid(x.entries, path, required);
    } else {
      TurnsLocalizedExactly(x, AsSet(required));
      if Masked(x) {
        TextsAreKept(x.entries, AsSet(required));
        NoTextIssues(WithoutProto(x.entries), path, required);
      } else {
        match x
        case Arr(items) => CleaningKeepsItemsExactly(items, 0, path, required);
        case Obj(entries) => CleaningKeepsEntriesExactly(entries, path, required);
        case _ =>
      }
    }
  }

  lemma {:induction false} CleaningKeepsItemsExactly(xs: seq<Json>, i: nat, path: string, required: seq<string>)
    requires KnownLocales(AsSet(required)) && LocaleItems(xs, i, path, required) == []
    ensures LocaleItems(CleanItems(xs, AsSet(required)), i, path, required) == []
            <==> UncoveredCompleteItems(xs, required)
    decreases xs, 0
  {
    if xs != [] {
      CleaningKeepsLocalesExactly(xs[0], AtIndex(path, i), required);
      CleaningKeepsItemsExactly(xs[1..], i + 1, path, required);
      assert CleanItems(xs, AsSet(required))[1..] == CleanItems(xs[1..], AsSet(required));
    }
  }

  lemma {:induction false} CleaningKeepsEntriesExactly(es: seq<Entry>, path: string, required: seq<string>)
    requires KnownLocales(AsSet(required)) && LocaleEntries(es, path, required) == []
    ensures LocaleEntries(CleanEntries(es, AsSet(required)), path, required) == []
            <==> UncoveredCompleteEntries(es, required)
    decreases es, 0
  {
    if es != [] {
      CleaningKeepsEntriesExactly(es[1..], path, required);
      var rest := CleanEntries(es[1..], AsSet(required));
      if es[0].key == PROTO {
        assert CleanEntries(es, AsSet(required)) == rest;
      } else {
        if es[0].value.Arr? || es[0].value.Obj? {
          CleaningKeepsLocalesExactly(es[0].value, AtKey(path, es[0].key), required);
        }
        assert CleanEntries(es, AsSet(required))[1..] == rest;
      }
    }
  }

  /** Nothing is uncovered in a value without masked nodes. */
  lemma {:induction false} UnmaskedComplete(x: Json, required: seq<string>)
    requires Unmasked(x)
    ensures UncoveredComplete(x, required)
    decreases x, 1
  {
    match x
    case Arr(items) => UnmaskedItemsComplete(items, required);
    case Obj(entries) => UnmaskedEntriesComplete(entries, required);
    case _ =>
  }

  lemma {:induction false} UnmaskedItemsComplete(xs: seq<Json>, required: seq<string>)
    requires UnmaskedItems(xs)
    ensures UncoveredCompleteItems(xs, required)
    decreases xs, 0
  {
    if xs != [] {
      UnmaskedComplete(xs[0], required);
      UnmaskedItemsComplete(xs[1..], required);
    }
  }

  lemma {:induction false} UnmaskedEntriesComplete(es: seq<Entry>, required: seq<string>)
    requires UnmaskedEntries(es)
    ensures UncoveredCompleteEntries(es, required)
    decreases es, 0
  {
    if es != [] {
      if es[0].key != PROTO {
        UnmaskedComplete(es[0].value, required);
      }
      UnmaskedEntriesComplete(es[1..], required);
    }
  }

  // ---------------------------------------------------------------- cleaning adds no svg issue

  lemma {:induction false} CleanedTextHasNoSvg(es: seq<Entry>, path: string, known: set<string>)
    requires forall e | e in es :: e.value.Str? && e.key != "svgIconKey"
    ensures SvgEntries(es, path, known) == []
  {
    if es != [] {
      assert es[0] in es;
      CleanedTextHasNoSvg(es[1..], path, known);
    }
  }

  /** Whatever the value: every svg issue of the cleaned value was there before, as often. */
  lemma {:induction false} CleaningAddsNoSvgIssue(x: Json, path: string, known: set<string>, allowed: set<string>)
    requires KnownLocales(allowed)
    ensures multiset(SvgIssues(Clean(x, allowed), path, known)) <= multiset(SvgIssues(x, path, known))
    decreases x, 1
  {
    if IsLocalizedText(x) {
      CleanTextsShape(x.entries, allowed);
      forall e | e in CleanTexts(x.entries, allowed) ensures e.key != "svgIconKey" {
        CodesHaveTwoLetters(e.key);
      }
      CleanedTextHasNoSvg(CleanTexts(x.entries, allowed), path, known);
    } else {
      match x
      case Arr(items) => CleaningAddsNoneToItemEntries(items, 0, path, known, allowed);
      case Obj(entries) => CleaningAddsNoneToEntries(entries, path, known, allowed);
      case _ =>
    }
  }

  lemma CleaningAddsNoneToEntry(key: string, v: Json, path: string, known: set<string>, allowed: set<string>)
    requires KnownLocales(allowed)
    ensures multiset(SvgEntry(key, Clean(v, allowed), path, known)) <= multiset(SvgEntry(key, v, path, known))
    decreases v, 2
  {
    if v.Arr? {
      CleaningAddsNoneToItems(v.items, 0, AtKey(path, key), known, allowed);
    } else if v.Obj? {
      CleaningAddsNoSvgIssue(v, AtKey(path, key), known, allowed);
    }
  }

  lemma {:induction false} CleaningAddsNoneToEntries(
    es: seq<Entry>, path: string, known: set<string>, allowed: set<string>)
    requires KnownLocales(allowed)
    ensures multiset(SvgEntries(CleanEntries(es, allowed), path, known)) <= multiset(SvgEntries(es, path, known))
    decreases es, 0
  {
    if es != [] {
      CleaningAddsNoneToEntries(es[1..], path, known, allowed);
      var rest := CleanEntries(es[1..], allowed);
      if es[0].key == PROTO {
        assert CleanEntries(es, allowed) == rest;
      } else {
        CleaningAddsNoneToEntry(es[0].key, es[0].value, path, known, allowed);
        assert CleanEntries(es, allowed)[1..] == rest;
      }
    }
  }

  lemma {:induction false} CleaningAddsNoneToItemEntries(
    xs: seq<Json>, i: nat, path: string, known: set<string>, allowed: set<string>)
    requires KnownLocales(allowed)
    ensures multiset(SvgItemEntries(CleanItems(xs, allowed), i, path, known))
         <= multiset(SvgItemEntries(xs, i, path, known))
    decreases xs, 0
  {
    if xs != [] {
      CleaningAddsNoneToEntry(NatToString(i), xs[0], path, known, allowed);
      CleaningAddsNoneToItemEntries(xs[1..], i + 1, path, known, allowed);
      assert CleanItems(xs, allowed)[1..] == CleanItems(xs[1..], allowed);
    }
  }

  lemma {:induction false} CleaningAddsNoneToItems(
    xs: seq<Json>, i: nat, path: string, known: set<string>, allowed: set<string>)
    requires KnownLocales(allowed)
    ensures multiset(SvgItems(CleanItems(xs, allowed), i, path, known)) <= multiset(SvgItems(xs, i, path, known))
    decreases xs, 0
  {
    if xs != [] {
      CleaningAddsNoSvgIssue(xs[0], AtIndex(path, i), known, allowed);
      CleaningAddsNoneToItems(xs[1..], i + 1, path, known, allowed);
      assert CleanItems(xs, allowed)[1..] == CleanItems(xs[1..], allowed);
    }
  }

  // ---------------------------------------------------------------- the exception

  /** With a masked node all three laws can fail: an own `__proto__` entry with a number hides a text. */
  lemma MaskedExample()
    ensures var x := Obj([Entry(PROTO, Num(5.0)), Entry("en", Str("x"))]);
            && !IsLocalizedText(x) && IsLocalizedText(Clean(x, {"ru"}))
            && Clean(Clean(x, {"ru"}), {"ru"}) != Clean(x, {"ru"})
            && LocaleIssues(x, "platforms", ["ru"]) == []
            && LocaleIssues(Clean(x, {"ru"}), "platforms", ["ru"]) != []
  {
    var first, text := Entry(PROTO, Num(5.0)), Entry("en", Str("x"));
    var x := Obj([first, text]);
    assert first in x.entries && !first.value.Str?;
    assert [first, text][1..] == [text] && [text][1..] == [];
    assert CleanEntries([text], {"ru"}) == [text];
    assert Clean(x, {"ru"}) == Obj([text]);
    assert text in [text] && |text.key| == 2;
    assert CleanTexts([text], {"ru"}) == [];
    assert LocaleEntries([text], "platforms", ["ru"]) == [];
    assert LocaleEntries([first, text], "platforms", ["ru"]) == [];
    assert Lookup([], "ru") == Null;
    assert Lookup([text], "ru") == Null;
    assert TextIssues([text], "platforms", ["ru"])
        == [MissingLocale("platforms", "ru")] + TextIssues([text], "platforms", ["ru"][1..]);
    assert IsLocalizedText(Obj([text]));
  }
}
