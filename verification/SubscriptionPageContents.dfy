/** What cleaning and the two validators do with each value of a page, told by its address: which values
    the cleaned page has at which addresses, and which addresses the validators report. */
module SubscriptionPageContents {
  import opened Collections
  import opened Text
  import opened SubscriptionPages
  import opened SubscriptionPageValidators

  // ---------------------------------------------------------------- addresses

  datatype Step = Item(i: nat) | Under(key: string)

  predicate Inside(x: Json, s: Step, y: Json) {
    match s
    case Item(i) => x.Arr? && i < |x.items| && x.items[i] == y
    case Under(key) => x.Obj? && Entry(key, y) in x.entries
  }

  /** y is in x at the address p. */
  ghost predicate Reaches(x: Json, p: seq<Step>, y: Json)
    decreases |p|
  {
    if p == [] then x == y else exists c :: Inside(x, p[0], c) && Reaches(c, p[1..], y)
  }

  /** The same, with no localized text on the way. */
  ghost predicate Passes(x: Json, p: seq<Step>, y: Json)
    decreases |p|
  {
    if p == [] then x == y
    else !IsLocalizedText(x) && exists c :: Inside(x, p[0], c) && Passes(c, p[1..], y)
  }

  /** A localized text: an object of strings only, at least one of them under a key of two characters. */
  lemma LocalizedTextExactly(x: Json)
    ensures IsLocalizedText(x)
       <==> && x.Obj? && (forall key, v | Entry(key, v) in x.entries :: v.Str?)
            && exists key, s :: |key| == 2 && Entry(key, Str(s)) in x.entries
  {
    if x.Obj? {
      forall e | e in x.entries ensures Entry(e.key, e.value) in x.entries {
      }
      if key, s :| |key| == 2 && Entry(key, Str(s)) in x.entries {
        assert |Entry(key, Str(s)).key| == 2;
      }
      if e :| e in x.entries && |e.key| == 2 && e.value.Str? {
        assert Entry(e.key, Str(e.value.s)) in x.entries;
      }
    }
  }

  // ---------------------------------------------------------------- the cleaned text

  predicate Keeps(e: Entry, allowed: set<string>) {
    e.key in allowed && e.value.Str? && !Blank(e.value.s)
  }

  /** One entry stays if it has a text of an allowed locale that is not blank, and its text is trimmed. */
  lemma CleanedOneText(e: Entry, allowed: set<string>)
    requires KnownLocales(allowed)
    ensures CleanText(e, allowed) == if Keeps(e, allowed) then [Entry(e.key, Str(Trim(e.value.s)))] else []
    ensures CleanTexts([e], allowed) == CleanText(e, allowed)
  {
    if e.value.Str? {
      TrimmedAway(e.value.s);
    }
    assert CleanTexts([e][1..], allowed) == [];
  }

  /** Entries are cleaned one by one and keep their order. */
  lemma {:induction false} CleanedTextsJoin(a: seq<Entry>, b: seq<Entry>, allowed: set<string>)
    ensures CleanTexts(a + b, allowed) == CleanTexts(a, allowed) + CleanTexts(b, allowed)
    decreases |a|
  {
    if a == [] {
      assert a + b == b;
    } else {
      CleanedTextsJoin(a[1..], b, allowed);
      assert (a + b)[0] == a[0] && (a + b)[1..] == a[1..] + b;
      Regroup(CleanText(a[0], allowed), CleanTexts(a[1..], allowed), CleanTexts(b, allowed));
    }
  }

  lemma Regroup(x: seq<Entry>, y: seq<Entry>, z: seq<Entry>)
    ensures x + (y + z) == x + y + z
  {
  }

  /** Which entries a cleaned text has. */
  lemma {:induction false} CleanedTextHas(es: seq<Entry>, key: string, v: Json, allowed: set<string>)
    requires KnownLocales(allowed)
    ensures Entry(key, v) in CleanTexts(es, allowed)
       <==> key in allowed && exists s :: Entry(key, Str(s)) in es && !Blank(s) && v == Str(Trim(s))
    decreases |es|
  {
    if es != [] {
      CleanedTextHas(es[1..], key, v, allowed);
      CleanedOneText(es[0], allowed);
      assert es == [es[0]] + es[1..];
      CleanedTextsJoin([es[0]], es[1..], allowed);
    }
  }

  // ---------------------------------------------------------------- the cleaned page

  lemma {:induction false} CleanedItem(xs: seq<Json>, i: nat, allowed: set<string>)
    requires i < |xs|
    ensures CleanItems(xs, allowed)[i] == Clean(xs[i], allowed)
    decreases |xs|
  {
    if i > 0 {
      CleanedItem(xs[1..], i - 1, allowed);
    }
  }

  lemma {:induction false} CleanedEntry(es: seq<Entry>, key: string, z: Json, allowed: set<string>)
    ensures Entry(key, z) in CleanEntries(es, allowed)
       <==> key != PROTO && exists y :: Entry(key, y) in es && z == Clean(y, allowed)
    decreases |es|
  {
    if es != [] {
      CleanedEntry(es[1..], key, z, allowed);
      assert es == [es[0]] + es[1..];
    }
  }

  /** One step into the cleaned value of a node that is not a text: the same step into the node. */
  lemma CleanedInside(x: Json, s: Step, z: Json, allowed: set<string>)
    requires !IsLocalizedText(x)
    ensures Inside(Clean(x, allowed), s, z)
       <==> s != Under(PROTO) && exists y :: Inside(x, s, y) && z == Clean(y, allowed)
  {
    match s
    case Item(i) =>
      if x.Arr? && i < |x.items| {
        CleanedItem(x.items, i, allowed);
        assert Inside(x, s, x.items[i]);
      }
    case Under(key) =>
      if x.Obj? {
        CleanedEntry(x.entries, key, z, allowed);
        if y :| Entry(key, y) in x.entries && z == Clean(y, allowed) {
          assert Inside(x, s, y);
        }
      }
  }

  /** z is what cleaning made of the value at this address. */
  ghost predicate Kept(x: Json, p: seq<Step>, z: Json, allowed: set<string>) {
    Under(PROTO) !in p && exists y :: Passes(x, p, y) && z == Clean(y, allowed)
  }

  /** z is the trimmed text of an allowed locale, in a localized text that has this address but for the
      last step. */
  ghost predicate KeptText(x: Json, p: seq<Step>, z: Json, allowed: set<string>) {
    && p != [] && Under(PROTO) !in p && p[|p| - 1].Under? && p[|p| - 1].key in allowed
    && exists t, s :: Passes(x, p[..|p| - 1], t) && IsLocalizedText(t) && Entry(p[|p| - 1].key, Str(s)) in t.entries
         && !Blank(s) && z == Str(Trim(s))
  }

  lemma TextReached(x: Json, p: seq<Step>, z: Json, allowed: set<string>)
    requires KnownLocales(allowed) && IsLocalizedText(x) && p != []
    ensures Reaches(Clean(x, allowed), p, z) <==> KeptText(x, p, z, allowed)
  {
    var r := Clean(x, allowed);
    CleanTextsShape(x.entries, allowed);
    if |p| == 1 {
      assert p[1..] == [] && p[..|p| - 1] == [];
      if p[0].Under? {
        CleanedTextHas(x.entries, p[0].key, z, allowed);
        if p[0].key in allowed {
          CodesHaveTwoLetters(p[0].key);
        }
      }
      assert Reaches(r, p, z) <==> Inside(r, p[0], z);
    } else {
      assert p[..|p| - 1] != [];
      if c :| Inside(r, p[0], c) && Reaches(c, p[1..], z) {
        assert false;
      }
    }
  }

  lemma {:induction false} CleanedReached(x: Json, p: seq<Step>, z: Json, allowed: set<string>)
    requires KnownLocales(allowed)
    ensures Reaches(Clean(x, allowed), p, z) <==> Kept(x, p, z, allowed) || KeptText(x, p, z, allowed)
    decreases |p|
  {
    if p == [] {
      assert Passes(x, [], x);
    } else if IsLocalizedText(x) {
      TextReached(x, p, z, allowed);
    } else {
      var r, rest := Clean(x, allowed), p[1..];
      forall y
        ensures Reaches(Clean(y, allowed), rest, z) <==> Kept(y, rest, z, allowed) || KeptText(y, rest, z, allowed)
      {
        CleanedReached(y, rest, z, allowed);
      }
      forall c ensures Inside(r, p[0], c)
          <==> p[0] != Under(PROTO) && exists y :: Inside(x, p[0], y) && c == Clean(y, allowed)
      {
        CleanedInside(x, p[0], c, allowed);
      }
      KeptBelow(x, p, z, allowed);
      KeptTextBelow(x, p, z, allowed);
    }
  }

  lemma KeptBelow(x: Json, p: seq<Step>, z: Json, allowed: set<string>)
    requires !IsLocalizedText(x) && p != []
    ensures Kept(x, p, z, allowed)
       <==> p[0] != Under(PROTO) && exists y :: Inside(x, p[0], y) && Kept(y, p[1..], z, allowed)
  {
    assert p == [p[0]] + p[1..];
    if y :| Inside(x, p[0], y) && Kept(y, p[1..], z, allowed) && p[0] != Under(PROTO) {
      var v :| Passes(y, p[1..], v) && z == Clean(v, allowed);
      assert Passes(x, p, v);
    }
  }

  lemma KeptTextUp(x: Json, p: seq<Step>, y: Json, z: Json, allowed: set<string>)
    requires !IsLocalizedText(x) && |p| > 1 && p[0] != Under(PROTO)
    requires Inside(x, p[0], y) && KeptText(y, p[1..], z, allowed)
    ensures KeptText(x, p, z, allowed)
  {
    var front, rest := p[..|p| - 1], p[1..];
    assert p == [p[0]] + rest && front[0] == p[0] && front[1..] == rest[..|rest| - 1];
    assert rest[|rest| - 1] == p[|p| - 1];
    var t, s :| Passes(y, front[1..], t) && IsLocalizedText(t) && Entry(p[|p| - 1].key, Str(s)) in t.entries
      && !Blank(s) && z == Str(Trim(s));
    assert Passes(x, front, t);
  }

  lemma KeptTextDown(x: Json, p: seq<Step>, z: Json, allowed: set<string>) returns (y: Json)
    requires !IsLocalizedText(x) && KeptText(x, p, z, allowed)
    ensures p[0] != Under(PROTO) && Inside(x, p[0], y) && KeptText(y, p[1..], z, allowed)
  {
    var front, rest := p[..|p| - 1], p[1..];
    var t, s :| Passes(x, front, t) && IsLocalizedText(t) && Entry(p[|p| - 1].key, Str(s)) in t.entries
      && !Blank(s) && z == Str(Trim(s));
    assert front != [];
    y :| Inside(x, front[0], y) && Passes(y, front[1..], t);
    assert p == [p[0]] + rest && front[1..] == rest[..|rest| - 1] && rest[|rest| - 1] == p[|p| - 1];
  }

  lemma KeptTextBelow(x: Json, p: seq<Step>, z: Json, allowed: set<string>)
    requires !IsLocalizedText(x) && p != []
    ensures KeptText(x, p, z, allowed)
       <==> p[0] != Under(PROTO) && exists y :: Inside(x, p[0], y) && KeptText(y, p[1..], z, allowed)
  {
    if KeptText(x, p, z, allowed) {
      var y := KeptTextDown(x, p, z, allowed);
    }
    if y :| p[0] != Under(PROTO) && Inside(x, p[0], y) && KeptText(y, p[1..], z, allowed) {
      KeptTextUp(x, p, y, z, allowed);
    }
  }

  predicate IsLeaf(x: Json) {
    !x.Arr? && !x.Obj?
  }

  /** The cleaned page, leaf by leaf: exactly the leaves at addresses without `__proto__` that are in no
      localized text, and the trimmed texts of allowed locales that are not blank, everything at its address. */
  lemma CleanedLeaves(x: Json, p: seq<Step>, z: Json, allowed: set<string>)
    requires KnownLocales(allowed) && IsLeaf(z)
    ensures Reaches(Clean(x, allowed), p, z)
       <==> (Under(PROTO) !in p && Passes(x, p, z)) || KeptText(x, p, z, allowed)
  {
    CleanedReached(x, p, z, allowed);
    if Under(PROTO) !in p && Passes(x, p, z) {
      assert z == Clean(z, allowed);
    }
  }

  function Names(es: seq<Entry>): seq<string> {
    seq(|es|, i requires 0 <= i < |es| => es[i].key)
  }

  lemma {:induction false} OnlyProtoIsLost(es: seq<Entry>, e: Entry)
    ensures e in WithoutProto(es) <==> e in es && e.key != PROTO
    decreases |es|
  {
    if es != [] {
      OnlyProtoIsLost(es[1..], e);
      assert es == [es[0]] + es[1..];
    }
  }

  /** And its lists and objects: a list keeps its length, an object its names in their order. */
  lemma CleanedNode(x: Json, p: seq<Step>, y: Json, allowed: set<string>)
    requires KnownLocales(allowed) && Under(PROTO) !in p && Passes(x, p, y) && !IsLeaf(y)
    ensures exists z :: Reaches(Clean(x, allowed), p, z) &&
              if y.Arr? then z.Arr? && |z.items| == |y.items|
              else z.Obj? && (!IsLocalizedText(y) ==> Names(z.entries) == Names(WithoutProto(y.entries)))
  {
    var z := Clean(y, allowed);
    assert Kept(x, p, z, allowed);
    CleanedReached(x, p, z, allowed);
    if y.Obj? {
      CleanEntriesKinds(y.entries, allowed);
    }
  }

  // ---------------------------------------------------------------- what the text validator reports

  function StepText(s: Step): string {
    match s
    case Item(i) => AtIndex("", i)
    case Under(key) => AtKey("", key)
  }

  /** An address as it is printed: items as [i], entries as .key. */
  function Printed(p: seq<Step>): string {
    if p == [] then "" else StepText(p[0]) + Printed(p[1..])
  }

  /** A locale is missing unless the first entry of its name is a text that is not blank. */
  lemma {:induction false} MissingExactly(es: seq<Entry>, locale: string)
    ensures Missing(es, locale)
       <==> !exists i: nat, s :: i < |es| && es[i] == Entry(locale, Str(s)) && !Blank(s)
                && forall j | 0 <= j < i :: es[j].key != locale
    decreases |es|
  {
    if es != [] && es[0].key == locale {
      if es[0].value.Str? {
        TrimmedAway(es[0].value.s);
        assert es[0] == Entry(locale, Str(es[0].value.s));
      }
    } else if es != [] {
      MissingExactly(es[1..], locale);
      forall i: nat, s | 0 < i < |es| && es[i] == Entry(locale, Str(s))
        ensures es[1..][i - 1] == Entry(locale, Str(s))
      {
      }
    }
  }

  lemma {:induction false} ReportedLocales(es: seq<Entry>, path: string, required: seq<string>, issue: Issue)
    ensures issue in TextIssues(es, path, required)
       <==> issue.MissingLocale? && issue.path == path && issue.locale in required && Missing(es, issue.locale)
    decreases |required|
  {
    if required != [] {
      ReportedLocales(es, path, required[1..], issue);
      assert required == [required[0]] + required[1..];
    }
  }

  lemma {:induction false} ReportedItems(xs: seq<Json>, i: nat, path: string, required: seq<string>, issue: Issue)
    ensures issue in LocaleItems(xs, i, path, required)
       <==> exists j: nat :: j < |xs| && issue in LocaleIssues(xs[j], AtIndex(path, i + j), required)
    decreases |xs|
  {
    if xs != [] {
      ReportedItems(xs[1..], i + 1, path, required, issue);
      if j: nat :| j < |xs| && issue in LocaleIssues(xs[j], AtIndex(path, i + j), required) {
        if j > 0 {
          assert xs[1..][j - 1] == xs[j] && i + 1 + (j - 1) == i + j;
        }
      }
      if issue in LocaleIssues(xs[0], AtIndex(path, i), required) {
        assert issue in LocaleIssues(xs[0], AtIndex(path, i + 0), required);
      }
      if j: nat :| j < |xs[1..]| && issue in LocaleIssues(xs[1..][j], AtIndex(path, i + 1 + j), required) {
        assert issue in LocaleIssues(xs[j + 1], AtIndex(path, i + (j + 1)), required);
      }
    }
  }

  lemma {:induction false} ReportedEntries(es: seq<Entry>, path: string, required: seq<string>, issue: Issue)
    ensures issue in LocaleEntries(es, path, required)
       <==> exists e :: e in es && issue in LocaleIssues(e.value, AtKey(path, e.key), required)
    decreases |es|
  {
    if es != [] {
      ReportedEntries(es[1..], path, required, issue);
      assert es == [es[0]] + es[1..];
    }
  }

  /** A localized text at this address lacks a required locale. */
  ghost predicate Lacks(x: Json, p: seq<Step>, locale: string) {
    exists t :: Passes(x, p, t) && IsLocalizedText(t) && Missing(t.entries, locale)
  }

  ghost predicate LacksAt(x: Json, path: string, at: string, locale: string) {
    exists p :: Lacks(x, p, locale) && at == path + Printed(p)
  }

  lemma PrintedFrom(path: string, p: seq<Step>)
    requires p != []
    ensures path + Printed(p) == path + StepText(p[0]) + Printed(p[1..])
  {
    assert path + (StepText(p[0]) + Printed(p[1..])) == path + StepText(p[0]) + Printed(p[1..]);
  }

  lemma LacksDown(x: Json, p: seq<Step>, path: string, locale: string) returns (c: Json)
    requires !IsLocalizedText(x) && Lacks(x, p, locale)
    ensures p != [] && Inside(x, p[0], c) && LacksAt(c, path + StepText(p[0]), path + Printed(p), locale)
  {
    var t :| Passes(x, p, t) && IsLocalizedText(t) && Missing(t.entries, locale);
    c :| Inside(x, p[0], c) && Passes(c, p[1..], t);
    PrintedFrom(path, p);
    assert Lacks(c, p[1..], locale);
  }

  lemma LacksUp(x: Json, s: Step, c: Json, path: string, at: string, locale: string)
    requires !IsLocalizedText(x) && Inside(x, s, c) && LacksAt(c, path + StepText(s), at, locale)
    ensures LacksAt(x, path, at, locale)
  {
    var rest :| Lacks(c, rest, locale) && at == path + StepText(s) + Printed(rest);
    var t :| Passes(c, rest, t) && IsLocalizedText(t) && Missing(t.entries, locale);
    var p := [s] + rest;
    assert p[0] == s && p[1..] == rest;
    assert Passes(x, p, t);
    PrintedFrom(path, p);
    assert Lacks(x, p, locale);
  }

  lemma LacksBelow(x: Json, path: string, at: string, locale: string)
    requires !IsLocalizedText(x)
    ensures LacksAt(x, path, at, locale)
       <==> exists s, c :: Inside(x, s, c) && LacksAt(c, path + StepText(s), at, locale)
  {
    if p :| Lacks(x, p, locale) && at == path + Printed(p) {
      var c := LacksDown(x, p, path, locale);
    }
    if s, c :| Inside(x, s, c) && LacksAt(c, path + StepText(s), at, locale) {
      LacksUp(x, s, c, path, at, locale);
    }
  }

  lemma LacksHere(x: Json, path: string, at: string, locale: string)
    requires IsLocalizedText(x)
    ensures LacksAt(x, path, at, locale) <==> at == path && Missing(x.entries, locale)
  {
    assert Printed([]) == "" && Passes(x, [], x);
    if at == path && Missing(x.entries, locale) {
      assert Lacks(x, [], locale) && at == path + Printed([]);
    }
  }

  /** The report is about a localized text in this value. */
  ghost predicate LacksReport(x: Json, path: string, required: seq<string>, issue: Issue) {
    issue.MissingLocale? && issue.locale in required && LacksAt(x, path, issue.path, issue.locale)
  }

  lemma LacksReportBelow(x: Json, path: string, required: seq<string>, issue: Issue)
    requires !IsLocalizedText(x)
    ensures LacksReport(x, path, required, issue)
       <==> exists s, c :: Inside(x, s, c) && LacksReport(c, path + StepText(s), required, issue)
  {
    if issue.MissingLocale? {
      LacksBelow(x, path, issue.path, issue.locale);
    }
  }

  /** The reports are exactly the required locales that some localized text of the value lacks, each with
      the address of the text. */
  lemma {:induction false} ReportedExactly(x: Json, path: string, required: seq<string>, issue: Issue)
    ensures issue in LocaleIssues(x, path, required)
       <==> issue.MissingLocale? && issue.locale in required && LacksAt(x, path, issue.path, issue.locale)
    decreases x, 1
  {
    if IsLocalizedText(x) {
      ReportedLocales(x.entries, path, required, issue);
      if issue.MissingLocale? {
        LacksHere(x, path, issue.path, issue.locale);
      }
    } else {
      LacksReportBelow(x, path, required, issue);
      match x
      case Arr(_) => ReportedInList(x, path, required, issue);
      case Obj(_) => ReportedInObject(x, path, required, issue);
      case _ =>
    }
  }

  lemma {:induction false} ReportedInList(x: Json, path: string, required: seq<string>, issue: Issue)
    requires x.Arr?
    ensures issue in LocaleItems(x.items, 0, path, required)
       <==> exists s, c :: Inside(x, s, c) && LacksReport(c, path + StepText(s), required, issue)
    decreases x, 0
  {
    ReportedItems(x.items, 0, path, required, issue);
    forall j: nat | j < |x.items|
      ensures Inside(x, Item(j), x.items[j])
      ensures issue in LocaleIssues(x.items[j], AtIndex(path, 0 + j), required)
         <==> LacksReport(x.items[j], path + StepText(Item(j)), required, issue)
    {
      assert AtIndex(path, 0 + j) == path + StepText(Item(j));
      ReportedExactly(x.items[j], AtIndex(path, 0 + j), required, issue);
    }
  }

  lemma {:induction false} ReportedInObject(x: Json, path: string, required: seq<string>, issue: Issue)
    requires x.Obj?
    ensures issue in LocaleEntries(x.entries, path, required)
       <==> exists s, c :: Inside(x, s, c) && LacksReport(c, path + StepText(s), required, issue)
    decreases x, 0
  {
    ReportedEntries(x.entries, path, required, issue);
    forall e | e in x.entries
      ensures Inside(x, Under(e.key), e.value)
      ensures issue in LocaleIssues(e.value, AtKey(path, e.key), required)
         <==> LacksReport(e.value, path + StepText(Under(e.key)), required, issue)
    {
      assert AtKey(path, e.key) == path + StepText(Under(e.key));
      ReportedExactly(e.value, AtKey(path, e.key), required, issue);
    }
  }

  // ---------------------------------------------------------------- what the icon validator reports

  /** As this validator prints addresses: an item is [i] right below an entry, and .i otherwise. */
  function IconStep(s: Step, belowEntry: bool): string {
    match s
    case Under(key) => AtKey("", key)
    case Item(i) => if belowEntry then AtIndex("", i) else AtKey("", NatToString(i))
  }

  function IconPrinted(p: seq<Step>, belowEntry: bool): string {
    if p == [] then ""
    else IconStep(p[0], belowEntry) + IconPrinted(p[1..], p[0].Under? || !belowEntry)
  }

  /** The value at this address is an icon's name, under the key for it. */
  ghost predicate Icon(x: Json, p: seq<Step>, name: string) {
    p != [] && p[|p| - 1] == Under("svgIconKey") && Reaches(x, p, Str(name))
  }

  ghost predicate IconAt(x: Json, belowEntry: bool, path: string, at: string, name: string) {
    exists p :: Icon(x, p, name) && at == path + IconPrinted(p, belowEntry)
  }

  /** The issues of a value that is an entry of something. */
  function Below(v: Json, path: string, known: set<string>): seq<Issue> {
    if v.Arr? then SvgItems(v.items, 0, path, known) else if v.Obj? then SvgIssues(v, path, known) else []
  }

  lemma {:induction false} SvgInItems(xs: seq<Json>, i: nat, path: string, known: set<string>, issue: Issue)
    ensures issue in SvgItems(xs, i, path, known)
       <==> exists j: nat :: j < |xs| && issue in SvgIssues(xs[j], AtIndex(path, i + j), known)
    decreases |xs|
  {
    if xs != [] {
      SvgInItems(xs[1..], i + 1, path, known, issue);
      if j: nat :| j < |xs| && issue in SvgIssues(xs[j], AtIndex(path, i + j), known) {
        if j > 0 {
          assert xs[1..][j - 1] == xs[j] && i + 1 + (j - 1) == i + j;
        }
      }
      if issue in SvgIssues(xs[0], AtIndex(path, i), known) {
        assert issue in SvgIssues(xs[0], AtIndex(path, i + 0), known);
      }
      if j: nat :| j < |xs[1..]| && issue in SvgIssues(xs[1..][j], AtIndex(path, i + 1 + j), known) {
        assert issue in SvgIssues(xs[j + 1], AtIndex(path, i + (j + 1)), known);
      }
    }
  }

  lemma {:induction false} SvgInItemEntries(xs: seq<Json>, i: nat, path: string, known: set<string>, issue: Issue)
    ensures issue in SvgItemEntries(xs, i, path, known)
       <==> exists j: nat :: j < |xs| && issue in Below(xs[j], AtKey(path, NatToString(i + j)), known)
    decreases |xs|
  {
    if xs != [] {
      SvgInItemEntries(xs[1..], i + 1, path, known, issue);
      NatToStringSpells(i);
      assert "svgIconKey"[0] == 's';
      forall j: nat | 0 < j < |xs|
        ensures Below(xs[j], AtKey(path, NatToString(i + j)), known)
             == Below(xs[1..][j - 1], AtKey(path, NatToString(i + 1 + (j - 1))), known)
      {
      }
      assert Below(xs[0], AtKey(path, NatToString(i + 0)), known) == SvgEntry(NatToString(i), xs[0], path, known);
      if j: nat :| j < |xs[1..]| && issue in Below(xs[1..][j], AtKey(path, NatToString(i + 1 + j)), known) {
        assert issue in Below(xs[j + 1], AtKey(path, NatToString(i + (j + 1))), known);
      }
    }
  }

  lemma {:induction false} SvgInEntries(es: seq<Entry>, path: string, known: set<string>, issue: Issue)
    ensures issue in SvgEntries(es, path, known)
       <==> exists e :: e in es && issue in SvgEntry(e.key, e.value, path, known)
    decreases |es|
  {
    if es != [] {
      SvgInEntries(es[1..], path, known, issue);
      assert es == [es[0]] + es[1..];
    }
  }

  lemma IconPrintedFrom(path: string, p: seq<Step>, belowEntry: bool)
    requires p != []
    ensures path + IconPrinted(p, belowEntry)
         == path + IconStep(p[0], belowEntry) + IconPrinted(p[1..], p[0].Under? || !belowEntry)
  {
    var rest := IconPrinted(p[1..], p[0].Under? || !belowEntry);
    assert path + (IconStep(p[0], belowEntry) + rest) == path + IconStep(p[0], belowEntry) + rest;
  }

  /** The icon is this child, or further down in it. */
  ghost predicate IconThrough(s: Step, c: Json, belowEntry: bool, path: string, at: string, name: string) {
    || (s == Under("svgIconKey") && c == Str(name) && at == path + IconStep(s, belowEntry))
    || IconAt(c, s.Under? || !belowEntry, path + IconStep(s, belowEntry), at, name)
  }

  lemma IconDown(x: Json, p: seq<Step>, belowEntry: bool, path: string, name: string) returns (c: Json)
    requires Icon(x, p, name)
    ensures Inside(x, p[0], c) && IconThrough(p[0], c, belowEntry, path, path + IconPrinted(p, belowEntry), name)
  {
    c :| Inside(x, p[0], c) && Reaches(c, p[1..], Str(name));
    IconPrintedFrom(path, p, belowEntry);
    if p[1..] == [] {
      assert IconPrinted(p[1..], true) == "";
    } else {
      assert Icon(c, p[1..], name);
    }
  }

  lemma IconUp(x: Json, s: Step, c: Json, belowEntry: bool, path: string, at: string, name: string)
    requires Inside(x, s, c) && IconThrough(s, c, belowEntry, path, at, name)
    ensures IconAt(x, belowEntry, path, at, name)
  {
    var rest: seq<Step>;
    if s == Under("svgIconKey") && c == Str(name) && at == path + IconStep(s, belowEntry) {
      rest := [];
      assert IconPrinted(rest, true) == "" && Reaches(c, rest, c);
    } else {
      rest :| Icon(c, rest, name)
        && at == path + IconStep(s, belowEntry) + IconPrinted(rest, s.Under? || !belowEntry);
    }
    var p := [s] + rest;
    assert p[0] == s && p[1..] == rest;
    assert Reaches(x, p, Str(name));
    IconPrintedFrom(path, p, belowEntry);
    assert Icon(x, p, name);
  }

  lemma IconBelow(x: Json, belowEntry: bool, path: string, at: string, name: string)
    ensures IconAt(x, belowEntry, path, at, name)
       <==> exists s, c :: Inside(x, s, c) && IconThrough(s, c, belowEntry, path, at, name)
  {
    if p :| Icon(x, p, name) && at == path + IconPrinted(p, belowEntry) {
      var c := IconDown(x, p, belowEntry, path, name);
    }
    if s, c :| Inside(x, s, c) && IconThrough(s, c, belowEntry, path, at, name) {
      IconUp(x, s, c, belowEntry, path, at, name);
    }
  }

  /** The report names an icon that is not known, at its address. */
  ghost predicate IconReport(x: Json, belowEntry: bool, path: string, known: set<string>, issue: Issue) {
    issue.UnknownSvgKey? && issue.value !in known && IconAt(x, belowEntry, path, issue.path, issue.value)
  }

  ghost predicate IconReportThrough(
    s: Step, c: Json, belowEntry: bool, path: string, known: set<string>, issue: Issue)
  {
    issue.UnknownSvgKey? && issue.value !in known && IconThrough(s, c, belowEntry, path, issue.path, issue.value)
  }

  lemma IconReportBelow(x: Json, belowEntry: bool, path: string, known: set<string>, issue: Issue)
    ensures IconReport(x, belowEntry, path, known, issue)
       <==> exists s, c :: Inside(x, s, c) && IconReportThrough(s, c, belowEntry, path, known, issue)
  {
    if issue.UnknownSvgKey? {
      IconBelow(x, belowEntry, path, issue.path, issue.value);
    }
  }

  /** Reported by the walk that continues in this value. */
  predicate Reported(x: Json, belowEntry: bool, path: string, known: set<string>, issue: Issue) {
    issue in if belowEntry then Below(x, path, known) else SvgIssues(x, path, known)
  }

  lemma {:induction false} IconsReported(x: Json, belowEntry: bool, path: string, known: set<string>, issue: Issue)
    ensures Reported(x, belowEntry, path, known, issue) <==> IconReport(x, belowEntry, path, known, issue)
    decreases x, 2
  {
    IconReportBelow(x, belowEntry, path, known, issue);
    match x
    case Arr(_) => IconsInList(x, belowEntry, path, known, issue);
    case Obj(_) => IconsInObject(x, belowEntry, path, known, issue);
    case _ =>
  }

  function ItemPath(path: string, j: nat, belowEntry: bool): string {
    if belowEntry then AtIndex(path, 0 + j) else AtKey(path, NatToString(0 + j))
  }

  lemma {:induction false} IconsInList(x: Json, belowEntry: bool, path: string, known: set<string>, issue: Issue)
    requires x.Arr?
    ensures Reported(x, belowEntry, path, known, issue)
       <==> exists s, c :: Inside(x, s, c) && IconReportThrough(s, c, belowEntry, path, known, issue)
    decreases x, 1
  {
    InList(x, belowEntry, path, known, issue);
    forall j: nat | j < |x.items|
      ensures Inside(x, Item(j), x.items[j])
      ensures Reported(x.items[j], !belowEntry, ItemPath(path, j, belowEntry), known, issue)
         <==> IconReportThrough(Item(j), x.items[j], belowEntry, path, known, issue)
    {
      IconOfItem(x, j, belowEntry, path, known, issue);
    }
  }

  lemma {:induction false} IconOfItem(
    x: Json, j: nat, belowEntry: bool, path: string, known: set<string>, issue: Issue)
    requires x.Arr? && j < |x.items|
    ensures Reported(x.items[j], !belowEntry, ItemPath(path, j, belowEntry), known, issue)
       <==> IconReportThrough(Item(j), x.items[j], belowEntry, path, known, issue)
    decreases x, 0
  {
    var at := path + IconStep(Item(j), belowEntry);
    assert at == ItemPath(path, j, belowEntry);
    IconsReported(x.items[j], !belowEntry, at, known, issue);
  }

  lemma InList(x: Json, belowEntry: bool, path: string, known: set<string>, issue: Issue)
    requires x.Arr?
    ensures Reported(x, belowEntry, path, known, issue)
       <==> exists j: nat :: j < |x.items|
                && Reported(x.items[j], !belowEntry, ItemPath(path, j, belowEntry), known, issue)
  {
    if belowEntry {
      SvgInItems(x.items, 0, path, known, issue);
    } else {
      SvgInItemEntries(x.items, 0, path, known, issue);
    }
  }

  lemma {:induction false} IconsInObject(x: Json, belowEntry: bool, path: string, known: set<string>, issue: Issue)
    requires x.Obj?
    ensures Reported(x, belowEntry, path, known, issue)
       <==> exists s, c :: Inside(x, s, c) && IconReportThrough(s, c, belowEntry, path, known, issue)
    decreases x, 0
  {
    SvgInEntries(x.entries, path, known, issue);
    forall e | e in x.entries
      ensures Inside(x, Under(e.key), e.value)
      ensures issue in SvgEntry(e.key, e.value, path, known)
         <==> IconReportThrough(Under(e.key), e.value, belowEntry, path, known, issue)
    {
      assert AtKey(path, e.key) == path + IconStep(Under(e.key), belowEntry);
      IconsReported(e.value, true, AtKey(path, e.key), known, issue);
      assert SvgEntry(e.key, e.value, path, known)
          == if e.key == "svgIconKey" && e.value.Str?
             then if e.value.s in known then [] else [UnknownSvgKey(AtKey(path, e.key), e.value.s)]
             else Below(e.value, AtKey(path, e.key), known);
    }
  }

  /** The reports are exactly the strings under a key `svgIconKey` that name no known icon, each with its
      address. */
  lemma IconsReportedExactly(x: Json, path: string, known: set<string>, issue: Issue)
    ensures issue in SvgIssues(x, path, known)
       <==> issue.UnknownSvgKey? && issue.value !in known && IconAt(x, false, path, issue.path, issue.value)
  {
    IconsReported(x, false, path, known, issue);
  }
}
