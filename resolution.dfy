/** Locale normalisation: how a requested (possibly null) locale is mapped to a
    registered one by walking the fallback chain. */
module Resolution {
  import opened Wrappers
  import opened Locales

  /** `localeMap.containsKey(o)`; the map never holds a null key. */
  predicate Registered(o: Option<Locale>, columns: map<Locale, string>) {
    o.Some? && o.value in columns
  }

  /** The chain that is searched: it starts at the requested locale, or at the
      default one when the request is null. */
  function Chain(requested: Option<Locale>, default: Option<Locale>): seq<Option<Locale>> {
    LookupList(if requested.Some? then requested else default, default)
  }

  /** The index of the first registered entry of `chain`, or `|chain|` if none is. */
  function FirstRegisteredIndex(chain: seq<Option<Locale>>, columns: map<Locale, string>): (k: nat)
    ensures k <= |chain|
    ensures forall j | 0 <= j < k :: !Registered(chain[j], columns)
    ensures k < |chain| ==> Registered(chain[k], columns)
    decreases |chain|
  {
    if chain == [] then 0
    else if Registered(chain[0], columns) then 0
    else 1 + FirstRegisteredIndex(chain[1..], columns)
  }

  /** An index with no registered entry before it and a registered entry at
      it (or the end of the chain) is the first registered index. */
  lemma FirstRegisteredAt(chain: seq<Option<Locale>>, columns: map<Locale, string>, i: nat)
    requires i <= |chain|
    requires forall j | 0 <= j < i :: !Registered(chain[j], columns)
    requires i < |chain| ==> Registered(chain[i], columns)
    ensures FirstRegisteredIndex(chain, columns) == i
  {
  }

  /** normalizeLocale: a registered request is returned as it is; otherwise the
      first registered entry of the chain; otherwise the request unchanged. */
  function Resolve(columns: map<Locale, string>, default: Option<Locale>, requested: Option<Locale>): (r: Option<Locale>)
    ensures Registered(requested, columns) ==> r == requested
    ensures r == requested || r in Chain(requested, default)
    ensures Registered(r, columns) <==>
              Registered(requested, columns) || exists c | c in Chain(requested, default) :: Registered(c, columns)
    ensures !Registered(requested, columns) && Registered(r, columns) ==>
              exists i | 0 <= i < |Chain(requested, default)| ::
                && r == Chain(requested, default)[i]
                && forall j | 0 <= j < i :: !Registered(Chain(requested, default)[j], columns)
    ensures (forall c | c in Chain(requested, default) :: !Registered(c, columns)) ==> r == requested
  {
    if Registered(requested, columns) then requested
    else
      var chain := Chain(requested, default);
      var k := FirstRegisteredIndex(chain, columns);
      if k < |chain| then chain[k] else requested
  }

  /** A chain that has a registered entry in its prefix `a` finds it there,
      whatever follows. */
  lemma {:induction false} FirstRegisteredInPrefix(a: seq<Option<Locale>>, b: seq<Option<Locale>>, columns: map<Locale, string>)
    requires FirstRegisteredIndex(a, columns) < |a|
    ensures FirstRegisteredIndex(a + b, columns) == FirstRegisteredIndex(a, columns)
    decreases |a|
  {
    if !Registered(a[0], columns) {
      assert (a + b)[1..] == a[1..] + b;
      FirstRegisteredInPrefix(a[1..], b, columns);
    }
  }

  /** The specificity-stripped part of the chain, before the default. */
  function Stripped(l: Locale): seq<Option<Locale>> {
    [Some(l)]
    + (if l.variant != [] then [Some(Locale(l.language, l.country, ""))] else [])
    + (if l.country != [] then [Some(Lang(l.language))] else [])
  }

  lemma ChainOfLocale(l: Locale, default: Option<Locale>)
    ensures Chain(Some(l), default) == Stripped(l) || Chain(Some(l), default) == Stripped(l) + [default]
  {
  }

  /** Resolution is idempotent: a resolved locale resolves to itself. */
  lemma ResolveIdempotent(columns: map<Locale, string>, default: Option<Locale>, requested: Option<Locale>)
    ensures Resolve(columns, default, Resolve(columns, default, requested)) == Resolve(columns, default, requested)
  {
  }

  /** The default is only a fallback: when some stripped form of a non-null
      request is registered, the default locale does not matter. */
  lemma {:induction false} DefaultOnlyFallback(columns: map<Locale, string>, d1: Option<Locale>, d2: Option<Locale>, l: Locale)
    requires exists c | c in Stripped(l) :: Registered(c, columns)
    ensures Resolve(columns, d1, Some(l)) == Resolve(columns, d2, Some(l))
  {
    var s := Stripped(l);
    var c :| c in s && Registered(c, columns);
    assert FirstRegisteredIndex(s, columns) < |s|;
    ChainOfLocale(l, d1);
    ChainOfLocale(l, d2);
    FirstRegisteredInPrefix(s, [d1], columns);
    FirstRegisteredInPrefix(s, [d2], columns);
    assert s + [] == s;
    FirstRegisteredInPrefix(s, [], columns);
  }

  /** A request whose language, but not its more specific forms, is registered
      resolves to the bare language. */
  lemma {:induction false} BaseLanguageFallback(columns: map<Locale, string>, default: Option<Locale>, l: Locale)
    requires l.country != []
    requires l !in columns && Locale(l.language, l.country, "") !in columns
    requires Lang(l.language) in columns
    ensures Resolve(columns, default, Some(l)) == Some(Lang(l.language))
  {
    var s := Stripped(l);
    assert s[|s| - 1] == Some(Lang(l.language));
    assert FirstRegisteredIndex(s, columns) == |s| - 1 by {
      assert forall j | 0 <= j < |s| - 1 :: !Registered(s[j], columns);
    }
    ChainOfLocale(l, default);
    FirstRegisteredInPrefix(s, [default], columns);
    assert s + [] == s;
  }

  /** A request none of whose stripped forms is registered falls back to a
      registered default. */
  lemma {:induction false} DefaultFallback(columns: map<Locale, string>, default: Option<Locale>, l: Locale)
    requires forall c | c in Stripped(l) :: !Registered(c, columns)
    requires Registered(default, columns)
    ensures Resolve(columns, default, Some(l)) == default
  {
    ChainOfLocale(l, default);
    var chain := Chain(Some(l), default);
    assert chain == Stripped(l) + [default];
    assert forall j | 0 <= j < |chain| - 1 :: chain[j] in Stripped(l);
  }

  /** A null request is resolved as a request for the default locale, except
      that when nothing of that chain is registered it stays null. */
  lemma NullRequest(columns: map<Locale, string>, default: Option<Locale>)
    ensures Registered(default, columns) ==> Resolve(columns, default, None) == default
    ensures Registered(Resolve(columns, default, default), columns) ==>
              Resolve(columns, default, None) == Resolve(columns, default, default)
    ensures !Registered(Resolve(columns, default, default), columns) ==> Resolve(columns, default, None) == None
  {
  }

  /** The registry used by the manager's tests: English and Spanish. */
  function TestColumns(): map<Locale, string> {
    map[Lang("en") := "en", Lang("es") := "es"]
  }

  /** es_ES_test resolves to es (its language) when en is the default. */
  lemma TestVariantFallsBackToLanguage()
    ensures Resolve(TestColumns(), Some(Lang("en")), Some(Locale("es", "ES", "test"))) == Some(Lang("es"))
  {
    BaseLanguageFallback(TestColumns(), Some(Lang("en")), Locale("es", "ES", "test"));
  }

  /** fr resolves to the default: en, and es once the default has been changed to es. */
  lemma TestUnknownFallsBackToDefault()
    ensures Resolve(TestColumns(), Some(Lang("en")), Some(Lang("fr"))) == Some(Lang("en"))
    ensures Resolve(TestColumns(), Some(Lang("es")), Some(Lang("fr"))) == Some(Lang("es"))
  {
    assert Stripped(Lang("fr")) == [Some(Lang("fr"))];
    DefaultFallback(TestColumns(), Some(Lang("en")), Lang("fr"));
    DefaultFallback(TestColumns(), Some(Lang("es")), Lang("fr"));
  }

  /** A null request resolves to the default en. */
  lemma TestNullFallsBackToDefault()
    ensures Resolve(TestColumns(), Some(Lang("en")), None) == Some(Lang("en"))
  {
    NullRequest(TestColumns(), Some(Lang("en")));
  }
}
