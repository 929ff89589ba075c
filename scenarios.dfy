/** The unit tests' fixture and the lifecycle, locale-resolution and export tests,
    written against the model: the columns "en" and "es" are registered for
    the locales en and es of table "multilanguage2", key column "key2", and en
    is the default. `fetch` stands for the database. */
module Scenarios {
  import opened Wrappers
  import opened Locales
  import opened Registry
  import opened Resolution
  import opened SqlText
  import opened Statements
  import opened Language

  /** The value `fetch` returns for `key` from column `column`. */
  function Stored(fetch: Statement -> Option<string>, column: string, key: string): Option<string> {
    fetch(SelectColumn("multilanguage2", "key2", Some(column), key))
  }

  method SetUp() returns (m: DbLanguageManager)
    ensures fresh(m) && m.Valid() && m.initialized
    ensures m.tableName == "multilanguage2" && m.keyName == "key2" && m.defaultLocale == Some(Lang("en"))
    ensures m.localeMap.keys == [Lang("en"), Lang("es")] && m.localeMap.columns == TestColumns()
  {
    m := new DbLanguageManager(Some(Lang("en")), "multilanguage2", "key2");
    m.SetField("en", Lang("en"));
    m.SetField("es", Lang("es"));
    assert m.localeMap.columns == TestColumns() by {
      assert forall l :: Get(m.localeMap, l) == Get(Registry.LocaleMap([], TestColumns()), l);
    }
    m.Init();
  }

  /** Lookups fail while the manager is destroyed and succeed once it is
      initialized again, over two destroy/init cycles. */
  method Initialization(fetch: Statement -> Option<string>)
    returns (destroyed: Result<Option<string>>, reinitialized: Result<Option<string>>, flag: bool,
             destroyedAgain: Result<Option<string>>, flagAfterDestroy: bool,
             reinitializedAgain: Result<Option<string>>, flagAgain: bool)
    ensures destroyed == Failure(IllegalState(NotInitialized))
    ensures reinitialized == Success(Stored(fetch, "en", "KEY_1"))
    ensures flag
    ensures destroyedAgain == Failure(IllegalState(NotInitialized))
    ensures !flagAfterDestroy
    ensures reinitializedAgain == Success(Stored(fetch, "en", "KEY_1"))
    ensures flagAgain
  {
    var m := SetUp();
    m.Destroy();
    destroyed := m.GetLocalizedKey("KEY_1", Some(Lang("en")), fetch);
    m.Init();
    reinitialized := m.GetLocalizedKey("KEY_1", Some(Lang("en")), fetch);
    flag := m.IsInitialized();
    m.Destroy();
    destroyedAgain := m.GetLocalizedKey("KEY_1", Some(Lang("en")), fetch);
    flagAfterDestroy := m.IsInitialized();
    m.Init();
    reinitializedAgain := m.GetLocalizedKey("KEY_1", Some(Lang("en")), fetch);
    flagAgain := m.IsInitialized();
  }

  /** fr has no column: it is served from the default locale's column. */
  lemma FrenchColumn(m: DbLanguageManager)
    requires m.Valid() && m.localeMap.columns == TestColumns()
    requires m.defaultLocale == Some(Lang("en")) || m.defaultLocale == Some(Lang("es"))
    ensures m.GetField(Some(Lang("fr"))) == Some(m.defaultLocale.value.language)
  {
    TestUnknownFallsBackToDefault();
  }

  /** The fixture's lookup of KEY_1 in French. */
  method FrenchLookup(m: DbLanguageManager, fetch: Statement -> Option<string>) returns (r: Result<Option<string>>)
    requires m.Valid() && m.initialized && m.localeMap.columns == TestColumns()
    requires m.tableName == "multilanguage2" && m.keyName == "key2"
    requires m.defaultLocale == Some(Lang("en")) || m.defaultLocale == Some(Lang("es"))
    ensures r == Success(Stored(fetch, m.defaultLocale.value.language, "KEY_1"))
  {
    FrenchColumn(m);
    r := m.GetLocalizedKey("KEY_1", Some(Lang("fr")), fetch);
  }

  /** A locale without a column is served from the default locale's column,
      and changing the default changes that column. */
  method ChangeDefaultLocale(fetch: Statement -> Option<string>)
    returns (before: Result<Option<string>>, after: Result<Option<string>>)
    ensures before == Success(Stored(fetch, "en", "KEY_1"))
    ensures after == Success(Stored(fetch, "es", "KEY_1"))
  {
    var m := SetUp();
    before := FrenchLookup(m, fetch);
    m.SetDefaultLocale(Some(Lang("es")));
    after := FrenchLookup(m, fetch);
  }

  /** The columns used for registered, unknown, more specific and null requests. */
  method GetLocalizedKey(fetch: Statement -> Option<string>)
    returns (en: Result<Option<string>>, es: Result<Option<string>>, fr: Result<Option<string>>,
             esEsTest: Result<Option<string>>, none: Result<Option<string>>)
    ensures en == Success(Stored(fetch, "en", "KEY_1"))
    ensures es == Success(Stored(fetch, "es", "KEY_1"))
    ensures fr == Success(Stored(fetch, "en", "KEY_1"))
    ensures esEsTest == Success(Stored(fetch, "es", "KEY_1"))
    ensures none == Success(Stored(fetch, "en", "KEY_1"))
  {
    var m := SetUp();
    TestUnknownFallsBackToDefault();
    TestVariantFallsBackToLanguage();
    TestNullFallsBackToDefault();
    en := m.GetLocalizedKey("KEY_1", Some(Lang("en")), fetch);
    es := m.GetLocalizedKey("KEY_1", Some(Lang("es")), fetch);
    fr := m.GetLocalizedKey("KEY_1", Some(Lang("fr")), fetch);
    esEsTest := m.GetLocalizedKey("KEY_1", Some(Locale("es", "ES", "test")), fetch);
    none := m.GetLocalizedKey("KEY_1", None, fetch);
  }

  /** The text the test expects, in two pieces: the INSERT up to its value
      list, then the values. */
  function ExpectedExport(): string {
    "INSERT INTO multilanguage2 (key2, en, es) VALUES (" + "'KEY_2', 'english_2', 'castellano_2');"
  }

  /** The exported text for the fixture's key KEY_2, whose row holds english_2
      and castellano_2. */
  lemma ExportKeyText()
    ensures ExportText("multilanguage2", "key2", [Lang("en"), Lang("es")], "KEY_2", [Some("english_2"), Some("castellano_2")])
         == ExpectedExport()
  {
    var locales := [Lang("en"), Lang("es")];
    var values := [Some("english_2"), Some("castellano_2")];
    FixtureColumns();
    FixtureLiterals();
    ExportTextParts("multilanguage2", "key2", locales, "KEY_2", values, "en, es", ", 'english_2', 'castellano_2'");
    ExportHeadConcat();
    ExportTailConcat();
  }

  lemma FixtureColumns()
    ensures Join(LocaleStrings([Lang("en"), Lang("es")]), ", ") == "en, es"
  {
    assert LocaleStrings([Lang("en"), Lang("es")]) == ["en", "es"];
    assert ["en", "es"][..1] == ["en"];
  }

  lemma FixtureLiterals()
    ensures ExportLiterals([Some("english_2"), Some("castellano_2")]) == ", 'english_2', 'castellano_2'"
  {
    var values := [Some("english_2"), Some("castellano_2")];
    assert values[..1][..0] == [];
    assert ExportLiterals(values[..1]) == ", 'english_2'";
  }

  lemma ExportHeadConcat()
    ensures "INSERT INTO " + "multilanguage2" + " (" + "key2" + ", " + "en, es" + ") VALUES ("
         == "INSERT INTO multilanguage2 (key2, en, es) VALUES ("
  {
  }

  lemma ExportTailConcat()
    ensures "'" + "KEY_2" + "'" + ", 'english_2', 'castellano_2'" + ");" == "'KEY_2', 'english_2', 'castellano_2');"
  {
  }

  /** The export text with the table, key column, key, column list and value
      literals as given strings. */
  lemma ExportTextParts(table: string, keyColumn: string, locales: seq<Locale>, key: string, values: seq<Option<string>>,
                        columns: string, literals: string)
    requires columns == Join(LocaleStrings(locales), ", ") && literals == ExportLiterals(values)
    ensures ExportText(table, keyColumn, locales, key, values)
         == ("INSERT INTO " + table + " (" + keyColumn + ", " + columns + ") VALUES (")
            + ("'" + key + "'" + literals + ");")
  {
  }

  /** The values export reads for KEY_2 from the fixture's columns. */
  lemma FixtureExportValues(m: LocaleMap, fetch: Statement -> Option<string>)
    requires Registry.Valid(m) && m.keys == [Lang("en"), Lang("es")] && m.columns == TestColumns()
    requires Stored(fetch, "en", "KEY_2") == Some("english_2")
    requires Stored(fetch, "es", "KEY_2") == Some("castellano_2")
    ensures ExportValues("multilanguage2", "key2", m, "KEY_2", fetch) == [Some("english_2"), Some("castellano_2")]
  {
  }

  /** Exporting KEY_2 into an empty builder yields exactly the expected INSERT. */
  method ExportKey(fetch: Statement -> Option<string>) returns (sql: string)
    requires Stored(fetch, "en", "KEY_2") == Some("english_2")
    requires Stored(fetch, "es", "KEY_2") == Some("castellano_2")
    ensures sql == ExpectedExport()
  {
    var m := SetUp();
    var builder := new StringBuilder();
    var out := m.ExportKey("KEY_2", builder, fetch);
    FixtureExportValues(m.localeMap, fetch);
    ExportKeyText();
    sql := out.content;
  }
}
