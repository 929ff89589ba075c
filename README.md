# jdbc-language-manager in Dafny

This project models the core of jdbc-language-manager. The library keeps
localized strings in one database table. There is one row per key and one
column per locale. Two Java classes form the core:

- `DbLanguageManager` owns the locale registry, the default locale and the
  lifecycle flag. The registry is a `LinkedHashMap` from locale to column name.
  The class resolves a requested locale to a registered one and guards lookups
  with the lifecycle flag.
- `DbMultilanguage` builds the SQL statements for reading, inserting, updating,
  deleting, duplicating and exporting keys.

The database is abstract in the model:

- A write returns the `Statement` it would execute: the SQL text and its
  positional parameters.
- A read takes a `fetch` function from the statement to the row it returns.

Modules, in dependency order:

- `Wrappers` (wrappers.dfy): `Option`, `Result` and the two exceptions the
  code throws.
- `Locales` (locales.dfy): `java.util.Locale` reduced to language, country
  and variant. It also holds `Locale.toString()` and commons-lang3's
  `LocaleUtils.localeLookupList`.
- `Registry` (registry.dfy): the insertion-ordered locale map.
- `Resolution` (resolution.dfy): `normalizeLocale` as a function, with the
  fallback properties the tests rely on.
- `SqlText` (sql_text.dfy): `StringUtils.join`, how Java renders `null` in
  string concatenation, and placeholder counting.
- `Statements` (statements.dfy): the single-key statements and the export
  text.
- `BatchStatements` (batch.dfy): the batch INSERT and the CASE-based batch
  UPDATE, with their parameter lists.
- `Language` (language.dfy): the two classes. Their methods keep the source's
  loops and are proved equal to the functions above.
- `Scenarios` (scenarios.dfy): the unit tests' fixture and its lifecycle,
  resolution and export tests, replayed against the classes.

Java `null` is `None` in several places:

- a requested or default locale;
- a locale value;
- the batch array;
- the inputs of `toLocaleValueList`.

A registry key is never `null`.

Behaviour kept exactly as the code has it:

- The columns named by INSERT, UPDATE, duplicate, export and the whole-row
  read are the locales' `toString()` texts, not the column names given to
  `setField`. Only `getLocalizedKey` and the per-locale reads of `export` go
  through `getField`.
- A batch INSERT takes its column list and its first tuple from the first key
  only. Each later key adds one tuple with one placeholder for the key and one
  per value it has.
  No check makes the tuples agree.
- In the batch UPDATE, every SET entry after the first gets a ", " before it
  and a blank after it. With a single entry the text therefore reads
  `END)WHERE`.
- The single-column and whole-row SELECTs, the batch INSERT and the DELETE
  bind every key and value as a parameter. Three statements write data into
  the SQL text instead, between single quotes:
  - the batch UPDATE writes keys and values into its WHEN branches;
  - `export` writes the key and the values it reads;
  - the duplicate writes the destination key.
  Only the duplicate's destination key passes through `escapeJava`. The others
  are written as they are.
- A null value becomes the text `'null'` in the UPDATE's THEN branch and in
  the literals of `export`, but SQL NULL in the INSERT, which binds it as a
  parameter. So `export` does not reproduce a missing translation: replaying
  its INSERT stores the string "null".
- Nothing checks that the keys of a batch share the first key's locales.
- The CASE of each SET entry has no ELSE. Take a key where no entry of the
  batch with that key carries a value for a field that another entry carries. The field is still
  in the SET list, the key is still in the `IN (...)` list, and the field's
  CASE has no branch for the key. The database therefore sets that column of
  the key's row to NULL, and the stored translation is lost
  (`BatchStatements.MissingFieldSetToNull`).
- With no registered locale, `export` writes `INSERT INTO t (k, ) VALUES ('key');`
  (`Statements.ExportEmptyRegistry`).
- A first batch key with no values gives an INSERT that begins
  `INSERT INTO t (k, ) VALUES (?, )` (`BatchStatements.InsertHeadWithoutValues`).
- A batch whose keys carry no values gives an UPDATE with an empty SET list:
  `UPDATE t SET WHERE k IN (?)` for a single key
  (`BatchStatements.UpdateWithoutValues`).

## Model

| member | source | states |
|---|---|---|
| Locales.LocaleString | jdbc-language-manager/src/main/java/es/molabs/jdbc/language/db/DbMultilanguage.java:85 | A locale is written as language, `language_COUNTRY`, or `language_COUNTRY_variant`. The country slot stays empty before a variant. A locale without language keeps the leading `_` before its country, as in `_GB` or `_GB_POSIX`. A locale with neither language nor country is written as "". |
| Locales.LookupList | jdbc-language-manager/src/main/java/es/molabs/jdbc/language/DbLanguageManager.java:170 | The fallback list is empty for a null locale. Otherwise it starts with the locale, contains the default, has no repeats and at most 4 entries, and every non-default entry keeps the locale's language. |
| Registry.Put | jdbc-language-manager/src/main/java/es/molabs/jdbc/language/DbLanguageManager.java:117-120 | `put` maps the locale to the new column and leaves every other locale's column alone. A new locale is appended to the key order; a known locale keeps its place. The map stays duplicate-free. |
| Registry.InsertionOrder | jdbc-language-manager/src/main/java/es/molabs/jdbc/language/DbLanguageManager.java:191-194 | After a sequence of `setField` calls, the locale set lists each registered locale once, in order of first registration, and each locale maps to the column given last. |
| Resolution.Resolve | jdbc-language-manager/src/main/java/es/molabs/jdbc/language/DbLanguageManager.java:164-189 | A registered locale is returned unchanged. Otherwise the result is the first registered entry of the lookup list (started at the default for a null request). If none is registered, the request is returned. The result is registered exactly when the request or some chain entry is. |
| Resolution.ResolveIdempotent | jdbc-language-manager/src/main/java/es/molabs/jdbc/language/DbLanguageManager.java:164-189 | Normalising a normalised locale changes nothing. |
| Resolution.DefaultOnlyFallback | jdbc-language-manager/src/main/java/es/molabs/jdbc/language/DbLanguageManager.java:170-184 | If the locale or one of its stripped forms is registered, the default locale does not affect the result. |
| Resolution.BaseLanguageFallback | jdbc-language-manager/src/main/java/es/molabs/jdbc/language/DbLanguageManager.java:170-184 | Suppose a locale with a country is unregistered, its language-and-country form is unregistered, and its bare language is registered. Then it resolves to the bare language. |
| Resolution.DefaultFallback | jdbc-language-manager/src/main/java/es/molabs/jdbc/language/DbLanguageManager.java:170-184 | If no stripped form of the locale is registered but the default is, the locale resolves to the default. |
| Resolution.NullRequest | jdbc-language-manager/src/main/java/es/molabs/jdbc/language/DbLanguageManager.java:169-170 | A null request resolves as the default locale does when that gives a registered locale, and to null otherwise. A registered default is returned as it is. |
| Resolution.TestVariantFallsBackToLanguage | jdbc-language-manager/src/test/java/es/molabs/jdbc/language/test/DbLanguageManagerTest.java:141 | With en and es registered and en the default, es_ES_test resolves to es. |
| Resolution.TestUnknownFallsBackToDefault | jdbc-language-manager/src/test/java/es/molabs/jdbc/language/test/DbLanguageManagerTest.java:113-127 | An unregistered fr resolves to the default, en or es. |
| Resolution.TestNullFallsBackToDefault | jdbc-language-manager/src/test/java/es/molabs/jdbc/language/test/DbLanguageManagerTest.java:144 | A null request resolves to the default en. |
| SqlText.PlaceholderCount | jdbc-language-manager/src/main/java/es/molabs/jdbc/language/db/DbMultilanguage.java:96-101 | Joining n placeholders holds exactly n `?` marks. |
| Statements.SelectColumnPlaceholders | jdbc-language-manager/src/main/java/es/molabs/jdbc/language/db/DbMultilanguage.java:47-50 | The single-column SELECT has exactly one `?`, matching its one parameter, the key. This holds when the table, the key column and the field name hold no `?`. |
| Statements.SelectAllPlaceholders | jdbc-language-manager/src/main/java/es/molabs/jdbc/language/db/DbMultilanguage.java:52-57 | The whole-row SELECT has exactly one `?`, matching its one parameter. This holds when the table, the key column and the locale texts hold no `?`. |
| Statements.DeletePlaceholders | jdbc-language-manager/src/main/java/es/molabs/jdbc/language/db/DbMultilanguage.java:163-166 | The DELETE has exactly one `?`, matching its one parameter. This holds when the table and the key column hold no `?`. |
| Statements.DuplicatePlaceholders | jdbc-language-manager/src/main/java/es/molabs/jdbc/language/db/DbMultilanguage.java:168-173 | The INSERT ... SELECT has exactly one `?`, for the source key. This holds when the table, the key column, the locale texts and the escaped destination key hold no `?`. |
| Statements.DuplicateMarks | jdbc-language-manager/src/main/java/es/molabs/jdbc/language/db/DbMultilanguage.java:168-173 | For any destination key and locale set, the INSERT ... SELECT holds one `?` per parameter, plus the `?` characters of the quoted destination key and of the column list. Only the table and the key column need be free of `?`. |
| Statements.ExportLiteralsJoin | jdbc-language-manager/src/main/java/es/molabs/jdbc/language/db/DbMultilanguage.java:180-191 | The key literal followed by the appended value literals is the ", "-join of all quoted literals. |
| Statements.ExportIsSingleRowInsert | jdbc-language-manager/src/main/java/es/molabs/jdbc/language/db/DbMultilanguage.java:175-196 | The export text is one INSERT whose column list (key column, then the locales) and value list (key, then the values) have equal length and are joined the same way. |
| Statements.ExportEmptyRegistry | jdbc-language-manager/src/main/java/es/molabs/jdbc/language/db/DbMultilanguage.java:178-193 | With no registered locale, the export keeps the separator after the key column: `INSERT INTO t (k, ) VALUES ('key');`. |
| BatchStatements.InsertHeadWithoutValues | jdbc-language-manager/src/main/java/es/molabs/jdbc/language/db/DbMultilanguage.java:72-89 | A first key with no values gives the column list `(k, )` and the tuple `(?, )`. |
| BatchStatements.UpdateWithoutValues | jdbc-language-manager/src/main/java/es/molabs/jdbc/language/db/DbMultilanguage.java:138-158 | When no key of the batch carries a value, the SET list is empty and the statement reads `UPDATE t SET WHERE k IN (...)`. |
| BatchStatements.InsertPlaceholders | jdbc-language-manager/src/main/java/es/molabs/jdbc/language/db/DbMultilanguage.java:59-108 | The batch INSERT has exactly as many `?` as it has parameters, whatever the keys' value counts. This holds when the table, the key column and the first key's locale texts hold no `?`; keys and values are bound, so they may hold any text. |
| BatchStatements.InsertIgnoresLaterLocales | jdbc-language-manager/src/main/java/es/molabs/jdbc/language/db/DbMultilanguage.java:72-104 | The INSERT text depends only on the first key's locales and on each key's number of values. |
| BatchStatements.InsertStartsWithHead | jdbc-language-manager/src/main/java/es/molabs/jdbc/language/db/DbMultilanguage.java:72-89 | The INSERT text begins with the column list and tuple built from the first key. |
| BatchStatements.InsertValuesAppend | jdbc-language-manager/src/main/java/es/molabs/jdbc/language/db/DbMultilanguage.java:198-215 | The insert parameters of two batches placed one after the other are the two parameter lists placed one after the other. |
| BatchStatements.InsertRowParameters | jdbc-language-manager/src/main/java/es/molabs/jdbc/language/db/DbMultilanguage.java:198-215 | Key k's key is the parameter just after the parameters of the keys before it, and its j-th value follows at offset j + 1. |
| BatchStatements.UniformInsertOffsets | jdbc-language-manager/src/main/java/es/molabs/jdbc/language/db/DbMultilanguage.java:198-215 | When every key has n values, the INSERT has (n + 1) parameters per key. |
| BatchStatements.KeyCasesComplete | jdbc-language-manager/src/main/java/es/molabs/jdbc/language/db/DbMultilanguage.java:130-135 | A key adds a WHEN branch (key, v) to a field exactly when one of its locale values has that locale text and value v. |
| BatchStatements.CasesSound | jdbc-language-manager/src/main/java/es/molabs/jdbc/language/db/DbMultilanguage.java:121-136 | Every WHEN branch of a field comes from a key of the batch that carries that field with that value. |
| BatchStatements.CasesComplete | jdbc-language-manager/src/main/java/es/molabs/jdbc/language/db/DbMultilanguage.java:121-136 | Every value a key carries for a field becomes a WHEN branch of that field. |
| BatchStatements.FieldsHaveCases | jdbc-language-manager/src/main/java/es/molabs/jdbc/language/db/DbMultilanguage.java:121-136 | A field gets a CASE expression exactly when some key carries it. |
| BatchStatements.FieldOrderSize | jdbc-language-manager/src/main/java/es/molabs/jdbc/language/db/DbMultilanguage.java:140-156 | The SET list has one entry per distinct field of the batch. |
| BatchStatements.MissingFieldSetToNull | jdbc-language-manager/src/main/java/es/molabs/jdbc/language/db/DbMultilanguage.java:121-158 | Suppose no entry of the batch with a given key has a value for a field that some entry carries. The field is in every SET order. The key is among the UPDATE's parameters, so the `IN (...)` list matches its row. No WHEN branch of the field's CASE is for that key. With no ELSE, that column of the row is set to NULL. |
| BatchStatements.UpdatePlaceholders | jdbc-language-manager/src/main/java/es/molabs/jdbc/language/db/DbMultilanguage.java:110-161 | The batch UPDATE has exactly one `?` per key, matching its parameters. This holds when no key, value, locale text, table or key column contains `?`. Keys and values sit inside quoted literals; the general case is `UpdateQuotedMarks`. |
| BatchStatements.UpdateMarks | jdbc-language-manager/src/main/java/es/molabs/jdbc/language/db/DbMultilanguage.java:110-161 | For any batch and field order, the UPDATE holds one `?` per parameter, from its `IN (...)` list, plus the `?` characters of its SET list. Only the table and the key column need be free of `?`. |
| BatchStatements.SetListMarks | jdbc-language-manager/src/main/java/es/molabs/jdbc/language/db/DbMultilanguage.java:121-156 | When no field name holds `?`, every `?` of the SET list lies inside a quoted key or value of a WHEN branch. |
| BatchStatements.UpdateQuotedMarks | jdbc-language-manager/src/main/java/es/molabs/jdbc/language/db/DbMultilanguage.java:110-161 | With `?`-free table, key column and field names, the UPDATE's `?` characters are one per key, matching its parameters, plus those inside its quoted keys and values. A value such as "¿Qué?" adds characters only inside quotes. |
| Language.DbLanguageManager.constructor | jdbc-language-manager/src/main/java/es/molabs/jdbc/language/DbLanguageManager.java:50-60 | A new manager stores its default locale, table and key column. Its registry is empty, it is not initialized, and its key store points back at it. |
| Language.DbLanguageManager.WithDefaultTable | jdbc-language-manager/src/main/java/es/molabs/jdbc/language/DbLanguageManager.java:45-48 | The one-argument constructor uses table "multilanguage" and key column "key". |
| Language.DbLanguageManager.Init | jdbc-language-manager/src/main/java/es/molabs/jdbc/language/DbLanguageManager.java:62-75 | The manager is initialized afterwards, whether or not it was before. Nothing else changes. |
| Language.DbLanguageManager.Destroy | jdbc-language-manager/src/main/java/es/molabs/jdbc/language/DbLanguageManager.java:77-90 | The manager is not initialized afterwards, whether or not it was before. Nothing else changes. |
| Language.DbLanguageManager.IsInitialized | jdbc-language-manager/src/main/java/es/molabs/jdbc/language/DbLanguageManager.java:92-95 | Reports the lifecycle flag that `Init` sets and `Destroy` clears. |
| Language.DbLanguageManager.SetDefaultLocale | jdbc-language-manager/src/main/java/es/molabs/jdbc/language/DbLanguageManager.java:102-105 | Only the default locale changes. |
| Language.DbLanguageManager.SetField | jdbc-language-manager/src/main/java/es/molabs/jdbc/language/DbLanguageManager.java:117-120 | The registry becomes `Put` of the old registry and stays well formed. |
| Language.DbLanguageManager.GetField | jdbc-language-manager/src/main/java/es/molabs/jdbc/language/DbLanguageManager.java:122-125 | A registered locale gets its own column. The result is non-null exactly when the request or an entry of its lookup list is registered, and it is always one of the registered columns. |
| Language.DbLanguageManager.GetLocalizedKey | jdbc-language-manager/src/main/java/es/molabs/jdbc/language/DbLanguageManager.java:127-132 | Without initialization the result is IllegalStateException("Not initialized."). Otherwise it is the value read by selecting the column `getField` gives for the key. |
| Language.DbLanguageManager.GetLocaleSet | jdbc-language-manager/src/main/java/es/molabs/jdbc/language/DbLanguageManager.java:191-194 | The locale set holds exactly the registered locales, each once. |
| Language.DbLanguageManager.GetKeyValues | jdbc-language-manager/src/main/java/es/molabs/jdbc/language/DbLanguageManager.java:134-137 | Delegates the whole-row read; see DbMultilanguage.GetKeyValues. |
| Language.DbLanguageManager.AddKey | jdbc-language-manager/src/main/java/es/molabs/jdbc/language/DbLanguageManager.java:139-142 | Delegates the batch insert, with the same failure on a null or empty batch. It is not guarded by the lifecycle flag. |
| Language.DbLanguageManager.SetKey | jdbc-language-manager/src/main/java/es/molabs/jdbc/language/DbLanguageManager.java:144-147 | Delegates the batch update, with the same failure on a null or empty batch. |
| Language.DbLanguageManager.RemoveKey | jdbc-language-manager/src/main/java/es/molabs/jdbc/language/DbLanguageManager.java:149-152 | Delegates the delete. |
| Language.DbLanguageManager.DuplicateKey | jdbc-language-manager/src/main/java/es/molabs/jdbc/language/DbLanguageManager.java:154-157 | Delegates the duplicate over the current locale set. |
| Language.DbLanguageManager.ExportKey | jdbc-language-manager/src/main/java/es/molabs/jdbc/language/DbLanguageManager.java:159-162 | Delegates the export; the builder gains exactly the export text. |
| Language.DbLanguageManager.NormalizeLocale | jdbc-language-manager/src/main/java/es/molabs/jdbc/language/DbLanguageManager.java:164-189 | The loop over the lookup list, which stops at the first registered entry, returns `Resolution.Resolve` of the registry, the default and the request. |
| Language.DbMultilanguage.constructor | jdbc-language-manager/src/main/java/es/molabs/jdbc/language/db/DbMultilanguage.java:42-45 | The key store keeps its manager. |
| Language.DbMultilanguage.GetKey | jdbc-language-manager/src/main/java/es/molabs/jdbc/language/db/DbMultilanguage.java:47-50 | The value is what the database returns for the one-column SELECT of the key. |
| Language.DbMultilanguage.GetKeyValues | jdbc-language-manager/src/main/java/es/molabs/jdbc/language/db/DbMultilanguage.java:52-57 | A missing row gives null. Otherwise the i-th registered locale is paired with the row's i-th value, for as many pairs as both have. |
| Language.DbMultilanguage.InsertKey | jdbc-language-manager/src/main/java/es/molabs/jdbc/language/db/DbMultilanguage.java:59-108 | A null or empty batch fails with IllegalArgumentException. Otherwise the nested loops build exactly the INSERT text and parameters of `BatchStatements.Insert`. |
| Language.DbMultilanguage.UpdateKey | jdbc-language-manager/src/main/java/es/molabs/jdbc/language/db/DbMultilanguage.java:110-161 | A null or empty batch fails with IllegalArgumentException. Otherwise the field order is duplicate-free, covers every field of the batch, and the statement is `BatchStatements.Update` for that order. |
| Language.DbMultilanguage.CollectBranches | jdbc-language-manager/src/main/java/es/molabs/jdbc/language/db/DbMultilanguage.java:115-136 | After the first pass the key list has one placeholder per key. The field map's keys are the batch's fields, and each holds the WHEN branches of that field in batch order. |
| Language.DbMultilanguage.AppendSetList | jdbc-language-manager/src/main/java/es/molabs/jdbc/language/db/DbMultilanguage.java:138-156 | The SET loop appends `SetList` for an order that lists every field of the batch once. |
| Language.DbMultilanguage.DeleteKey | jdbc-language-manager/src/main/java/es/molabs/jdbc/language/db/DbMultilanguage.java:163-166 | The DELETE of the key; see Statements.DeletePlaceholders. |
| Language.DbMultilanguage.DuplicateKey | jdbc-language-manager/src/main/java/es/molabs/jdbc/language/db/DbMultilanguage.java:168-173 | The INSERT ... SELECT over the locale set, with the escaped destination key. |
| Language.DbMultilanguage.Export | jdbc-language-manager/src/main/java/es/molabs/jdbc/language/db/DbMultilanguage.java:175-196 | The builder gains exactly `ExportText` of the locale set and the values read from each locale's column, in locale-set order. The same builder is returned. |
| Language.DbMultilanguage.ToInsertValues | jdbc-language-manager/src/main/java/es/molabs/jdbc/language/db/DbMultilanguage.java:198-215 | The loop yields `InsertValues`: each key followed by its values, in batch order. |
| Language.DbMultilanguage.ToUpdateValues | jdbc-language-manager/src/main/java/es/molabs/jdbc/language/db/DbMultilanguage.java:217-228 | One parameter per key, the k-th being the k-th key. |
| Language.DbMultilanguage.ToLocaleValueList | jdbc-language-manager/src/main/java/es/molabs/jdbc/language/db/DbMultilanguage.java:230-245 | Null exactly when either input is null. Otherwise its length is the shorter length, and entry i pairs the i-th locale with the i-th value. |
| Scenarios.SetUp | jdbc-language-manager/src/test/java/es/molabs/jdbc/language/test/DbLanguageManagerTest.java:273-281 | The fixture registers en and es in that order, with en the default, and is initialized. |
| Scenarios.Initialization | jdbc-language-manager/src/test/java/es/molabs/jdbc/language/test/DbLanguageManagerTest.java:50-111 | This runs two destroy/init cycles. While destroyed, the manager refuses lookups with IllegalStateException. After the second `destroy` it reports itself not initialized. After each `init` it reads KEY_1 from column en and reports itself initialized. |
| Scenarios.ChangeDefaultLocale | jdbc-language-manager/src/test/java/es/molabs/jdbc/language/test/DbLanguageManagerTest.java:113-127 | fr is read from column en, and from column es once es is the default. |
| Scenarios.ExportKeyText | jdbc-language-manager/src/test/java/es/molabs/jdbc/language/test/DbLanguageManagerTest.java:262 | The export text for KEY_2, with english_2 and castellano_2 under en and es, is exactly the string the test expects. |
| Scenarios.ExportKey | jdbc-language-manager/src/test/java/es/molabs/jdbc/language/test/DbLanguageManagerTest.java:253-265 | Exporting KEY_2 from the fixture into an empty builder leaves exactly the expected INSERT in it, whenever the database holds english_2 and castellano_2 for KEY_2. |
| Scenarios.GetLocalizedKey | jdbc-language-manager/src/test/java/es/molabs/jdbc/language/test/DbLanguageManagerTest.java:128-153 | The requests en, es, fr, es_ES_test and null read from the columns en, es, en, es and en. |

## Left out

- Executing SQL is left out. There is no JDBC, no affected-row counts and no `DbException`. Writes return the statement they would run, and reads take the row as a function. The model does not evaluate SQL. The NULL written by a CASE without ELSE is therefore stated from the statement's structure (`BatchStatements.MissingFieldSetToNull`), not from executing the statement.
- `GetKeyRowMapper` and `ClobRowMapper` are not part of this model. A row is given as a sequence of optional strings.
- Logging in `init` and `destroy` is left out.
- The getters `getDefaultLocale`, `getTableName` and `getKeyName` are plain field reads; the model reads the fields directly.
- Language.DbMultilanguage.DuplicateKey: `StringEscapeUtils.escapeJava` is a function parameter with no interpretation, so nothing is stated about the escaped text.
- Language.DbMultilanguage.UpdateKey: the SET order is any duplicate-free order of the fields, chosen nondeterministically, rather than `HashMap`'s actual iteration order.
- Language.DbMultilanguage.UpdateKey: the two passes of the method are the helper methods `CollectBranches` and `AppendSetList`. This keeps each proof small; the loops themselves are as in the source.
- Locales.LocaleString: the script and extensions of `java.util.Locale` are not modelled. Neither is the case normalisation its constructor applies; the parts are taken as given.
- `setField` with a null locale is not modelled: registry keys are non-null.
- `setField` with a null column is not modelled, because a registry column is a non-null string. In the source, `put(locale, null)` makes the locale registered, so `normalizeLocale` returns it, while `getField` gives null for it.
- A null table name, key column, or key argument to the single-key operations is not modelled. The source writes a null name into the text as "null". A null key is bound as a parameter by the two SELECTs of `getKey`, by the DELETE and, as the source key, by the duplicate. It is written into the text as `'null'` by `export` and, as the destination key, by the duplicate.
- BatchStatements.UpdatePlaceholders: placeholders are counted as raw `?` characters, not with JDBC's reading of quoted literals. A `?` inside a quoted key or value is therefore counted, by `UpdateQuotedMarks`, rather than excluded.
- Statements.DuplicatePlaceholders: the same counting applies. A `?` in the quoted destination key is counted by `DuplicateMarks` rather than excluded.
- A null key inside a `LocalizedKey` is not modelled: keys are non-null strings. In the source a null key raises nothing. It becomes a null parameter of the INSERT and of the UPDATE's `IN (...)` list, and the text `'null'` in the UPDATE's WHEN branches.
- A null locale inside a `LocaleValue` is not modelled: locales are non-null. In the source it raises `NullPointerException` in `updateKey` for any key, and in `insertKey` only for the first key; the locales of later keys are never read.
- A null batch entry, a null `LocaleValue` or a null array of locale values is not modelled: each raises `NullPointerException` in the source.
- Thread safety is left out. The source has no synchronisation.
