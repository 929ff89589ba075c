/** The two classes of the library: the language manager, which owns the
    locale registry, the default locale and the lifecycle flag, and the key
    store, which builds the statements it hands to the query executor. The
    executor itself is abstract: a read is a function from the statement to the
    row it returns, a write returns the statement it would execute. */
module Language {
  import opened Wrappers
  import opened Locales
  import opened Registry
  import opened Resolution
  import opened SqlText
  import opened Statements
  import opened BatchStatements

  const NotInitialized: string := "Not initialized."
  const EmptyBatch: string := "LocalizedKeys parameter cannot be null or empty."

  class DbLanguageManager {
    var defaultLocale: Option<Locale>
    const tableName: string
    const keyName: string
    var localeMap: LocaleMap
    var dbMultilanguage: DbMultilanguage?
    var initialized: bool

    ghost predicate Valid()
      reads this
    {
      && Registry.Valid(localeMap)
      && dbMultilanguage != null
      && dbMultilanguage.languageManager == this
    }

    constructor (defaultLocale: Option<Locale>, tableName: string, keyName: string)
      ensures Valid()
      ensures this.defaultLocale == defaultLocale && this.tableName == tableName && this.keyName == keyName
      ensures localeMap == Empty && !initialized
    {
      this.defaultLocale := defaultLocale;
      this.tableName := tableName;
      this.keyName := keyName;
      localeMap := Empty;
      dbMultilanguage := null;
      initialized := false;
      new;
      dbMultilanguage := new DbMultilanguage(this);
    }

    /** The one-argument constructor: table "multilanguage", key column "key". */
    constructor WithDefaultTable(defaultLocale: Option<Locale>)
      ensures Valid()
      ensures this.defaultLocale == defaultLocale && tableName == "multilanguage" && keyName == "key"
      ensures localeMap == Empty && !initialized
    {
      this.defaultLocale := defaultLocale;
      tableName := "multilanguage";
      keyName := "key";
      localeMap := Empty;
      dbMultilanguage := null;
      initialized := false;
      new;
      dbMultilanguage := new DbMultilanguage(this);
    }

    /** Sets the flag; on an initialized manager only a warning is logged. */
    method Init()
      modifies this`initialized
      ensures initialized
    {
      if !initialized {
        initialized := true;
      }
    }

    /** Clears the flag; on a manager that is not initialized only a warning is logged. */
    method Destroy()
      modifies this`initialized
      ensures !initialized
    {
      if initialized {
        initialized := false;
      }
    }

    function IsInitialized(): (r: bool)
      reads this
      ensures r <==> initialized
    {
      initialized
    }

    method SetDefaultLocale(defaultLocale: Option<Locale>)
      modifies this`defaultLocale
      ensures this.defaultLocale == defaultLocale
    {
      this.defaultLocale := defaultLocale;
    }

    /** Registers `field` as the column of `locale` (LinkedHashMap.put). */
    method SetField(field: string, locale: Locale)
      requires Valid()
      modifies this`localeMap
      ensures Valid()
      ensures localeMap == Put(old(localeMap), locale, field)
    {
      localeMap := Put(localeMap, locale, field);
    }

    /** The column of the locale the request normalises to, or null. */
    function GetField(locale: Option<Locale>): (r: Option<string>)
      reads this
      requires Valid()
      ensures Registered(locale, localeMap.columns) ==> r == Some(localeMap.columns[locale.value])
      ensures r.Some? <==>
                Registered(locale, localeMap.columns)
                || exists c | c in Chain(locale, defaultLocale) :: Registered(c, localeMap.columns)
      ensures r.Some? ==> r.value in localeMap.columns.Values
    {
      var resolved := Resolve(localeMap.columns, defaultLocale, locale);
      if resolved.Some? then Get(localeMap, resolved.value) else None
    }

    /** The value of `key` in the requested locale; fails while not initialized. */
    method GetLocalizedKey(key: string, locale: Option<Locale>, fetch: Statement -> Option<string>)
      returns (r: Result<Option<string>>)
      requires Valid()
      ensures !initialized ==> r == Failure(IllegalState(NotInitialized))
      ensures initialized ==> r == Success(fetch(SelectColumn(tableName, keyName, GetField(locale), key)))
    {
      if !initialized {
        return Failure(IllegalState(NotInitialized));
      }
      var value := dbMultilanguage.GetKey(key, GetField(locale), fetch);
      r := Success(value);
    }

    /** The registered locales, in the order they were first registered. */
    function GetLocaleSet(): (r: seq<Locale>)
      reads this
      requires Valid()
      ensures forall l :: l in r <==> l in localeMap.columns
      ensures forall i, j | 0 <= i < j < |r| :: r[i] != r[j]
    {
      localeMap.keys
    }

    /** The values of `key` in every registered locale; not guarded by the
        lifecycle flag. */
    method GetKeyValues(key: string, fetchRow: Statement -> Option<seq<Option<string>>>) returns (r: Option<seq<LocaleValue>>)
      requires Valid()
      ensures var row := fetchRow(SelectAll(tableName, keyName, localeMap.keys, key));
              && (r.None? <==> row.None?)
              && (r.Some? ==>
                    && |r.value| == Min(|localeMap.keys|, |row.value|)
                    && forall i | 0 <= i < |r.value| :: r.value[i] == LocaleValue(localeMap.keys[i], row.value[i]))
    {
      r := dbMultilanguage.GetKeyValues(key, fetchRow);
    }

    method AddKey(localizedKeys: Option<seq<LocalizedKey>>) returns (r: Result<Statement>)
      requires Valid()
      ensures localizedKeys.None? || localizedKeys.value == [] ==> r == Failure(IllegalArgument(EmptyBatch))
      ensures localizedKeys.Some? && localizedKeys.value != [] ==> r == Success(Insert(tableName, keyName, localizedKeys.value))
    {
      r := dbMultilanguage.InsertKey(localizedKeys);
    }

    method SetKey(localizedKeys: Option<seq<LocalizedKey>>) returns (r: Result<Statement>, ghost order: seq<string>)
      requires Valid()
      ensures localizedKeys.None? || localizedKeys.value == [] ==> r == Failure(IllegalArgument(EmptyBatch))
      ensures localizedKeys.Some? && localizedKeys.value != [] ==>
                && IsFieldOrder(order, localizedKeys.value)
                && r == Success(Update(tableName, keyName, localizedKeys.value, order))
    {
      r, order := dbMultilanguage.UpdateKey(localizedKeys);
    }

    method RemoveKey(key: string) returns (s: Statement)
      requires Valid()
      ensures s == Delete(tableName, keyName, key)
    {
      s := dbMultilanguage.DeleteKey(key);
    }

    method DuplicateKey(sourceKey: string, destinationKey: string, escapeJava: string -> string) returns (s: Statement)
      requires Valid()
      ensures s == Duplicate(tableName, keyName, localeMap.keys, escapeJava(destinationKey), sourceKey)
    {
      s := dbMultilanguage.DuplicateKey(sourceKey, destinationKey, escapeJava);
    }

    method ExportKey(key: string, sql: StringBuilder, fetch: Statement -> Option<string>) returns (out: StringBuilder)
      requires Valid()
      modifies sql
      ensures out == sql
      ensures sql.content == old(sql.content)
                + ExportText(tableName, keyName, localeMap.keys, key, ExportValues(tableName, keyName, localeMap, key, fetch))
    {
      out := dbMultilanguage.Export(key, sql, fetch);
    }

    /** normalizeLocale: walks the fallback chain and stops at the first
        registered entry. */
    method NormalizeLocale(locale: Option<Locale>) returns (r: Option<Locale>)
      requires Valid()
      ensures r == Resolve(localeMap.columns, defaultLocale, locale)
    {
      r := locale;
      if !Registered(locale, localeMap.columns) {
        var lookupList := LookupList(if locale.Some? then locale else defaultLocale, defaultLocale);
        var i := 0;
        while i < |lookupList|
          invariant 0 <= i <= |lookupList|
          invariant r == locale
          invariant forall j | 0 <= j < i :: !Registered(lookupList[j], localeMap.columns)
        {
          var lookupLocale := lookupList[i];
          if Registered(lookupLocale, localeMap.columns) {
            r := lookupLocale;
            break;
          }
          i := i + 1;
        }
        FirstRegisteredAt(lookupList, localeMap.columns, i);
      }
    }
  }

  /** java.lang.StringBuilder, as far as `export` uses it. */
  class StringBuilder {
    var content: string

    constructor ()
      ensures content == ""
    {
      content := "";
    }

    method Append(s: string)
      modifies this
      ensures content == old(content) + s
    {
      content := content + s;
    }
  }

  class DbMultilanguage {
    const languageManager: DbLanguageManager

    constructor (languageManager: DbLanguageManager)
      ensures this.languageManager == languageManager
    {
      this.languageManager := languageManager;
    }

    /** The value of one column of a key's row. */
    method GetKey(key: string, field: Option<string>, fetch: Statement -> Option<string>) returns (value: Option<string>)
      ensures value == fetch(SelectColumn(languageManager.tableName, languageManager.keyName, field, key))
    {
      value := fetch(SelectColumn(languageManager.tableName, languageManager.keyName, field, key));
    }

    /** Every locale's value of a key, paired positionally with the locale set;
        null when there is no row. */
    method GetKeyValues(key: string, fetchRow: Statement -> Option<seq<Option<string>>>)
      returns (r: Option<seq<LocaleValue>>)
      ensures var row := fetchRow(SelectAll(languageManager.tableName, languageManager.keyName, languageManager.localeMap.keys, key));
              && (r.None? <==> row.None?)
              && (r.Some? ==>
                    && |r.value| == Min(|languageManager.localeMap.keys|, |row.value|)
                    && forall i | 0 <= i < |r.value| ::
                         r.value[i] == LocaleValue(languageManager.localeMap.keys[i], row.value[i]))
    {
      var locales := languageManager.localeMap.keys;
      var row := fetchRow(SelectAll(languageManager.tableName, languageManager.keyName, locales, key));
      r := ToLocaleValueList(Some(locales), row);
    }

    method InsertKey(localizedKeys: Option<seq<LocalizedKey>>) returns (r: Result<Statement>)
      ensures localizedKeys.None? || localizedKeys.value == [] ==> r == Failure(IllegalArgument(EmptyBatch))
      ensures localizedKeys.Some? && localizedKeys.value != [] ==>
                r == Success(Insert(languageManager.tableName, languageManager.keyName, localizedKeys.value))
    {
      if localizedKeys.None? || |localizedKeys.value| == 0 {
        return Failure(IllegalArgument(EmptyBatch));
      }
      var keys := localizedKeys.value;
      var table, keyColumn := languageManager.tableName, languageManager.keyName;
      var sql := "";
      for k := 0 to |keys|
        invariant k > 0 ==> sql == InsertSql(table, keyColumn, keys[..k])
      {
        var localeValues := keys[k].localeValues;
        if k == 0 {
          var fieldBuilder, valueBuilder := "", "";
          for i := 0 to |localeValues|
            invariant fieldBuilder == Join(Columns(localeValues[..i]), ", ")
            invariant valueBuilder == Join(Marks(i), ", ")
          {
            if i != 0 {
              fieldBuilder := fieldBuilder + ", ";
              valueBuilder := valueBuilder + ", ";
            }
            fieldBuilder := fieldBuilder + LocaleString(localeValues[i].locale);
            valueBuilder := valueBuilder + "?";
            ColumnsStep(localeValues, i);
            MarksStep(i, ", ");
          }
          sql := "INSERT INTO " + table + " (" + keyColumn + ", " + fieldBuilder + ") VALUES (?, " + valueBuilder + ")";
          HeadText(table, keyColumn, keys, fieldBuilder, valueBuilder);
        } else {
          var valueBuilder := "";
          for i := 0 to |localeValues|
            invariant valueBuilder == Join(Marks(i), ", ")
          {
            if i != 0 {
              valueBuilder := valueBuilder + ", ";
            }
            valueBuilder := valueBuilder + "?";
            MarksStep(i, ", ");
          }
          TupleText(table, keyColumn, keys, k, sql, valueBuilder);
          sql := sql + (",(?, " + valueBuilder + ")");
        }
      }
      assert keys[..|keys|] == keys;
      var values := ToInsertValues(keys);
      r := Success(Statement(sql, values));
    }

    method UpdateKey(localizedKeys: Option<seq<LocalizedKey>>) returns (r: Result<Statement>, ghost order: seq<string>)
      ensures localizedKeys.None? || localizedKeys.value == [] ==> r == Failure(IllegalArgument(EmptyBatch))
      ensures localizedKeys.Some? && localizedKeys.value != [] ==>
                && IsFieldOrder(order, localizedKeys.value)
                && r == Success(Update(languageManager.tableName, languageManager.keyName, localizedKeys.value, order))
    {
      order := [];
      if localizedKeys.None? || |localizedKeys.value| == 0 {
        return Failure(IllegalArgument(EmptyBatch)), order;
      }
      var keys := localizedKeys.value;
      var table, keyColumn := languageManager.tableName, languageManager.keyName;
      var fieldValueMap, keyBuilder := CollectBranches(keys);

      var sql := "UPDATE " + table + " SET ";
      sql, order := AppendSetList(sql, keys, fieldValueMap);
      sql := sql + ("WHERE " + keyColumn + " IN (" + keyBuilder + ")");
      UpdateText(table, keyColumn, keys, order, sql);
      var values := ToUpdateValues(keys);
      r := Success(Statement(sql, values));
    }

    /** The first pass of `updateKey`: one placeholder per key, and for each
        field the WHEN branches of the keys that carry it, in batch order. */
    method CollectBranches(keys: seq<LocalizedKey>) returns (fieldValueMap: map<string, string>, keyBuilder: string)
      ensures keyBuilder == Join(Marks(|keys|), ",")
      ensures fieldValueMap.Keys == Fields(keys)
      ensures forall f | f in fieldValueMap :: fieldValueMap[f] == Whens(languageManager.keyName, Cases(keys, f))
    {
      var keyColumn := languageManager.keyName;
      fieldValueMap, keyBuilder := map[], "";
      for k := 0 to |keys|
        invariant keyBuilder == Join(Marks(k), ",")
        invariant AllBranches(keyColumn, fieldValueMap, keys[..k])
      {
        if k != 0 {
          keyBuilder := keyBuilder + ",";
        }
        keyBuilder := keyBuilder + "?";
        MarksStep(k, ",");
        var key := keys[k].key;
        var localeValues := keys[k].localeValues;
        BranchesStart(keyColumn, fieldValueMap, keys[..k], key, localeValues);
        for i := 0 to |localeValues|
          invariant Branches(keyColumn, fieldValueMap, keys[..k], key, localeValues[..i])
        {
          ghost var before := fieldValueMap;
          var field := LocaleString(localeValues[i].locale);
          var branch := When(keyColumn, Case(key, localeValues[i].value));
          fieldValueMap := AddBranch(fieldValueMap, field, branch);
          BranchStep(keyColumn, keys[..k], key, localeValues, i, before, fieldValueMap);
        }
        BranchesEnd(keyColumn, fieldValueMap, keys, k);
      }
      AllBranchesDone(keyColumn, fieldValueMap, keys);
    }

    /** The second pass of `updateKey`: one SET clause per field, in the
        iteration order of the field map, which is left unspecified. */
    method AppendSetList(sql0: string, keys: seq<LocalizedKey>, fieldValueMap: map<string, string>)
      returns (sql: string, ghost order: seq<string>)
      requires fieldValueMap.Keys == Fields(keys)
      requires forall f | f in fieldValueMap :: fieldValueMap[f] == Whens(languageManager.keyName, Cases(keys, f))
      ensures IsFieldOrder(order, keys)
      ensures sql == sql0 + SetList(languageManager.keyName, keys, order)
    {
      var keyColumn := languageManager.keyName;
      sql := sql0;
      order := [];
      var first := true;
      var remaining := fieldValueMap.Keys;
      while remaining != {}
        invariant remaining <= fieldValueMap.Keys
        invariant forall f :: f in order <==> f in fieldValueMap && f !in remaining
        invariant forall i, j | 0 <= i < j < |order| :: order[i] != order[j]
        invariant first <==> order == []
        invariant sql == sql0 + SetList(keyColumn, keys, order)
        decreases remaining
      {
        var field :| field in remaining;
        ghost var before := sql;
        if !first {
          sql := sql + ", ";
        }
        sql := sql + field;
        sql := sql + (" = (CASE" + fieldValueMap[field] + " END)");
        if !first {
          sql := sql + " ";
        }
        ClauseText(before, first, field, fieldValueMap[field]);
        SetListAppend(sql0, keyColumn, keys, order, field, before, sql);
        DistinctSnoc(order, field);
        first := false;
        remaining := remaining - {field};
        order := order + [field];
      }
    }

    method DeleteKey(key: string) returns (s: Statement)
      ensures s == Delete(languageManager.tableName, languageManager.keyName, key)
    {
      s := Delete(languageManager.tableName, languageManager.keyName, key);
    }

    /** `escapeJava` is commons-lang's StringEscapeUtils.escapeJava, left uninterpreted. */
    method DuplicateKey(sourceKey: string, destinationKey: string, escapeJava: string -> string) returns (s: Statement)
      ensures s == Duplicate(languageManager.tableName, languageManager.keyName, languageManager.localeMap.keys,
                             escapeJava(destinationKey), sourceKey)
    {
      s := Duplicate(languageManager.tableName, languageManager.keyName, languageManager.localeMap.keys,
                     escapeJava(destinationKey), sourceKey);
    }

    /** Appends an INSERT statement reproducing the key's row to `sql`, and
        returns the same builder. */
    method Export(key: string, sql: StringBuilder, fetch: Statement -> Option<string>) returns (out: StringBuilder)
      requires languageManager.Valid()
      modifies sql
      ensures out == sql
      ensures sql.content == old(sql.content)
                + ExportText(languageManager.tableName, languageManager.keyName, languageManager.localeMap.keys, key,
                             ExportValues(languageManager.tableName, languageManager.keyName, languageManager.localeMap, key, fetch))
    {
      var locales := languageManager.localeMap.keys;
      ghost var values := ExportValues(languageManager.tableName, languageManager.keyName, languageManager.localeMap, key, fetch);
      var fields := Join(LocaleStrings(locales), ", ");
      ghost var prefix := old(sql.content) + ExportHead(languageManager.tableName, languageManager.keyName, fields, key);
      sql.Append("INSERT INTO " + languageManager.tableName + " (" + languageManager.keyName + ", " + fields + ") VALUES ('" + key + "'");
      for i := 0 to |locales|
        invariant sql.content == prefix + ExportLiterals(values[..i])
      {
        var field := languageManager.GetField(Some(locales[i]));
        var value := GetKey(key, field, fetch);
        ghost var content := sql.content;
        sql.Append(", '");
        sql.Append(Render(value));
        sql.Append("'");
        LiteralStep(prefix, values, i, content, sql.content);
      }
      sql.Append(");");
      ExportClose(old(sql.content), languageManager.tableName, languageManager.keyName, locales, key, values, sql.content);
      out := sql;
    }

    /** toInsertValues: each key followed by its values, batch order. */
    method ToInsertValues(localizedKeys: seq<LocalizedKey>) returns (values: seq<Option<string>>)
      ensures values == InsertValues(localizedKeys)
    {
      var valueList := [];
      for k := 0 to |localizedKeys|
        invariant valueList == InsertValues(localizedKeys[..k])
      {
        valueList := valueList + [Some(localizedKeys[k].key)];
        var localeValues := localizedKeys[k].localeValues;
        for i := 0 to |localeValues|
          invariant valueList == InsertValues(localizedKeys[..k]) + [Some(localizedKeys[k].key)] + Values(localeValues[..i])
        {
          valueList := valueList + [localeValues[i].value];
          assert Values(localeValues[..i + 1]) == Values(localeValues[..i]) + [localeValues[i].value];
        }
        assert localeValues[..|localeValues|] == localeValues;
        assert localizedKeys[..k + 1][..k] == localizedKeys[..k];
      }
      assert localizedKeys[..|localizedKeys|] == localizedKeys;
      values := valueList;
    }

    /** toUpdateValues: an array holding the keys, in batch order. */
    method ToUpdateValues(localizedKeys: seq<LocalizedKey>) returns (values: seq<Option<string>>)
      ensures |values| == |localizedKeys|
      ensures forall k | 0 <= k < |localizedKeys| :: values[k] == Some(localizedKeys[k].key)
      ensures values == UpdateValues(localizedKeys)
    {
      var keyArray := new Option<string>[|localizedKeys|];
      for k := 0 to |localizedKeys|
        invariant forall j | 0 <= j < k :: keyArray[j] == Some(localizedKeys[j].key)
      {
        keyArray[k] := Some(localizedKeys[k].key);
      }
      values := keyArray[..];
    }

    /** toLocaleValueList: pairs the i-th locale with the i-th value until
        either runs out; null if either input is null. */
    method ToLocaleValueList(localeSet: Option<seq<Locale>>, valueList: Option<seq<Option<string>>>)
      returns (r: Option<seq<LocaleValue>>)
      ensures r.None? <==> localeSet.None? || valueList.None?
      ensures r.Some? ==>
                && |r.value| == Min(|localeSet.value|, |valueList.value|)
                && forall i | 0 <= i < |r.value| :: r.value[i] == LocaleValue(localeSet.value[i], valueList.value[i])
    {
      if localeSet.None? || valueList.None? {
        return None;
      }
      var locales, values := localeSet.value, valueList.value;
      var localeValueList := [];
      var i := 0;
      while i < |values| && i < |locales|
        invariant 0 <= i <= Min(|locales|, |values|)
        invariant |localeValueList| == i
        invariant forall j | 0 <= j < i :: localeValueList[j] == LocaleValue(locales[j], values[j])
      {
        localeValueList := localeValueList + [LocaleValue(locales[i], values[i])];
        i := i + 1;
      }
      r := Some(localeValueList);
    }
  }

  /** The values `export` fetches: for each locale of the locale set, in
      order, the key's value in that locale's column. */
  function ExportValues(table: string, keyColumn: string, m: LocaleMap, key: string, fetch: Statement -> Option<string>): (values: seq<Option<string>>)
    requires Registry.Valid(m)
    ensures |values| == |m.keys|
  {
    seq(|m.keys|, i requires 0 <= i < |m.keys| => fetch(SelectColumn(table, keyColumn, Some(m.columns[m.keys[i]]), key)))
  }

  function Min(a: int, b: int): int {
    if a <= b then a else b
  }

  // Proof steps of the loops above.

  lemma ExtendJoin(parts: seq<string>, x: string, extended: seq<string>, sep: string)
    requires extended == parts + [x]
    ensures Join(extended, sep) == (if parts == [] then "" else Join(parts, sep) + sep) + x
  {
    if parts == [] {
      assert extended == [x];
    } else {
      JoinSnoc(parts, x, sep);
    }
  }

  lemma ColumnsStep(localeValues: seq<LocaleValue>, i: nat)
    requires i < |localeValues|
    ensures Join(Columns(localeValues[..i + 1]), ", ")
         == (if i == 0 then "" else Join(Columns(localeValues[..i]), ", ") + ", ") + LocaleString(localeValues[i].locale)
  {
    assert Columns(localeValues[..i + 1]) == Columns(localeValues[..i]) + [LocaleString(localeValues[i].locale)];
    ExtendJoin(Columns(localeValues[..i]), LocaleString(localeValues[i].locale), Columns(localeValues[..i + 1]), ", ");
  }

  lemma MarksStep(i: nat, sep: string)
    ensures Join(Marks(i + 1), sep) == (if i == 0 then "" else Join(Marks(i), sep) + sep) + "?"
  {
    assert Marks(i + 1) == Marks(i) + ["?"];
    ExtendJoin(Marks(i), "?", Marks(i + 1), sep);
  }

  lemma HeadText(table: string, keyColumn: string, keys: seq<LocalizedKey>, fields: string, marks: string)
    requires keys != []
    requires fields == Join(Columns(keys[0].localeValues[..|keys[0].localeValues|]), ", ")
    requires marks == Join(Marks(|keys[0].localeValues|), ", ")
    ensures "INSERT INTO " + table + " (" + keyColumn + ", " + fields + ") VALUES (?, " + marks + ")"
         == InsertSql(table, keyColumn, keys[..1])
  {
    assert keys[0].localeValues[..|keys[0].localeValues|] == keys[0].localeValues;
    assert keys[..1] == [keys[0]];
    assert ") VALUES (?, " == ") VALUES (" + "?, ";
  }

  lemma TupleText(table: string, keyColumn: string, keys: seq<LocalizedKey>, k: nat, sql: string, marks: string)
    requires 0 < k < |keys|
    requires sql == InsertSql(table, keyColumn, keys[..k])
    requires marks == Join(Marks(|keys[k].localeValues|), ", ")
    ensures sql + (",(?, " + marks + ")") == InsertSql(table, keyColumn, keys[..k + 1])
  {
    assert keys[..k + 1][..k] == keys[..k];
    assert ",(?, " == ",(" + "?, ";
  }

  lemma WhensSnoc(keyColumn: string, cases: seq<Case>, c: Case)
    ensures Whens(keyColumn, cases + [c]) == Whens(keyColumn, cases) + When(keyColumn, c)
  {
    assert (cases + [c])[..|cases|] == cases;
  }

  lemma KeyCasesStep(done: seq<LocalizedKey>, key: string, localeValues: seq<LocaleValue>, i: nat)
    requires i < |localeValues|
    ensures forall f :: Cases(done, f) + KeyCases(key, localeValues[..i + 1], f)
                     == Cases(done, f) + KeyCases(key, localeValues[..i], f)
                        + (if LocaleString(localeValues[i].locale) == f then [Case(key, localeValues[i].value)] else [])
  {
    assert localeValues[..i + 1][..i] == localeValues[..i];
  }

  /** The appends of one SET clause, as `updateKey` makes them. */
  lemma SetListAppend(sql0: string, keyColumn: string, batch: seq<LocalizedKey>, order: seq<string>, field: string,
                       before: string, after: string)
    requires before == sql0 + SetList(keyColumn, batch, order)
    requires after == before + SetClause(order == [], field, Whens(keyColumn, Cases(batch, field)))
    ensures after == sql0 + SetList(keyColumn, batch, order + [field])
  {
    assert (order + [field])[..|order|] == order;
  }

  /** Appending a field not yet listed keeps the order free of repeats. */
  lemma DistinctSnoc(order: seq<string>, field: string)
    requires forall i, j | 0 <= i < j < |order| :: order[i] != order[j]
    requires field !in order
    ensures forall i, j | 0 <= i < j < |order + [field]| :: (order + [field])[i] != (order + [field])[j]
  {
  }

  lemma UpdateText(table: string, keyColumn: string, keys: seq<LocalizedKey>, order: seq<string>, sql: string)
    requires sql == "UPDATE " + table + " SET " + SetList(keyColumn, keys, order)
                    + ("WHERE " + keyColumn + " IN (" + Join(Marks(|keys|), ",") + ")")
    ensures sql == UpdateSql(table, keyColumn, keys, order)
  {
  }

  lemma ClauseText(before: string, first: bool, field: string, whens: string)
    ensures first ==> before + field + (" = (CASE" + whens + " END)") == before + SetClause(first, field, whens)
    ensures !first ==> before + ", " + field + (" = (CASE" + whens + " END)") + " " == before + SetClause(first, field, whens)
  {
  }

  /** The text `export` appends before the value literals. */
  ghost function ExportHead(table: string, keyColumn: string, fields: string, key: string): (head: string)
    ensures head == "INSERT INTO " + table + " (" + keyColumn + ", " + fields + ") VALUES ('" + key + "'"
  {
    assert ") VALUES ('" == ") VALUES (" + "'";
    "INSERT INTO " + table + " (" + keyColumn + ", " + fields + ") VALUES (" + Quote(Some(key))
  }

  /** The field map of `updateKey` once the keys `done` are processed: each
      field maps to the WHEN branches of its cases. */
  ghost predicate AllBranches(keyColumn: string, m: map<string, string>, done: seq<LocalizedKey>) {
    && (forall f :: f in m <==> Cases(done, f) != [])
    && (forall f | f in m :: m[f] == Whens(keyColumn, Cases(done, f)))
  }

  /** One WHEN branch appended to a field's entry, which starts out empty:
      the entry of `field` is extended and every other entry is left alone. */
  function AddBranch(m: map<string, string>, field: string, branch: string): (next: map<string, string>)
    ensures field in next
    ensures next[field] == (if field in m then m[field] else "") + branch
    ensures forall f | f != field :: (f in next <==> f in m) && (f in m ==> next[f] == m[f])
  {
    m[field := (if field in m then m[field] else "") + branch]
  }

  /** Once every key is processed, the field map holds exactly the batch's
      fields, each with the WHEN branches of its cases. */
  lemma AllBranchesDone(keyColumn: string, m: map<string, string>, keys: seq<LocalizedKey>)
    requires AllBranches(keyColumn, m, keys[..|keys|])
    ensures m.Keys == Fields(keys)
    ensures forall f | f in m :: m[f] == Whens(keyColumn, Cases(keys, f))
  {
    assert keys[..|keys|] == keys;
    forall f
      ensures f in m <==> f in Fields(keys)
    {
      FieldsHaveCases(keys, f);
    }
  }

  /** The same, part-way through the locale values of the next key. */
  ghost predicate Branches(keyColumn: string, m: map<string, string>, done: seq<LocalizedKey>, key: string, localeValues: seq<LocaleValue>) {
    && (forall f :: f in m <==> Cases(done, f) + KeyCases(key, localeValues, f) != [])
    && (forall f | f in m :: m[f] == Whens(keyColumn, Cases(done, f) + KeyCases(key, localeValues, f)))
  }

  lemma BranchesStart(keyColumn: string, m: map<string, string>, done: seq<LocalizedKey>, key: string, localeValues: seq<LocaleValue>)
    requires AllBranches(keyColumn, m, done)
    ensures Branches(keyColumn, m, done, key, localeValues[..0])
  {
    assert localeValues[..0] == [];
    assert forall f :: Cases(done, f) + KeyCases(key, localeValues[..0], f) == Cases(done, f);
  }

  lemma BranchStep(keyColumn: string, done: seq<LocalizedKey>, key: string, localeValues: seq<LocaleValue>, i: nat,
                   m: map<string, string>, next: map<string, string>)
    requires i < |localeValues|
    requires Branches(keyColumn, m, done, key, localeValues[..i])
    requires var field := LocaleString(localeValues[i].locale);
             && field in next
             && next[field] == (if field in m then m[field] else "") + When(keyColumn, Case(key, localeValues[i].value))
             && forall f | f != field :: (f in next <==> f in m) && (f in m ==> next[f] == m[f])
    ensures Branches(keyColumn, next, done, key, localeValues[..i + 1])
  {
    var field := LocaleString(localeValues[i].locale);
    KeyCasesStep(done, key, localeValues, i);
    forall f
      ensures f in next <==> Cases(done, f) + KeyCases(key, localeValues[..i + 1], f) != []
      ensures f in next ==> next[f] == Whens(keyColumn, Cases(done, f) + KeyCases(key, localeValues[..i + 1], f))
    {
      var s := Cases(done, f) + KeyCases(key, localeValues[..i], f);
      if f == field {
        WhensSnoc(keyColumn, s, Case(key, localeValues[i].value));
      } else {
        assert s + [] == s;
      }
    }
  }

  lemma BranchesEnd(keyColumn: string, m: map<string, string>, keys: seq<LocalizedKey>, k: nat)
    requires k < |keys|
    requires Branches(keyColumn, m, keys[..k], keys[k].key, keys[k].localeValues[..|keys[k].localeValues|])
    ensures AllBranches(keyColumn, m, keys[..k + 1])
  {
    assert keys[..k + 1][..k] == keys[..k];
    assert keys[k].localeValues[..|keys[k].localeValues|] == keys[k].localeValues;
    assert forall f :: Cases(keys[..k + 1], f) == Cases(keys[..k], f) + KeyCases(keys[k].key, keys[k].localeValues, f);
  }

  lemma LiteralStep(prefix: string, values: seq<Option<string>>, i: nat, content: string, appended: string)
    requires i < |values|
    requires content == prefix + ExportLiterals(values[..i])
    requires appended == content + ", '" + Render(values[i]) + "'"
    ensures appended == prefix + ExportLiterals(values[..i + 1])
  {
    var lits, q := ExportLiterals(values[..i]), Quote(values[i]);
    assert values[..i + 1][..i] == values[..i];
    assert ExportLiterals(values[..i + 1]) == lits + ", " + q;
    QuoteAppend(content, Render(values[i]));
    LiteralJoin(prefix, lits, q);
  }

  lemma LiteralJoin(prefix: string, lits: string, q: string)
    ensures prefix + lits + ", " + q == prefix + (lits + ", " + q)
  {
  }

  lemma QuoteAppend(content: string, text: string)
    ensures content + ", '" + text + "'" == content + ", " + ("'" + text + "'")
  {
    assert ", '" == ", " + "'";
  }

  lemma ExportClose(before: string, table: string, keyColumn: string, locales: seq<Locale>, key: string,
                    values: seq<Option<string>>, content: string)
    requires content == before + ExportHead(table, keyColumn, Join(LocaleStrings(locales), ", "), key)
                        + ExportLiterals(values[..|values|]) + ");"
    ensures content == before + ExportText(table, keyColumn, locales, key, values)
  {
    assert values[..|values|] == values;
  }
}
