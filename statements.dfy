/** The statements the key store hands to the query executor: their SQL text
    and positional parameters, as functions of the inputs. */
module Statements {
  import opened Wrappers
  import opened Locales
  import opened SqlText

  /** One locale's value of a key; a null value means no translation. */
  datatype LocaleValue = LocaleValue(locale: Locale, value: Option<string>)

  /** A key with the locale values one write operation carries for it. */
  datatype LocalizedKey = LocalizedKey(key: string, localeValues: seq<LocaleValue>)

  /** SQL text with its `?` parameters, in order. */
  datatype Statement = Statement(sql: string, params: seq<Option<string>>)

  /** `SELECT field FROM t WHERE k = ?` for one key; a null field is written "null". */
  function SelectColumn(table: string, keyColumn: string, field: Option<string>, key: string): Statement {
    Statement("SELECT " + Render(field) + " FROM " + table + " WHERE " + keyColumn + " = ?", [Some(key)])
  }

  /** The select list of every locale, in locale-set order. */
  function SelectAll(table: string, keyColumn: string, locales: seq<Locale>, key: string): Statement {
    Statement("SELECT " + Join(LocaleStrings(locales), ", ") + " FROM " + table + " WHERE " + keyColumn + " = ?", [Some(key)])
  }

  function Delete(table: string, keyColumn: string, key: string): Statement {
    Statement("DELETE FROM " + table + " WHERE " + keyColumn + " = ?", [Some(key)])
  }

  /** INSERT ... SELECT copying every locale column of the source row under the
      (already escaped) destination key. */
  function Duplicate(table: string, keyColumn: string, locales: seq<Locale>, escapedDestination: string, sourceKey: string): Statement {
    Statement(
      "INSERT INTO " + table + " (SELECT '" + escapedDestination + "', " + Join(LocaleStrings(locales), ", ")
      + " FROM " + table + " WHERE " + keyColumn + " = ?)",
      [Some(sourceKey)])
  }

  lemma TrailingMarks()
    ensures MarkCount(" = ?") == 1 && MarkCount(" = ?)") == 1
  {
  }

  /** A text without `?` followed by " = ?" or " = ?)" holds a single `?`. */
  lemma {:induction false} OneTrailingMark(prefix: string, tail: string)
    requires NoMarks(prefix)
    requires tail == " = ?" || tail == " = ?)"
    ensures MarkCount(prefix + tail) == 1
  {
    TrailingMarks();
    MarkCountSum(prefix, tail);
    NoMarksCount(prefix);
  }

  // The literal parts of each statement hold no `?`; kept apart so that each
  // proof sees one statement shape over plain strings.

  lemma SelectPrefixNoMarks(columns: string, table: string, keyColumn: string)
    requires NoMarks(columns) && NoMarks(table) && NoMarks(keyColumn)
    ensures NoMarks("SELECT " + columns + " FROM " + table + " WHERE " + keyColumn)
  {
  }

  lemma DeletePrefixNoMarks(table: string, keyColumn: string)
    requires NoMarks(table) && NoMarks(keyColumn)
    ensures NoMarks("DELETE FROM " + table + " WHERE " + keyColumn)
  {
  }

  lemma DuplicatePrefixNoMarks(table: string, keyColumn: string, destination: string, columns: string)
    requires NoMarks(table) && NoMarks(keyColumn) && NoMarks(destination) && NoMarks(columns)
    ensures NoMarks("INSERT INTO " + table + " (SELECT '" + destination + "', " + columns + " FROM " + table + " WHERE " + keyColumn)
  {
  }

  /** The locale columns joined for a select list hold no `?` when no locale string does. */
  lemma {:induction false} LocaleColumnsNoMarks(locales: seq<Locale>)
    requires forall i | 0 <= i < |locales| :: NoMarks(LocaleString(locales[i]))
    ensures NoMarks(Join(LocaleStrings(locales), ", "))
  {
    JoinWithout(LocaleStrings(locales), ", ", '?');
  }

  /** The single-key statements have one placeholder for their one parameter,
      whenever the spliced names hold no `?`. */
  lemma {:induction false} SelectColumnPlaceholders(table: string, keyColumn: string, field: Option<string>, key: string)
    requires NoMarks(table) && NoMarks(keyColumn) && NoMarks(Render(field))
    ensures MarkCount(SelectColumn(table, keyColumn, field, key).sql) == |SelectColumn(table, keyColumn, field, key).params| == 1
  {
    SelectPrefixNoMarks(Render(field), table, keyColumn);
    OneTrailingMark("SELECT " + Render(field) + " FROM " + table + " WHERE " + keyColumn, " = ?");
  }

  lemma {:induction false} SelectAllPlaceholders(table: string, keyColumn: string, locales: seq<Locale>, key: string)
    requires NoMarks(table) && NoMarks(keyColumn)
    requires forall i | 0 <= i < |locales| :: NoMarks(LocaleString(locales[i]))
    ensures MarkCount(SelectAll(table, keyColumn, locales, key).sql) == |SelectAll(table, keyColumn, locales, key).params| == 1
  {
    LocaleColumnsNoMarks(locales);
    var columns := Join(LocaleStrings(locales), ", ");
    SelectPrefixNoMarks(columns, table, keyColumn);
    OneTrailingMark("SELECT " + columns + " FROM " + table + " WHERE " + keyColumn, " = ?");
  }

  lemma {:induction false} DeletePlaceholders(table: string, keyColumn: string, key: string)
    requires NoMarks(table) && NoMarks(keyColumn)
    ensures MarkCount(Delete(table, keyColumn, key).sql) == |Delete(table, keyColumn, key).params| == 1
  {
    DeletePrefixNoMarks(table, keyColumn);
    OneTrailingMark("DELETE FROM " + table + " WHERE " + keyColumn, " = ?");
  }

  lemma {:induction false} DuplicatePlaceholders(table: string, keyColumn: string, locales: seq<Locale>, escapedDestination: string, key: string)
    requires NoMarks(table) && NoMarks(keyColumn) && NoMarks(escapedDestination)
    requires forall i | 0 <= i < |locales| :: NoMarks(LocaleString(locales[i]))
    ensures MarkCount(Duplicate(table, keyColumn, locales, escapedDestination, key).sql)
         == |Duplicate(table, keyColumn, locales, escapedDestination, key).params| == 1
  {
    LocaleColumnsNoMarks(locales);
    var columns := Join(LocaleStrings(locales), ", ");
    DuplicatePrefixNoMarks(table, keyColumn, escapedDestination, columns);
    OneTrailingMark("INSERT INTO " + table + " (SELECT '" + escapedDestination + "', " + columns + " FROM " + table + " WHERE " + keyColumn, " = ?)");
  }

  lemma DuplicatePiecesNoMarks(table: string, keyColumn: string)
    requires NoMarks(table) && NoMarks(keyColumn)
    ensures NoMarks("INSERT INTO " + table + " (SELECT '") && NoMarks("', ")
    ensures NoMarks(" FROM " + table + " WHERE " + keyColumn)
  {
  }

  /** For any destination key, the duplicate holds one `?` for its parameter
      plus those of the quoted destination key and of the column list; only
      the table and key column need be free of `?`. */
  lemma {:induction false} DuplicateMarks(table: string, keyColumn: string, locales: seq<Locale>, escapedDestination: string, key: string)
    requires NoMarks(table) && NoMarks(keyColumn)
    ensures MarkCount(Duplicate(table, keyColumn, locales, escapedDestination, key).sql)
         == |Duplicate(table, keyColumn, locales, escapedDestination, key).params|
            + MarkCount(escapedDestination) + MarkCount(Join(LocaleStrings(locales), ", "))
  {
    var open := "INSERT INTO " + table + " (SELECT '";
    var columns := Join(LocaleStrings(locales), ", ");
    var close := " FROM " + table + " WHERE " + keyColumn + " = ?)";
    DuplicatePiecesNoMarks(table, keyColumn);
    TrailingMarks();
    NoMarksCount(open);
    NoMarksCount("', ");
    OneTrailingMark(" FROM " + table + " WHERE " + keyColumn, " = ?)");
    MarkCountSum5(open, escapedDestination, "', ", columns, close);
    DuplicateSqlPieces(table, keyColumn, escapedDestination, columns);
  }

  lemma DuplicateSqlPieces(table: string, keyColumn: string, destination: string, columns: string)
    ensures "INSERT INTO " + table + " (SELECT '" + destination + "', " + columns + " FROM " + table + " WHERE " + keyColumn + " = ?)"
         == ("INSERT INTO " + table + " (SELECT '") + destination + "', " + columns + (" FROM " + table + " WHERE " + keyColumn + " = ?)")
  {
  }

  // ---------------------------------------------------------------- export

  /** A SQL string literal of a value, quotes added but nothing escaped. */
  function Quote(v: Option<string>): string {
    "'" + Render(v) + "'"
  }

  function Quoted(vs: seq<Option<string>>): (r: seq<string>)
    ensures |r| == |vs|
    ensures forall i | 0 <= i < |vs| :: r[i] == Quote(vs[i])
  {
    seq(|vs|, i requires 0 <= i < |vs| => Quote(vs[i]))
  }

  /** The `, 'v'` pieces appended after the key literal, one per value. */
  function ExportLiterals(values: seq<Option<string>>): string
    decreases |values|
  {
    if values == [] then ""
    else ExportLiterals(values[..|values| - 1]) + ", " + Quote(values[|values| - 1])
  }

  /** The text `export` appends for a key whose locale values, in locale-set
      order, are `values`. */
  function ExportText(table: string, keyColumn: string, locales: seq<Locale>, key: string, values: seq<Option<string>>): string {
    "INSERT INTO " + table + " (" + keyColumn + ", " + Join(LocaleStrings(locales), ", ") + ") VALUES (" + Quote(Some(key))
    + ExportLiterals(values) + ");"
  }

  /** The key literal followed by the value literals is the join of all literals. */
  lemma {:induction false} ExportLiteralsJoin(key: string, values: seq<Option<string>>)
    ensures Quote(Some(key)) + ExportLiterals(values) == Join(Quoted([Some(key)] + values), ", ")
    decreases |values|
  {
    var k := Quote(Some(key));
    if values == [] {
      assert [Some(key)] + values == [Some(key)];
      assert Quoted([Some(key)]) == [k];
      assert k + ExportLiterals(values) == k;
    } else {
      var init := values[..|values| - 1];
      var last := values[|values| - 1];
      var q := Quote(last);
      ExportLiteralsJoin(key, init);
      assert ExportLiterals(values) == ExportLiterals(init) + ", " + q;
      assert Quoted([Some(key)] + values) == Quoted([Some(key)] + init) + [q];
      JoinSnoc(Quoted([Some(key)] + init), q, ", ");
      Associate(k, ExportLiterals(init), ", ", q);
    }
  }

  lemma Associate(a: string, b: string, c: string, d: string)
    ensures a + (b + c + d) == (a + b) + c + d
  {
  }

  /** The exported text is one single-row INSERT naming the key column and every
      locale column, in locale-set order, with one literal per column: the key,
      then each locale's value. */
  lemma ExportIsSingleRowInsert(table: string, keyColumn: string, locales: seq<Locale>, key: string, values: seq<Option<string>>)
    requires |locales| == |values| > 0
    ensures |[keyColumn] + LocaleStrings(locales)| == |Quoted([Some(key)] + values)|
    ensures ExportText(table, keyColumn, locales, key, values)
         == "INSERT INTO " + table + " (" + Join([keyColumn] + LocaleStrings(locales), ", ") + ") VALUES ("
            + Join(Quoted([Some(key)] + values), ", ") + ");"
  {
    JoinCons(keyColumn, LocaleStrings(locales), ", ");
    ExportLiteralsJoin(key, values);
    InsertShape(table, keyColumn, Join(LocaleStrings(locales), ", "), Quote(Some(key)), ExportLiterals(values));
  }

  lemma InsertShape(table: string, first: string, rest: string, head: string, tail: string)
    ensures "INSERT INTO " + table + " (" + first + ", " + rest + ") VALUES (" + head + tail + ");"
         == "INSERT INTO " + table + " (" + (first + ", " + rest) + ") VALUES (" + (head + tail) + ");"
  {
  }

  /** With no registered locale the column list is empty but its separator
      stays: `(k, ) VALUES ('key');`. */
  lemma ExportEmptyRegistry(table: string, keyColumn: string, key: string)
    ensures ExportText(table, keyColumn, [], key, []) == "INSERT INTO " + table + " (" + keyColumn + ", ) VALUES ('" + key + "');"
  {
    assert LocaleStrings([]) == [];
  }
}
