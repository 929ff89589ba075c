/** The batch statements: one multi-row INSERT, and one UPDATE whose SET list
    has a CASE per locale column. */
module BatchStatements {
  import opened Wrappers
  import opened Locales
  import opened SqlText
  import opened Statements

  /** The values of some locale values, in order. */
  function Values(lvs: seq<LocaleValue>): (vs: seq<Option<string>>)
    ensures |vs| == |lvs|
    ensures forall i | 0 <= i < |lvs| :: vs[i] == lvs[i].value
  {
    seq(|lvs|, i requires 0 <= i < |lvs| => lvs[i].value)
  }

  /** The column names of some locale values: their locales as strings, in order. */
  function Columns(lvs: seq<LocaleValue>): (cs: seq<string>)
    ensures |cs| == |lvs|
    ensures forall i | 0 <= i < |lvs| :: cs[i] == LocaleString(lvs[i].locale)
  {
    seq(|lvs|, i requires 0 <= i < |lvs| => LocaleString(lvs[i].locale))
  }

  // ---------------------------------------------------------------- insert

  /** The statement up to the first row: the column list comes from the first
      key alone. */
  function InsertHead(table: string, keyColumn: string, first: LocalizedKey): string {
    "INSERT INTO " + table + " (" + keyColumn + ", " + Join(Columns(first.localeValues), ", ") + ") VALUES ("
    + "?, " + Join(Marks(|first.localeValues|), ", ") + ")"
  }

  /** The tuple a later key adds: its key and one placeholder per value. */
  function InsertTuple(k: LocalizedKey): string {
    ",(" + "?, " + Join(Marks(|k.localeValues|), ", ") + ")"
  }

  function InsertSql(table: string, keyColumn: string, batch: seq<LocalizedKey>): string
    requires batch != []
    decreases |batch|
  {
    if |batch| == 1 then InsertHead(table, keyColumn, batch[0])
    else InsertSql(table, keyColumn, batch[..|batch| - 1]) + InsertTuple(batch[|batch| - 1])
  }

  /** toInsertValues: for each key in order, the key and then its values. */
  function InsertValues(batch: seq<LocalizedKey>): seq<Option<string>>
    decreases |batch|
  {
    if batch == [] then []
    else
      var last := batch[|batch| - 1];
      InsertValues(batch[..|batch| - 1]) + [Some(last.key)] + Values(last.localeValues)
  }

  function Insert(table: string, keyColumn: string, batch: seq<LocalizedKey>): Statement
    requires batch != []
  {
    Statement(InsertSql(table, keyColumn, batch), InsertValues(batch))
  }

  lemma InsertLiterals()
    ensures MarkCount("?, ") == 1 && MarkCount(")") == 0
  {
  }

  lemma InsertPrefixNoMarks(table: string, keyColumn: string, columns: string)
    requires NoMarks(table) && NoMarks(keyColumn) && NoMarks(columns)
    ensures NoMarks("INSERT INTO " + table + " (" + keyColumn + ", " + columns + ") VALUES (")
  {
  }

  lemma TupleOpenNoMarks()
    ensures NoMarks(",(")
  {
  }

  /** `prefix` `?, ` `marks` `)` holds one `?` more than `marks`. */
  lemma {:induction false} TupleMarks(prefix: string, marks: string)
    requires NoMarks(prefix)
    ensures MarkCount(prefix + "?, " + marks + ")") == 1 + MarkCount(marks)
  {
    InsertLiterals();
    NoMarksCount(prefix);
    MarkCountSum(prefix, "?, ");
    MarkCountSum(prefix + "?, ", marks);
    MarkCountSum(prefix + "?, " + marks, ")");
  }

  lemma {:induction false} InsertHeadMarks(table: string, keyColumn: string, first: LocalizedKey)
    requires NoMarks(table) && NoMarks(keyColumn)
    requires forall i | 0 <= i < |first.localeValues| :: NoMarks(LocaleString(first.localeValues[i].locale))
    ensures MarkCount(InsertHead(table, keyColumn, first)) == 1 + |first.localeValues|
  {
    var columns := Join(Columns(first.localeValues), ", ");
    JoinWithout(Columns(first.localeValues), ", ", '?');
    InsertPrefixNoMarks(table, keyColumn, columns);
    PlaceholderCount(|first.localeValues|, ", ");
    TupleMarks("INSERT INTO " + table + " (" + keyColumn + ", " + columns + ") VALUES (", Join(Marks(|first.localeValues|), ", "));
  }

  lemma {:induction false} InsertTupleMarks(k: LocalizedKey)
    ensures MarkCount(InsertTuple(k)) == 1 + |k.localeValues|
  {
    TupleOpenNoMarks();
    PlaceholderCount(|k.localeValues|, ", ");
    TupleMarks(",(", Join(Marks(|k.localeValues|), ", "));
  }

  /** The insert statement has exactly one placeholder per parameter, whenever
      the table, the key column and the first key's column names hold no `?`. */
  lemma {:induction false} InsertPlaceholders(table: string, keyColumn: string, batch: seq<LocalizedKey>)
    requires batch != []
    requires NoMarks(table) && NoMarks(keyColumn)
    requires forall i | 0 <= i < |batch[0].localeValues| :: NoMarks(LocaleString(batch[0].localeValues[i].locale))
    ensures MarkCount(Insert(table, keyColumn, batch).sql) == |Insert(table, keyColumn, batch).params|
    decreases |batch|
  {
    var last := batch[|batch| - 1];
    var init := batch[..|batch| - 1];
    assert |InsertValues(batch)| == |InsertValues(init)| + 1 + |last.localeValues|;
    if |batch| == 1 {
      InsertHeadMarks(table, keyColumn, batch[0]);
      assert init == [];
    } else {
      assert init[0] == batch[0];
      InsertPlaceholders(table, keyColumn, init);
      InsertTupleMarks(last);
      MarkCountSum(InsertSql(table, keyColumn, init), InsertTuple(last));
    }
  }

  /** The statement text depends only on the first key's locales and on how
      many values each key has: nothing checks that later keys carry the same
      locales as the first. */
  lemma {:induction false} InsertIgnoresLaterLocales(table: string, keyColumn: string, b1: seq<LocalizedKey>, b2: seq<LocalizedKey>)
    requires |b1| == |b2| > 0
    requires Columns(b1[0].localeValues) == Columns(b2[0].localeValues)
    requires forall k | 0 <= k < |b1| :: |b1[k].localeValues| == |b2[k].localeValues|
    ensures InsertSql(table, keyColumn, b1) == InsertSql(table, keyColumn, b2)
    decreases |b1|
  {
    if |b1| > 1 {
      InsertIgnoresLaterLocales(table, keyColumn, b1[..|b1| - 1], b2[..|b2| - 1]);
    }
  }

  /** The first key's part of the statement, naming the columns, is never
      changed by the keys that follow. */
  lemma {:induction false} InsertStartsWithHead(table: string, keyColumn: string, batch: seq<LocalizedKey>)
    requires batch != []
    ensures InsertHead(table, keyColumn, batch[0]) <= InsertSql(table, keyColumn, batch)
    decreases |batch|
  {
    if |batch| > 1 {
      var init := batch[..|batch| - 1];
      assert init[0] == batch[0];
      InsertStartsWithHead(table, keyColumn, init);
    }
  }

  lemma {:induction false} InsertValuesAppend(a: seq<LocalizedKey>, b: seq<LocalizedKey>)
    ensures InsertValues(a + b) == InsertValues(a) + InsertValues(b)
    decreases |b|
  {
    if b == [] {
      assert a + b == a;
    } else {
      var init := b[..|b| - 1];
      assert (a + b)[..|a + b| - 1] == a + init;
      InsertValuesAppend(a, init);
    }
  }

  /** The parameters are those of the keys before the k-th, then the k-th
      key's own, then those of the keys after it. */
  lemma {:induction false} InsertValuesSplit(batch: seq<LocalizedKey>, k: nat)
    requires k < |batch|
    ensures InsertValues(batch)
         == InsertValues(batch[..k]) + ([Some(batch[k].key)] + Values(batch[k].localeValues)) + InsertValues(batch[k + 1..])
  {
    var before, rest := batch[..k], batch[k + 1..];
    var key := batch[k];
    assert batch == (before + [key]) + rest;
    InsertValuesAppend(before + [key], rest);
    InsertValuesAppend(before, [key]);
    assert [key][..0] == [];
  }

  lemma MiddleAt<T>(a: seq<T>, m: seq<T>, c: seq<T>, i: nat)
    requires i < |m|
    ensures |a| + i < |a + m + c| && (a + m + c)[|a| + i] == m[i]
  {
  }

  /** The parameters of the k-th key start right after those of the keys
      before it: first its key, then its values in order. */
  lemma {:induction false} InsertRowParameters(batch: seq<LocalizedKey>, k: nat, j: nat)
    requires k < |batch| && j < |batch[k].localeValues|
    ensures |InsertValues(batch[..k])| + 1 + j < |InsertValues(batch)|
    ensures InsertValues(batch)[|InsertValues(batch[..k])|] == Some(batch[k].key)
    ensures InsertValues(batch)[|InsertValues(batch[..k])| + 1 + j] == batch[k].localeValues[j].value
  {
    InsertValuesSplit(batch, k);
    var row := [Some(batch[k].key)] + Values(batch[k].localeValues);
    MiddleAt(InsertValues(batch[..k]), row, InsertValues(batch[k + 1..]), 0);
    MiddleAt(InsertValues(batch[..k]), row, InsertValues(batch[k + 1..]), 1 + j);
  }

  /** When every key has `n` values, the k-th key's parameters start at k * (n + 1). */
  lemma {:induction false} UniformInsertOffsets(batch: seq<LocalizedKey>, n: nat)
    requires forall k | 0 <= k < |batch| :: |batch[k].localeValues| == n
    ensures |InsertValues(batch)| == |batch| * (n + 1)
    decreases |batch|
  {
    if batch != [] {
      UniformInsertOffsets(batch[..|batch| - 1], n);
      assert (|batch| - 1) * (n + 1) + n + 1 == |batch| * (n + 1);
    }
  }

  // ---------------------------------------------------------------- update

  /** One branch of a column's CASE: the key it applies to and the value it sets. */
  datatype Case = Case(key: string, value: Option<string>)

  /** The branches one key contributes to `field`: one per locale value whose
      locale string is `field`, in order. */
  function KeyCases(key: string, lvs: seq<LocaleValue>, field: string): seq<Case>
    decreases |lvs|
  {
    if lvs == [] then []
    else
      var last := lvs[|lvs| - 1];
      KeyCases(key, lvs[..|lvs| - 1], field)
      + (if LocaleString(last.locale) == field then [Case(key, last.value)] else [])
  }

  /** The branches of `field`'s CASE, in batch order. */
  function Cases(batch: seq<LocalizedKey>, field: string): seq<Case>
    decreases |batch|
  {
    if batch == [] then []
    else
      var last := batch[|batch| - 1];
      Cases(batch[..|batch| - 1], field) + KeyCases(last.key, last.localeValues, field)
  }

  /** ` WHEN k = 'key' THEN 'value'`, key and value spliced in unescaped. */
  function When(keyColumn: string, c: Case): string {
    " WHEN " + keyColumn + " = '" + c.key + "' THEN '" + Render(c.value) + "'"
  }

  function Whens(keyColumn: string, cases: seq<Case>): string
    decreases |cases|
  {
    if cases == [] then "" else Whens(keyColumn, cases[..|cases| - 1]) + When(keyColumn, cases[|cases| - 1])
  }

  /** Every locale string that some key of the batch carries a value for. */
  function Fields(batch: seq<LocalizedKey>): set<string> {
    set k, i | 0 <= k < |batch| && 0 <= i < |batch[k].localeValues| :: LocaleString(batch[k].localeValues[i].locale)
  }

  /** A SET entry; every entry but the first has a comma before it and a blank after it. */
  function SetClause(first: bool, field: string, whens: string): string {
    (if first then "" else ", ") + field + " = (CASE" + whens + " END)" + (if first then "" else " ")
  }

  /** The SET list, with the fields in the order `order`. */
  function SetList(keyColumn: string, batch: seq<LocalizedKey>, order: seq<string>): string
    decreases |order|
  {
    if order == [] then ""
    else
      var field := order[|order| - 1];
      SetList(keyColumn, batch, order[..|order| - 1])
      + SetClause(|order| == 1, field, Whens(keyColumn, Cases(batch, field)))
  }

  /** The fields in some iteration order of a hash map: each field once. */
  ghost predicate IsFieldOrder(order: seq<string>, batch: seq<LocalizedKey>) {
    && (forall i, j | 0 <= i < j < |order| :: order[i] != order[j])
    && (forall f :: f in order <==> f in Fields(batch))
  }

  function UpdateSql(table: string, keyColumn: string, batch: seq<LocalizedKey>, order: seq<string>): string {
    "UPDATE " + table + " SET " + SetList(keyColumn, batch, order) + "WHERE " + keyColumn + " IN (" + Join(Marks(|batch|), ",") + ")"
  }

  /** toUpdateValues: the keys, in batch order. */
  function UpdateValues(batch: seq<LocalizedKey>): (vs: seq<Option<string>>)
    ensures |vs| == |batch|
    ensures forall k | 0 <= k < |batch| :: vs[k] == Some(batch[k].key)
  {
    seq(|batch|, k requires 0 <= k < |batch| => Some(batch[k].key))
  }

  function Update(table: string, keyColumn: string, batch: seq<LocalizedKey>, order: seq<string>): Statement {
    Statement(UpdateSql(table, keyColumn, batch, order), UpdateValues(batch))
  }

  /** One of the locale values has locale string `field` and value `v`. */
  predicate Carries(lvs: seq<LocaleValue>, field: string, v: Option<string>) {
    exists i | 0 <= i < |lvs| :: LocaleString(lvs[i].locale) == field && lvs[i].value == v
  }

  /** A key contributes a branch for (key, v) to `field` exactly when one of its
      locale values has that locale string and value. */
  lemma {:induction false} KeyCasesComplete(key: string, lvs: seq<LocaleValue>, field: string, v: Option<string>)
    ensures Case(key, v) in KeyCases(key, lvs, field) <==> Carries(lvs, field, v)
    decreases |lvs|
  {
    if lvs != [] {
      KeyCasesComplete(key, lvs[..|lvs| - 1], field, v);
      CarriesSnoc(lvs, field, v);
    }
  }

  /** A sequence carries a value exactly when its prefix does or its last entry is it. */
  lemma CarriesSnoc(lvs: seq<LocaleValue>, field: string, v: Option<string>)
    requires lvs != []
    ensures Carries(lvs, field, v)
        <==> Carries(lvs[..|lvs| - 1], field, v) || (LocaleString(lvs[|lvs| - 1].locale) == field && lvs[|lvs| - 1].value == v)
  {
    var init := lvs[..|lvs| - 1];
    if Carries(init, field, v) {
      var i :| 0 <= i < |init| && LocaleString(init[i].locale) == field && init[i].value == v;
      assert lvs[i] == init[i];
    }
    if Carries(lvs, field, v) {
      var i :| 0 <= i < |lvs| && LocaleString(lvs[i].locale) == field && lvs[i].value == v;
      if i < |init| {
        assert init[i] == lvs[i];
      }
    }
  }

  /** Every branch of a key's cases is for that key. */
  lemma {:induction false} KeyCasesKey(key: string, lvs: seq<LocaleValue>, field: string)
    ensures forall c | c in KeyCases(key, lvs, field) :: c.key == key
    decreases |lvs|
  {
    if lvs != [] {
      KeyCasesKey(key, lvs[..|lvs| - 1], field);
    }
  }

  /** A branch of `field`'s CASE comes from a key of the batch carrying that value. */
  lemma {:induction false} CasesSound(batch: seq<LocalizedKey>, field: string, c: Case)
    requires c in Cases(batch, field)
    ensures exists k | 0 <= k < |batch| :: batch[k].key == c.key && Carries(batch[k].localeValues, field, c.value)
    decreases |batch|
  {
    var init := batch[..|batch| - 1];
    var last := batch[|batch| - 1];
    if c in Cases(init, field) {
      CasesSound(init, field, c);
      var k :| 0 <= k < |init| && init[k].key == c.key && Carries(init[k].localeValues, field, c.value);
      assert batch[k] == init[k];
    } else {
      KeyCasesKey(last.key, last.localeValues, field);
      KeyCasesComplete(last.key, last.localeValues, field, c.value);
      assert batch[|batch| - 1] == last;
    }
  }

  /** Every value a key of the batch carries for `field` has its branch in `field`'s CASE. */
  lemma {:induction false} CasesComplete(batch: seq<LocalizedKey>, field: string, k: nat, v: Option<string>)
    requires k < |batch| && Carries(batch[k].localeValues, field, v)
    ensures Case(batch[k].key, v) in Cases(batch, field)
    decreases |batch|
  {
    var init := batch[..|batch| - 1];
    var last := batch[|batch| - 1];
    if k < |init| {
      assert init[k] == batch[k];
      CasesComplete(init, field, k, v);
    } else {
      KeyCasesComplete(last.key, last.localeValues, field, v);
    }
  }

  /** A column is in the SET list's field set exactly when its CASE has a branch. */
  lemma {:induction false} FieldsHaveCases(batch: seq<LocalizedKey>, field: string)
    ensures field in Fields(batch) <==> Cases(batch, field) != []
  {
    if field in Fields(batch) {
      var k, i :| 0 <= k < |batch| && 0 <= i < |batch[k].localeValues| && LocaleString(batch[k].localeValues[i].locale) == field;
      assert Carries(batch[k].localeValues, field, batch[k].localeValues[i].value);
      CasesComplete(batch, field, k, batch[k].localeValues[i].value);
    }
    if Cases(batch, field) != [] {
      CasesSound(batch, field, Cases(batch, field)[0]);
    }
  }

  lemma {:induction false} DistinctCardinality(s: seq<string>)
    requires forall i, j | 0 <= i < j < |s| :: s[i] != s[j]
    ensures |set x | x in s| == |s|
    decreases |s|
  {
    if s != [] {
      var init := s[..|s| - 1];
      DistinctCardinality(init);
      assert (set x | x in s) == (set x | x in init) + {s[|s| - 1]};
      assert s[|s| - 1] !in init;
    }
  }

  /** The SET list has as many entries as the batch has distinct locale strings. */
  lemma {:induction false} FieldOrderSize(order: seq<string>, batch: seq<LocalizedKey>)
    requires IsFieldOrder(order, batch)
    ensures |order| == |Fields(batch)|
  {
    DistinctCardinality(order);
    assert (set x | x in order) == Fields(batch);
  }

  /** A CASE has no ELSE. Take a field of the batch and a key such that no
      entry of the batch with that key carries a value for the field. The field
      is in every SET order, the key is among the UPDATE's parameters, so its
      row is matched by the IN list, and the field's CASE has no branch for it:
      the row's column is set to NULL. */
  lemma {:induction false} MissingFieldSetToNull(batch: seq<LocalizedKey>, field: string, order: seq<string>, k: nat)
    requires IsFieldOrder(order, batch)
    requires field in Fields(batch)
    requires k < |batch|
    requires forall j, i | 0 <= j < |batch| && batch[j].key == batch[k].key && 0 <= i < |batch[j].localeValues| ::
               LocaleString(batch[j].localeValues[i].locale) != field
    ensures field in order
    ensures Some(batch[k].key) in UpdateValues(batch)
    ensures forall c | c in Cases(batch, field) :: c.key != batch[k].key
  {
    assert UpdateValues(batch)[k] == Some(batch[k].key);
    forall c | c in Cases(batch, field)
      ensures c.key != batch[k].key
    {
      CasesSound(batch, field, c);
      var j :| 0 <= j < |batch| && batch[j].key == c.key && Carries(batch[j].localeValues, field, c.value);
      var i :| 0 <= i < |batch[j].localeValues| && LocaleString(batch[j].localeValues[i].locale) == field
                && batch[j].localeValues[i].value == c.value;
    }
  }

  lemma WhenNoMarks(keyColumn: string, key: string, value: string)
    requires NoMarks(keyColumn) && NoMarks(key) && NoMarks(value)
    ensures NoMarks(" WHEN " + keyColumn + " = '" + key + "' THEN '" + value + "'")
  {
  }

  lemma {:induction false} WhensNoMarks(keyColumn: string, cases: seq<Case>)
    requires NoMarks(keyColumn)
    requires forall c | c in cases :: NoMarks(c.key) && NoMarks(Render(c.value))
    ensures NoMarks(Whens(keyColumn, cases))
    decreases |cases|
  {
    if cases != [] {
      var last := cases[|cases| - 1];
      WhensNoMarks(keyColumn, cases[..|cases| - 1]);
      WhenNoMarks(keyColumn, last.key, Render(last.value));
    }
  }

  lemma SetClauseNoMarks(first: bool, field: string, whens: string)
    requires NoMarks(field) && NoMarks(whens)
    ensures NoMarks(SetClause(first, field, whens))
  {
  }

  /** Keys, values and locale strings of a batch that hold no `?`. */
  ghost predicate BatchNoMarks(batch: seq<LocalizedKey>) {
    forall k | 0 <= k < |batch| ::
      && NoMarks(batch[k].key)
      && forall i | 0 <= i < |batch[k].localeValues| ::
           NoMarks(Render(batch[k].localeValues[i].value)) && NoMarks(LocaleString(batch[k].localeValues[i].locale))
  }

  lemma {:induction false} CaseTextNoMarks(keyColumn: string, batch: seq<LocalizedKey>, field: string)
    requires NoMarks(keyColumn) && BatchNoMarks(batch)
    ensures NoMarks(Whens(keyColumn, Cases(batch, field)))
  {
    forall c | c in Cases(batch, field)
      ensures NoMarks(c.key) && NoMarks(Render(c.value))
    {
      CasesSound(batch, field, c);
      var k :| 0 <= k < |batch| && batch[k].key == c.key && Carries(batch[k].localeValues, field, c.value);
      var i :| 0 <= i < |batch[k].localeValues| && LocaleString(batch[k].localeValues[i].locale) == field && batch[k].localeValues[i].value == c.value;
    }
    WhensNoMarks(keyColumn, Cases(batch, field));
  }

  lemma {:induction false} SetListNoMarks(keyColumn: string, batch: seq<LocalizedKey>, order: seq<string>)
    requires NoMarks(keyColumn) && BatchNoMarks(batch)
    requires forall f | f in order :: f in Fields(batch)
    ensures NoMarks(SetList(keyColumn, batch, order))
    decreases |order|
  {
    if order != [] {
      var field := order[|order| - 1];
      SetListNoMarks(keyColumn, batch, order[..|order| - 1]);
      CaseTextNoMarks(keyColumn, batch, field);
      assert NoMarks(field) by {
        assert field in Fields(batch);
        var k, i :| 0 <= k < |batch| && 0 <= i < |batch[k].localeValues| && LocaleString(batch[k].localeValues[i].locale) == field;
      }
      SetClauseNoMarks(|order| == 1, field, Whens(keyColumn, Cases(batch, field)));
    }
  }

  lemma UpdatePrefixNoMarks(table: string, setList: string, keyColumn: string)
    requires NoMarks(table) && NoMarks(setList) && NoMarks(keyColumn)
    ensures NoMarks("UPDATE " + table + " SET " + setList + "WHERE " + keyColumn + " IN (")
  {
  }

  lemma ClosingNoMarks()
    ensures NoMarks(")")
  {
  }

  /** The only placeholders of the update are those of its `IN (...)` list, one
      per key, matching its parameters, whenever nothing spliced into the text
      holds a `?`. */
  lemma {:induction false} UpdatePlaceholders(table: string, keyColumn: string, batch: seq<LocalizedKey>, order: seq<string>)
    requires NoMarks(table) && NoMarks(keyColumn) && BatchNoMarks(batch)
    requires forall f | f in order :: f in Fields(batch)
    ensures MarkCount(Update(table, keyColumn, batch, order).sql) == |Update(table, keyColumn, batch, order).params| == |batch|
  {
    var setList := SetList(keyColumn, batch, order);
    SetListNoMarks(keyColumn, batch, order);
    var prefix := "UPDATE " + table + " SET " + setList + "WHERE " + keyColumn + " IN (";
    UpdatePrefixNoMarks(table, setList, keyColumn);
    ClosingNoMarks();
    var keys := Join(Marks(|batch|), ",");
    PlaceholderCount(|batch|, ",");
    NoMarksCount(prefix);
    NoMarksCount(")");
    MarkCountSum(prefix, keys);
    MarkCountSum(prefix + keys, ")");
  }

  /** The `?` characters inside the quoted keys and values of some branches. */
  function CaseMarks(cases: seq<Case>): nat
    decreases |cases|
  {
    if cases == [] then 0
    else
      var c := cases[|cases| - 1];
      CaseMarks(cases[..|cases| - 1]) + MarkCount(c.key) + MarkCount(Render(c.value))
  }

  /** The `?` characters inside the quoted keys and values of the CASEs of the
      fields of `order`. */
  function QuotedMarks(batch: seq<LocalizedKey>, order: seq<string>): nat
    decreases |order|
  {
    if order == [] then 0
    else QuotedMarks(batch, order[..|order| - 1]) + CaseMarks(Cases(batch, order[|order| - 1]))
  }

  lemma WhenPiecesNoMarks(keyColumn: string)
    requires NoMarks(keyColumn)
    ensures NoMarks(" WHEN " + keyColumn + " = '") && NoMarks("' THEN '") && NoMarks("'")
  {
  }

  /** A WHEN branch holds the `?` of its quoted key and value and no other. */
  lemma {:induction false} WhenMarks(keyColumn: string, c: Case)
    requires NoMarks(keyColumn)
    ensures MarkCount(When(keyColumn, c)) == MarkCount(c.key) + MarkCount(Render(c.value))
  {
    var open := " WHEN " + keyColumn + " = '";
    WhenPiecesNoMarks(keyColumn);
    NoMarksCount(open);
    NoMarksCount("' THEN '");
    NoMarksCount("'");
    MarkCountSum5(open, c.key, "' THEN '", Render(c.value), "'");
  }

  lemma {:induction false} WhensMarks(keyColumn: string, cases: seq<Case>)
    requires NoMarks(keyColumn)
    ensures MarkCount(Whens(keyColumn, cases)) == CaseMarks(cases)
    decreases |cases|
  {
    if cases != [] {
      var init, last := cases[..|cases| - 1], cases[|cases| - 1];
      WhensMarks(keyColumn, init);
      WhenMarks(keyColumn, last);
      MarkCountSum(Whens(keyColumn, init), When(keyColumn, last));
    }
  }

  lemma SetClausePiecesNoMarks()
    ensures NoMarks(", ") && NoMarks(" = (CASE") && NoMarks(" END)") && NoMarks(" ") && NoMarks("")
  {
  }

  /** A SET entry holds the `?` of its field name and of its WHEN branches. */
  lemma {:induction false} SetClauseMarks(first: bool, field: string, whens: string)
    ensures MarkCount(SetClause(first, field, whens)) == MarkCount(field) + MarkCount(whens)
  {
    var lead := if first then "" else ", ";
    var trail := if first then "" else " ";
    SetClausePiecesNoMarks();
    NoMarksCount(lead);
    NoMarksCount(trail);
    NoMarksCount(" = (CASE");
    NoMarksCount(" END)");
    MarkCountSum(lead, field);
    MarkCountSum5(lead + field, " = (CASE", whens, " END)", trail);
  }

  /** When no field name holds a `?`, every `?` of the SET list lies inside a
      quoted key or value of a WHEN branch. */
  lemma {:induction false} SetListMarks(keyColumn: string, batch: seq<LocalizedKey>, order: seq<string>)
    requires NoMarks(keyColumn)
    requires forall f | f in order :: NoMarks(f)
    ensures MarkCount(SetList(keyColumn, batch, order)) == QuotedMarks(batch, order)
    decreases |order|
  {
    if order != [] {
      var init := order[..|order| - 1];
      assert forall f | f in init :: f in order;
      SetListMarks(keyColumn, batch, init);
      SetListMarksStep(keyColumn, batch, order);
    }
  }

  lemma {:induction false} SetListMarksStep(keyColumn: string, batch: seq<LocalizedKey>, order: seq<string>)
    requires NoMarks(keyColumn) && order != [] && NoMarks(order[|order| - 1])
    requires MarkCount(SetList(keyColumn, batch, order[..|order| - 1])) == QuotedMarks(batch, order[..|order| - 1])
    ensures MarkCount(SetList(keyColumn, batch, order)) == QuotedMarks(batch, order)
  {
    var field := order[|order| - 1];
    var whens := Whens(keyColumn, Cases(batch, field));
    WhensMarks(keyColumn, Cases(batch, field));
    SetClauseMarks(|order| == 1, field, whens);
    NoMarksCount(field);
    MarkCountSum(SetList(keyColumn, batch, order[..|order| - 1]), SetClause(|order| == 1, field, whens));
  }

  lemma UpdatePiecesNoMarks(table: string, keyColumn: string)
    requires NoMarks(table) && NoMarks(keyColumn)
    ensures NoMarks("UPDATE " + table + " SET ") && NoMarks("WHERE " + keyColumn + " IN (") && NoMarks(")")
  {
  }

  /** For any batch, the UPDATE holds one `?` per parameter, from its `IN (...)`
      list, plus those of its SET list; only the table and key column need be
      free of `?`. */
  lemma {:induction false} UpdateMarks(table: string, keyColumn: string, batch: seq<LocalizedKey>, order: seq<string>)
    requires NoMarks(table) && NoMarks(keyColumn)
    ensures MarkCount(Update(table, keyColumn, batch, order).sql)
         == |Update(table, keyColumn, batch, order).params| + MarkCount(SetList(keyColumn, batch, order))
  {
    var head := "UPDATE " + table + " SET ";
    var setList := SetList(keyColumn, batch, order);
    var where := "WHERE " + keyColumn + " IN (";
    var keys := Join(Marks(|batch|), ",");
    UpdatePiecesNoMarks(table, keyColumn);
    NoMarksCount(head);
    NoMarksCount(where);
    NoMarksCount(")");
    PlaceholderCount(|batch|, ",");
    MarkCountSum5(head, setList, where, keys, ")");
    UpdateSqlPieces(table, keyColumn, setList, keys);
  }

  lemma UpdateSqlPieces(table: string, keyColumn: string, setList: string, keys: string)
    ensures "UPDATE " + table + " SET " + setList + "WHERE " + keyColumn + " IN (" + keys + ")"
         == ("UPDATE " + table + " SET ") + setList + ("WHERE " + keyColumn + " IN (") + keys + ")"
  {
  }

  /** With `?`-free names, the UPDATE's `?` characters are one per key plus
      those inside its quoted keys and values, which JDBC does not read as
      placeholders. */
  lemma {:induction false} UpdateQuotedMarks(table: string, keyColumn: string, batch: seq<LocalizedKey>, order: seq<string>)
    requires NoMarks(table) && NoMarks(keyColumn)
    requires forall f | f in order :: NoMarks(f)
    ensures MarkCount(Update(table, keyColumn, batch, order).sql) == |batch| + QuotedMarks(batch, order)
  {
    UpdateMarks(table, keyColumn, batch, order);
    SetListMarks(keyColumn, batch, order);
  }

  /** A first key without values leaves an empty column list and a dangling
      separator in the tuple: `(k, ) VALUES (?, )`. */
  lemma InsertHeadWithoutValues(table: string, keyColumn: string, first: LocalizedKey)
    requires first.localeValues == []
    ensures InsertHead(table, keyColumn, first) == "INSERT INTO " + table + " (" + keyColumn + ", ) VALUES (?, )"
  {
    assert Columns(first.localeValues) == [] && Marks(0) == [];
  }

  /** A batch that carries no values has no field, so the SET list is empty:
      `UPDATE t SET WHERE k IN (?, ...)`. */
  lemma UpdateWithoutValues(table: string, keyColumn: string, batch: seq<LocalizedKey>, order: seq<string>)
    requires forall k | 0 <= k < |batch| :: batch[k].localeValues == []
    requires IsFieldOrder(order, batch)
    ensures UpdateSql(table, keyColumn, batch, order) == "UPDATE " + table + " SET WHERE " + keyColumn + " IN (" + Join(Marks(|batch|), ",") + ")"
  {
    assert Fields(batch) == {};
    FieldOrderSize(order, batch);
  }
}
