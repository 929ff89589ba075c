/** The manager's locale map: a LinkedHashMap from locale to column name,
    whose key set iterates in first-insertion order. */
module Registry {
  import opened Wrappers
  import opened Locales

  /** `keys` is the iteration order of the key set, `columns` the mapping. */
  datatype LocaleMap = LocaleMap(keys: seq<Locale>, columns: map<Locale, string>)

  /** Every key is listed once, and exactly the mapped locales are listed. */
  ghost predicate Valid(m: LocaleMap) {
    && (forall i, j | 0 <= i < j < |m.keys| :: m.keys[i] != m.keys[j])
    && (forall l :: l in m.columns <==> l in m.keys)
  }

  /** A new, empty LinkedHashMap. */
  const Empty: LocaleMap := LocaleMap([], map[])

  /** `get`: the column of `l`, or null. */
  function Get(m: LocaleMap, l: Locale): Option<string> {
    if l in m.columns then Some(m.columns[l]) else None
  }

  /** `put`: a new locale goes last; a known locale gets the new column and keeps its place. */
  function Put(m: LocaleMap, l: Locale, field: string): (r: LocaleMap)
    requires Valid(m)
    ensures Valid(r)
    ensures Get(r, l) == Some(field)
    ensures forall l' | l' != l :: Get(r, l') == Get(m, l')
    ensures l in m.columns ==> r.keys == m.keys
    ensures l !in m.columns ==> r.keys == m.keys + [l]
  {
    LocaleMap(if l in m.columns then m.keys else m.keys + [l], m.columns[l := field])
  }

  /** One `setField(field, locale)` call. */
  datatype Registration = Registration(field: string, locale: Locale)

  /** The registry after the given `setField` calls, in order. */
  function PutAll(m: LocaleMap, regs: seq<Registration>): (r: LocaleMap)
    requires Valid(m)
    ensures Valid(r)
    decreases |regs|
  {
    if regs == [] then m
    else
      var last := regs[|regs| - 1];
      Put(PutAll(m, regs[..|regs| - 1]), last.locale, last.field)
  }

  /** The locales of the registrations, in call order. */
  function RegisteredLocales(regs: seq<Registration>): (ls: seq<Locale>)
    ensures |ls| == |regs|
  {
    seq(|regs|, i requires 0 <= i < |regs| => regs[i].locale)
  }

  /** The distinct elements of `s` in order of first occurrence. */
  function FirstOccurrences(s: seq<Locale>): (r: seq<Locale>)
    ensures forall x :: x in r <==> x in s
    ensures forall i, j | 0 <= i < j < |r| :: r[i] != r[j]
    decreases |s|
  {
    if s == [] then []
    else
      var prefix := FirstOccurrences(s[..|s| - 1]);
      if s[|s| - 1] in prefix then prefix else prefix + [s[|s| - 1]]
  }

  /** The field of the last registration of `l`, if any. */
  function LastField(regs: seq<Registration>, l: Locale): Option<string>
    decreases |regs|
  {
    if regs == [] then None
    else if regs[|regs| - 1].locale == l then Some(regs[|regs| - 1].field)
    else LastField(regs[..|regs| - 1], l)
  }

  /** Starting from an empty map, the key set iterates in first-registration
      order, and each locale maps to the field it was registered with last. */
  lemma {:induction false} InsertionOrder(regs: seq<Registration>)
    ensures PutAll(Empty, regs).keys == FirstOccurrences(RegisteredLocales(regs))
    ensures forall l :: Get(PutAll(Empty, regs), l) == LastField(regs, l)
    decreases |regs|
  {
    if regs != [] {
      var prefix := regs[..|regs| - 1];
      InsertionOrder(prefix);
      assert RegisteredLocales(regs)[..|regs| - 1] == RegisteredLocales(prefix);
    }
  }
}
