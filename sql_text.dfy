/** String building blocks of the generated SQL. */
module SqlText {
  import opened Wrappers

  /** `StringUtils.join(parts, sep)`, and equally the text a loop builds that
      appends `sep` before every part but the first. */
  function Join(parts: seq<string>, sep: string): string
    decreases |parts|
  {
    if |parts| == 0 then ""
    else if |parts| == 1 then parts[0]
    else Join(parts[..|parts| - 1], sep) + sep + parts[|parts| - 1]
  }

  lemma JoinSnoc(parts: seq<string>, x: string, sep: string)
    requires parts != []
    ensures Join(parts + [x], sep) == Join(parts, sep) + sep + x
  {
    assert (parts + [x])[..|parts|] == parts;
  }

  /** Joining `[a] + parts` puts `a` and a separator in front of the join of `parts`. */
  lemma {:induction false} JoinCons(a: string, parts: seq<string>, sep: string)
    requires parts != []
    ensures Join([a] + parts, sep) == a + sep + Join(parts, sep)
    decreases |parts|
  {
    var init := parts[..|parts| - 1];
    var last := parts[|parts| - 1];
    assert parts == init + [last];
    assert [a] + parts == ([a] + init) + [last];
    if init == [] {
      JoinPair(a, last, sep);
    } else {
      JoinCons(a, init, sep);
      JoinConsStep(a, init, last, sep);
    }
  }

  lemma JoinPair(a: string, b: string, sep: string)
    ensures Join([a] + [] + [b], sep) == a + sep + Join([] + [b], sep)
  {
    assert [a] + [] + [b] == [a, b];
    assert [a, b][..1] == [a];
    assert [] + [b] == [b];
  }

  lemma {:induction false} JoinConsStep(a: string, init: seq<string>, last: string, sep: string)
    requires init != []
    requires Join([a] + init, sep) == a + sep + Join(init, sep)
    ensures Join(([a] + init) + [last], sep) == a + sep + Join(init + [last], sep)
  {
    JoinSnoc([a] + init, last, sep);
    JoinSnoc(init, last, sep);
  }

  /** Java's string concatenation of a nullable value: null is written as "null". */
  function Render(v: Option<string>): (s: string)
    ensures v.Some? ==> s == v.value
    ensures v.None? ==> s == "null"
  {
    if v.Some? then v.value else "null"
  }

  /** The number of `?` characters in a text. JDBC reads only those outside
      quoted literals as placeholders, so this equals the placeholder count
      only where nothing quoted holds a `?`. */
  function MarkCount(s: string): nat {
    multiset(s)['?']
  }

  /** No `?` in a piece of text spliced into a statement. */
  predicate NoMarks(s: string) {
    '?' !in s
  }

  lemma MarkCountSum(a: string, b: string)
    ensures MarkCount(a + b) == MarkCount(a) + MarkCount(b)
  {
  }

  /** The `?` of a text of five pieces are those of the pieces. */
  lemma {:induction false} MarkCountSum5(a: string, b: string, c: string, d: string, e: string)
    ensures MarkCount(a + b + c + d + e) == MarkCount(a) + MarkCount(b) + MarkCount(c) + MarkCount(d) + MarkCount(e)
  {
    MarkCountSum(a, b);
    MarkCountSum(a + b, c);
    MarkCountSum(a + b + c, d);
    MarkCountSum(a + b + c + d, e);
  }

  lemma NoMarksCount(a: string)
    requires NoMarks(a)
    ensures MarkCount(a) == 0
  {
  }

  /** `n` question marks. */
  function Marks(n: nat): (r: seq<string>)
    ensures |r| == n
    ensures forall i | 0 <= i < n :: r[i] == "?"
  {
    seq(n, _ => "?")
  }

  /** A join of parts that do not contain `c`, with a separator that does not
      contain it either, does not contain `c`. */
  lemma {:induction false} JoinWithout(parts: seq<string>, sep: string, c: char)
    requires c !in sep
    requires forall i | 0 <= i < |parts| :: c !in parts[i]
    ensures c !in Join(parts, sep)
    decreases |parts|
  {
    if |parts| > 1 {
      JoinWithout(parts[..|parts| - 1], sep, c);
    }
  }

  /** A list of `n` placeholders holds exactly `n` question marks. */
  lemma {:induction false} PlaceholderCount(n: nat, sep: string)
    requires '?' !in sep
    ensures MarkCount(Join(Marks(n), sep)) == n
    decreases n
  {
    if n > 1 {
      assert Marks(n)[..n - 1] == Marks(n - 1);
      PlaceholderCount(n - 1, sep);
    }
  }
}
