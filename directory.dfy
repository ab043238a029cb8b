/**
 * The S&P 500 company list shown beside the input box: each listed symbol
 * is rewritten to the quoting convention of the beta data, and the list is
 * ordered by company name. Fetching the list is outside this model; the
 * listing rows are an input.
 */
module Directory {

  /** One row of the fetched listing: the exchange symbol and the company name. */
  datatype Listing = Listing(symbol: string, security: string)

  /** One row of the list shown to the user. */
  datatype Company = Company(name: string, ticker: string)

  /** The two class-B share symbols whose dot the beta data writes as a dash. */
  const Corrections: map<string, string> := map["BRK.B" := "BRK-B", "BF.B" := "BF-B"]

  /** The ticker the beta data uses for a listed symbol. */
  function CorrectTicker(symbol: string): (r: string)
    ensures symbol == "BRK.B" ==> r == "BRK-B"
    ensures symbol == "BF.B" ==> r == "BF-B"
    ensures symbol != "BRK.B" && symbol != "BF.B" ==> r == symbol
  {
    if symbol in Corrections then Corrections[symbol] else symbol
  }

  /** Correcting an already corrected ticker changes nothing. */
  lemma CorrectTickerIdempotent(symbol: string)
    ensures CorrectTicker(CorrectTicker(symbol)) == CorrectTicker(symbol)
  {
    assert "BRK-B" != "BRK.B" && "BRK-B" != "BF.B";
    assert "BF-B" != "BRK.B" && "BF-B" != "BF.B";
  }

  /** Python's ordering of strings: lexicographic by code point. */
  predicate NameLe(a: string, b: string)
  {
    if a == [] then true
    else if b == [] then false
    else if a[0] != b[0] then a[0] < b[0]
    else NameLe(a[1..], b[1..])
  }

  lemma {:induction false} NameLeTotal(a: string, b: string)
    ensures NameLe(a, b) || NameLe(b, a)
  {
    if a != [] && b != [] && a[0] == b[0] {
      NameLeTotal(a[1..], b[1..]);
    }
  }

  lemma {:induction false} NameLeTransitive(a: string, b: string, c: string)
    requires NameLe(a, b) && NameLe(b, c)
    ensures NameLe(a, c)
  {
    if a != [] && b != [] && c != [] && a[0] == b[0] && b[0] == c[0] {
      NameLeTransitive(a[1..], b[1..], c[1..]);
    }
  }

  ghost predicate SortedByName(s: seq<Company>)
  {
    forall i, j :: 0 <= i < j < |s| ==> NameLe(s[i].name, s[j].name)
  }

  /** Puts `c` into a name-sorted list, after every entry whose name is not above its own. */
  function Insert(c: Company, s: seq<Company>): (r: seq<Company>)
    requires SortedByName(s)
    ensures SortedByName(r)
    ensures multiset(r) == multiset(s) + multiset{c}
  {
    if s == [] then [c]
    else if NameLe(c.name, s[0].name) && c.name != s[0].name then
      InsertFirst(c, s);
      [c] + s
    else
      var rest := Insert(c, s[1..]);
      InsertLater(c, s, rest);
      [s[0]] + rest
  }

  /** A company whose name is not above the first of a sorted list can go first. */
  lemma InsertFirst(c: Company, s: seq<Company>)
    requires SortedByName(s) && s != [] && NameLe(c.name, s[0].name)
    ensures SortedByName([c] + s)
  {
    forall j | 0 <= j < |s| ensures NameLe(c.name, s[j].name) {
      if j > 0 { NameLeTransitive(c.name, s[0].name, s[j].name); }
    }
  }

  /**
   * A company whose name is not below the first of a sorted list goes after
   * it: the first entry followed by the company inserted into the rest.
   */
  lemma InsertLater(c: Company, s: seq<Company>, rest: seq<Company>)
    requires SortedByName(s) && s != [] && !(NameLe(c.name, s[0].name) && c.name != s[0].name)
    requires SortedByName(rest) && multiset(rest) == multiset(s[1..]) + multiset{c}
    ensures SortedByName([s[0]] + rest)
    ensures multiset([s[0]] + rest) == multiset(s) + multiset{c}
  {
    assert NameLe(s[0].name, c.name) by {
      NameLeTotal(c.name, s[0].name);
      if c.name == s[0].name {
        NameLeTotal(s[0].name, s[0].name);
      }
    }
    forall x | x in rest ensures NameLe(s[0].name, x.name) {
      assert x in multiset(rest);
      if x != c {
        assert x in s[1..];
      }
    }
    assert s == [s[0]] + s[1..];
  }

  /** The companies ordered by name (ties keep their listing order). */
  function SortByName(s: seq<Company>): (r: seq<Company>)
    ensures SortedByName(r)
    ensures multiset(r) == multiset(s)
  {
    if s == [] then []
    else
      assert s == s[..|s| - 1] + [s[|s| - 1]];
      Insert(s[|s| - 1], SortByName(s[..|s| - 1]))
  }

  /** The listing rows as companies, with corrected tickers, in listing order. */
  function Corrected(rows: seq<Listing>): (r: seq<Company>)
    ensures |r| == |rows|
    ensures forall i :: 0 <= i < |rows| ==> r[i].name == rows[i].security && r[i].ticker == CorrectTicker(rows[i].symbol)
  {
    seq(|rows|, i requires 0 <= i < |rows| => Company(rows[i].security, CorrectTicker(rows[i].symbol)))
  }

  /**
   * The company list: every listing row exactly once, with its ticker
   * corrected, ordered by company name.
   */
  function BuildDirectory(rows: seq<Listing>): (r: seq<Company>)
    ensures SortedByName(r)
    ensures multiset(r) == multiset(Corrected(rows))
    ensures |r| == |rows|
  {
    var r := SortByName(Corrected(rows));
    assert |r| == |multiset(r)|;
    r
  }

  /** No directory entry carries a symbol that needs a correction. */
  lemma DirectoryTickersCorrected(rows: seq<Listing>)
    ensures forall c :: c in BuildDirectory(rows) ==> c.ticker !in Corrections
  {
    var cs := Corrected(rows);
    forall c | c in BuildDirectory(rows) ensures c.ticker !in Corrections {
      assert c in multiset(cs);
      var i :| 0 <= i < |cs| && cs[i] == c;
      CorrectedIsFinal(rows[i].symbol);
    }
  }

  /** A corrected ticker is never one of the symbols that need correcting. */
  lemma CorrectedIsFinal(symbol: string)
    ensures CorrectTicker(symbol) !in Corrections
  {
    CorrectTickerIdempotent(symbol);
    assert Corrections.Keys == {"BRK.B", "BF.B"};
  }
}
