/**
 * Client-side evaluation of a search domain against one row
 * (`_x2mEvaluateDomainForRow`) and the combination of the search model's
 * domain and filter facets into the domain every row is evaluated on
 * (the first part of `_x2mApplySearchModelToList`).
 *
 * The Domain class itself is not part of this model: parsing a facet's
 * domain, conjoining several domains and testing a record against a domain
 * are parameters.
 */
module DomainEval {
  import opened JsValues
  import opened Rows
  import opened SeqUtil

  /** `new Domain(d).contains(record)`; None when construction or evaluation throws. */
  type Contains = (seq<Value>, map<string, Value>) -> Option<bool>

  /** `new Domain(d).toList()` on a facet's domain; None when it throws. */
  type Parser = Value -> Option<seq<Value>>

  /** `Domain.and(ds.map((d) => new Domain(d))).toList()`. */
  type Conjoin = seq<seq<Value>> -> seq<Value>

  // ---------------------------------------------------------------------------
  // The data a row is evaluated on

  /** The name a header column gives a scraped value: name, else data-name, when non-empty. */
  function ScrapeName(c: Column): Option<string> {
    var n := AttrOr(c.name, c.dataName);
    if n.Some? && n.value != "" then n else None
  }

  /** What the scraper reads from a cell: a checkbox's `checked` state when the cell holds one, else its value. */
  function ScrapedValue(c: Cell): Value {
    if c.checkbox.Some? then Bool(c.checkbox.value) else c.value
  }

  /** The header loop that reads the cells of a row without a loaded record: a later column overwrites an earlier one of the same name. */
  function Scrape(columns: seq<Column>, cells: seq<Cell>): map<string, Value> {
    if columns == [] then map[]
    else
      var i := |columns| - 1;
      var m := Scrape(columns[..i], cells);
      var n := ScrapeName(columns[i]);
      if n.Some? && i < |cells| then m[n.value := ScrapedValue(cells[i])] else m
  }

  /** The loop over the header cells, as the engine runs it. */
  method ScrapeRow(columns: seq<Column>, cells: seq<Cell>) returns (m: map<string, Value>)
    ensures m == Scrape(columns, cells)
  {
    m := map[];
    var i := 0;
    while i < |columns|
      invariant 0 <= i <= |columns|
      invariant m == Scrape(columns[..i], cells)
    {
      assert columns[..i + 1][..i] == columns[..i];
      var n := ScrapeName(columns[i]);
      if n.Some? && i < |cells| {
        m := m[n.value := ScrapedValue(cells[i])];
      }
      i := i + 1;
    }
    assert columns[..i] == columns;
  }

  /** A copy of the loaded record's data when it has any key, else what the cells show. */
  function RowData(row: Row, columns: seq<Column>): map<string, Value> {
    var base := if row.record.Some? then row.record.value else map[];
    if |base| > 0 then base else Scrape(columns, row.cells)
  }

  // ---------------------------------------------------------------------------
  // The fields a domain mentions

  /** A condition `[field, operator, value, ...]`: an array of at least three items starting with a string. */
  predicate IsCondition(item: Value) {
    item.Arr? && |item.elems| >= 3 && item.elems[0].Str?
  }

  /** Every field named by a condition, depth first, with repetitions. */
  function Occurrences(d: seq<Value>): seq<string>
    decreases d
  {
    if d == [] then []
    else
      var item := d[0];
      (if IsCondition(item) then [item.elems[0].s]
       else if item.Arr? then Occurrences(item.elems)
       else []) + Occurrences(d[1..])
  }

  /** `xs` appended to `acc`, skipping what is already there. */
  function DedupInto(acc: seq<string>, xs: seq<string>): seq<string>
    decreases |xs|
  {
    if xs == [] then acc
    else DedupInto(if xs[0] in acc then acc else acc + [xs[0]], xs[1..])
  }

  lemma {:induction false} DedupIntoAppend(acc: seq<string>, a: seq<string>, b: seq<string>)
    ensures DedupInto(acc, a + b) == DedupInto(DedupInto(acc, a), b)
    decreases |a|
  {
    if a != [] {
      assert (a + b)[0] == a[0] && (a + b)[1..] == a[1..] + b;
      DedupIntoAppend(if a[0] in acc then acc else acc + [a[0]], a[1..], b);
    } else {
      assert a + b == b;
    }
  }

  /** The recursive `extract` closure with its `forEach` loop, adding each field once to `acc`. */
  method Extract(d: seq<Value>, acc: seq<string>) returns (r: seq<string>)
    ensures r == DedupInto(acc, Occurrences(d))
    decreases d
  {
    r := acc;
    var i := 0;
    while i < |d|
      invariant 0 <= i <= |d|
      invariant DedupInto(r, Occurrences(d[i..])) == DedupInto(acc, Occurrences(d))
    {
      var item := d[i];
      assert d[i..][0] == item && d[i..][1..] == d[i + 1..];
      if IsCondition(item) {
        DedupIntoAppend(r, [item.elems[0].s], Occurrences(d[i + 1..]));
        if item.elems[0].s !in r {
          r := r + [item.elems[0].s];
        }
      } else if item.Arr? {
        DedupIntoAppend(r, Occurrences(item.elems), Occurrences(d[i + 1..]));
        r := Extract(item.elems, r);
      } else {
        assert Occurrences(d[i..]) == Occurrences(d[i + 1..]);
      }
      i := i + 1;
    }
  }

  /** The domain's fields: each field named by some condition, once, in first-seen order. */
  function DomainFields(d: seq<Value>): seq<string> {
    DedupInto([], Occurrences(d))
  }

  lemma {:induction false} DedupIntoSpec(acc: seq<string>, xs: seq<string>)
    requires Distinct(acc)
    ensures Distinct(DedupInto(acc, xs))
    ensures forall x :: x in DedupInto(acc, xs) <==> x in acc || x in xs
    ensures |acc| <= |DedupInto(acc, xs)| && DedupInto(acc, xs)[..|acc|] == acc
    decreases |xs|
  {
    if xs != [] {
      var acc' := if xs[0] in acc then acc else acc + [xs[0]];
      if xs[0] !in acc {
        DistinctAppend(acc, [xs[0]]);
      }
      DedupIntoSpec(acc', xs[1..]);
      assert forall x :: x in xs <==> x == xs[0] || x in xs[1..];
      var r := DedupInto(acc', xs[1..]);
      assert r[..|acc'|] == acc';
      assert acc'[..|acc|] == acc;
    }
  }

  /** Each field a condition names is listed exactly once, and nothing else is. */
  lemma DomainFieldsSpec(d: seq<Value>)
    ensures Distinct(DomainFields(d))
    ensures forall f :: f in DomainFields(d) <==> f in Occurrences(d)
  {
    DedupIntoSpec([], Occurrences(d));
  }

  // ---------------------------------------------------------------------------
  // Normalisation of the referenced fields

  /** `record[f]`, undefined when absent. */
  function Get(data: map<string, Value>, f: string): Value {
    if f in data then data[f] else Undefined
  }

  /** An array id the normaliser accepts: a number, or text on which `isNaN` is false. */
  predicate IsIdLike(v: Value) {
    v.Num? || v.NaN? || (v.Str? && IsNumericText(v.s))
  }

  /**
   * A non-empty array whose first item is id-like becomes that id (text is
   * read with parseInt); every other value is kept, strings such as "7,Acme"
   * included.
   */
  function NormalizeValue(v: Value): Value {
    if v.Arr? && |v.elems| > 0 && IsIdLike(v.elems[0]) then
      var id := v.elems[0];
      if id.Str? then (match ParseIntPrefix(id.s) case Some(n) => Num(n) case None => NaN) else id
    else v
  }

  /** The record the domain is evaluated on: each listed field normalised (an absent one becomes undefined), the rest copied. */
  function Normalized(data: map<string, Value>, fields: seq<string>): map<string, Value> {
    map k | k in data.Keys + (set f | f in fields) :: if k in fields then NormalizeValue(Get(data, k)) else data[k]
  }

  lemma NormalizedStep(data: map<string, Value>, fields: seq<string>, i: nat)
    requires i < |fields|
    ensures Normalized(data, fields[..i + 1])
         == Normalized(data, fields[..i])[fields[i] := NormalizeValue(Get(data, fields[i]))]
  {
    assert forall f :: f in fields[..i + 1] <==> f in fields[..i] || f == fields[i];
  }

  /** The `domainFields.forEach` loop that builds the normalised copy. */
  method NormalizeRowData(data: map<string, Value>, fields: seq<string>) returns (r: map<string, Value>)
    ensures r == Normalized(data, fields)
  {
    r := data;
    var i := 0;
    while i < |fields|
      invariant 0 <= i <= |fields|
      invariant r == Normalized(data, fields[..i])
    {
      NormalizedStep(data, fields, i);
      var field := fields[i];
      var value := Get(data, field);
      ghost var target := r[field := NormalizeValue(value)];
      if !IsNullish(value) {
        if value.Arr? && |value.elems| > 0 {
          var idVal := value.elems[0];
          if idVal.Num? || idVal.NaN? || (idVal.Str? && IsNumericText(idVal.s)) {
            r := r[field := if idVal.Str? then (match ParseIntPrefix(idVal.s) case Some(n) => Num(n) case None => NaN) else idVal];
          } else {
            assert field in r && r[field] == value;
          }
        } else {
          r := r[field := value];
        }
      } else {
        r := r[field := value];
      }
      assert r == target;
      i := i + 1;
    }
    assert fields[..i] == fields;
  }

  // ---------------------------------------------------------------------------
  // The row test

  /** Whether a row matches: rows without data and domains that are empty or fail to evaluate let the row through. */
  function Matches(row: Row, domain: seq<Value>, columns: seq<Column>, contains: Contains): bool {
    var data := RowData(row, columns);
    if |data| == 0 || |domain| == 0 then true
    else
      match contains(domain, Normalized(data, DomainFields(domain)))
      case Some(b) => b
      case None => true
  }

  method EvaluateDomainForRow(row: Row, domain: seq<Value>, columns: seq<Column>, contains: Contains)
    returns (show: bool)
    ensures show == Matches(row, domain, columns, contains)
  {
    var data: map<string, Value> := map[];
    if row.record.Some? {
      data := row.record.value;
    }
    if |data| == 0 {
      data := ScrapeRow(columns, row.cells);
    }
    if |data| == 0 || |domain| == 0 {
      return true;
    }
    var fields := Extract(domain, []);
    var normalized := NormalizeRowData(data, fields);
    var result := contains(domain, normalized);
    show := if result.Some? then result.value else true;
  }

  // ---------------------------------------------------------------------------
  // The combined domain

  /** A search facet: its type ("filter", "groupBy", "field", ...) and its domain. */
  datatype Facet = Facet(ftype: string, domain: Value)

  predicate IsFilter(f: Facet) {
    f.ftype == "filter"
  }

  /** The parsed domains of the filter facets that carry a domain, skipping those whose parse throws. */
  function FilterDomains(facets: seq<Facet>, parse: Parser): seq<seq<Value>> {
    if facets == [] then []
    else
      var i := |facets| - 1;
      var f := facets[i];
      FilterDomains(facets[..i], parse)
        + (if IsFilter(f) && Truthy(f.domain) && parse(f.domain).Some? then [parse(f.domain).value] else [])
  }

  /** The `filterFacets.forEach` loop with its try/catch. */
  method CollectFilterDomains(facets: seq<Facet>, parse: Parser) returns (ds: seq<seq<Value>>)
    ensures ds == FilterDomains(facets, parse)
  {
    ds := [];
    var i := 0;
    while i < |facets|
      invariant 0 <= i <= |facets|
      invariant ds == FilterDomains(facets[..i], parse)
    {
      assert facets[..i + 1][..i] == facets[..i];
      var f := facets[i];
      if IsFilter(f) && Truthy(f.domain) {
        var parsed := parse(f.domain);
        if parsed.Some? {
          ds := ds + [parsed.value];
        }
      }
      i := i + 1;
    }
    assert facets[..i] == facets;
  }

  predicate HasFilterFacet(facets: seq<Facet>) {
    exists i :: 0 <= i < |facets| && IsFilter(facets[i])
  }

  /**
   * The domain rows are evaluated on: the search model's own domain when it
   * is non-empty or there is no filter facet; else the single parsed filter
   * domain, or the conjunction of several.
   */
  function CombinedDomain(searchDomain: seq<Value>, facets: seq<Facet>, parse: Parser, conj: Conjoin): seq<Value> {
    if |searchDomain| > 0 || !HasFilterFacet(facets) then searchDomain
    else
      var ds := FilterDomains(facets, parse);
      if |ds| == 0 then searchDomain
      else if |ds| == 1 then ds[0]
      else conj(ds)
  }

  // ---------------------------------------------------------------------------
  // Properties

  /** A key is scraped iff some column with that name has a cell; its value is the cell under the last such column. */
  lemma {:induction false} ScrapeSpec(columns: seq<Column>, cells: seq<Cell>, k: string)
    ensures k in Scrape(columns, cells) <==>
      exists i :: 0 <= i < |columns| && i < |cells| && ScrapeName(columns[i]) == Some(k)
    ensures k in Scrape(columns, cells) ==>
      exists i :: 0 <= i < |columns| && i < |cells| && ScrapeName(columns[i]) == Some(k)
        && Scrape(columns, cells)[k] == ScrapedValue(cells[i])
        && forall j :: i < j < |columns| && j < |cells| ==> ScrapeName(columns[j]) != Some(k)
  {
    if columns != [] {
      var i := |columns| - 1;
      ScrapeSpec(columns[..i], cells, k);
      assert forall j :: 0 <= j < i ==> columns[..i][j] == columns[j];
      if ScrapeName(columns[i]) == Some(k) && i < |cells| {
      } else if k in Scrape(columns[..i], cells) {
        var j :| 0 <= j < i && j < |cells| && ScrapeName(columns[..i][j]) == Some(k)
          && Scrape(columns[..i], cells)[k] == ScrapedValue(cells[j])
          && forall j' :: j < j' < i && j' < |cells| ==> ScrapeName(columns[..i][j']) != Some(k);
        assert Scrape(columns, cells)[k] == ScrapedValue(cells[j]);
      }
    }
  }

  /** The record's own data is used whenever it has a key; the cells are read only otherwise. */
  lemma RecordDataPreferred(row: Row, columns: seq<Column>)
    requires row.record.Some? && |row.record.value| > 0
    ensures RowData(row, columns) == row.record.value
  {
  }

  /** Only the listed fields change; the record gains exactly the listed fields it lacked. */
  lemma NormalizedKeepsOtherFields(data: map<string, Value>, fields: seq<string>)
    ensures Normalized(data, fields).Keys == data.Keys + (set f | f in fields)
    ensures forall k :: k in data && k !in fields ==> Normalized(data, fields)[k] == data[k]
    ensures forall k :: k in fields && k !in data ==> Normalized(data, fields)[k] == Undefined
  {
  }

  /** A many2one `[id, label]` value of a listed field is replaced by its id. */
  lemma Many2oneArrayBecomesId(data: map<string, Value>, fields: seq<string>, f: string, id: int, rest: seq<Value>)
    requires f in fields && f in data && data[f] == Arr([Num(id)] + rest)
    ensures Normalized(data, fields)[f] == Num(id)
  {
  }

  /** A many2one "id,label" string is NOT reduced to its id: only arrays are. */
  lemma IdLabelStringKept(data: map<string, Value>, fields: seq<string>, f: string, s: string)
    requires f in fields && f in data && data[f] == Str(s)
    ensures Normalized(data, fields)[f] == Str(s)
  {
  }

  /**
   * A many2one id written as a hexadecimal, binary or octal literal passes
   * the `isNaN` test, but `parseInt(…, 10)` reads only its leading "0": the
   * domain sees id 0.
   */
  lemma RadixIdReadAsZero(t: string, rest: seq<Value>)
    requires IsRadixLiteral(t)
    ensures NormalizeValue(Arr([Str(t)] + rest)) == Num(0)
  {
    RadixLiteralNumeric(t);
    RadixLiteralShape(t);
    LeadingZeroReadAsZero(t);
    IdTextNormalized(t, rest);
  }

  /** An array headed by numeric text becomes what `parseInt` reads from it. */
  lemma IdTextNormalized(t: string, rest: seq<Value>)
    requires IsNumericText(t)
    ensures NormalizeValue(Arr([Str(t)] + rest)) == match ParseIntPrefix(t) case Some(n) => Num(n) case None => NaN
  {
    assert ([Str(t)] + rest)[0] == Str(t);
  }

  /** A many2one id "Infinity" passes the `isNaN` test, and `parseInt` makes it NaN. */
  lemma InfinityIdReadAsNaN(rest: seq<Value>)
    ensures NormalizeValue(Arr([Str("Infinity")] + rest)) == NaN
  {
    InfinityNumeric();
    InfinityNotInteger();
  }

  lemma NormalizeValueIdempotent(v: Value)
    ensures NormalizeValue(NormalizeValue(v)) == NormalizeValue(v)
  {
  }

  /** Normalising twice changes nothing more. */
  lemma NormalizedIdempotent(data: map<string, Value>, fields: seq<string>)
    ensures Normalized(Normalized(data, fields), fields) == Normalized(data, fields)
  {
    var once := Normalized(data, fields);
    forall k | k in fields
      ensures NormalizeValue(Get(once, k)) == Get(once, k)
    {
      NormalizeValueIdempotent(Get(data, k));
    }
  }

  /**
   * A row is hidden exactly when it has data, the domain is non-empty and the
   * domain evaluates to false on the normalised data; evaluation errors show it.
   */
  lemma HiddenIff(row: Row, domain: seq<Value>, columns: seq<Column>, contains: Contains)
    ensures !Matches(row, domain, columns, contains) <==>
      |RowData(row, columns)| > 0 && |domain| > 0 &&
      contains(domain, Normalized(RowData(row, columns), DomainFields(domain))) == Some(false)
  {
  }

  /** A non-empty search-model domain is used as it is, whatever the facets. */
  lemma SearchDomainWins(searchDomain: seq<Value>, facets: seq<Facet>, parse: Parser, conj: Conjoin)
    requires |searchDomain| > 0
    ensures CombinedDomain(searchDomain, facets, parse, conj) == searchDomain
  {
  }

  /** The filter domains are the parses that succeed, of the filter facets with a domain. */
  lemma {:induction false} FilterDomainsSpec(facets: seq<Facet>, parse: Parser)
    ensures |FilterDomains(facets, parse)| <= |facets|
    ensures forall d :: d in FilterDomains(facets, parse) ==>
      exists i :: 0 <= i < |facets| && IsFilter(facets[i]) && Truthy(facets[i].domain) && parse(facets[i].domain) == Some(d)
    ensures forall i :: 0 <= i < |facets| && IsFilter(facets[i]) && Truthy(facets[i].domain) && parse(facets[i].domain).Some? ==>
      parse(facets[i].domain).value in FilterDomains(facets, parse)
  {
    if facets != [] {
      var n := |facets| - 1;
      FilterDomainsSpec(facets[..n], parse);
      assert forall i :: 0 <= i < n ==> facets[..n][i] == facets[i];
    }
  }

  /**
   * When the search model has no domain and exactly one filter domain parses,
   * that domain is used as it is, whatever other facets are present.
   */
  lemma SingleFilterUsed(facets: seq<Facet>, parse: Parser, conj: Conjoin, d: seq<Value>)
    requires FilterDomains(facets, parse) == [d]
    ensures CombinedDomain([], facets, parse, conj) == d
  {
    FilterDomainsSpec(facets, parse);
  }

  /** When the search model has no domain and two or more filter domains parse, their conjunction is used. */
  lemma SeveralFiltersConjoined(facets: seq<Facet>, parse: Parser, conj: Conjoin)
    requires |FilterDomains(facets, parse)| >= 2
    ensures CombinedDomain([], facets, parse, conj) == conj(FilterDomains(facets, parse))
  {
    FilterDomainsSpec(facets, parse);
    assert FilterDomains(facets, parse)[0] in FilterDomains(facets, parse);
  }

  /** When the search model has no domain and no filter domain parses, rows are evaluated on the empty domain. */
  lemma NoFilterDomainEmpty(facets: seq<Facet>, parse: Parser, conj: Conjoin)
    requires FilterDomains(facets, parse) == []
    ensures CombinedDomain([], facets, parse, conj) == []
  {
  }
}
