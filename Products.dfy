/**
 * The products service (src/products/products.service.ts): the catalog record,
 * `parseCsvLine`, the pure part of `loadProducts` (split the file into lines, drop
 * blank lines, drop the header, drop lines that do not parse) and `search` (score
 * every product against the lower-cased query, keep positive scores, sort stably by
 * descending score, keep at most two).
 */
module Products {
  import opened Wrappers
  import opened JsString
  import Csv
  import Seqs

  /** The discount column as written in the file; the number `Number(...)` makes of it is not modelled. */
  datatype Discount = Discount(text: string)

  /** One catalog entry; its identity is its position in the catalog. */
  datatype Product = Product(
    displayTitle: string,
    embeddingText: string,
    url: string,
    imageUrl: string,
    productType: string,
    discount: Discount,
    price: string,
    variants: string,
    createDate: string)

  /** The number of columns a data line must have. */
  const ColumnCount := 9

  /** The nine columns of a product, in file order. */
  function Columns(p: Product): seq<string> {
    [p.displayTitle, p.embeddingText, p.url, p.imageUrl, p.productType,
     p.discount.text, p.price, p.variants, p.createDate]
  }

  /**
   * `parseCsvLine`: a line with fewer than nine fields gives `null`; otherwise the
   * first nine fields become the product's columns in order and the rest are ignored.
   */
  function ParseCsvLine(line: string): (r: Option<Product>)
    ensures r.None? <==> |Csv.Fields(line)| < ColumnCount
    ensures r.Some? ==> Columns(r.value) == Csv.Fields(line)[..ColumnCount]
  {
    var values := Csv.Fields(line);
    if |values| < ColumnCount then None
    else
      ColumnsOfValues(values);
      Some(FromValues(values))
  }

  /** The positional destructuring `const [displayTitle, ..., createDate] = values`. */
  function FromValues(values: seq<string>): Product
    requires |values| >= ColumnCount
  {
    Product(values[0], values[1], values[2], values[3], values[4],
            Discount(values[5]), values[6], values[7], values[8])
  }

  lemma ColumnsOfValues(values: seq<string>)
    requires |values| >= ColumnCount
    ensures Columns(FromValues(values)) == values[..ColumnCount]
  {
    var c := Columns(FromValues(values));
    assert |c| == ColumnCount;
    forall k | 0 <= k < ColumnCount ensures c[k] == values[k] {
    }
  }

  /** A column that the catalog file can carry between quotes and get back unchanged. */
  predicate Writable(column: string) {
    Csv.Quote !in column && IsTrimmed(column)
  }

  /**
   * Round trip: a product whose columns are writable, written as a line of quoted
   * fields, possibly followed by more writable fields, parses back to itself as long
   * as the line's last field is non-empty.
   */
  lemma ParseQuotedColumns(p: Product, extra: seq<string>)
    requires forall k :: 0 <= k < |Columns(p) + extra| ==> Writable((Columns(p) + extra)[k])
    requires Csv.Last(Columns(p) + extra) != ""
    ensures ParseCsvLine(Csv.QuotedLine(Columns(p) + extra)) == Some(p)
  {
    var fs := Columns(p) + extra;
    Csv.FieldsOfQuotedLine(fs);
    assert fs[..ColumnCount] == Columns(p);
  }

  /**
   * A product whose `createDate` is empty, written as nine quoted fields, is lost:
   * the empty last field is dropped, only eight remain, and the line parses to `null`.
   */
  lemma EmptyCreateDateLost(p: Product)
    requires forall k :: 0 <= k < ColumnCount ==> Writable(Columns(p)[k])
    requires p.createDate == ""
    ensures ParseCsvLine(Csv.QuotedLine(Columns(p))) == None
  {
    Csv.EmptyLastFieldDropped(Columns(p));
  }

  /** `line.trim().length > 0`: the line is kept. */
  predicate HasText(line: string) {
    |Trim(line)| > 0
  }

  /** A line the loader drops. */
  predicate IsBlank(line: string) {
    !HasText(line)
  }

  /** `filter((l) => l.trim().length > 0)`: the non-blank lines, in order. */
  function NonBlankLines(lines: seq<string>): (r: seq<string>)
    ensures |r| <= |lines|
  {
    Seqs.Filter(HasText, lines)
  }

  /** The kept lines are exactly the non-blank lines of the input. */
  lemma NonBlankLinesMembers(lines: seq<string>)
    ensures forall l :: l in NonBlankLines(lines) <==> l in lines && !IsBlank(l)
  {
    Seqs.FilterMembers(HasText, lines);
  }

  /** Filtering commutes with concatenation, so the kept lines stay in file order. */
  lemma NonBlankLinesAppend(a: seq<string>, b: seq<string>)
    ensures NonBlankLines(a + b) == NonBlankLines(a) + NonBlankLines(b)
  {
    Seqs.FilterAppend(HasText, a, b);
  }

  /** `map(parseCsvLine)`: one parse outcome per line, in order. */
  function ParseAll(lines: seq<string>): (r: seq<Option<Product>>)
    ensures |r| == |lines|
    ensures forall k :: 0 <= k < |lines| ==> r[k] == ParseCsvLine(lines[k])
  {
    Seqs.Map(ParseCsvLine, lines)
  }

  /** `map(parseCsvLine).filter(Boolean)`: the products of the lines that parse, in order. */
  function ParsedProducts(lines: seq<string>): (r: seq<Product>)
    ensures |r| <= |lines|
  {
    Seqs.Present(ParseAll(lines))
  }

  /**
   * Every loaded product comes from a line that parses to it, and every line that
   * parses contributes its product.
   */
  lemma ParsedProductsMembers(lines: seq<string>)
    ensures forall p :: p in ParsedProducts(lines) ==> exists l :: l in lines && ParseCsvLine(l) == Some(p)
    ensures forall l :: l in lines && ParseCsvLine(l).Some? ==> ParseCsvLine(l).value in ParsedProducts(lines)
  {
    Seqs.MapPresentMembers(ParseCsvLine, lines);
    forall l | l in lines && ParseCsvLine(l).Some? ensures ParseCsvLine(l).value in ParsedProducts(lines) {
      var k :| 0 <= k < |lines| && lines[k] == l;
    }
  }

  /** Parsing commutes with concatenation, so products keep the order of their lines. */
  lemma ParsedProductsAppend(a: seq<string>, b: seq<string>)
    ensures ParsedProducts(a + b) == ParsedProducts(a) + ParsedProducts(b)
  {
    Seqs.MapAppend(ParseCsvLine, a, b);
    Seqs.PresentAppend(ParseAll(a), ParseAll(b));
  }

  const NewLine := '\n'

  /** The lines after the header: the non-blank lines of the file but the first. */
  function DataLines(raw: string): seq<string> {
    AfterHeader(NonBlankLines(Split(raw, NewLine)))
  }

  /** The catalog `loadProducts` stores for the file content `raw`. */
  function LoadCatalog(raw: string): seq<Product> {
    ParsedProducts(DataLines(raw))
  }

  /** Every line is free of line breaks. */
  predicate SingleLines(lines: seq<string>) {
    forall k :: 0 <= k < |lines| ==> NewLine !in lines[k]
  }

  /** The lines after the first one, if any (`const [, ...dataLines] = lines`). */
  function AfterHeader(lines: seq<string>): seq<string> {
    if lines == [] then [] else lines[1..]
  }

  /** The catalog of a file given as its lines. */
  lemma LoadCatalogOfLines(lines: seq<string>)
    requires |lines| >= 1 && SingleLines(lines)
    ensures LoadCatalog(Join(lines, NewLine)) == ParsedProducts(AfterHeader(NonBlankLines(lines)))
  {
    SplitJoin(lines, NewLine);
  }

  /**
   * A file made of blank lines, then a header, then body lines: the header never
   * becomes a product (even if it would parse), and the catalog is the products of
   * the non-blank body lines that parse, in file order.
   */
  lemma LoadSkipsHeader(blanks: seq<string>, header: string, body: seq<string>)
    requires SingleLines(blanks + [header] + body)
    requires forall k :: 0 <= k < |blanks| ==> IsBlank(blanks[k])
    requires !IsBlank(header)
    ensures LoadCatalog(Join(blanks + [header] + body, NewLine)) == ParsedProducts(NonBlankLines(body))
  {
    var lines := blanks + [header] + body;
    LoadCatalogOfLines(lines);
    NonBlankLinesAroundHeader(blanks, header, body);
    assert AfterHeader([header] + NonBlankLines(body)) == NonBlankLines(body);
  }

  lemma NonBlankLinesAroundHeader(blanks: seq<string>, header: string, body: seq<string>)
    requires forall k :: 0 <= k < |blanks| ==> IsBlank(blanks[k])
    requires !IsBlank(header)
    ensures NonBlankLines(blanks + [header] + body) == [header] + NonBlankLines(body)
  {
    NonBlankLinesAppend(blanks + [header], body);
    NonBlankLinesAppend(blanks, [header]);
    AllBlank(blanks);
    NonBlankLinesOne(header);
  }

  lemma NonBlankLinesOne(line: string)
    ensures NonBlankLines([line]) == if IsBlank(line) then [] else [line]
  {
    Seqs.FilterOne(HasText, line);
  }

  lemma AllBlank(lines: seq<string>)
    requires forall k :: 0 <= k < |lines| ==> IsBlank(lines[k])
    ensures NonBlankLines(lines) == []
  {
    Seqs.FilterNone(HasText, lines);
  }

  /** A blank line anywhere in the file does not change the catalog. */
  lemma LoadIgnoresBlankLine(before: seq<string>, blank: string, after: seq<string>)
    requires |before + after| >= 1
    requires SingleLines(before + [blank] + after)
    requires IsBlank(blank)
    ensures LoadCatalog(Join(before + [blank] + after, NewLine)) == LoadCatalog(Join(before + after, NewLine))
  {
    var with := before + [blank] + after;
    var without := before + after;
    assert SingleLines(without) by {
      forall k | 0 <= k < |without| ensures NewLine !in without[k] {
        if k < |before| { assert without[k] == with[k]; } else { assert without[k] == with[k + 1]; }
      }
    }
    LoadCatalogOfLines(with);
    LoadCatalogOfLines(without);
    NonBlankLinesSkipBlank(before, blank, after);
  }

  lemma NonBlankLinesSkipBlank(before: seq<string>, blank: string, after: seq<string>)
    requires IsBlank(blank)
    ensures NonBlankLines(before + [blank] + after) == NonBlankLines(before + after)
  {
    NonBlankLinesAppend(before + [blank], after);
    NonBlankLinesAppend(before, [blank]);
    NonBlankLinesAppend(before, after);
    NonBlankLinesOne(blank);
    assert NonBlankLines(before) + [] == NonBlankLines(before);
  }

  /** A product paired with its score for one query. */
  datatype Scored = Scored(product: Product, score: nat)

  /**
   * The score of `p` for the lower-cased query `q`: 2 when the lower-cased title
   * contains `q`, plus 1 when the lower-cased description contains it. The product
   * type and the other columns play no part.
   */
  function Score(p: Product, q: string): (r: nat)
    ensures r <= 3
    ensures r >= 2 <==> Includes(ToLowerCase(p.displayTitle), q)
    ensures r % 2 == 1 <==> Includes(ToLowerCase(p.embeddingText), q)
  {
    var title := ToLowerCase(p.displayTitle);
    var desc := ToLowerCase(p.embeddingText);
    (if Includes(title, q) then 2 else 0) + (if Includes(desc, q) then 1 else 0)
  }

  /** `products.map(...)`: every product with its score, in catalog order. */
  function ScoreAll(catalog: seq<Product>, q: string): (r: seq<Scored>)
    ensures |r| == |catalog|
    ensures forall k :: 0 <= k < |r| ==> r[k] == Scored(catalog[k], Score(catalog[k], q))
  {
    seq(|catalog|, k requires 0 <= k < |catalog| => Scored(catalog[k], Score(catalog[k], q)))
  }

  /** Every entry carries the score of its product for `q`. */
  predicate Consistent(xs: seq<Scored>, q: string) {
    forall x :: x in xs ==> x.score == Score(x.product, q)
  }

  /** `filter((s) => s.score > 0)`. */
  function Positive(xs: seq<Scored>): (r: seq<Scored>)
    ensures forall x :: x in r <==> x in xs && x.score > 0
    decreases |xs|
  {
    if xs == [] then []
    else (if xs[0].score > 0 then [xs[0]] else []) + Positive(xs[1..])
  }

  /** The entries with score `k`, in order. */
  function WithScore(xs: seq<Scored>, k: nat): seq<Scored>
    decreases |xs|
  {
    if xs == [] then []
    else (if xs[0].score == k then [xs[0]] else []) + WithScore(xs[1..], k)
  }

  /** Non-increasing scores from left to right. */
  predicate SortedByScore(xs: seq<Scored>) {
    forall i, j :: 0 <= i < j < |xs| ==> xs[i].score >= xs[j].score
  }

  /**
   * Puts `x` into the sorted `ys` in front of the first entry that does not score
   * higher, so `x` precedes the entries of `ys` with its own score.
   */
  function Insert(x: Scored, ys: seq<Scored>): (r: seq<Scored>)
    requires SortedByScore(ys)
    ensures SortedByScore(r)
    ensures multiset(r) == multiset(ys) + multiset{x}
    ensures forall e :: e in r <==> e in ys || e == x
    decreases |ys|
  {
    if ys == [] || ys[0].score <= x.score then
      [x] + ys
    else
      var rest := Insert(x, ys[1..]);
      InsertBehindSorted(x, ys, rest);
      assert ys == [ys[0]] + ys[1..];
      [ys[0]] + rest
  }

  lemma InsertBehindSorted(x: Scored, ys: seq<Scored>, rest: seq<Scored>)
    requires SortedByScore(ys) && ys != [] && ys[0].score > x.score
    requires SortedByScore(rest)
    requires forall e :: e in rest <==> e in ys[1..] || e == x
    ensures SortedByScore([ys[0]] + rest)
  {
    forall j | 0 <= j < |rest| ensures rest[j].score <= ys[0].score {
      assert rest[j] in rest;
      if rest[j] != x {
        var m :| 0 <= m < |ys[1..]| && ys[1..][m] == rest[j];
        assert ys[m + 1] == rest[j];
      }
    }
    var r := [ys[0]] + rest;
    forall i, j | 0 <= i < j < |r| ensures r[i].score >= r[j].score {
      if i > 0 { assert r[i] == rest[i - 1] && r[j] == rest[j - 1]; } else { assert r[j] == rest[j - 1]; }
    }
  }

  lemma WithScoreCons(x: Scored, xs: seq<Scored>, k: nat)
    ensures WithScore([x] + xs, k) == (if x.score == k then [x] else []) + WithScore(xs, k)
  {
    assert ([x] + xs)[1..] == xs;
  }

  /**
   * Inserting `x` puts it in front of every entry of `ys` that has its score: among
   * the entries of one score, `x` comes first and the others keep their order.
   */
  lemma {:induction false} InsertWithScore(x: Scored, ys: seq<Scored>, k: nat)
    requires SortedByScore(ys)
    ensures WithScore(Insert(x, ys), k) == (if x.score == k then [x] else []) + WithScore(ys, k)
    decreases |ys|
  {
    if ys == [] || ys[0].score <= x.score {
      WithScoreCons(x, ys, k);
    } else {
      var rest := Insert(x, ys[1..]);
      InsertWithScore(x, ys[1..], k);
      WithScoreCons(ys[0], rest, k);
      WithScoreCons(ys[0], ys[1..], k);
      assert [ys[0]] + ys[1..] == ys;
    }
  }

  /**
   * `sort((a, b) => b.score - a.score)` with JavaScript's stable sort: the result has
   * non-increasing scores and is a permutation of the input.
   */
  function SortByScore(xs: seq<Scored>): (r: seq<Scored>)
    ensures SortedByScore(r)
    ensures multiset(r) == multiset(xs)
    decreases |xs|
  {
    if xs == [] then []
    else
      var sorted := SortByScore(xs[1..]);
      ConsMultiset(xs);
      Insert(xs[0], sorted)
  }

  lemma ConsMultiset(xs: seq<Scored>)
    requires xs != []
    ensures multiset(xs) == multiset(xs[1..]) + multiset{xs[0]}
  {
    assert xs == [xs[0]] + xs[1..];
  }

  /** The sort is stable: the entries of each score keep their input order. */
  lemma {:induction false} SortStable(xs: seq<Scored>, k: nat)
    ensures WithScore(SortByScore(xs), k) == WithScore(xs, k)
    decreases |xs|
  {
    if xs != [] {
      SortStable(xs[1..], k);
      InsertWithScore(xs[0], SortByScore(xs[1..]), k);
      WithScoreCons(xs[0], xs[1..], k);
      assert [xs[0]] + xs[1..] == xs;
    }
  }

  /** The products of the entries, in order. */
  function ProductsOf(xs: seq<Scored>): (r: seq<Product>)
    ensures |r| == |xs|
    ensures forall k :: 0 <= k < |xs| ==> r[k] == xs[k].product
  {
    seq(|xs|, k requires 0 <= k < |xs| => xs[k].product)
  }

  /** The maximum number of products `search` returns. */
  const MaxResults := 2

  function Min(a: int, b: int): int {
    if a <= b then a else b
  }

  /** Every scored entry for the lower-cased query `q`, best first: `scored.filter(...).sort(...)`. */
  function Ranking(catalog: seq<Product>, q: string): seq<Scored> {
    SortByScore(Positive(ScoreAll(catalog, q)))
  }

  lemma RankingConsistent(catalog: seq<Product>, q: string)
    ensures Consistent(Ranking(catalog, q), q)
    ensures forall x :: x in Ranking(catalog, q) <==> x in ScoreAll(catalog, q) && x.score > 0
  {
    var r := Ranking(catalog, q);
    var pos := Positive(ScoreAll(catalog, q));
    forall x | x in r ensures x in pos {
      assert x in multiset(r);
    }
    forall x | x in pos ensures x in r {
      assert x in multiset(pos);
    }
  }

  /**
   * `search`: at most two products, each from the catalog with a positive score for
   * the lower-cased query, in non-increasing score order; the result is empty exactly
   * when no catalog product scores (there is no fallback).
   */
  function SearchCatalog(catalog: seq<Product>, query: string): (r: seq<Product>)
    ensures |r| <= MaxResults
    ensures forall k :: 0 <= k < |r| ==> r[k] in catalog && Score(r[k], ToLowerCase(query)) > 0
    ensures forall i, j :: 0 <= i < j < |r| ==> Score(r[i], ToLowerCase(query)) >= Score(r[j], ToLowerCase(query))
    ensures r == [] <==> forall p :: p in catalog ==> Score(p, ToLowerCase(query)) == 0
  {
    var q := ToLowerCase(query);
    var ranked := Ranking(catalog, q);
    var r := ProductsOf(ranked[..Min(MaxResults, |ranked|)]);
    RankingConsistent(catalog, q);
    SearchFacts(catalog, q, ranked, r);
    r
  }

  lemma SearchFacts(catalog: seq<Product>, q: string, ranked: seq<Scored>, r: seq<Product>)
    requires ranked == Ranking(catalog, q) && r == ProductsOf(ranked[..Min(MaxResults, |ranked|)])
    requires Consistent(ranked, q)
    requires forall x :: x in ranked <==> x in ScoreAll(catalog, q) && x.score > 0
    ensures forall k :: 0 <= k < |r| ==> r[k] in catalog && Score(r[k], q) > 0
    ensures forall i, j :: 0 <= i < j < |r| ==> Score(r[i], q) >= Score(r[j], q)
    ensures r == [] <==> forall p :: p in catalog ==> Score(p, q) == 0
  {
    SearchFromCatalog(catalog, q, ranked, r);
    SearchOrdered(catalog, q, ranked, r);
    SearchNonEmpty(catalog, q, ranked, r);
  }

  lemma SearchFromCatalog(catalog: seq<Product>, q: string, ranked: seq<Scored>, r: seq<Product>)
    requires r == ProductsOf(ranked[..Min(MaxResults, |ranked|)])
    requires Consistent(ranked, q)
    requires forall x :: x in ranked <==> x in ScoreAll(catalog, q) && x.score > 0
    ensures forall k :: 0 <= k < |r| ==> r[k] in catalog && Score(r[k], q) > 0
  {
    var all := ScoreAll(catalog, q);
    forall k | 0 <= k < |r| ensures r[k] in catalog && Score(r[k], q) > 0 {
      assert ranked[k] in ranked;
      var i :| 0 <= i < |all| && all[i] == ranked[k];
    }
  }

  lemma SearchOrdered(catalog: seq<Product>, q: string, ranked: seq<Scored>, r: seq<Product>)
    requires r == ProductsOf(ranked[..Min(MaxResults, |ranked|)])
    requires Consistent(ranked, q) && SortedByScore(ranked)
    ensures forall i, j :: 0 <= i < j < |r| ==> Score(r[i], q) >= Score(r[j], q)
  {
    forall i, j | 0 <= i < j < |r| ensures Score(r[i], q) >= Score(r[j], q) {
      assert ranked[i] in ranked && ranked[j] in ranked;
    }
  }

  lemma SearchNonEmpty(catalog: seq<Product>, q: string, ranked: seq<Scored>, r: seq<Product>)
    requires r == ProductsOf(ranked[..Min(MaxResults, |ranked|)])
    requires forall x :: x in ranked <==> x in ScoreAll(catalog, q) && x.score > 0
    ensures r == [] <==> forall p :: p in catalog ==> Score(p, q) == 0
  {
    var all := ScoreAll(catalog, q);
    if exists p :: p in catalog && Score(p, q) != 0 {
      var p :| p in catalog && Score(p, q) != 0;
      var i :| 0 <= i < |catalog| && catalog[i] == p;
      assert all[i] in ranked;
    }
    if r == [] {
      assert ranked == [];
    } else {
      assert ranked[0] in ranked;
    }
  }

  /** The catalog products with score `k` for the lower-cased query `q`, in catalog order. */
  function ProductsWithScore(ps: seq<Product>, q: string, k: nat): seq<Product>
    decreases |ps|
  {
    if ps == [] then []
    else (if Score(ps[0], q) == k then [ps[0]] else []) + ProductsWithScore(ps[1..], q, k)
  }

  /** The catalog products with a positive score for the lower-cased query `q`, in catalog order. */
  function Matching(ps: seq<Product>, q: string): seq<Product>
    decreases |ps|
  {
    if ps == [] then []
    else (if Score(ps[0], q) > 0 then [ps[0]] else []) + Matching(ps[1..], q)
  }

  /** `a` is an initial part of `b`. */
  predicate IsPrefix<T(==)>(a: seq<T>, b: seq<T>) {
    |a| <= |b| && b[..|a|] == a
  }

  lemma {:induction false} PositiveAll(xs: seq<Scored>)
    requires forall k :: 0 <= k < |xs| ==> xs[k].score > 0
    ensures Positive(xs) == xs
    decreases |xs|
  {
    if xs != [] {
      PositiveAll(xs[1..]);
      assert xs == [xs[0]] + xs[1..];
    }
  }

  lemma {:induction false} WithScoreAll(xs: seq<Scored>, k: nat)
    requires forall i :: 0 <= i < |xs| ==> xs[i].score == k
    ensures WithScore(xs, k) == xs
    decreases |xs|
  {
    if xs != [] {
      WithScoreAll(xs[1..], k);
      assert xs == [xs[0]] + xs[1..];
    }
  }

  /** An empty query is contained in every title and description: every product scores 3. */
  lemma EmptyQueryScoresThree(p: Product)
    ensures Score(p, ToLowerCase("")) == 3
  {
    assert ToLowerCase("") == "";
    IncludesEmpty(ToLowerCase(p.displayTitle));
    IncludesEmpty(ToLowerCase(p.embeddingText));
  }

  /**
   * An empty query matches every product with the same score, so the stable sort
   * keeps catalog order and `search("")` returns the first two catalog entries.
   */
  lemma SearchEmptyQuery(catalog: seq<Product>)
    ensures SearchCatalog(catalog, "") == catalog[..Min(MaxResults, |catalog|)]
  {
    var q := ToLowerCase("");
    var all := ScoreAll(catalog, q);
    EmptyQueryRanking(catalog);
    var n := Min(MaxResults, |catalog|);
    assert ProductsOf(all[..n]) == catalog[..n];
  }

  lemma EmptyQueryRanking(catalog: seq<Product>)
    ensures Ranking(catalog, ToLowerCase("")) == ScoreAll(catalog, ToLowerCase(""))
  {
    var all := ScoreAll(catalog, ToLowerCase(""));
    forall k | 0 <= k < |all| ensures all[k].score == 3 {
      EmptyQueryScoresThree(catalog[k]);
    }
    PositiveAll(all);
    SortAllEqual(all, 3);
  }

  /** Sorting entries that all have one score changes nothing. */
  lemma SortAllEqual(xs: seq<Scored>, k: nat)
    requires forall i :: 0 <= i < |xs| ==> xs[i].score == k
    ensures SortByScore(xs) == xs
  {
    var sorted := SortByScore(xs);
    forall i | 0 <= i < |sorted| ensures sorted[i].score == k {
      assert sorted[i] in multiset(xs);
    }
    SortStable(xs, k);
    WithScoreAll(xs, k);
    WithScoreAll(sorted, k);
  }

  /** The first result scores at least as high as every catalog product. */
  lemma SearchTopScore(catalog: seq<Product>, query: string)
    ensures var r := SearchCatalog(catalog, query);
            r != [] ==> forall p :: p in catalog ==> Score(p, ToLowerCase(query)) <= Score(r[0], ToLowerCase(query))
  {
    var q := ToLowerCase(query);
    var r := SearchCatalog(catalog, query);
    var ranked := Ranking(catalog, q);
    var all := ScoreAll(catalog, q);
    RankingConsistent(catalog, q);
    if r != [] {
      assert ranked[0] in ranked;
      forall p | p in catalog ensures Score(p, q) <= Score(r[0], q) {
        var i :| 0 <= i < |catalog| && catalog[i] == p;
        if Score(p, q) > 0 {
          assert all[i] in ranked;
          var j :| 0 <= j < |ranked| && ranked[j] == all[i];
        }
      }
    }
  }

  lemma {:induction false} MatchingCount(catalog: seq<Product>, q: string)
    ensures |Positive(ScoreAll(catalog, q))| == |Matching(catalog, q)|
    decreases |catalog|
  {
    if catalog != [] {
      MatchingCount(catalog[1..], q);
      var all := ScoreAll(catalog, q);
      assert all == [all[0]] + ScoreAll(catalog[1..], q);
    }
  }

  /**
   * Nothing relevant is left out below the cap: `search` returns exactly
   * min(2, number of matching catalog products) products.
   */
  lemma SearchCount(catalog: seq<Product>, query: string)
    ensures |SearchCatalog(catalog, query)| == Min(MaxResults, |Matching(catalog, ToLowerCase(query))|)
  {
    var q := ToLowerCase(query);
    MatchingCount(catalog, q);
    var pos := Positive(ScoreAll(catalog, q));
    assert |SortByScore(pos)| == |multiset(SortByScore(pos))| == |multiset(pos)| == |pos|;
  }

  lemma {:induction false} WithScoreAppend(a: seq<Scored>, b: seq<Scored>, k: nat)
    ensures WithScore(a + b, k) == WithScore(a, k) + WithScore(b, k)
    decreases |a|
  {
    if a == [] {
      assert a + b == b;
    } else {
      WithScoreAppend(a[1..], b, k);
      WithScoreCons(a[0], a[1..] + b, k);
      assert a + b == [a[0]] + (a[1..] + b);
      assert a == [a[0]] + a[1..];
      WithScoreCons(a[0], a[1..], k);
    }
  }

  lemma {:induction false} WithScorePositive(xs: seq<Scored>, k: nat)
    requires k > 0
    ensures WithScore(Positive(xs), k) == WithScore(xs, k)
    decreases |xs|
  {
    if xs != [] {
      WithScorePositive(xs[1..], k);
      var head := if xs[0].score > 0 then [xs[0]] else [];
      WithScoreAppend(head, Positive(xs[1..]), k);
      WithScoreCons(xs[0], xs[1..], k);
      assert xs == [xs[0]] + xs[1..];
      if xs[0].score > 0 {
        WithScoreCons(xs[0], [], k);
      }
    }
  }

  /** On consistently scored entries, picking a score commutes with dropping the scores. */
  lemma {:induction false} ProductsOfWithScore(ys: seq<Scored>, q: string, k: nat)
    requires Consistent(ys, q)
    ensures ProductsOf(WithScore(ys, k)) == ProductsWithScore(ProductsOf(ys), q, k)
    decreases |ys|
  {
    if ys != [] {
      var x := ys[0];
      assert x in ys;
      assert Consistent(ys[1..], q) by {
        forall y | y in ys[1..] ensures y.score == Score(y.product, q) {
          assert y in ys;
        }
      }
      ProductsOfWithScore(ys[1..], q, k);
      var ps := ProductsOf(ys);
      assert ps[0] == x.product;
      assert ps[1..] == ProductsOf(ys[1..]);
      assert ys == [x] + ys[1..];
      WithScoreCons(x, ys[1..], k);
      var head := if x.score == k then [x] else [];
      ProductsOfAppend(head, WithScore(ys[1..], k));
      assert ProductsOf(head) == if x.score == k then [x.product] else [];
    }
  }

  lemma ProductsOfAppend(a: seq<Scored>, b: seq<Scored>)
    ensures ProductsOf(a + b) == ProductsOf(a) + ProductsOf(b)
  {
    assert forall k :: 0 <= k < |a| ==> (a + b)[k] == a[k];
    assert forall k :: |a| <= k < |a| + |b| ==> (a + b)[k] == b[k - |a|];
  }

  lemma ScoreAllConsistent(catalog: seq<Product>, q: string)
    ensures Consistent(ScoreAll(catalog, q), q)
    ensures ProductsOf(ScoreAll(catalog, q)) == catalog
  {
  }

  /**
   * Ties keep catalog order, and within one score the best entries come first: for
   * every score `k`, the results with score `k` are the first catalog products with
   * score `k`, in catalog order.
   */
  lemma SearchStable(catalog: seq<Product>, query: string, k: nat)
    ensures IsPrefix(ProductsWithScore(SearchCatalog(catalog, query), ToLowerCase(query), k),
                     ProductsWithScore(catalog, ToLowerCase(query), k))
  {
    var q := ToLowerCase(query);
    var ranked := Ranking(catalog, q);
    var n := Min(MaxResults, |ranked|);
    RankingConsistent(catalog, q);
    TopWithScore(ranked, n, q, k);
    if k == 0 {
      WithScoreNone(ranked);
    } else {
      RankingWithScore(catalog, q, k);
    }
  }

  /** Within the ranking, the entries of a positive score `k` are the catalog's, in catalog order. */
  lemma RankingWithScore(catalog: seq<Product>, q: string, k: nat)
    requires k > 0
    ensures ProductsOf(WithScore(Ranking(catalog, q), k)) == ProductsWithScore(catalog, q, k)
  {
    var all := ScoreAll(catalog, q);
    SortStable(Positive(all), k);
    WithScorePositive(all, k);
    ScoreAllConsistent(catalog, q);
    ProductsOfWithScore(all, q, k);
  }

  /** Cutting the ranking after `n` entries keeps an initial part of each score's entries. */
  lemma TopWithScore(ranked: seq<Scored>, n: nat, q: string, k: nat)
    requires n <= |ranked| && Consistent(ranked, q)
    ensures IsPrefix(ProductsWithScore(ProductsOf(ranked[..n]), q, k), ProductsOf(WithScore(ranked, k)))
  {
    var top := ranked[..n];
    assert Consistent(top, q) by {
      forall x | x in top ensures x.score == Score(x.product, q) {
        assert x in ranked;
      }
    }
    ProductsOfWithScore(top, q, k);
    assert ranked == top + ranked[n..];
    WithScoreAppend(top, ranked[n..], k);
    var a := WithScore(top, k);
    var b := WithScore(ranked[n..], k);
    assert ProductsOf(a + b)[..|a|] == ProductsOf(a);
  }

  lemma {:induction false} WithScoreNone(xs: seq<Scored>)
    requires forall x :: x in xs ==> x.score > 0
    ensures WithScore(xs, 0) == []
    decreases |xs|
  {
    if xs != [] {
      assert xs[0] in xs;
      WithScoreNone(xs[1..]);
    }
  }

  /** The entries of `xs` with score `k` when no entry has a score that high. */
  lemma {:induction false} WithScoreAbove(xs: seq<Scored>, k: nat)
    requires forall i :: 0 <= i < |xs| ==> xs[i].score < k
    ensures WithScore(xs, k) == []
    decreases |xs|
  {
    if xs != [] {
      WithScoreAbove(xs[1..], k);
    }
  }

  /**
   * A list sorted by decreasing score, with scores from 1 to 3, is its score-3
   * entries, then its score-2 entries, then its score-1 entries.
   */
  lemma {:induction false} SortedGroups(ys: seq<Scored>)
    requires SortedByScore(ys)
    requires forall i :: 0 <= i < |ys| ==> 1 <= ys[i].score <= 3
    ensures ys == WithScore(ys, 3) + WithScore(ys, 2) + WithScore(ys, 1)
    decreases |ys|
  {
    if ys != [] {
      var y := ys[0];
      var rest := ys[1..];
      SortedTail(ys);
      SortedGroups(rest);
      SortedGroupsCons(y, rest);
      assert ys == [y] + rest;
      // `rest` is its own three groups, so `[y] + rest` is the three groups of `ys`.
      assert [y] + rest == [y] + (WithScore(rest, 3) + WithScore(rest, 2) + WithScore(rest, 1));
    }
  }

  lemma SortedTail(ys: seq<Scored>)
    requires ys != [] && SortedByScore(ys)
    requires forall i :: 0 <= i < |ys| ==> 1 <= ys[i].score <= 3
    ensures SortedByScore(ys[1..])
    ensures forall i :: 0 <= i < |ys[1..]| ==> 1 <= ys[1..][i].score <= ys[0].score
  {
    var rest := ys[1..];
    forall i, j | 0 <= i < j < |rest| ensures rest[i].score >= rest[j].score {
      assert rest[i] == ys[i + 1] && rest[j] == ys[j + 1];
    }
    forall i | 0 <= i < |rest| ensures 1 <= rest[i].score <= ys[0].score {
      assert rest[i] == ys[i + 1];
    }
  }

  /** Putting an entry in front of entries that score no higher puts it in front of its own group. */
  lemma SortedGroupsCons(y: Scored, rest: seq<Scored>)
    requires 1 <= y.score <= 3
    requires forall i :: 0 <= i < |rest| ==> 1 <= rest[i].score <= y.score
    ensures WithScore([y] + rest, 3) + WithScore([y] + rest, 2) + WithScore([y] + rest, 1)
         == [y] + (WithScore(rest, 3) + WithScore(rest, 2) + WithScore(rest, 1))
  {
    var w3, w2, w1 := WithScore(rest, 3), WithScore(rest, 2), WithScore(rest, 1);
    var v3, v2, v1 := WithScore([y] + rest, 3), WithScore([y] + rest, 2), WithScore([y] + rest, 1);
    if y.score == 3 {
      assert v3 == [y] + w3 by { WithScoreCons(y, rest, 3); }
      assert v2 == w2 by { WithScoreCons(y, rest, 2); assert v2 == [] + w2; }
      assert v1 == w1 by { WithScoreCons(y, rest, 1); assert v1 == [] + w1; }
    } else if y.score == 2 {
      assert w3 == [] by { WithScoreAbove(rest, 3); }
      assert v3 == [] by { WithScoreCons(y, rest, 3); assert v3 == [] + w3; }
      assert v2 == [y] + w2 by { WithScoreCons(y, rest, 2); }
      assert v1 == w1 by { WithScoreCons(y, rest, 1); assert v1 == [] + w1; }
    } else {
      assert w3 == [] && w2 == [] by { WithScoreAbove(rest, 3); WithScoreAbove(rest, 2); }
      assert v3 == [] by { WithScoreCons(y, rest, 3); assert v3 == [] + w3; }
      assert v2 == [] by { WithScoreCons(y, rest, 2); assert v2 == [] + w2; }
      assert v1 == [y] + w1 by { WithScoreCons(y, rest, 1); }
    }
    JoinGroups([y], w3, w2, w1, v3, v2, v1);
  }

  /** Putting one element in front of three groups, where the groups before its own are empty. */
  lemma JoinGroups<T>(h: seq<T>, a: seq<T>, b: seq<T>, c: seq<T>, a': seq<T>, b': seq<T>, c': seq<T>)
    requires (a' == h + a && b' == b && c' == c)
          || (a == [] && a' == [] && b' == h + b && c' == c)
          || (a == [] && b == [] && a' == [] && b' == [] && c' == h + c)
    ensures h + (a + b + c) == a' + b' + c'
  {
    Seqs.Associative(h, a + b, c);
    Seqs.Associative(h, a, b);
    if a' == h + a && b' == b && c' == c {
    } else if a == [] && a' == [] && b' == h + b && c' == c {
      assert a + b == b && a' + b' == h + b;
    } else {
      assert a + b + c == c && a' + b' + c' == c';
    }
  }
  /** The matching products best first: those scoring 3, then 2, then 1, each group in catalog order. */
  function BestFirst(catalog: seq<Product>, q: string): seq<Product> {
    ProductsWithScore(catalog, q, 3) + ProductsWithScore(catalog, q, 2) + ProductsWithScore(catalog, q, 1)
  }

  lemma ProductsOfPrefix(xs: seq<Scored>, n: nat)
    requires n <= |xs|
    ensures ProductsOf(xs[..n]) == ProductsOf(xs)[..n]
  {
  }

  /**
   * `search` in closed form: the first two matching products when they are listed
   * best first, ties in catalog order. No result is passed over for one that scores
   * lower.
   */
  lemma SearchBest(catalog: seq<Product>, query: string)
    ensures var best := BestFirst(catalog, ToLowerCase(query));
            SearchCatalog(catalog, query) == best[..Min(MaxResults, |best|)]
  {
    var q := ToLowerCase(query);
    var ranked := Ranking(catalog, q);
    RankingConsistent(catalog, q);
    forall i | 0 <= i < |ranked| ensures 1 <= ranked[i].score <= 3 {
      assert ranked[i] in ranked;
    }
    SortedGroups(ranked);
    var w3, w2, w1 := WithScore(ranked, 3), WithScore(ranked, 2), WithScore(ranked, 1);
    RankingWithScore(catalog, q, 3);
    RankingWithScore(catalog, q, 2);
    RankingWithScore(catalog, q, 1);
    ProductsOfAppend(w3, w2);
    ProductsOfAppend(w3 + w2, w1);
    assert ProductsOf(ranked) == BestFirst(catalog, q);
    ProductsOfPrefix(ranked, Min(MaxResults, |ranked|));
  }

  /**
   * The catalog service. `loadProducts` fills `products` once; `search` only reads it.
   */
  class ProductsService {
    var products: seq<Product>

    /** The constructor loads the catalog from the file content `raw`. */
    constructor (raw: string)
      ensures products == LoadCatalog(raw)
    {
      products := [];
      new;
      LoadProducts(raw);
    }

    /** `loadProducts` on the file content `raw`. */
    method LoadProducts(raw: string)
      modifies this
      ensures products == LoadCatalog(raw)
    {
      var lines := NonBlankLines(Split(raw, NewLine));
      var dataLines := AfterHeader(lines);
      var parsed := ParseAll(dataLines);
      products := Seqs.Present(parsed);
    }

    /** `search`: the ranking above over the stored catalog, which it leaves unchanged. */
    method Search(query: string) returns (result: seq<Product>)
      ensures result == SearchCatalog(products, query)
      ensures |result| <= MaxResults
      ensures forall k :: 0 <= k < |result| ==> result[k] in products
    {
      result := SearchCatalog(products, query);
    }
  }
}
