/**
 * `generate_sql_from_json` of `lab-data/process-json.py`, from the parsed
 * product records on: one products INSERT per product, one vendors INSERT
 * per distinct vendor statement, one track_details INSERT per detail, and the
 * document that lays them out under the three CREATE TABLE blocks.
 */
module SqlGen {
  import opened Common
  import opened Text
  import opened SqlLiteral

  datatype Vendor = Vendor(id: int, name: string)

  datatype Detail = Detail(
    trackId: int,
    name: string,
    albumId: int,
    mediaTypeId: int,
    genreId: int,
    composer: Option<string>,
    milliseconds: int,
    bytes: int,
    unitPrice: real)

  datatype Product = Product(
    id: int,
    name: string,
    vendorId: int,
    requiresShipping: bool,
    sku: string,
    taxable: bool,
    status: string,
    price: int,
    vendor: Vendor,
    details: seq<Detail>)

  // ------------------------------------------------------ value rendering

  /*
   * Every fixed piece of statement text is a named constant, so that the
   * statement functions below mention it by name only.
   */
  const Minus := "-"
  const TrueText := "True"
  const FalseText := "False"
  const NullToken := "NULL"
  const Comma := ", "
  const Close := ");"
  const ProductColumns :=
    "INSERT INTO products (id, name, vendor_id, requires_shipping, sku, taxable, status, price) VALUES ("
  const VendorColumns := "INSERT INTO vendors (id, name) VALUES ("
  const DetailColumns :=
    "INSERT INTO track_details (track_id, name, album_id, media_type_id, genre_id, composer, milliseconds, bytes, unit_price) VALUES ("

  predicate AllDigits(s: string) {
    forall k :: 0 <= k < |s| ==> '0' <= s[k] <= '9'
  }

  /** The character of one decimal digit. */
  function DigitChar(d: nat): (c: char)
    requires d < 10
    ensures '0' <= c <= '9' && c as int - '0' as int == d
  {
    ('0' as int + d) as char
  }

  /** The decimal digits of `n`, most significant first. */
  function Digits(n: nat): (r: string)
    ensures |r| >= 1 && AllDigits(r)
  {
    if n < 10 then [DigitChar(n)] else Digits(n / 10) + [DigitChar(n % 10)]
  }

  /** The number a string of decimal digits denotes. */
  function DecimalValue(s: string): nat
    requires AllDigits(s)
  {
    if s == [] then 0 else DecimalValue(s[..|s| - 1]) * 10 + (s[|s| - 1] as int - '0' as int)
  }

  /** The digits read back as the number they were written from. */
  lemma {:induction false} DigitsValue(n: nat)
    ensures DecimalValue(Digits(n)) == n
  {
    if n >= 10 {
      DigitsValue(n / 10);
      var r := Digits(n);
      assert r[..|r| - 1] == Digits(n / 10);
    }
  }

  /** `str(n)` of a Python int: a minus sign for negatives, then the decimal digits. */
  function IntText(n: int): (r: string)
    ensures |r| >= 1 && r[0] != Quote
  {
    if n < 0 then Minus + Digits(-n) else Digits(n)
  }

  /** `str(n)` of a negative number reads back as a minus sign and the digits of its magnitude. */
  lemma NegativeTextValue(n: int)
    requires n < 0
    ensures var t := IntText(n);
      && t[0] == '-' && AllDigits(t[1..]) && DecimalValue(t[1..]) == -n
  {
    var d := Digits(-n);
    assert IntText(n) == Minus + d;
    assert IntText(n)[1..] == d;
    DigitsValue(-n);
  }

  /** `str(n)` of a non-negative number is its digits, with no sign. */
  lemma NonNegativeTextValue(n: int)
    requires n >= 0
    ensures var t := IntText(n);
      && t[0] != '-' && AllDigits(t) && DecimalValue(t) == n
  {
    assert IntText(n) == Digits(n);
    DigitsValue(n);
    assert '0' <= Digits(n)[0] <= '9';
  }

  /** `str(n)` reads back as `n`: a sign exactly for negatives, then the digits of the magnitude. */
  lemma IntTextValue(n: int)
    ensures IntText(n)[0] == '-' <==> n < 0
    ensures n < 0 ==> AllDigits(IntText(n)[1..]) && DecimalValue(IntText(n)[1..]) == -n
    ensures n >= 0 ==> AllDigits(IntText(n)) && DecimalValue(IntText(n)) == n
  {
    if n < 0 {
      NegativeTextValue(n);
    } else {
      NonNegativeTextValue(n);
    }
  }

  /** `str(b)` of a Python bool. */
  function BoolText(b: bool): string {
    if b then TrueText else FalseText
  }

  /** The composer value: the bare token NULL for a missing composer, else an escaped literal. */
  function ComposerValue(composer: Option<string>): (r: string)
    ensures r != [] && (r[0] == Quote <==> composer.Some?)
  {
    match composer
    case None => NullToken
    case Some(c) => Literal(c)
  }

  // ------------------------------------------------------------ statements

  /** `stmt` opens with the column list `columns` and closes with `);`. */
  predicate IsStatement(stmt: string, columns: string) {
    && |columns| + |Close| <= |stmt|
    && stmt[..|columns|] == columns
    && stmt[|stmt| - |Close|..] == Close
  }

  /** A head that opens with the column list and a tail that closes the statement frame it. */
  lemma StatementShape(columns: string, head: string, middle: string, tail: string)
    requires |columns| <= |head| && head[..|columns|] == columns
    requires |Close| <= |tail| && tail[|tail| - |Close|..] == Close
    ensures IsStatement(head + (middle + tail), columns)
  {
    var stmt := head + (middle + tail);
    assert stmt[..|columns|] == head[..|columns|];
    assert stmt[|stmt| - |Close|..] == tail[|tail| - |Close|..];
  }

  lemma ClosedBy(body: string)
    ensures (body + Close)[|body + Close| - |Close|..] == Close
  {
  }

  lemma SplitAt(pre: string, rest: string)
    ensures (pre + rest)[..|pre|] == pre && (pre + rest)[|pre|..] == rest
  {
  }

  lemma OpenedBy(columns: string, rest: string)
    ensures (columns + rest)[..|columns|] == columns
  {
  }

  function ProductHead(p: Product): (r: string)
    ensures |ProductColumns| <= |r| && r[..|ProductColumns|] == ProductColumns
  {
    OpenedBy(ProductColumns, IntText(p.id) + Comma);
    ProductColumns + (IntText(p.id) + Comma)
  }

  /** Everything after the name; sku and status are quoted without escaping. */
  function ProductTail(p: Product): (r: string)
    ensures |r| > 0 && r[0] == ','
    ensures |Close| <= |r| && r[|r| - |Close|..] == Close
  {
    var body := Comma + IntText(p.vendorId) + Comma + BoolText(p.requiresShipping)
      + Comma + RawLiteral(p.sku) + Comma + BoolText(p.taxable)
      + Comma + RawLiteral(p.status) + Comma + IntText(p.price);
    ClosedBy(body);
    body + Close
  }

  /** The products INSERT: it opens with the products column list and closes with `);`. */
  function ProductInsert(p: Product): (r: string)
    ensures IsStatement(r, ProductColumns)
  {
    StatementShape(ProductColumns, ProductHead(p), Literal(p.name), ProductTail(p));
    ProductHead(p) + (Literal(p.name) + ProductTail(p))
  }

  function VendorHead(id: int): (r: string)
    ensures |VendorColumns| <= |r| && r[..|VendorColumns|] == VendorColumns
  {
    OpenedBy(VendorColumns, IntText(id) + Comma);
    VendorColumns + (IntText(id) + Comma)
  }

  /** The vendors INSERT: it opens with the vendors column list and closes with `);`. */
  function VendorInsert(v: Vendor): (r: string)
    ensures IsStatement(r, VendorColumns)
  {
    StatementShape(VendorColumns, VendorHead(v.id), Literal(v.name), Close);
    VendorHead(v.id) + (Literal(v.name) + Close)
  }

  function DetailHead(d: Detail): (r: string)
    ensures |DetailColumns| <= |r| && r[..|DetailColumns|] == DetailColumns
  {
    OpenedBy(DetailColumns, IntText(d.trackId) + Comma);
    DetailColumns + (IntText(d.trackId) + Comma)
  }

  function DetailMiddle(d: Detail): (r: string)
    ensures |r| > 0 && r[0] == ','
  {
    Comma + IntText(d.albumId) + Comma + IntText(d.mediaTypeId) + Comma + IntText(d.genreId) + Comma
  }

  function DetailTail(d: Detail, show: real -> string): (r: string)
    ensures |r| > 0 && r[0] == ','
    ensures |Close| <= |r| && r[|r| - |Close|..] == Close
  {
    var body := Comma + IntText(d.milliseconds) + Comma + IntText(d.bytes) + Comma + show(d.unitPrice);
    ClosedBy(body);
    body + Close
  }

  /** Everything after the track name. */
  function DetailAfterName(d: Detail, show: real -> string): (r: string)
    ensures |r| > 0 && r[0] == ','
    ensures |Close| <= |r| && r[|r| - |Close|..] == Close
  {
    var tail := DetailTail(d, show);
    var r := DetailMiddle(d) + (ComposerValue(d.composer) + tail);
    assert r[|r| - |Close|..] == tail[|tail| - |Close|..];
    r
  }

  /** The track_details INSERT: it opens with the track_details column list and closes with `);`. */
  function DetailInsert(d: Detail, show: real -> string): (r: string)
    ensures IsStatement(r, DetailColumns)
  {
    StatementShape(DetailColumns, DetailHead(d), Literal(d.name), DetailAfterName(d, show));
    DetailHead(d) + (Literal(d.name) + DetailAfterName(d, show))
  }

  /** A literal placed after any prefix reads back from the end of that prefix. */
  lemma LiteralAfter(head: string, s: string, rest: string)
    requires rest == [] || rest[0] != Quote
    ensures |head| <= |head + (Literal(s) + rest)|
    ensures ReadLiteral((head + (Literal(s) + rest))[|head|..]) == Some((s, rest))
  {
    assert (head + (Literal(s) + rest))[|head|..] == Literal(s) + rest;
    LiteralReadsBack(s, rest);
  }

  /** The product name is recovered by reading the literal that follows the head. */
  lemma ProductNameReadsBack(p: Product)
    ensures var stmt := ProductInsert(p);
      |ProductHead(p)| <= |stmt| && ReadLiteral(stmt[|ProductHead(p)|..]) == Some((p.name, ProductTail(p)))
  {
    LiteralAfter(ProductHead(p), p.name, ProductTail(p));
  }

  lemma VendorNameReadsBack(v: Vendor)
    ensures var stmt := VendorInsert(v);
      |VendorHead(v.id)| <= |stmt| && ReadLiteral(stmt[|VendorHead(v.id)|..]) == Some((v.name, Close))
  {
    LiteralAfter(VendorHead(v.id), v.name, Close);
  }

  /** What stands after three leading pieces, where the composer value sits in a detail statement. */
  lemma ValueAfterThree(a: string, b: string, c: string, value: string, rest: string)
    ensures |a| + |b| + |c| <= |a + (b + (c + (value + rest)))|
    ensures (a + (b + (c + (value + rest))))[|a| + |b| + |c|..] == value + rest
  {
    assert a + (b + (c + (value + rest))) == (a + b + c) + (value + rest);
  }

  /** In a detail statement the track name reads back after the head. */
  lemma DetailNameReadsBack(d: Detail, show: real -> string)
    ensures var stmt := DetailInsert(d, show);
      |DetailHead(d)| <= |stmt| && ReadLiteral(stmt[|DetailHead(d)|..]) == Some((d.name, DetailAfterName(d, show)))
  {
    LiteralAfter(DetailHead(d), d.name, DetailAfterName(d, show));
  }

  /**
   * The composer reads back after the middle part of a detail statement,
   * unless it was missing: then the bare NULL token stands there and no
   * literal can be read.
   */
  lemma DetailComposerReadsBack(d: Detail, show: real -> string)
    ensures var stmt := DetailInsert(d, show);
      var c := |DetailHead(d)| + |Literal(d.name)| + |DetailMiddle(d)|;
      && c <= |stmt|
      && (d.composer.Some? ==> ReadLiteral(stmt[c..]) == Some((d.composer.value, DetailTail(d, show))))
      && (d.composer.None? ==> ReadLiteral(stmt[c..]) == None && stmt[c..][..|NullToken|] == NullToken)
  {
    var tail := DetailTail(d, show);
    var value := ComposerValue(d.composer);
    ValueAfterThree(DetailHead(d), Literal(d.name), DetailMiddle(d), value, tail);
    if d.composer.Some? {
      LiteralReadsBack(d.composer.value, tail);
    } else {
      assert (value + tail)[..|NullToken|] == NullToken;
    }
  }

  /** Different integers have different texts. */
  lemma IntTextInjective(a: int, b: int)
    requires IntText(a) == IntText(b)
    ensures a == b
  {
    IntTextValue(a);
    IntTextValue(b);
  }

  /** An integer's text holds no comma. */
  lemma IntTextNoComma(n: int)
    ensures forall k :: 0 <= k < |IntText(n)| ==> IntText(n)[k] != ','
  {
    IntTextValue(n);
    var t := IntText(n);
    if n < 0 {
      forall k | 1 <= k < |t| ensures t[k] != ',' {
        assert t[1..][k - 1] == t[k];
      }
    }
  }

  /** The text before the first comma. */
  function UpToComma(s: string): string {
    if s == [] || s[0] == ',' then [] else [s[0]] + UpToComma(s[1..])
  }

  lemma {:induction false} UpToCommaOf(t: string, x: string)
    requires forall k :: 0 <= k < |t| ==> t[k] != ','
    requires |x| > 0 && x[0] == ','
    ensures UpToComma(t + x) == t
  {
    if t == [] {
      assert t + x == x;
    } else {
      assert (t + x)[0] == t[0] && (t + x)[1..] == t[1..] + x;
      UpToCommaOf(t[1..], x);
    }
  }

  /** An integer followed by a comma is read back unambiguously. */
  lemma IntBeforeComma(a: int, b: int, x: string, y: string)
    requires |x| > 0 && x[0] == ',' && |y| > 0 && y[0] == ','
    requires IntText(a) + x == IntText(b) + y
    ensures a == b
  {
    IntTextNoComma(a);
    IntTextNoComma(b);
    UpToCommaOf(IntText(a), x);
    UpToCommaOf(IntText(b), y);
    IntTextInjective(a, b);
  }

  /** A vendor statement after its column list: the id, a comma, the name literal and `);`. */
  lemma VendorAfterColumns(v: Vendor)
    ensures |VendorColumns| <= |VendorInsert(v)|
    ensures VendorInsert(v)[|VendorColumns|..] == IntText(v.id) + (Comma + (Literal(v.name) + Close))
  {
    var rest := Literal(v.name) + Close;
    assert VendorInsert(v) == VendorColumns + (IntText(v.id) + (Comma + rest));
  }

  /**
   * Two vendor statements are equal exactly when the vendors are: the
   * text check that avoids duplicates compares vendors by id and name.
   */
  lemma VendorInsertInjective(v: Vendor, w: Vendor)
    ensures VendorInsert(v) == VendorInsert(w) <==> v == w
  {
    if VendorInsert(v) == VendorInsert(w) {
      VendorAfterColumns(v);
      VendorAfterColumns(w);
      IntBeforeComma(v.id, w.id, Comma + (Literal(v.name) + Close), Comma + (Literal(w.name) + Close));
      VendorNameReadsBack(v);
      VendorNameReadsBack(w);
    }
  }

  /** Two vendor statements with the same id are equal only when the names are. */
  lemma VendorInsertSeparatesNames(v: Vendor, w: Vendor)
    requires v.id == w.id && v.name != w.name
    ensures VendorInsert(v) != VendorInsert(w)
  {
    VendorNameReadsBack(v);
    VendorNameReadsBack(w);
  }

  // ------------------------------------------------------------ statement lists

  /** `f` applied to each element, in order. */
  function Map<T>(xs: seq<T>, f: T -> string): (r: seq<string>)
    ensures |r| == |xs| && forall k :: 0 <= k < |xs| ==> r[k] == f(xs[k])
  {
    seq(|xs|, k requires 0 <= k < |xs| => f(xs[k]))
  }

  /** The statements of every item's parts, item by item, each item's parts in order. */
  function Flatten<P, D>(items: seq<P>, parts: P -> seq<D>, f: D -> string): seq<string> {
    if items == [] then []
    else Flatten(items[..|items| - 1], parts, f) + Map(parts(items[|items| - 1]), f)
  }

  function PartCount<P, D>(items: seq<P>, parts: P -> seq<D>): nat {
    if items == [] then 0 else PartCount(items[..|items| - 1], parts) + |parts(items[|items| - 1])|
  }

  lemma {:induction false} FlattenCount<P, D>(items: seq<P>, parts: P -> seq<D>, f: D -> string)
    ensures |Flatten(items, parts, f)| == PartCount(items, parts)
  {
    if items != [] {
      FlattenCount(items[..|items| - 1], parts, f);
    }
  }

  predicate NoDuplicates(xs: seq<string>) {
    forall i, j :: 0 <= i < j < |xs| ==> xs[i] != xs[j]
  }

  /** Each distinct element once, at the position of its first occurrence. */
  function FirstOccurrences(xs: seq<string>): seq<string> {
    if xs == [] then []
    else
      var init := xs[..|xs| - 1];
      FirstOccurrences(init) + (if xs[|xs| - 1] in init then [] else [xs[|xs| - 1]])
  }

  lemma {:induction false} FirstOccurrencesSpec(xs: seq<string>)
    ensures forall x :: x in FirstOccurrences(xs) <==> x in xs
    ensures NoDuplicates(FirstOccurrences(xs))
  {
    if xs != [] {
      var init := xs[..|xs| - 1];
      var last := xs[|xs| - 1];
      FirstOccurrencesSpec(init);
      assert xs == init + [last];
      var f := FirstOccurrences(init);
      if last !in init {
        var r := f + [last];
        forall i, j | 0 <= i < j < |r| ensures r[i] != r[j] {
          if j == |f| {
            assert r[i] in f;
          }
        }
      }
    }
  }

  lemma FirstOccurrencesStep(xs: seq<string>, i: nat)
    requires i < |xs|
    ensures FirstOccurrences(xs[..i + 1])
      == FirstOccurrences(xs[..i]) + (if xs[i] in FirstOccurrences(xs[..i]) then [] else [xs[i]])
  {
    assert xs[..i + 1][..i] == xs[..i];
    FirstOccurrencesSpec(xs[..i]);
  }

  /** `acc` followed by `f` of each element of `xs`. */
  method AppendAll<T>(acc: seq<string>, xs: seq<T>, f: T -> string) returns (r: seq<string>)
    ensures r == acc + Map(xs, f)
  {
    r := acc;
    var j := 0;
    while j < |xs|
      invariant 0 <= j <= |xs|
      invariant r == acc + Map(xs, f)[..j]
    {
      r := r + [f(xs[j])];
      assert Map(xs, f)[..j + 1] == Map(xs, f)[..j] + [f(xs[j])];
      j := j + 1;
    }
    assert Map(xs, f)[..j] == Map(xs, f);
  }

  /**
   * The loop of `generate_sql_from_json`, for any way of writing the
   * statements: per item one main statement, the item's vendor statement
   * unless an equal one was already collected, and one statement per part.
   */
  method Collect<P, D>(items: seq<P>, main: P -> string, vendor: P -> string, parts: P -> seq<D>, part: D -> string)
    returns (vendors: seq<string>, mains: seq<string>, all: seq<string>)
    ensures mains == Map(items, main)
    ensures vendors == FirstOccurrences(Map(items, vendor))
    ensures all == Flatten(items, parts, part)
  {
    vendors, mains, all := [], [], [];
    var i := 0;
    while i < |items|
      invariant 0 <= i <= |items|
      invariant mains == Map(items[..i], main)
      invariant vendors == FirstOccurrences(Map(items, vendor)[..i])
      invariant all == Flatten(items[..i], parts, part)
    {
      var item := items[i];
      assert Map(items[..i + 1], main) == Map(items[..i], main) + [main(item)];
      mains := mains + [main(item)];

      var v := vendor(item);
      FirstOccurrencesStep(Map(items, vendor), i);
      if v !in vendors {
        vendors := vendors + [v];
      }

      all := AppendAll(all, parts(item), part);
      assert items[..i + 1][..i] == items[..i];
      i := i + 1;
    }
    assert items[..i] == items;
    assert Map(items, vendor)[..i] == Map(items, vendor);
  }

  function VendorOf(p: Product): string {
    VendorInsert(p.vendor)
  }

  function DetailsOf(p: Product): seq<Detail> {
    p.details
  }

  function DetailWriter(show: real -> string): Detail -> string {
    d => DetailInsert(d, show)
  }

  function VendorStatements(data: seq<Product>): seq<string> {
    Map(data, VendorOf)
  }

  /** All detail statements: product by product, each product's details in order. */
  function AllDetails(data: seq<Product>, show: real -> string): seq<string> {
    Flatten(data, DetailsOf, DetailWriter(show))
  }

  lemma VendorStatementsMembers(data: seq<Product>)
    ensures forall s :: (s in FirstOccurrences(VendorStatements(data))
      <==> exists k :: 0 <= k < |data| && s == VendorInsert(data[k].vendor))
  {
    var all := VendorStatements(data);
    FirstOccurrencesSpec(all);
    forall s | s in all ensures exists k :: 0 <= k < |data| && s == VendorInsert(data[k].vendor) {
      var k :| 0 <= k < |all| && all[k] == s;
      assert all[k] == VendorOf(data[k]);
    }
    forall s | exists k :: 0 <= k < |data| && s == VendorInsert(data[k].vendor) ensures s in all {
      var k :| 0 <= k < |data| && s == VendorInsert(data[k].vendor);
      assert all[k] == VendorOf(data[k]);
    }
  }

  /**
   * The statement lists `generate_sql_from_json` builds: one product
   * statement per product, the vendor statements without repeats in
   * first-occurrence order, and the detail statements product by product.
   */
  method GenerateSql(data: seq<Product>, show: real -> string)
    returns (vendors: seq<string>, products: seq<string>, details: seq<string>)
    ensures |products| == |data| && forall k :: 0 <= k < |data| ==> products[k] == ProductInsert(data[k])
    ensures vendors == FirstOccurrences(VendorStatements(data))
    ensures NoDuplicates(vendors)
    ensures forall s :: s in vendors <==> exists k :: 0 <= k < |data| && s == VendorInsert(data[k].vendor)
    ensures details == AllDetails(data, show)
    ensures |details| == PartCount(data, DetailsOf)
  {
    vendors, products, details := Collect(data, ProductInsert, VendorOf, DetailsOf, DetailWriter(show));
    FirstOccurrencesSpec(VendorStatements(data));
    VendorStatementsMembers(data);
    FlattenCount(data, DetailsOf, DetailWriter(show));
  }

  /** Two vendors sharing an id under different names both get a statement. */
  lemma SameIdDifferentNamesBothKept(data: seq<Product>, a: nat, b: nat)
    requires a < |data| && b < |data|
    requires data[a].vendor.id == data[b].vendor.id && data[a].vendor.name != data[b].vendor.name
    ensures var vs := FirstOccurrences(VendorStatements(data));
      && VendorInsert(data[a].vendor) in vs && VendorInsert(data[b].vendor) in vs
      && VendorInsert(data[a].vendor) != VendorInsert(data[b].vendor)
  {
    var all := VendorStatements(data);
    FirstOccurrencesSpec(all);
    assert all[a] == VendorInsert(data[a].vendor) && all[b] == VendorInsert(data[b].vendor);
    VendorInsertSeparatesNames(data[a].vendor, data[b].vendor);
  }

  // --------------------------------------------------------------- document

  const VendorsTable :=
    "\n    CREATE TABLE IF NOT EXISTS vendors (\n        id INTEGER PRIMARY KEY,\n        name VARCHAR(255)\n    );\n    "

  const ProductsTable :=
    "\n    CREATE TABLE IF NOT EXISTS products (\n        id INTEGER PRIMARY KEY,\n        name VARCHAR(255),\n"
    + "        vendor_id INTEGER,\n        requires_shipping BOOLEAN,\n        sku VARCHAR(50),\n"
    + "        taxable BOOLEAN,\n        status VARCHAR(50),\n        price INTEGER,\n"
    + "        FOREIGN KEY (vendor_id) REFERENCES vendors(id)\n    );\n    "

  const DetailsTable :=
    "\n    CREATE TABLE IF NOT EXISTS track_details (\n        track_id INTEGER PRIMARY KEY,\n"
    + "        name VARCHAR(255),\n        album_id INTEGER,\n        media_type_id INTEGER,\n"
    + "        genre_id INTEGER,\n        composer VARCHAR(255),\n        milliseconds INTEGER,\n"
    + "        bytes INTEGER,\n        unit_price DECIMAL(10,2),\n"
    + "        FOREIGN KEY (album_id) REFERENCES products(id)\n    );\n    "

  const VendorHeader := "\n-- Vendor inserts\n"
  const ProductHeader := "\n\n-- Product inserts\n"
  const DetailHeader := "\n\n-- Track details inserts\n"

  /** The three CREATE TABLE blocks, each followed by a newline. */
  function TablesText(t0: string, t1: string, t2: string): string {
    t0 + ("\n" + (t1 + ("\n" + (t2 + "\n"))))
  }

  /** A comment header, then the group's statements one per line, then what follows. */
  function Section(header: string, group: seq<string>, rest: string): string {
    header + (Join("\n", group) + rest)
  }

  const Preamble := TablesText(VendorsTable, ProductsTable, DetailsTable)

  /** The inserts: three comment headers, each followed by its group of statements. */
  function Inserts(vendors: seq<string>, products: seq<string>, details: seq<string>): string {
    Section(VendorHeader, vendors, Section(ProductHeader, products, Section(DetailHeader, details, "")))
  }

  /**
   * The text written to `output.sql`: it opens with the table definitions and
   * holds nothing but them, the three comment headers and the three groups
   * of statements joined by newlines.
   */
  function Document(vendors: seq<string>, products: seq<string>, details: seq<string>): (r: string)
    ensures |Preamble| <= |r| && r[..|Preamble|] == Preamble
    ensures r[|Preamble|..] == Inserts(vendors, products, details)
    ensures |r| == |Preamble| + |VendorHeader| + |Join("\n", vendors)| + |ProductHeader| + |Join("\n", products)|
                   + |DetailHeader| + |Join("\n", details)|
  {
    SplitAt(Preamble, Inserts(vendors, products, details));
    Preamble + Inserts(vendors, products, details)
  }

  lemma TablesPlaced(t0: string, t1: string, t2: string)
    ensures var doc := TablesText(t0, t1, t2);
      && |doc| == |t0| + 1 + |t1| + 1 + |t2| + 1
      && Occurs(doc, t0, 0) && Occurs(doc, t1, |t0| + 1) && Occurs(doc, t2, |t0| + 1 + |t1| + 1)
  {
    var s4 := "\n" + (t2 + "\n");
    var s3 := t1 + s4;
    var s2 := "\n" + s3;
    OccursInPrefix(t2, "\n", t2, 0);
    OccursAfter("\n", t2 + "\n", t2, 0);
    OccursAfter(t1, s4, t2, 1);
    OccursInPrefix(t1, s4, t1, 0);
    OccursAfter("\n", s3, t2, |t1| + 1);
    OccursAfter("\n", s3, t1, 0);
    OccursAfter(t0, s2, t2, 1 + |t1| + 1);
    OccursAfter(t0, s2, t1, 1);
    OccursInPrefix(t0, s2, t0, 0);
  }

  /** A section opens with its header; each statement sits at its offset inside the group. */
  lemma {:induction false} SectionPlaced(header: string, group: seq<string>, rest: string, i: nat)
    requires i < |group|
    ensures var s := Section(header, group, rest);
      var at := |header| + JoinOffset("\n", group, i);
      && Occurs(s, group[i], at)
      && at + |group[i]| <= |header| + |Join("\n", group)|
  {
    var j := Join("\n", group);
    JoinPlacesParts("\n", group, i);
    OccursInPrefix(j, rest, group[i], JoinOffset("\n", group, i));
    OccursAfter(header, j + rest, group[i], JoinOffset("\n", group, i));
  }

  lemma SectionHeader(header: string, group: seq<string>, rest: string)
    ensures Occurs(Section(header, group, rest), header, 0)
  {
    OccursInPrefix(header, Join("\n", group) + rest, header, 0);
  }

  /** A section and what follows it, as the header and group followed by the rest. */
  lemma SectionThen(header: string, group: seq<string>, rest: string, part: string, at: int)
    requires Occurs(rest, part, at)
    ensures Occurs(Section(header, group, rest), part, |header| + |Join("\n", group)| + at)
  {
    OccursAfter(header + Join("\n", group), rest, part, at);
    assert Section(header, group, rest) == (header + Join("\n", group)) + rest;
  }

  lemma TablesOpen(t0: string, t1: string, t2: string, rest: string)
    ensures var doc := TablesText(t0, t1, t2) + rest;
      && Occurs(doc, t0, 0) && Occurs(doc, t1, |t0| + 1) && Occurs(doc, t2, |t0| + 1 + |t1| + 1)
  {
    TablesPlaced(t0, t1, t2);
    OccursInPrefix(TablesText(t0, t1, t2), rest, t0, 0);
    OccursInPrefix(TablesText(t0, t1, t2), rest, t1, |t0| + 1);
    OccursInPrefix(TablesText(t0, t1, t2), rest, t2, |t0| + 1 + |t1| + 1);
  }

  /** The document opens with the vendors, products and track_details tables, in that order. */
  lemma DocumentTables(vendors: seq<string>, products: seq<string>, details: seq<string>)
    ensures var doc := Document(vendors, products, details);
      && Occurs(doc, VendorsTable, 0)
      && Occurs(doc, ProductsTable, |VendorsTable| + 1)
      && Occurs(doc, DetailsTable, |VendorsTable| + 1 + |ProductsTable| + 1)
  {
    TablesOpen(VendorsTable, ProductsTable, DetailsTable, Inserts(vendors, products, details));
  }

  /** The three comment headers open the inserts, each right before its group. */
  lemma {:induction false} InsertsHeaders(vendors: seq<string>, products: seq<string>, details: seq<string>)
    ensures var ins := Inserts(vendors, products, details);
      var jv := |Join("\n", vendors)|;
      var jp := |Join("\n", products)|;
      && Occurs(ins, VendorHeader, 0)
      && Occurs(ins, ProductHeader, |VendorHeader| + jv)
      && Occurs(ins, DetailHeader, |VendorHeader| + jv + |ProductHeader| + jp)
  {
    var s3 := Section(DetailHeader, details, "");
    var s2 := Section(ProductHeader, products, s3);
    SectionHeader(DetailHeader, details, "");
    SectionThen(ProductHeader, products, s3, DetailHeader, 0);
    SectionHeader(ProductHeader, products, s3);
    SectionThen(VendorHeader, vendors, s2, DetailHeader, |ProductHeader| + |Join("\n", products)|);
    SectionThen(VendorHeader, vendors, s2, ProductHeader, 0);
    SectionHeader(VendorHeader, vendors, s2);
  }

  /** Each vendor statement sits in the vendor group, in order, before the product header. */
  lemma {:induction false} InsertsVendors(vendors: seq<string>, products: seq<string>, details: seq<string>, i: nat)
    requires i < |vendors|
    ensures var at := |VendorHeader| + JoinOffset("\n", vendors, i);
      && Occurs(Inserts(vendors, products, details), vendors[i], at)
      && at + |vendors[i]| <= |VendorHeader| + |Join("\n", vendors)|
  {
    SectionPlaced(VendorHeader, vendors, Section(ProductHeader, products, Section(DetailHeader, details, "")), i);
  }

  /** Each product statement sits in the product group, in order, before the details header. */
  lemma {:induction false} InsertsProducts(vendors: seq<string>, products: seq<string>, details: seq<string>, i: nat)
    requires i < |products|
    ensures var start := |VendorHeader| + |Join("\n", vendors)| + |ProductHeader|;
      var at := start + JoinOffset("\n", products, i);
      && Occurs(Inserts(vendors, products, details), products[i], at)
      && at + |products[i]| <= start + |Join("\n", products)|
  {
    var s2 := Section(ProductHeader, products, Section(DetailHeader, details, ""));
    SectionPlaced(ProductHeader, products, Section(DetailHeader, details, ""), i);
    SectionThen(VendorHeader, vendors, s2, products[i], |ProductHeader| + JoinOffset("\n", products, i));
  }

  lemma {:induction false} LastSectionPlaced(vh: string, vendors: seq<string>, ph: string, products: seq<string>,
                                             dh: string, details: seq<string>, i: nat)
    requires i < |details|
    ensures var start := |vh| + |Join("\n", vendors)| + |ph| + |Join("\n", products)| + |dh|;
      Occurs(Section(vh, vendors, Section(ph, products, Section(dh, details, ""))), details[i],
        start + JoinOffset("\n", details, i))
  {
    var s3 := Section(dh, details, "");
    var s2 := Section(ph, products, s3);
    var off := |dh| + JoinOffset("\n", details, i);
    SectionPlaced(dh, details, "", i);
    SectionThen(ph, products, s3, details[i], off);
    SectionThen(vh, vendors, s2, details[i], |ph| + |Join("\n", products)| + off);
  }

  /** Each detail statement sits in the last group, in order. */
  lemma InsertsDetails(vendors: seq<string>, products: seq<string>, details: seq<string>, i: nat)
    requires i < |details|
    ensures var start := |VendorHeader| + |Join("\n", vendors)| + |ProductHeader| + |Join("\n", products)| + |DetailHeader|;
      Occurs(Inserts(vendors, products, details), details[i], start + JoinOffset("\n", details, i))
  {
    LastSectionPlaced(VendorHeader, vendors, ProductHeader, products, DetailHeader, details, i);
  }

  /** Each vendor statement of the inserts, after any prefix `pre`, sits shifted by `|pre|`. */
  lemma PrefixedVendor(pre: string, vendors: seq<string>, products: seq<string>, details: seq<string>, i: nat)
    requires i < |vendors|
    ensures Occurs(pre + Inserts(vendors, products, details), vendors[i],
                   |pre| + |VendorHeader| + JoinOffset("\n", vendors, i))
  {
    InsertsVendors(vendors, products, details, i);
    OccursAfter(pre, Inserts(vendors, products, details), vendors[i], |VendorHeader| + JoinOffset("\n", vendors, i));
  }

  /** Each product statement of the inserts, after any prefix `pre`, sits shifted by `|pre|`. */
  lemma PrefixedProduct(pre: string, vendors: seq<string>, products: seq<string>, details: seq<string>, i: nat)
    requires i < |products|
    ensures Occurs(pre + Inserts(vendors, products, details), products[i],
                   |pre| + |VendorHeader| + |Join("\n", vendors)| + |ProductHeader| + JoinOffset("\n", products, i))
  {
    InsertsProducts(vendors, products, details, i);
    OccursAfter(pre, Inserts(vendors, products, details), products[i],
                |VendorHeader| + |Join("\n", vendors)| + |ProductHeader| + JoinOffset("\n", products, i));
  }

  /** Each track statement of the inserts, after any prefix `pre`, sits shifted by `|pre|`. */
  lemma PrefixedDetail(pre: string, vendors: seq<string>, products: seq<string>, details: seq<string>, i: nat)
    requires i < |details|
    ensures Occurs(pre + Inserts(vendors, products, details), details[i],
                   |pre| + |VendorHeader| + |Join("\n", vendors)| + |ProductHeader| + |Join("\n", products)|
                   + |DetailHeader| + JoinOffset("\n", details, i))
  {
    InsertsDetails(vendors, products, details, i);
    OccursAfter(pre, Inserts(vendors, products, details), details[i],
                |VendorHeader| + |Join("\n", vendors)| + |ProductHeader| + |Join("\n", products)|
                + |DetailHeader| + JoinOffset("\n", details, i));
  }

  /** In the written document each vendor statement sits in the vendor group, in order. */
  lemma DocumentPlacesVendor(vendors: seq<string>, products: seq<string>, details: seq<string>, i: nat)
    requires i < |vendors|
    ensures Occurs(Document(vendors, products, details), vendors[i],
                   |Preamble| + |VendorHeader| + JoinOffset("\n", vendors, i))
  {
    PrefixedVendor(Preamble, vendors, products, details, i);
  }

  /** In the written document each product statement sits in the product group, in order. */
  lemma DocumentPlacesProduct(vendors: seq<string>, products: seq<string>, details: seq<string>, i: nat)
    requires i < |products|
    ensures Occurs(Document(vendors, products, details), products[i],
                   |Preamble| + |VendorHeader| + |Join("\n", vendors)| + |ProductHeader| + JoinOffset("\n", products, i))
  {
    PrefixedProduct(Preamble, vendors, products, details, i);
  }

  /** In the written document each track statement sits in the last group, in order. */
  lemma DocumentPlacesDetail(vendors: seq<string>, products: seq<string>, details: seq<string>, i: nat)
    requires i < |details|
    ensures Occurs(Document(vendors, products, details), details[i],
                   |Preamble| + |VendorHeader| + |Join("\n", vendors)| + |ProductHeader| + |Join("\n", products)|
                   + |DetailHeader| + JoinOffset("\n", details, i))
  {
    PrefixedDetail(Preamble, vendors, products, details, i);
  }
}
