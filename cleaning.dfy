/**
 * The transform stage's cleaning of scraped listings (`clean_and_transform_data`):
 * ten whole-column steps applied in a fixed order to the rows read from the staged
 * tab-separated file. Each step is a function over a sequence of rows; the columns a
 * step converts or adds give the row type of its output.
 */
module Cleaning {
  import opened Wrappers
  import opened Text
  import opened Seqs

  // ---------------------------------------------------------------- constants

  /** The fourteen regions a cleaned listing may carry. */
  const Regions: seq<string> := [
    "Praha",
    "Jihocesky kraj",
    "Jihomoravsky kraj",
    "Karlovarsky kraj",
    "Kralovehradecky kraj",
    "Liberecky kraj",
    "Moravskoslezsky kraj",
    "Olomoucky kraj",
    "Pardubicky kraj",
    "Plzensky kraj",
    "Stredocesky kraj",
    "Ustecky kraj",
    "Kraj Vysocina",
    "Zlinsky kraj"
  ]

  /** Rental categories whose price must exceed RentFloor. */
  const RentKeywords: seq<string> := [
    "Pronajem kancelare",
    "Pronajem nebytoveho prostoru",
    "Pronajem chaty, chalupy",
    "Pronajem domu",
    "Pronajem pozemku"
  ]

  /** Sale categories whose price must exceed SaleFloor. */
  const SaleKeywords: seq<string> := [
    "Prodej bytu",
    "Prodej domu",
    "Prodej nebytoveho prostoru",
    "Prodej pozemku",
    "Prodej chaty, chalupy",
    "Prodej garaze",
    "Prodej kancelare"
  ]

  const LandSaleKeyword: string := "Prodej pozemku"
  const MinPrice: int := 500
  const RentFloor: int := 1000
  const SaleFloor: int := 20000
  const LandCeiling: int := 80000

  // ---------------------------------------------------------------- rows

  /** A row as read from the raw file; a missing detail cell is None. */
  datatype RawRecord = RawRecord(
    purpose: string, address: string, sizeM2: Option<string>, design: Option<string>,
    priceCzk: string, link: string)

  /** After step 4: the price is an integer. */
  datatype PricedRecord = PricedRecord(
    purpose: string, address: string, sizeM2: Option<string>, design: Option<string>,
    priceCzk: int, link: string)

  /** After step 6: the size is an integer. */
  datatype SizedRecord = SizedRecord(
    purpose: string, address: string, sizeM2: int, design: Option<string>,
    priceCzk: int, link: string)

  /** After step 7: the region is split off the address. */
  datatype LocatedRecord = LocatedRecord(
    purpose: string, address: string, region: string, sizeM2: int, design: Option<string>,
    priceCzk: int, link: string)

  /** After step 9: the price per square metre is derived; None is pandas' missing value. */
  datatype RatedRecord = RatedRecord(
    purpose: string, address: string, region: string, sizeM2: int, design: Option<string>,
    priceCzk: int, pricePerM2: Option<int>, link: string)

  /** A cleaned row, with its columns in the output order. */
  datatype CleanRecord = CleanRecord(
    purpose: string, address: string, region: string, sizeM2: int, design: Option<string>,
    priceCzk: int, pricePerM2: Option<int>, link: string, dumpDate: string, fileName: string)

  /** The run aborts (Python's ValueError from `int('')`) on a price text without digits. */
  datatype TransformError = PriceWithoutDigits(priceText: string)

  // ---------------------------------------------------------------- step 1: de-duplicate by link

  function LinksOf(rows: seq<RawRecord>): set<string> {
    set x | x in rows :: x.link
  }

  /** The position of the first row carrying `link`. */
  function FirstWithLink(rows: seq<RawRecord>, link: string): (i: nat)
    requires link in LinksOf(rows)
    ensures i < |rows| && rows[i].link == link
    ensures forall j :: 0 <= j < i ==> rows[j].link != link
  {
    if rows[0].link == link then 0
    else
      assert link in LinksOf(rows[1..]) by {
        var x :| x in rows && x.link == link;
        var k :| 0 <= k < |rows| && rows[k] == x;
        assert rows[1..][k - 1] == x;
      }
      1 + FirstWithLink(rows[1..], link)
  }

  /** Keeps each row whose link is neither in `seen` nor carried by an earlier row. */
  function KeepFirst(rows: seq<RawRecord>, seen: set<string>): (r: seq<RawRecord>)
    ensures forall x :: x in r ==> x in rows && x.link !in seen
    ensures forall i, j :: 0 <= i < j < |r| ==> r[i].link != r[j].link
    ensures LinksOf(r) == LinksOf(rows) - seen
    decreases |rows|
  {
    if rows == [] then []
    else
      var x := rows[0];
      LinksOfCons(rows);
      if x.link in seen then KeepFirst(rows[1..], seen)
      else
        var rest := KeepFirst(rows[1..], seen + {x.link});
        KeepFirstCons(rows, seen, rest);
        [x] + rest
  }

  lemma LinksOfCons(rows: seq<RawRecord>)
    requires rows != []
    ensures LinksOf(rows) == {rows[0].link} + LinksOf(rows[1..])
    ensures forall y :: y in rows[1..] ==> y in rows
  {
    assert forall y :: y in rows <==> y == rows[0] || y in rows[1..];
  }

  /** The head of a row whose link is new, in front of the rows kept from the tail when its link
      counts as seen, keeps the properties of `KeepFirst`. */
  lemma KeepFirstCons(rows: seq<RawRecord>, seen: set<string>, rest: seq<RawRecord>)
    requires rows != [] && rows[0].link !in seen
    requires forall x :: x in rest ==> x in rows[1..] && x.link !in seen + {rows[0].link}
    requires forall i, j :: 0 <= i < j < |rest| ==> rest[i].link != rest[j].link
    requires LinksOf(rest) == LinksOf(rows[1..]) - (seen + {rows[0].link})
    ensures forall x :: x in [rows[0]] + rest ==> x in rows && x.link !in seen
    ensures forall i, j :: 0 <= i < j < |[rows[0]] + rest| ==> ([rows[0]] + rest)[i].link != ([rows[0]] + rest)[j].link
    ensures LinksOf([rows[0]] + rest) == LinksOf(rows) - seen
  {
    var x := rows[0];
    var all := [x] + rest;
    LinksOfCons(rows);
    LinksOfCons(all);
    assert all[1..] == rest;
    forall i, j | 0 <= i < j < |all| ensures all[i].link != all[j].link {
      if i == 0 {
        assert all[j] == rest[j - 1] && rest[j - 1] in rest;
      } else {
        assert all[i] == rest[i - 1] && all[j] == rest[j - 1];
      }
    }
  }

  /** Step 1, `drop_duplicates(subset=['link'])`: the first row of each link survives. */
  function DropDuplicateLinks(rows: seq<RawRecord>): (r: seq<RawRecord>)
    ensures forall x :: x in r ==> x in rows
    ensures forall i, j :: 0 <= i < j < |r| ==> r[i].link != r[j].link
    ensures LinksOf(r) == LinksOf(rows)
  {
    KeepFirst(rows, {})
  }

  lemma {:induction false} KeepFirstIsFirst(rows: seq<RawRecord>, seen: set<string>)
    ensures forall x :: x in KeepFirst(rows, seen) ==> x.link in LinksOf(rows) && x == rows[FirstWithLink(rows, x.link)]
    decreases |rows|
  {
    if rows != [] {
      var x := rows[0];
      var seen' := if x.link in seen then seen else seen + {x.link};
      KeepFirstIsFirst(rows[1..], seen');
      forall y | y in KeepFirst(rows, seen)
        ensures y.link in LinksOf(rows) && y == rows[FirstWithLink(rows, y.link)]
      {
        assert y in rows;
        if y != x || x.link in seen {
          assert y in KeepFirst(rows[1..], seen');
          assert y.link != x.link;
          var k := FirstWithLink(rows[1..], y.link);
          assert rows[1..][k] == rows[k + 1];
        }
      }
    }
  }

  /** The row kept for each link is the first row that carries it. */
  lemma DropDuplicateLinksKeepsFirst(rows: seq<RawRecord>)
    ensures forall i :: 0 <= i < |DropDuplicateLinks(rows)| ==>
      DropDuplicateLinks(rows)[i] == rows[FirstWithLink(rows, DropDuplicateLinks(rows)[i].link)]
  {
    KeepFirstIsFirst(rows, {});
    var r := DropDuplicateLinks(rows);
    assert forall i :: 0 <= i < |r| ==> r[i] in r;
  }

  lemma {:induction false} KeepFirstIsSubsequence(rows: seq<RawRecord>, seen: set<string>)
    ensures IsSubsequence(KeepFirst(rows, seen), rows)
    decreases |rows|
  {
    if rows != [] {
      var x := rows[0];
      if x.link in seen {
        KeepFirstIsSubsequence(rows[1..], seen);
      } else {
        KeepFirstIsSubsequence(rows[1..], seen + {x.link});
        var r := KeepFirst(rows, seen);
        assert r[0] == x && r[1..] == KeepFirst(rows[1..], seen + {x.link});
      }
    }
  }

  /** De-duplication keeps the surviving rows in their original order. */
  lemma DropDuplicateLinksIsSubsequence(rows: seq<RawRecord>)
    ensures IsSubsequence(DropDuplicateLinks(rows), rows)
  {
    KeepFirstIsSubsequence(rows, {});
  }

  lemma {:induction false} KeepFirstOfDistinct(rows: seq<RawRecord>, seen: set<string>)
    requires forall i, j :: 0 <= i < j < |rows| ==> rows[i].link != rows[j].link
    requires forall x :: x in rows ==> x.link !in seen
    ensures KeepFirst(rows, seen) == rows
    decreases |rows|
  {
    if rows != [] {
      var x := rows[0];
      forall y | y in rows[1..] ensures y.link !in seen + {x.link} {
        var k :| 0 <= k < |rows[1..]| && rows[1..][k] == y;
        assert rows[k + 1] == y;
      }
      KeepFirstOfDistinct(rows[1..], seen + {x.link});
    }
  }

  /** De-duplicating twice is de-duplicating once. */
  lemma DropDuplicateLinksIdempotent(rows: seq<RawRecord>)
    ensures DropDuplicateLinks(DropDuplicateLinks(rows)) == DropDuplicateLinks(rows)
  {
    KeepFirstOfDistinct(DropDuplicateLinks(rows), {});
  }

  // ---------------------------------------------------------------- step 2: no-break spaces

  function ReplaceNbsp(t: string): string {
    ReplaceChar(t, Nbsp, ' ')
  }

  function ReplaceNbspIn(t: Option<string>): Option<string> {
    match t
    case None => None
    case Some(s) => Some(ReplaceNbsp(s))
  }

  predicate NbspFreeIn(t: Option<string>) {
    t.Some? ==> Nbsp !in t.value
  }

  predicate NbspFree(x: RawRecord) {
    Nbsp !in x.purpose && Nbsp !in x.address && NbspFreeIn(x.sizeM2) && NbspFreeIn(x.design)
    && Nbsp !in x.priceCzk && Nbsp !in x.link
  }

  /** `replace('\u00A0', ' ', regex=True)` on every text cell of one row. */
  function NormalizeRecord(x: RawRecord): RawRecord {
    RawRecord(ReplaceNbsp(x.purpose), ReplaceNbsp(x.address), ReplaceNbspIn(x.sizeM2),
              ReplaceNbspIn(x.design), ReplaceNbsp(x.priceCzk), ReplaceNbsp(x.link))
  }

  /** No no-break space is left, and a row that had none is left as it was. */
  lemma NormalizeRecordSpec(x: RawRecord)
    ensures NbspFree(NormalizeRecord(x))
    ensures NbspFree(x) ==> NormalizeRecord(x) == x
  {
    ReplaceCharRemoves(x.purpose, Nbsp, ' ');
    ReplaceCharRemoves(x.address, Nbsp, ' ');
    ReplaceCharRemoves(x.priceCzk, Nbsp, ' ');
    ReplaceCharRemoves(x.link, Nbsp, ' ');
    if x.sizeM2.Some? { ReplaceCharRemoves(x.sizeM2.value, Nbsp, ' '); }
    if x.design.Some? { ReplaceCharRemoves(x.design.value, Nbsp, ' '); }
    if NbspFree(x) {
      ReplaceCharAbsent(x.purpose, Nbsp, ' ');
      ReplaceCharAbsent(x.address, Nbsp, ' ');
      ReplaceCharAbsent(x.priceCzk, Nbsp, ' ');
      ReplaceCharAbsent(x.link, Nbsp, ' ');
      if x.sizeM2.Some? { ReplaceCharAbsent(x.sizeM2.value, Nbsp, ' '); }
      if x.design.Some? { ReplaceCharAbsent(x.design.value, Nbsp, ' '); }
    }
  }

  /** Step 2: every row, no-break spaces replaced, in the same order. */
  function ReplaceNbspInRows(rows: seq<RawRecord>): (r: seq<RawRecord>)
    ensures |r| == |rows|
    ensures forall i :: 0 <= i < |rows| ==> r[i] == NormalizeRecord(rows[i]) && NbspFree(r[i])
  {
    assert forall x :: NbspFree(NormalizeRecord(x)) by {
      forall x { NormalizeRecordSpec(x); }
    }
    Map(NormalizeRecord, rows)
  }

  // ---------------------------------------------------------------- step 3: EUR prices

  predicate IsLocalPriced(x: RawRecord) {
    !Contains(x.priceCzk, "EUR")
  }

  /** Step 3: drops the listings priced in euros. */
  function DropEuroPrices(rows: seq<RawRecord>): (r: seq<RawRecord>)
    ensures forall x :: x in r <==> x in rows && !Contains(x.priceCzk, "EUR")
  {
    Filter(IsLocalPriced, rows)
  }

  // ---------------------------------------------------------------- step 4: price to integer

  /** The digits left after `replace('Kc', '')`. */
  function PriceDigits(text: string): string {
    Digits(RemoveAll(text, "Kc"))
  }

  /** `int(''.join(c for c in text.replace('Kc', '') if c.isdigit()))`; None where `int('')` raises. */
  function ParsePrice(text: string): Option<nat> {
    var d := PriceDigits(text);
    if d == [] then None else Some(NumberValue(d))
  }

  /** Removing `Kc` never removes a digit, so the price is read from every digit of the text. */
  lemma {:induction false} PriceDigitsAreDigits(text: string)
    ensures PriceDigits(text) == Digits(text)
    decreases |text|
  {
    var t := "Kc";
    if |text| >= |t| {
      if text[..|t|] == t {
        assert text == t + text[|t|..];
        DigitsAppend(t, text[|t|..]);
        PriceDigitsAreDigits(text[|t|..]);
      } else {
        assert RemoveAll(text, t) == [text[0]] + RemoveAll(text[1..], t);
        DigitsAppend([text[0]], RemoveAll(text[1..], t));
        DigitsAppend([text[0]], text[1..]);
        assert [text[0]] + text[1..] == text;
        PriceDigitsAreDigits(text[1..]);
      }
    }
  }

  /** A price written as digits and the currency tag reads back as the same number. */
  lemma ParsePriceRoundTrip(n: nat)
    ensures ParsePrice(Show(n) + " Kc") == Some(n)
  {
    var text := Show(n) + " Kc";
    PriceDigitsAreDigits(text);
    DigitsAppend(Show(n), " Kc");
    assert Digits(" Kc") == [] by {
      assert !IsDigit(' ') && !IsDigit('K') && !IsDigit('c');
      assert Digits(" Kc") == Digits("Kc") == Digits("c") == Digits([]);
    }
    DigitsOfDigits(Show(n));
    assert PriceDigits(text) == Show(n);
    ShowNumberValue(n);
  }

  lemma {:induction false} DigitsOfDigits(s: string)
    requires forall c :: c in s ==> IsDigit(c)
    ensures Digits(s) == s
  {
    if s != [] {
      assert s[0] in s;
      assert forall c :: c in s[1..] ==> c in s;
      DigitsOfDigits(s[1..]);
    }
  }

  /** The row with its price parsed; a text without digits gives 0 (only used where it has some). */
  function WithPrice(x: RawRecord): PricedRecord {
    PricedRecord(x.purpose, x.address, x.sizeM2, x.design, NumberValue(PriceDigits(x.priceCzk)), x.link)
  }

  /** Row `i` is the first row whose price text has no digit. */
  ghost predicate FirstUnparsable(rows: seq<RawRecord>, i: int) {
    0 <= i < |rows| && ParsePrice(rows[i].priceCzk).None?
    && forall j :: 0 <= j < i ==> ParsePrice(rows[j].priceCzk).Some?
  }

  /** Step 4: every price parsed, or the first price text that has no digit. */
  function ParsePrices(rows: seq<RawRecord>): (r: Result<seq<PricedRecord>, TransformError>)
    ensures r.Ok? <==> forall i :: 0 <= i < |rows| ==> ParsePrice(rows[i].priceCzk).Some?
    ensures r.Ok? ==> |r.value| == |rows| && forall i :: 0 <= i < |rows| ==>
      r.value[i] == WithPrice(rows[i]) && Some(r.value[i].priceCzk as nat) == ParsePrice(rows[i].priceCzk)
    ensures r.Err? ==>
      exists i :: FirstUnparsable(rows, i) && r.error == PriceWithoutDigits(rows[i].priceCzk)
  {
    if rows == [] then Ok([])
    else if ParsePrice(rows[0].priceCzk).None? then
      assert FirstUnparsable(rows, 0);
      Err(PriceWithoutDigits(rows[0].priceCzk))
    else
      match ParsePrices(rows[1..])
      case Err(e) =>
        FirstUnparsableOfTail(rows, e);
        Err(e)
      case Ok(rest) =>
        PricesOfTail(rows, rest);
        Ok([WithPrice(rows[0])] + rest)
  }

  /** Parsed tail prices behind a parsable head are the parsed prices of the whole. */
  lemma PricesOfTail(rows: seq<RawRecord>, rest: seq<PricedRecord>)
    requires rows != [] && ParsePrice(rows[0].priceCzk).Some?
    requires |rest| == |rows| - 1 && forall i :: 0 <= i < |rest| ==>
      rest[i] == WithPrice(rows[1..][i]) && Some(rest[i].priceCzk as nat) == ParsePrice(rows[1..][i].priceCzk)
    ensures var all := [WithPrice(rows[0])] + rest;
      |all| == |rows| && forall i :: 0 <= i < |rows| ==>
        all[i] == WithPrice(rows[i]) && Some(all[i].priceCzk as nat) == ParsePrice(rows[i].priceCzk)
  {
    var all := [WithPrice(rows[0])] + rest;
    forall i | 0 <= i < |rows|
      ensures all[i] == WithPrice(rows[i]) && Some(all[i].priceCzk as nat) == ParsePrice(rows[i].priceCzk)
    {
      if i > 0 {
        assert rows[i] == rows[1..][i - 1] && all[i] == rest[i - 1];
      }
    }
  }

  /** A first unparsable row of the tail, behind a parsable head, is the first of the whole. */
  lemma FirstUnparsableOfTail(rows: seq<RawRecord>, e: TransformError)
    requires rows != [] && ParsePrice(rows[0].priceCzk).Some?
    requires exists i :: FirstUnparsable(rows[1..], i) && e == PriceWithoutDigits(rows[1..][i].priceCzk)
    ensures exists i :: FirstUnparsable(rows, i) && e == PriceWithoutDigits(rows[i].priceCzk)
  {
    var i :| FirstUnparsable(rows[1..], i) && e == PriceWithoutDigits(rows[1..][i].priceCzk);
    forall j | 0 <= j < i + 1 ensures ParsePrice(rows[j].priceCzk).Some? {
      if j > 0 {
        assert rows[j] == rows[1..][j - 1];
      }
    }
    assert rows[i + 1] == rows[1..][i];
    assert FirstUnparsable(rows, i + 1);
  }

  // ---------------------------------------------------------------- step 5: implausible prices

  predicate AtLeastMinimum(x: PricedRecord) { x.priceCzk >= MinPrice }
  predicate NotCheapRent(x: PricedRecord) { !(ContainsAny(x.purpose, RentKeywords) && x.priceCzk <= RentFloor) }
  predicate NotCheapSale(x: PricedRecord) { !(ContainsAny(x.purpose, SaleKeywords) && x.priceCzk <= SaleFloor) }

  /** The three price rules together. */
  predicate PriceOk(purpose: string, price: int) {
    price >= MinPrice
    && !(ContainsAny(purpose, RentKeywords) && price <= RentFloor)
    && !(ContainsAny(purpose, SaleKeywords) && price <= SaleFloor)
  }

  predicate IsPlausiblyPriced(x: PricedRecord) { PriceOk(x.purpose, x.priceCzk) }

  /** Step 5: the three drops, one after the other. */
  function DropWrongPrices(rows: seq<PricedRecord>): (r: seq<PricedRecord>)
    ensures forall x :: x in r <==> x in rows && PriceOk(x.purpose, x.priceCzk)
  {
    Filter(NotCheapSale, Filter(NotCheapRent, Filter(AtLeastMinimum, rows)))
  }

  /** The three drops in sequence are one filter on all three rules, so the order is kept. */
  lemma DropWrongPricesIsOneFilter(rows: seq<PricedRecord>)
    ensures DropWrongPrices(rows) == Filter(IsPlausiblyPriced, rows)
    ensures IsSubsequence(DropWrongPrices(rows), rows)
  {
    var first := Filter(AtLeastMinimum, rows);
    FilterOfFilter(AtLeastMinimum, NotCheapRent, (x: PricedRecord) => AtLeastMinimum(x) && NotCheapRent(x), rows);
    FilterOfFilter((x: PricedRecord) => AtLeastMinimum(x) && NotCheapRent(x), NotCheapSale, IsPlausiblyPriced, rows);
    FilterIsSubsequence(IsPlausiblyPriced, rows);
  }

  /** The rent threshold: a rental office at 900 is dropped, one at 1 001 is kept. */
  lemma RentPriceExamples()
    ensures !PriceOk("Pronajem kancelare", 900)
    ensures PriceOk("Pronajem kancelare", 1001)
  {
    assert Contains("Pronajem kancelare", RentKeywords[0]);
    forall k | 0 <= k < |SaleKeywords| ensures !Contains("Pronajem kancelare", SaleKeywords[k]) {
      assert SaleKeywords[k][3] == 'd' && 'd' !in "Pronajem kancelare";
      ContainsChars("Pronajem kancelare", SaleKeywords[k]);
    }
  }

  /** The sale threshold: a flat for sale at 15 000 is dropped, one at 25 000 is kept. */
  lemma SalePriceExamples()
    ensures !PriceOk("Prodej bytu", 15000)
    ensures PriceOk("Prodej bytu", 25000)
  {
    assert Contains("Prodej bytu", SaleKeywords[0]);
    forall k | 0 <= k < |RentKeywords| ensures !Contains("Prodej bytu", RentKeywords[k]) {
      assert RentKeywords[k][3] == 'n' && 'n' !in "Prodej bytu";
      ContainsChars("Prodej bytu", RentKeywords[k]);
    }
  }

  // ---------------------------------------------------------------- step 6: size to integer

  /**
   * `pd.to_numeric(t, errors='coerce')` followed by `astype(int)`, for plain decimal notation:
   * an optional sign, digits, optionally a point and more digits, at least one digit in all.
   * The fraction is truncated toward zero; anything else is None (pandas' NaN).
   */
  function ParseNumber(t: string): Option<int> {
    var negative := t != [] && t[0] == '-';
    var body := if t != [] && (t[0] == '-' || t[0] == '+') then t[1..] else t;
    var whole := LeadingDigits(body);
    var rest := body[|whole|..];
    var magnitude: int := NumberValue(whole);
    var value: int := if negative then -magnitude else magnitude;
    if rest == [] then
      if whole == [] then None else Some(value)
    else if rest[0] == '.' && LeadingDigits(rest[1..]) == rest[1..] && |whole| + |rest| > 1 then
      Some(value)
    else None
  }

  /** `replace('m2', '')`, `to_numeric(errors='coerce')`, `fillna(0)`, `astype(int)`; surrounding
      ASCII whitespace is skipped as pandas' parser does. A missing cell becomes 0. */
  function ParseSize(size: Option<string>): int {
    match size
    case None => 0
    case Some(t) =>
      match ParseNumber(StripAscii(RemoveAll(t, "m2")))
      case None => 0
      case Some(v) => v
  }

  /** Text without an `m` comes through the unit removal unchanged, and so does the space before the unit. */
  lemma RemoveSizeUnit(d: string)
    requires 'm' !in d
    ensures RemoveAll(d + " m2", "m2") == d + " "
  {
    RemoveAllSkips(d, " m2", "m2");
    assert " m2"[..2] != "m2";
    assert " m2"[1..] == "m2";
    assert RemoveAll([], "m2") == [];
    assert RemoveAll("m2", "m2") == [];
    assert RemoveAll(" m2", "m2") == [' '] + RemoveAll("m2", "m2");
  }

  lemma StripTrailingSpace(d: string)
    requires d != [] && !IsAsciiSpace(d[0]) && !IsAsciiSpace(d[|d| - 1])
    ensures StripAscii(d + " ") == d
  {
    assert (d + " ")[0] == d[0];
    assert (d + " ")[..|d + " "| - 1] == d;
  }

  /** Digits followed by a non-digit: the leading digits are exactly those. */
  lemma {:induction false} LeadingDigitsOf(d: string, rest: string)
    requires forall c :: c in d ==> IsDigit(c)
    requires rest == [] || !IsDigit(rest[0])
    ensures LeadingDigits(d + rest) == d
    decreases |d|
  {
    if d == [] {
      assert d + rest == rest;
    } else {
      assert (d + rest)[0] == d[0] && d[0] in d;
      assert (d + rest)[1..] == d[1..] + rest;
      assert forall c :: c in d[1..] ==> c in d;
      LeadingDigitsOf(d[1..], rest);
      assert [d[0]] + d[1..] == d;
    }
  }

  /** A size written as digits and the area unit reads back as the same number. */
  lemma ParseSizeRoundTrip(n: nat)
    ensures ParseSize(Some(Show(n) + " m2")) == n
  {
    var d := Show(n);
    assert !IsDigit('m');
    RemoveSizeUnit(d);
    assert d[0] in d && d[|d| - 1] in d;
    StripTrailingSpace(d);
    ParseNumberShow(n);
  }

  /** The decimal digits of a number read back as that number. */
  lemma ParseNumberShow(n: nat)
    ensures ParseNumber(Show(n)) == Some(n)
  {
    var d := Show(n);
    assert d[0] in d;
    LeadingDigitsAll(d);
    assert d[|d|..] == [];
    ShowNumberValue(n);
  }

  /** A fraction is truncated toward zero. */
  lemma ParseSizeFraction()
    ensures ParseSize(Some("75.5 m2")) == 75
  {
    var d := "75.5";
    assert 'm' !in d;
    RemoveSizeUnit(d);
    assert d + " m2" == "75.5 m2";
    StripTrailingSpace(d);
    ParseNumberFraction();
  }

  /** The digits after the point are dropped. */
  lemma ParseNumberFraction()
    ensures ParseNumber("75.5") == Some(75)
  {
    var d := "75.5";
    LeadingDigitsOf("75", ".5");
    assert "75" + ".5" == d;
    assert d[2..] == ".5";
    LeadingDigitsAll("5");
    assert ".5"[1..] == "5";
    ShowNumberValue(75);
    assert Show(75) == "75";
  }

  /** A size written with a space between digit groups is not a number, so it becomes 0;
      so does a missing size. */
  lemma ParseSizeNotANumber()
    ensures ParseSize(None) == 0
    ensures ParseSize(Some("1 200 m2")) == 0
  {
    var d := "1 200";
    assert 'm' !in d;
    RemoveSizeUnit(d);
    assert d + " m2" == "1 200 m2";
    StripTrailingSpace(d);
    ParseNumberGrouped();
  }

  /** Digits interrupted by a space are not a number. */
  lemma ParseNumberGrouped()
    ensures ParseNumber("1 200") == None
  {
    var d := "1 200";
    LeadingDigitsOf("1", " 200");
    assert "1" + " 200" == d;
    assert d[1..] == " 200";
  }

  function WithSize(x: PricedRecord): SizedRecord {
    SizedRecord(x.purpose, x.address, ParseSize(x.sizeM2), x.design, x.priceCzk, x.link)
  }

  /** Step 6: every row with its size parsed. */
  function ParseSizes(rows: seq<PricedRecord>): (r: seq<SizedRecord>)
    ensures |r| == |rows|
    ensures forall i :: 0 <= i < |rows| ==> r[i] == WithSize(rows[i])
  {
    Map(WithSize, rows)
  }

  // ---------------------------------------------------------------- step 7: region

  datatype Placement = Placement(region: string, address: string)

  /** Whether the address names a region: `'kraj' in address.lower()`. */
  predicate NamesRegion(address: string) {
    Contains(ToLower(address), "kraj")
  }

  /**
   * `extract_last_two_words` and the address rewrite: for an address naming a region, the
   * region is the last two words joined by a space and the address is the words before
   * them, each with trailing commas stripped; otherwise the region is Praha and the
   * address is unchanged.
   */
  function SplitAddress(address: string): Placement {
    if NamesRegion(address) then PlaceWords(Split(address)) else Placement("Praha", address)
  }

  /** The region branch on the address's words: the last two words are the region. */
  function PlaceWords(words: seq<string>): Placement {
    var n := |words|;
    var region := if n >= 2 then RStrip(words[n - 2] + " " + words[n - 1], ',') else "";
    var rest := if n >= 2 then words[..n - 2] else [];
    Placement(region, RStrip(Join(rest, " "), ','))
  }

  /** An address naming a region with fewer than two words gives the empty region, which the
      region check then drops. */
  lemma SplitAddressShort(address: string)
    requires NamesRegion(address) && |Split(address)| < 2
    ensures SplitAddress(address).region == ""
    ensures "" !in Regions
  {
    assert SplitAddress(address) == PlaceWords(Split(address));
    NoEmptyRegion();
  }

  lemma NoEmptyRegion()
    ensures "" !in Regions
  {
    assert forall i :: 0 <= i < |Regions| ==> |Regions[i]| >= 5;
  }

  /** Without a region marker the region is Praha and the address is kept. */
  lemma SplitAddressDefault(address: string)
    requires !NamesRegion(address)
    ensures SplitAddress(address) == Placement("Praha", address)
    ensures SplitAddress(address).region in Regions
  {
    assert Regions[0] == "Praha";
  }

  /**
   * Splitting loses no word: for an address without commas that names a region, the words
   * of the new address followed by the words of the region are the words of the original.
   */
  lemma SplitAddressKeepsWords(address: string)
    requires NamesRegion(address) && ',' !in address && |Split(address)| >= 2
    ensures Split(SplitAddress(address).address) == Split(address)[..|Split(address)| - 2]
    ensures Split(SplitAddress(address).region) == Split(address)[|Split(address)| - 2..]
  {
    SplitAbsent(address, ',');
    PlaceWordsAddress(Split(address));
    PlaceWordsRegion(Split(address));
  }

  /** Comma-free words, placed: the new address splits back into the words before the last two. */
  lemma PlaceWordsAddress(words: seq<string>)
    requires |words| >= 2
    requires forall i :: 0 <= i < |words| ==> IsWord(words[i]) && ',' !in words[i]
    ensures Split(PlaceWords(words).address) == words[..|words| - 2]
  {
    var front := words[..|words| - 2];
    assert PlaceWords(words).address == RStrip(Join(front, " "), ',');
    assert forall i :: 0 <= i < |front| ==> front[i] == words[i];
    JoinAbsent(front, " ", ',');
    RStripAbsent(Join(front, " "), ',');
    SplitJoin(front);
  }

  /** Comma-free words, placed: the region splits back into the last two words. */
  lemma PlaceWordsRegion(words: seq<string>)
    requires |words| >= 2
    requires forall i :: 0 <= i < |words| ==> IsWord(words[i]) && ',' !in words[i]
    ensures Split(PlaceWords(words).region) == words[|words| - 2..]
  {
    var n := |words|;
    var back := words[n - 2..];
    assert back == [words[n - 2], words[n - 1]];
    assert Join(back, " ") == words[n - 2] + " " + words[n - 1] by {
      assert back[1..] == [words[n - 1]];
    }
    assert PlaceWords(words).region == RStrip(Join(back, " "), ',');
    JoinAbsent(back, " ", ',');
    RStripAbsent(Join(back, " "), ',');
    SplitJoin(back);
  }

  /** A lower-case `kraj` anywhere in the address marks it as naming a region. */
  lemma NamesRegionAt(address: string, i: nat)
    requires i + 4 <= |address| && address[i..i + 4] == "kraj"
    ensures NamesRegion(address)
  {
    var l := ToLower(address);
    forall k | 0 <= k < 4 ensures l[i + k] == "kraj"[k] {
      assert address[i + k] == address[i..i + 4][k];
    }
    assert l[i..i + 4] == "kraj";
    assert OccursAt(l, "kraj", i);
  }

  /**
   * The converse of `SplitAddressKeepsWords`: an address made of some words followed by a
   * two-word region splits into that region and the words before it.
   */
  lemma SplitAddressOfWords(front: seq<string>, first: string, last: string)
    requires forall i :: 0 <= i < |front| ==> IsWord(front[i])
    requires IsWord(first) && IsWord(last) && last[|last| - 1] != ','
    requires NamesRegion(Join(front + [first, last], " "))
    ensures SplitAddress(Join(front + [first, last], " "))
         == Placement(first + " " + last, RStrip(Join(front, " "), ','))
  {
    var words := front + [first, last];
    forall i | 0 <= i < |words| ensures IsWord(words[i]) {
      if i < |front| {
        assert words[i] == front[i];
      } else if i == |front| {
        assert words[i] == first;
      } else {
        assert words[i] == last;
      }
    }
    SplitJoin(words);
    PlaceWordsOfWords(front, first, last);
  }

  /** The last two words, the last not ending in a comma, become the region. */
  lemma PlaceWordsOfWords(front: seq<string>, first: string, last: string)
    requires last != [] && last[|last| - 1] != ','
    ensures PlaceWords(front + [first, last]) == Placement(first + " " + last, RStrip(Join(front, " "), ','))
  {
    var words := front + [first, last];
    assert words[..|words| - 2] == front;
    assert words[|words| - 2] == first && words[|words| - 1] == last;
    var region := first + " " + last;
    assert region[|region| - 1] == last[|last| - 1];
  }

  /** A Central Bohemian address: the last two words are the region, the rest the address. */
  lemma SplitAddressRegionExample()
    ensures SplitAddress("Nejedleho 123, Stredocesky kraj") == Placement("Stredocesky kraj", "Nejedleho 123")
  {
    var front := ["Nejedleho", "123,"];
    var address := "Nejedleho 123, Stredocesky kraj";
    RegionExampleWords();
    RegionExampleJoin();
    NamesRegionAt(address, 27);
    SplitAddressOfWords(front, "Stredocesky", "kraj");
    var p := SplitAddress(Join(front + ["Stredocesky", "kraj"], " "));
    RegionExampleStrip();
    RegionExampleName();
    assert p.region == "Stredocesky kraj";
    assert p.address == "Nejedleho 123";
  }

  lemma RegionExampleName()
    ensures "Stredocesky" + " " + "kraj" == "Stredocesky kraj"
  {
  }

  lemma RegionExampleWords()
    ensures IsWord("Nejedleho") && IsWord("123,") && IsWord("Stredocesky") && IsWord("kraj")
  {
  }

  lemma RegionExampleJoin()
    ensures Join(["Nejedleho", "123,"] + ["Stredocesky", "kraj"], " ") == "Nejedleho 123, Stredocesky kraj"
    ensures Join(["Nejedleho", "123,"], " ") == "Nejedleho 123,"
  {
    var words := ["Nejedleho", "123,", "Stredocesky", "kraj"];
    assert ["Nejedleho", "123,"] + ["Stredocesky", "kraj"] == words;
    assert words[1..] == ["123,", "Stredocesky", "kraj"];
    RegionExampleTail();
    JoinStep(words, " ");
    RegionExampleFront();
  }

  lemma RegionExampleTail()
    ensures Join(["123,", "Stredocesky", "kraj"], " ") == "123, Stredocesky kraj"
  {
    var words := ["123,", "Stredocesky", "kraj"];
    assert words[1..] == ["Stredocesky", "kraj"];
    assert words[1..][1..] == ["kraj"];
    JoinStep(words, " ");
    JoinStep(words[1..], " ");
  }

  lemma RegionExampleFront()
    ensures Join(["Nejedleho", "123,"], " ") == "Nejedleho 123,"
    ensures "Nejedleho" + (" " + "123, Stredocesky kraj") == "Nejedleho 123, Stredocesky kraj"
  {
    var words := ["Nejedleho", "123,"];
    assert words[1..] == ["123,"];
    JoinStep(words, " ");
  }

  lemma RegionExampleStrip()
    ensures RStrip("Nejedleho 123,", ',') == "Nejedleho 123"
  {
    assert "Nejedleho 123" + [','] == "Nejedleho 123,";
    RStripOnce("Nejedleho 123", ',');
  }

  /** A Prague address names no region, so it stays whole and the region is Praha. */
  lemma SplitAddressPragueExample()
    ensures SplitAddress("Korunni 45, Praha 2") == Placement("Praha", "Korunni 45, Praha 2")
  {
    var b := "Korunni 45, Praha 2";
    var l := ToLower(b);
    assert forall i :: 0 <= i < |l| ==> l[i] != 'j';
    assert 'j' !in l;
    ContainsChars(l, "kraj");
    assert "kraj"[3] == 'j';
  }

  function WithRegion(x: SizedRecord): LocatedRecord {
    var p := SplitAddress(x.address);
    LocatedRecord(x.purpose, p.address, p.region, x.sizeM2, x.design, x.priceCzk, x.link)
  }

  /** Step 7: every row with its region split off the address. */
  function SplitRegions(rows: seq<SizedRecord>): (r: seq<LocatedRecord>)
    ensures |r| == |rows|
    ensures forall i :: 0 <= i < |rows| ==> r[i] == WithRegion(rows[i])
  {
    Map(WithRegion, rows)
  }

  // ---------------------------------------------------------------- step 8: known regions

  predicate HasKnownRegion(x: LocatedRecord) {
    x.region in Regions
  }

  /** Step 8: drops the rows whose region is not one of the fourteen. */
  function DropUnknownRegions(rows: seq<LocatedRecord>): (r: seq<LocatedRecord>)
    ensures forall x :: x in r <==> x in rows && x.region in Regions
  {
    Filter(HasKnownRegion, rows)
  }

  // ---------------------------------------------------------------- step 9: price per square metre

  /** The ceiling of the exact quotient a / b. */
  function CeilDiv(a: int, b: int): int
    requires b != 0
  {
    if b > 0 then (a + b - 1) / b else (-a - b - 1) / (-b)
  }

  /** CeilDiv is the least integer q with a / b <= q. */
  lemma CeilDivIsCeiling(a: int, b: int)
    requires b != 0
    ensures b > 0 ==> (CeilDiv(a, b) - 1) * b < a <= CeilDiv(a, b) * b
    ensures b < 0 ==> CeilDiv(a, b) * b <= a < (CeilDiv(a, b) - 1) * b
  {
    if b > 0 {
      CeilDivPositive(a, b);
    } else {
      CeilDivPositive(-a, -b);
      var q := CeilDiv(a, b);
      assert q * b == -(q * -b);
      assert (q - 1) * b == -((q - 1) * -b);
    }
  }

  lemma CeilDivPositive(n: int, c: int)
    requires c > 0
    ensures ((n + c - 1) / c - 1) * c < n <= ((n + c - 1) / c) * c
  {
    var q := (n + c - 1) / c;
    var r := (n + c - 1) % c;
    assert n + c - 1 == q * c + r && 0 <= r < c;
    assert (q - 1) * c == q * c - c;
  }

  /** The price per square metre: None for size 0, else the ceiling of price / size, with 0
      replaced by None. */
  function PricePerM2(price: int, size: int): Option<int> {
    if size == 0 then None
    else
      var q := CeilDiv(price, size);
      if q == 0 then None else Some(q)
  }

  /** For a positive price and size the value is always present and is the rounded-up quotient. */
  lemma PricePerM2Spec(price: int, size: int)
    ensures size == 0 ==> PricePerM2(price, size) == None
    ensures price > 0 && size > 0 ==> PricePerM2(price, size).Some?
    ensures PricePerM2(price, size).Some? ==> size != 0 && PricePerM2(price, size).value != 0
    ensures size > 0 && PricePerM2(price, size).Some? ==>
      var q := PricePerM2(price, size).value; (q - 1) * size < price <= q * size
  {
    if size != 0 {
      CeilDivIsCeiling(price, size);
      if price > 0 && size > 0 {
        var q := CeilDiv(price, size);
        assert q * size >= price > 0;
        assert q != 0;
      }
    }
  }

  function WithPricePerM2(x: LocatedRecord): RatedRecord {
    RatedRecord(x.purpose, x.address, x.region, x.sizeM2, x.design, x.priceCzk,
                PricePerM2(x.priceCzk, x.sizeM2), x.link)
  }

  /** Step 9a: every row with its price per square metre. */
  function AddPricePerM2(rows: seq<LocatedRecord>): (r: seq<RatedRecord>)
    ensures |r| == |rows|
    ensures forall i :: 0 <= i < |rows| ==> r[i] == WithPricePerM2(rows[i])
  {
    Map(WithPricePerM2, rows)
  }

  /** A land sale priced above the ceiling per square metre; a missing value never is. */
  predicate IsLandOutlier(purpose: string, pricePerM2: Option<int>) {
    Contains(purpose, LandSaleKeyword) && pricePerM2.Some? && pricePerM2.value > LandCeiling
  }

  predicate IsPlausibleLand(x: RatedRecord) {
    !IsLandOutlier(x.purpose, x.pricePerM2)
  }

  /** Step 9b: drops the land sales whose price per square metre exceeds the ceiling. */
  function DropLandOutliers(rows: seq<RatedRecord>): (r: seq<RatedRecord>)
    ensures forall x :: x in r <==> x in rows && !IsLandOutlier(x.purpose, x.pricePerM2)
  {
    Filter(IsPlausibleLand, rows)
  }

  // ---------------------------------------------------------------- step 10: provenance

  function Stamp(x: RatedRecord, fileName: string, dumpDate: string): CleanRecord {
    CleanRecord(x.purpose, x.address, x.region, x.sizeM2, x.design, x.priceCzk, x.pricePerM2,
                x.link, dumpDate, fileName)
  }

  /** Step 10: every row stamped with the run's date and the source file's basename. */
  function StampProvenance(rows: seq<RatedRecord>, fileKey: string, dumpDate: string): (r: seq<CleanRecord>)
    ensures |r| == |rows|
    ensures forall i :: 0 <= i < |rows| ==> r[i] == Stamp(rows[i], Basename(fileKey), dumpDate)
  {
    Map((x: RatedRecord) => Stamp(x, Basename(fileKey), dumpDate), rows)
  }

  // ---------------------------------------------------------------- the pipeline

  /** Steps 5 to 10, applied to the rows once their prices are numbers. */
  function CleanPriced(priced: seq<PricedRecord>, fileKey: string, dumpDate: string): seq<CleanRecord> {
    var located := SplitRegions(ParseSizes(DropWrongPrices(priced)));
    var rated := AddPricePerM2(DropUnknownRegions(located));
    StampProvenance(DropLandOutliers(rated), fileKey, dumpDate)
  }

  /**
   * `clean_and_transform_data`: the ten steps in order. `dumpDate` stands for the formatted
   * clock reading of the run; the error is the ValueError of step 4.
   */
  function CleanAndTransform(raw: seq<RawRecord>, fileKey: string, dumpDate: string): Result<seq<CleanRecord>, TransformError> {
    var local := DropEuroPrices(ReplaceNbspInRows(DropDuplicateLinks(raw)));
    match ParsePrices(local)
    case Err(e) => Err(e)
    case Ok(priced) => Ok(CleanPriced(priced, fileKey, dumpDate))
  }

  // ---------------------------------------------------------------- one row at a time

  function AfterRating(x: RatedRecord, fileName: string, dumpDate: string): Option<CleanRecord> {
    if IsLandOutlier(x.purpose, x.pricePerM2) then None else Some(Stamp(x, fileName, dumpDate))
  }

  function AfterLocating(x: LocatedRecord, fileName: string, dumpDate: string): Option<CleanRecord> {
    if x.region in Regions then AfterRating(WithPricePerM2(x), fileName, dumpDate) else None
  }

  function AfterPricing(x: PricedRecord, fileName: string, dumpDate: string): Option<CleanRecord> {
    if PriceOk(x.purpose, x.priceCzk) then AfterLocating(WithRegion(WithSize(x)), fileName, dumpDate) else None
  }

  /** What the pipeline makes of one de-duplicated row: its cleaned form, or None if a filter drops it. */
  function CleanOne(x: RawRecord, fileName: string, dumpDate: string): Option<CleanRecord> {
    var n := NormalizeRecord(x);
    if IsLocalPriced(n) then AfterPricing(WithPrice(n), fileName, dumpDate) else None
  }

  /** What a single surviving row satisfies, stated against the raw row it came from. */
  lemma CleanOneSound(x: RawRecord, fileName: string, dumpDate: string)
    requires CleanOne(x, fileName, dumpDate).Some?
    ensures var c := CleanOne(x, fileName, dumpDate).value;
      !Contains(ReplaceNbsp(x.priceCzk), "EUR")
      && Some(c.priceCzk as nat) == ParsePrice(x.priceCzk) && PriceOk(c.purpose, c.priceCzk)
      && c.purpose == ReplaceNbsp(x.purpose) && c.link == ReplaceNbsp(x.link)
      && c.design == ReplaceNbspIn(x.design)
      && c.sizeM2 == ParseSize(ReplaceNbspIn(x.sizeM2))
      && SplitAddress(ReplaceNbsp(x.address)) == Placement(c.region, c.address)
      && c.region in Regions
      && c.pricePerM2 == PricePerM2(c.priceCzk, c.sizeM2)
      && !IsLandOutlier(c.purpose, c.pricePerM2)
      && c.fileName == fileName && c.dumpDate == dumpDate
  {
    PriceDigitsAreDigits(ReplaceNbsp(x.priceCzk));
    PriceDigitsAreDigits(x.priceCzk);
    DigitsOfReplace(x.priceCzk, Nbsp, ' ');
  }

  lemma {:induction false} DigitsOfReplace(s: string, a: char, b: char)
    requires !IsDigit(a) && !IsDigit(b)
    ensures Digits(ReplaceChar(s, a, b)) == Digits(s)
    decreases |s|
  {
    if s != [] {
      var r := ReplaceChar(s, a, b);
      assert r[1..] == ReplaceChar(s[1..], a, b);
      DigitsOfReplace(s[1..], a, b);
    }
  }

  lemma RatedRowwise(rated: seq<RatedRecord>, fileKey: string, dumpDate: string)
    ensures StampProvenance(DropLandOutliers(rated), fileKey, dumpDate)
         == FilterMap((x: RatedRecord) => AfterRating(x, Basename(fileKey), dumpDate), rated)
  {
    var fn := Basename(fileKey);
    var kept := DropLandOutliers(rated);
    var gKept := (x: RatedRecord) => Some(Stamp(x, fn, dumpDate));
    AllSomeAsFilterMap(StampProvenance(kept, fileKey, dumpDate), gKept, kept);
    FilterMapOfFilter(IsPlausibleLand, gKept, (x: RatedRecord) => AfterRating(x, fn, dumpDate), rated);
  }

  lemma LocatedRowwise(located: seq<LocatedRecord>, fileKey: string, dumpDate: string)
    ensures StampProvenance(DropLandOutliers(AddPricePerM2(DropUnknownRegions(located))), fileKey, dumpDate)
         == FilterMap((x: LocatedRecord) => AfterLocating(x, Basename(fileKey), dumpDate), located)
  {
    var fn := Basename(fileKey);
    var known := DropUnknownRegions(located);
    RatedRowwise(AddPricePerM2(known), fileKey, dumpDate);
    var gRated := (x: RatedRecord) => AfterRating(x, fn, dumpDate);
    var gKnown := (x: LocatedRecord) => AfterRating(WithPricePerM2(x), fn, dumpDate);
    FilterMapOfMap(WithPricePerM2, gRated, gKnown, known);
    FilterMapOfFilter(HasKnownRegion, gKnown, (x: LocatedRecord) => AfterLocating(x, fn, dumpDate), located);
  }

  lemma PricedRowwise(priced: seq<PricedRecord>, fileKey: string, dumpDate: string)
    ensures CleanPriced(priced, fileKey, dumpDate)
         == FilterMap((x: PricedRecord) => AfterPricing(x, Basename(fileKey), dumpDate), priced)
  {
    var fn := Basename(fileKey);
    var plausible := DropWrongPrices(priced);
    var sized := ParseSizes(plausible);
    LocatedRowwise(SplitRegions(sized), fileKey, dumpDate);
    var gLocated := (x: LocatedRecord) => AfterLocating(x, fn, dumpDate);
    var gSized := (x: SizedRecord) => AfterLocating(WithRegion(x), fn, dumpDate);
    var gPlausible := (x: PricedRecord) => AfterLocating(WithRegion(WithSize(x)), fn, dumpDate);
    FilterMapOfMap(WithRegion, gLocated, gSized, sized);
    FilterMapOfMap(WithSize, gSized, gPlausible, plausible);
    DropWrongPricesIsOneFilter(priced);
    FilterMapOfFilter(IsPlausiblyPriced, gPlausible, (x: PricedRecord) => AfterPricing(x, fn, dumpDate), priced);
  }

  /**
   * The pipeline of whole-column steps is the row-by-row cleaning of the de-duplicated rows:
   * same rows, same order.
   */
  lemma CleanAndTransformRowwise(raw: seq<RawRecord>, fileKey: string, dumpDate: string)
    requires CleanAndTransform(raw, fileKey, dumpDate).Ok?
    ensures CleanAndTransform(raw, fileKey, dumpDate).value
         == FilterMap((x: RawRecord) => CleanOne(x, Basename(fileKey), dumpDate), DropDuplicateLinks(raw))
  {
    UniqueRowwise(DropDuplicateLinks(raw), fileKey, dumpDate);
  }

  /** Steps 2 to 10 on the de-duplicated rows, one row at a time. */
  lemma UniqueRowwise(unique: seq<RawRecord>, fileKey: string, dumpDate: string)
    requires ParsePrices(DropEuroPrices(ReplaceNbspInRows(unique))).Ok?
    ensures CleanPriced(ParsePrices(DropEuroPrices(ReplaceNbspInRows(unique))).value, fileKey, dumpDate)
         == FilterMap((x: RawRecord) => CleanOne(x, Basename(fileKey), dumpDate), unique)
  {
    NormalizedRowwise(ReplaceNbspInRows(unique), fileKey, dumpDate);
    NormalizingRowwise(unique, fileKey, dumpDate);
  }

  /** Step 2 followed by the row-wise rest is `CleanOne` on the rows before it. */
  lemma NormalizingRowwise(unique: seq<RawRecord>, fileKey: string, dumpDate: string)
    ensures FilterMap((x: RawRecord) => if IsLocalPriced(x) then AfterPricing(WithPrice(x), Basename(fileKey), dumpDate) else None,
                      ReplaceNbspInRows(unique))
         == FilterMap((x: RawRecord) => CleanOne(x, Basename(fileKey), dumpDate), unique)
  {
    var fn := Basename(fileKey);
    var gNormalized := (x: RawRecord) => if IsLocalPriced(x) then AfterPricing(WithPrice(x), fn, dumpDate) else None;
    assert ReplaceNbspInRows(unique) == Map(NormalizeRecord, unique);
    FilterMapOfMap(NormalizeRecord, gNormalized, (x: RawRecord) => CleanOne(x, fn, dumpDate), unique);
  }

  /** Steps 3 to 10 on the normalised rows, one row at a time. */
  lemma NormalizedRowwise(normalized: seq<RawRecord>, fileKey: string, dumpDate: string)
    requires ParsePrices(DropEuroPrices(normalized)).Ok?
    ensures CleanPriced(ParsePrices(DropEuroPrices(normalized)).value, fileKey, dumpDate)
         == FilterMap((x: RawRecord) => if IsLocalPriced(x) then AfterPricing(WithPrice(x), Basename(fileKey), dumpDate) else None,
                      normalized)
  {
    var fn := Basename(fileKey);
    LocalRowwise(DropEuroPrices(normalized), fileKey, dumpDate);
    var gLocal := (x: RawRecord) => AfterPricing(WithPrice(x), fn, dumpDate);
    var gNormalized := (x: RawRecord) => if IsLocalPriced(x) then AfterPricing(WithPrice(x), fn, dumpDate) else None;
    FilterMapOfFilter(IsLocalPriced, gLocal, gNormalized, normalized);
  }

  /** Steps 4 to 10 on the rows priced in crowns, one row at a time. */
  lemma LocalRowwise(local: seq<RawRecord>, fileKey: string, dumpDate: string)
    requires ParsePrices(local).Ok?
    ensures CleanPriced(ParsePrices(local).value, fileKey, dumpDate)
         == FilterMap((x: RawRecord) => AfterPricing(WithPrice(x), Basename(fileKey), dumpDate), local)
  {
    var fn := Basename(fileKey);
    var priced := ParsePrices(local).value;
    PricedRowwise(priced, fileKey, dumpDate);
    assert priced == Map(WithPrice, local);
    var gPriced := (x: PricedRecord) => AfterPricing(x, fn, dumpDate);
    var gLocal := (x: RawRecord) => AfterPricing(WithPrice(x), fn, dumpDate);
    FilterMapOfMap(WithPrice, gPriced, gLocal, local);
  }

  // ---------------------------------------------------------------- what the pipeline guarantees

  /** Every output row carries a known region, a plausible price, the price per square metre
      of its own price and size, the run's provenance, and no no-break space. */
  lemma CleanAndTransformSound(raw: seq<RawRecord>, fileKey: string, dumpDate: string)
    requires CleanAndTransform(raw, fileKey, dumpDate).Ok?
    ensures forall c :: c in CleanAndTransform(raw, fileKey, dumpDate).value ==>
      c.region in Regions && PriceOk(c.purpose, c.priceCzk)
      && c.pricePerM2 == PricePerM2(c.priceCzk, c.sizeM2)
      && !IsLandOutlier(c.purpose, c.pricePerM2)
      && c.fileName == Basename(fileKey) && c.dumpDate == dumpDate
      && Nbsp !in c.purpose && Nbsp !in c.link
  {
    var fn := Basename(fileKey);
    var f := (x: RawRecord) => CleanOne(x, fn, dumpDate);
    var unique := DropDuplicateLinks(raw);
    CleanAndTransformRowwise(raw, fileKey, dumpDate);
    forall c | c in CleanAndTransform(raw, fileKey, dumpDate).value
      ensures c.region in Regions && PriceOk(c.purpose, c.priceCzk)
        && c.pricePerM2 == PricePerM2(c.priceCzk, c.sizeM2)
        && !IsLandOutlier(c.purpose, c.pricePerM2)
        && c.fileName == fn && c.dumpDate == dumpDate
        && Nbsp !in c.purpose && Nbsp !in c.link
    {
      assert c in FilterMap(f, unique);
      var x :| x in unique && f(x) == Some(c);
      CleanOneSound(x, fn, dumpDate);
      ReplaceCharRemoves(x.purpose, Nbsp, ' ');
      ReplaceCharRemoves(x.link, Nbsp, ' ');
    }
  }

  /** A price text has no digit before normalisation exactly when it has none after. */
  lemma NoDigitsNormalized(t: string)
    ensures ParsePrice(ReplaceNbsp(t)).None? <==> Digits(t) == []
  {
    DigitsOfReplace(t, Nbsp, ' ');
    PriceDigitsAreDigits(ReplaceNbsp(t));
  }

  lemma EuroFreeWithoutDigits(unique: seq<RawRecord>)
    ensures (exists y :: y in DropEuroPrices(ReplaceNbspInRows(unique)) && ParsePrice(y.priceCzk).None?)
        <==> (exists x :: x in unique && !Contains(ReplaceNbsp(x.priceCzk), "EUR") && Digits(x.priceCzk) == [])
  {
    var normalized := ReplaceNbspInRows(unique);
    var local := DropEuroPrices(normalized);
    if y :| y in local && ParsePrice(y.priceCzk).None? {
      assert y in normalized;
      var k :| 0 <= k < |normalized| && normalized[k] == y;
      var x := unique[k];
      NoDigitsNormalized(x.priceCzk);
      assert x in unique && !Contains(ReplaceNbsp(x.priceCzk), "EUR") && Digits(x.priceCzk) == [];
    }
    if x :| x in unique && !Contains(ReplaceNbsp(x.priceCzk), "EUR") && Digits(x.priceCzk) == [] {
      var k :| 0 <= k < |unique| && unique[k] == x;
      var y := normalized[k];
      NoDigitsNormalized(x.priceCzk);
      assert y in local && ParsePrice(y.priceCzk).None?;
    }
  }

  /**
   * The run fails exactly when some listing that survives de-duplication and is not priced in
   * euros has a price text without a single digit.
   */
  lemma CleanAndTransformFails(raw: seq<RawRecord>, fileKey: string, dumpDate: string)
    ensures CleanAndTransform(raw, fileKey, dumpDate).Err? <==>
      exists x :: x in DropDuplicateLinks(raw)
        && !Contains(ReplaceNbsp(x.priceCzk), "EUR") && Digits(x.priceCzk) == []
  {
    PricesFail(DropDuplicateLinks(raw));
  }

  /** Step 4 fails on the de-duplicated rows exactly when one of them, not priced in euros,
      has a price text without a digit. */
  lemma PricesFail(unique: seq<RawRecord>)
    ensures ParsePrices(DropEuroPrices(ReplaceNbspInRows(unique))).Err? <==>
      exists x :: x in unique && !Contains(ReplaceNbsp(x.priceCzk), "EUR") && Digits(x.priceCzk) == []
  {
    var local := DropEuroPrices(ReplaceNbspInRows(unique));
    EuroFreeWithoutDigits(unique);
    if ParsePrices(local).Err? {
      var i :| 0 <= i < |local| && ParsePrice(local[i].priceCzk).None?;
      assert local[i] in local;
    } else {
      forall y | y in local ensures ParsePrice(y.priceCzk).Some? {
        var i :| 0 <= i < |local| && local[i] == y;
      }
    }
  }

  /** The output rows come from de-duplicated input rows, one each, in input order. */
  lemma CleanAndTransformSources(raw: seq<RawRecord>, fileKey: string, dumpDate: string) returns (src: seq<RawRecord>)
    requires CleanAndTransform(raw, fileKey, dumpDate).Ok?
    ensures IsSubsequence(src, raw)
    ensures |src| == |CleanAndTransform(raw, fileKey, dumpDate).value|
    ensures forall i :: 0 <= i < |src| ==>
      CleanOne(src[i], Basename(fileKey), dumpDate) == Some(CleanAndTransform(raw, fileKey, dumpDate).value[i])
  {
    var f := (x: RawRecord) => CleanOne(x, Basename(fileKey), dumpDate);
    CleanAndTransformRowwise(raw, fileKey, dumpDate);
    src := FilterMapSources(f, DropDuplicateLinks(raw));
    DropDuplicateLinksIsSubsequence(raw);
    SubsequenceTransitive(src, DropDuplicateLinks(raw), raw);
  }

  /** No two output rows share a link, provided no input link holds a no-break space. */
  lemma CleanAndTransformLinksDistinct(raw: seq<RawRecord>, fileKey: string, dumpDate: string)
    requires CleanAndTransform(raw, fileKey, dumpDate).Ok?
    requires forall x :: x in raw ==> Nbsp !in x.link
    ensures var out := CleanAndTransform(raw, fileKey, dumpDate).value;
      forall i, j :: 0 <= i < j < |out| ==> out[i].link != out[j].link
  {
    var fn := Basename(fileKey);
    var f := (x: RawRecord) => CleanOne(x, fn, dumpDate);
    var unique := DropDuplicateLinks(raw);
    CleanAndTransformRowwise(raw, fileKey, dumpDate);
    forall x | x in unique && f(x).Some? ensures f(x).value.link == x.link {
      CleanOneSound(x, fn, dumpDate);
      ReplaceCharAbsent(x.link, Nbsp, ' ');
    }
    FilterMapKeepsDistinct(f, (x: RawRecord) => x.link, (c: CleanRecord) => c.link, unique);
  }

  /**
   * Without that proviso links can repeat: de-duplication runs before no-break spaces are
   * replaced, so two links that differ only in a no-break space against a plain space both
   * survive it and are equal afterwards.
   */
  lemma NbspLinksCollide(a: RawRecord, b: RawRecord)
    requires a.link == [Nbsp] && b.link == [' ']
    ensures DropDuplicateLinks([a, b]) == [a, b]
    ensures ReplaceNbspInRows(DropDuplicateLinks([a, b]))[0].link
         == ReplaceNbspInRows(DropDuplicateLinks([a, b]))[1].link
  {
    KeepFirstOfDistinct([a, b], {});
    assert ReplaceNbsp(a.link)[0] == ' ';
    assert ReplaceNbsp(b.link) == [' '];
  }
}
