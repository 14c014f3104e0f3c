/** The bulk importer (pages/ImportData.tsx): rows from a spreadsheet or
    entries of a JSON document become preview records, and the preview is
    saved to the store with defaults for what is missing.  `JSON.parse` and
    the spreadsheet reader are outside the model: their results are inputs. */
module ImportData {
  import opened Wrappers
  import opened JsText
  import opened JsValue
  import opened Normalize
  import opened Seqs
  import opened Resolver
  import opened Types
  import opened Store

  // ---------------------------------------------------------------------
  // cleanNumber.
  // ---------------------------------------------------------------------

  /** The characters the number cleaner keeps: ASCII digits and `.`. */
  predicate IsNumeric(c: char) {
    IsDigit(c) || c == '.'
  }

  /** `s.replace(/[^0-9.]/g, '')`. */
  function KeepNumeric(s: string): (r: string)
    ensures |r| <= |s|
    ensures forall i :: 0 <= i < |r| ==> IsNumeric(r[i])
  {
    if s == [] then ""
    else if IsNumeric(s[0]) then [s[0]] + KeepNumeric(s[1..])
    else KeepNumeric(s[1..])
  }

  /** The cleaner is exactly a filter on the numeric characters: every one
      of them is kept, in order, and nothing else. */
  lemma {:induction false} KeepNumericIsFilter(s: string)
    ensures KeepNumeric(s) == Filter(s, IsNumeric)
  {
    if s != [] {
      KeepNumericIsFilter(s[1..]);
    }
  }

  /** A cleaned string has no sign and no leading whitespace, so whatever
      `parseFloat` reads from it is not negative. */
  lemma ParseFloatOfNumeric(s: string)
    requires forall i :: 0 <= i < |s| ==> IsNumeric(s[i])
    ensures ParseFloat(s).Some? ==> ParseFloat(s).value >= 0.0
  {
    if s != [] {
      assert !IsWhitespace(s[0]);
    }
    assert TrimStart(s) == s;
  }

  /** `cleanNumber`: 0 for a falsy value, a number unchanged, otherwise the
      decimal read from the value's digits and dots, 0 when there is none. */
  function CleanNumber(v: Value): (r: real)
    ensures !Truthy(v) ==> r == 0.0
    ensures v.Num? ==> r == v.n
    ensures !v.Num? ==> r >= 0.0
    ensures Truthy(v) && !v.Num? ==>
              (ParseFloat(KeepNumeric(ToStr(v))).None? ==> r == 0.0) &&
              (ParseFloat(KeepNumeric(ToStr(v))).Some? ==> r == ParseFloat(KeepNumeric(ToStr(v))).value)
  {
    if !Truthy(v) then 0.0
    else if v.Num? then v.n
    else
      var clean := KeepNumeric(ToStr(v));
      ParseFloatOfNumeric(clean);
      match ParseFloat(clean)
      case Some(x) => x
      case None => 0.0
  }

  /** Text without digits or dots cleans to the empty string. */
  lemma {:induction false} KeepNumericOfText(s: string)
    requires forall i :: 0 <= i < |s| ==> !IsNumeric(s[i])
    ensures KeepNumeric(s) == ""
  {
    if s != [] {
      KeepNumericOfText(s[1..]);
    }
  }

  /** A price written with its currency, `"15.5 ريال"`, is read as 15.5. */
  lemma CleanNumberOfPrice()
    ensures CleanNumber(Str("15.5 ريال")) == 15.5
  {
    KeepNumericOfPrice();
    ParseFloatOfPrice();
  }

  /** The cleaner keeps `15.5` of `"15.5 ريال"`. */
  lemma KeepNumericOfPrice()
    ensures KeepNumeric("15.5 ريال") == "15.5"
  {
    var s := "15.5 ريال";
    KeepNumericOfText(s[4..]);
    assert s[3..][1..] == s[4..];
    assert KeepNumeric(s[3..]) == "5";
    assert s[2..][1..] == s[3..];
    assert KeepNumeric(s[2..]) == ".5";
    assert s[1..][1..] == s[2..];
    assert KeepNumeric(s[1..]) == "5.5";
    assert KeepNumeric(s) == "15.5";
  }

  /** `parseFloat("15.5")` is 15.5. */
  lemma ParseFloatOfPrice()
    ensures ParseFloat("15.5") == Some(15.5)
  {
    var t := "15.5";
    assert !IsWhitespace(t[0]);
    assert TrimStart(t) == t;
    ScanUnsignedOfPrice();
    assert t[0] != '+' && t[0] != '-';
    assert ScanDecimal(t) == Some((15.5, 4));
  }

  /** The literal `15.5` has no exponent part. */
  lemma ScanUnsignedOfPrice()
    ensures ScanUnsigned("15.5") == Some((15.5, 4))
  {
    ScanMantissaOfPrice();
    assert "15.5"[4..] == "";
    assert ScanExponent("") == (0, 0);
    assert Pow10(0) == 1;
    assert Scale(15.5, 0) == 15.5;
  }

  /** The mantissa `15.5`: whole part 15, fraction 5 tenths, four characters. */
  lemma ScanMantissaOfPrice()
    ensures ScanMantissa("15.5") == Some((15.5, 4))
  {
    var t := "15.5";
    assert DigitRun(t[3..]) == 1;
    assert DigitRun(t) == 2;
    assert t[..2][..1] == t[..1];
    assert DigitsValue(t[..1]) == 1;
    assert DigitsValue(t[..2]) == 15;
    assert DigitsValue(t[3..4]) == 5;
  }

  // ---------------------------------------------------------------------
  // The preview record.
  // ---------------------------------------------------------------------

  /** A previewed row (`Partial<Drug>`).  The text fields hold whatever the
      input held, since the JSON branch copies values unconverted. */
  datatype Preview = Preview(
    tradeName: Value,
    agentName: Value,
    manufacturer: Value,
    publicPrice: real,
    agentPrice: real,
    priceBeforeDiscount: real,
    discountPercent: real)

  // ---------------------------------------------------------------------
  // Spreadsheet rows.
  // ---------------------------------------------------------------------

  const TradeNameHeaders: seq<string> :=
    ["Trade Name", "Name", "ItemName", "Drug Name", "Description",
     "اسم الدواء", "الاسم", "الاسم التجاري", "الإسم التجاري", "الصنف", "المادة"]
  const AgentNameHeaders: seq<string> :=
    ["Agent", "Agent Name", "Distributor", "Supplier",
     "الوكيل", "الموزع", "المورد", "اسم الوكيل"]
  const ManufacturerHeaders: seq<string> :=
    ["Manufacturer", "Company", "Brand",
     "الشركة المصنعة", "المصنع", "الشركة"]
  const PublicPriceHeaders: seq<string> :=
    ["Public Price", "Price", "Retail Price",
     "سعر الجمهور", "السعر", "سعر البيع"]
  const AgentPriceHeaders: seq<string> :=
    ["Agent Price", "Cost", "Pharmacy Price", "Whole Sale",
     "سعر الصيدلي", "التكلفة", "سعر الشراء"]
  const PriceBeforeDiscountHeaders: seq<string> :=
    ["Old Price", "Price Before", "Original Price",
     "السعر قبل الخصم", "سعر سابق", "قبل الخصم", "قبل التخفيض"]
  const DiscountHeaders: seq<string> :=
    ["Discount", "Discount %", "Bonus",
     "نسبة الخصم", "الخصم", "نسبة التخفيض", "نسبة الخصم %"]

  /** A column of the row, resolved through the page's header resolver. */
  function Column(row: Fields, headers: seq<string>): Value {
    ResolveValue(row, headers, NormalizeText)
  }

  /** `String(v).trim()` of `v || ''`. */
  function TrimmedText(v: Value): (r: Value)
    ensures r.Str? && IsTrimmed(r.s)
    ensures !Truthy(v) ==> r == Str("")
    ensures Truthy(v) ==> r == Str(Trim(ToStr(v)))
  {
    Str(Trim(ToStr(Or(v, Str("")))))
  }

  /** The preview row built from the values the columns resolved to: `None`
      (the empty object) when the trade name is falsy.  Text fields are
      trimmed, and the pre-discount price falls back to the public price. */
  function PreviewOf(tradeName: Value, agentName: Value, manufacturer: Value, publicPrice: Value,
                     agentPrice: Value, priceBeforeDiscount: Value, discount: Value): (r: Option<Preview>)
    ensures r.None? <==> !Truthy(tradeName)
    ensures r.Some? ==> r.value.tradeName == Str(Trim(ToStr(tradeName)))
    ensures r.Some? ==> r.value.agentName == TrimmedText(agentName)
                        && r.value.manufacturer == TrimmedText(manufacturer)
    ensures r.Some? ==> r.value.publicPrice == CleanNumber(publicPrice)
                        && r.value.agentPrice == CleanNumber(agentPrice)
                        && r.value.discountPercent == CleanNumber(discount)
    ensures r.Some? && r.value.priceBeforeDiscount == 0.0 ==> r.value.publicPrice == 0.0
    ensures r.Some? && CleanNumber(priceBeforeDiscount) != 0.0 ==>
              r.value.priceBeforeDiscount == CleanNumber(priceBeforeDiscount)
    ensures r.Some? && CleanNumber(priceBeforeDiscount) == 0.0 ==>
              r.value.priceBeforeDiscount == r.value.publicPrice
  {
    var name := Or(tradeName, Str(""));
    if !Truthy(name) then None
    else
      var pp := CleanNumber(publicPrice);
      var pbd := CleanNumber(priceBeforeDiscount);
      Some(Preview(
        TrimmedText(name),
        TrimmedText(agentName),
        TrimmedText(manufacturer),
        pp,
        CleanNumber(agentPrice),
        if pbd != 0.0 then pbd else pp,
        CleanNumber(discount)))
  }

  /** `mapExcelRowToDrug`: each field resolved through its alias list. */
  function MapExcelRow(row: Fields): (r: Option<Preview>)
    ensures r.None? <==> !Truthy(Column(row, TradeNameHeaders))
    ensures r.Some? ==> r.value.tradeName == Str(Trim(ToStr(Column(row, TradeNameHeaders))))
    ensures r.Some? ==> r.value.agentName.Str? && IsTrimmed(r.value.agentName.s)
                        && r.value.manufacturer.Str? && IsTrimmed(r.value.manufacturer.s)
    ensures r.Some? ==> r.value.publicPrice == CleanNumber(Column(row, PublicPriceHeaders))
    ensures r.Some? && r.value.priceBeforeDiscount == 0.0 ==> r.value.publicPrice == 0.0
    ensures r.Some? && CleanNumber(Column(row, PriceBeforeDiscountHeaders)) == 0.0 ==>
              r.value.priceBeforeDiscount == r.value.publicPrice
    ensures r.Some? ==> r.value.agentName == TrimmedText(Column(row, AgentNameHeaders))
                        && r.value.manufacturer == TrimmedText(Column(row, ManufacturerHeaders))
    ensures r.Some? ==> r.value.agentPrice == CleanNumber(Column(row, AgentPriceHeaders))
                        && r.value.discountPercent == CleanNumber(Column(row, DiscountHeaders))
    ensures r.Some? && CleanNumber(Column(row, PriceBeforeDiscountHeaders)) != 0.0 ==>
              r.value.priceBeforeDiscount == CleanNumber(Column(row, PriceBeforeDiscountHeaders))
  {
    PreviewOf(Column(row, TradeNameHeaders), Column(row, AgentNameHeaders), Column(row, ManufacturerHeaders),
              Column(row, PublicPriceHeaders), Column(row, AgentPriceHeaders),
              Column(row, PriceBeforeDiscountHeaders), Column(row, DiscountHeaders))
  }

  /** A preview row the spreadsheet branch keeps: its trade name is a
      non-empty string. */
  predicate HasName(p: Preview) {
    p.tradeName.Str? && |p.tradeName.s| > 0
  }

  /** One row as the spreadsheet branch keeps it: mapped, and dropped when
      the name is missing or blank. */
  function KeptRow(row: Fields): (r: Option<Preview>)
    ensures r.Some? ==> HasName(r.value) && MapExcelRow(row) == r
  {
    match MapExcelRow(row)
    case Some(p) => if HasName(p) then Some(p) else None
    case None => None
  }

  /** The rows mapped, and those without a name dropped, in order. */
  function SheetPreviews(rows: seq<Fields>): (r: seq<Preview>)
    ensures |r| <= |rows|
  {
    Choose(rows, KeptRow)
  }

  /** A preview row is exactly the mapping of some sheet row with a
      non-blank name. */
  lemma SheetPreviewsFromRows(rows: seq<Fields>, p: Preview)
    ensures p in SheetPreviews(rows) <==> exists i :: 0 <= i < |rows| && MapExcelRow(rows[i]) == Some(p) && HasName(p)
  {
    ChooseMember(rows, KeptRow, p);
    forall i | 0 <= i < |rows|
      ensures KeptRow(rows[i]) == Some(p) <==> MapExcelRow(rows[i]) == Some(p) && HasName(p)
    {
      KeptRowIs(rows[i], p);
    }
  }

  lemma KeptRowIs(row: Fields, p: Preview)
    ensures KeptRow(row) == Some(p) <==> MapExcelRow(row) == Some(p) && HasName(p)
  {
  }

  /** Every preview row of the spreadsheet branch has a non-empty, trimmed
      trade name. */
  lemma SheetPreviewsNamed(rows: seq<Fields>)
    ensures forall i :: 0 <= i < |SheetPreviews(rows)| ==>
              HasName(SheetPreviews(rows)[i]) && IsTrimmed(SheetPreviews(rows)[i].tradeName.s)
  {
    var r := SheetPreviews(rows);
    forall i | 0 <= i < |r|
      ensures HasName(r[i]) && IsTrimmed(r[i].tradeName.s)
    {
      SheetPreviewsFromRows(rows, r[i]);
    }
  }

  datatype ImportError =
    | InvalidJson
    | UnsupportedJson
    | ReadOfNullish(base: Value, property: string)
    | NoSheets
    | EmptySheet
    | NoValidRows(columns: seq<string>)

  /** The message the page shows for each failure; a property read on
      `null` or `undefined` surfaces the engine's `TypeError` text. */
  function Message(e: ImportError): (m: string)
    ensures m != ""
  {
    match e
    case InvalidJson => "ملف JSON غير صالح"
    case UnsupportedJson => "صيغة ملف JSON غير متوافقة"
    case ReadOfNullish(base, property) =>
      "Cannot read properties of " + (if base.Null? then "null" else "undefined")
      + " (reading '" + property + "')"
    case NoSheets => "ملف Excel لا يحتوي على صفحات"
    case EmptySheet => "الملف فارغ أو لا يحتوي على بيانات مقروءة"
    case NoValidRows(columns) =>
      "لم يتم العثور على أدوية صالحة. تأكد من الأعمدة. الأعمدة الموجودة: [" + Join(columns, ", ") + "]"
  }

  /** The spreadsheet branch over the workbook's sheets, each a list of rows
      keyed by the header line: the first sheet is read. */
  function SheetImport(sheets: seq<seq<Fields>>): (r: Result<seq<Preview>, ImportError>)
    ensures sheets == [] <==> r == Err(NoSheets)
    ensures sheets != [] && sheets[0] == [] <==> r == Err(EmptySheet)
    ensures r.Err? && r.error.NoValidRows? ==>
              sheets != [] && sheets[0] != [] && SheetPreviews(sheets[0]) == []
              && r.error.columns == Keys(sheets[0][0])
    ensures r.Ok? ==> sheets != [] && r.value == SheetPreviews(sheets[0]) && r.value != []
    ensures sheets != [] && sheets[0] != [] ==>
              (SheetPreviews(sheets[0]) == [] <==> r == Err(NoValidRows(Keys(sheets[0][0]))))
    ensures sheets != [] && sheets[0] != [] && SheetPreviews(sheets[0]) != [] ==>
              r == Ok(SheetPreviews(sheets[0]))
  {
    if sheets == [] then Err(NoSheets)
    else
      var rows := sheets[0];
      if rows == [] then Err(EmptySheet)
      else
        var mapped := SheetPreviews(rows);
        if mapped == [] then Err(NoValidRows(Keys(rows[0])))
        else Ok(mapped)
  }

  // ---------------------------------------------------------------------
  // JSON documents.
  // ---------------------------------------------------------------------

  /** `Object.values(v)`. */
  function ObjectValues(v: Value): (vs: seq<Value>)
    ensures |vs| == |Spread(v)|
    ensures forall i :: 0 <= i < |vs| ==> vs[i] == Spread(v)[i].1
  {
    Values(Spread(v))
  }

  /** The array of entries a document holds: its `drugs` array, else the
      document itself when it is an array, else its first array-valued
      property.  Reading `drugs` of `null` throws. */
  function PickEntries(json: Value): (r: Result<seq<Value>, ImportError>)
    ensures IsNullish(json) <==> r == Err(ReadOfNullish(json, "drugs"))
    ensures Prop(json, "drugs").Arr? ==> r == Ok(Prop(json, "drugs").items)
    ensures !IsNullish(json) && !Prop(json, "drugs").Arr? && json.Arr? ==> r == Ok(json.items)
    ensures r == Err(UnsupportedJson) <==>
              !IsNullish(json) && !json.Arr? && forall i :: 0 <= i < |ObjectValues(json)| ==> !ObjectValues(json)[i].Arr?
    ensures r.Ok? ==> Arr(r.value) == Prop(json, "drugs") || Arr(r.value) == json || Arr(r.value) in ObjectValues(json)
    ensures !IsNullish(json) && !Prop(json, "drugs").Arr? && !json.Arr? && r.Ok? ==>
              exists i :: 0 <= i < |ObjectValues(json)| && ObjectValues(json)[i].Arr? &&
                r.value == ObjectValues(json)[i].items &&
                forall j :: 0 <= j < i ==> !ObjectValues(json)[j].Arr?
    ensures r.Err? ==> r.error == ReadOfNullish(json, "drugs") || r.error == UnsupportedJson
  {
    if IsNullish(json) then Err(ReadOfNullish(json, "drugs"))
    else
      var drugs := Prop(json, "drugs");
      if Truthy(drugs) && drugs.Arr? then
        assert exists i :: 0 <= i < |json.fields| && json.fields[i] == ("drugs", drugs);
        var i :| 0 <= i < |json.fields| && json.fields[i] == ("drugs", drugs);
        assert ObjectValues(json)[i] == drugs;
        Ok(drugs.items)
      else if json.Arr? then Ok(json.items)
      else
        var values := ObjectValues(json);
        match FindFirst(values, (v: Value) => v.Arr?)
        case Some(i) => Ok(values[i].items)
        case None => Err(UnsupportedJson)
  }

  /** One entry mapped to a preview row: each field is the first truthy of
      its spellings, prices cleaned.  (No pre-discount fallback here.) */
  function JsonPreview(d: Value): (p: Preview)
    ensures p.tradeName == Or(Or(Or(Prop(d, "tradeName"), Prop(d, "name")), Prop(d, "اسم الدواء")),
                              Prop(d, "الإسم التجاري"))
    ensures p.agentName == Or(Prop(d, "agentName"), Prop(d, "الوكيل"))
    ensures p.manufacturer == Or(Prop(d, "manufacturer"), Prop(d, "المصنع"))
    ensures p.publicPrice == CleanNumber(Or(Prop(d, "publicPrice"), Prop(d, "سعر الجمهور")))
    ensures p.agentPrice == CleanNumber(Or(Prop(d, "agentPrice"), Prop(d, "سعر الصيدلي")))
    ensures p.priceBeforeDiscount == CleanNumber(Or(Prop(d, "priceBeforeDiscount"), Prop(d, "قبل الخصم")))
    ensures p.discountPercent == CleanNumber(Or(Prop(d, "discountPercent"), Prop(d, "نسبة الخصم")))
  {
    Preview(
      Or(Or(Or(Prop(d, "tradeName"), Prop(d, "name")), Prop(d, "اسم الدواء")), Prop(d, "الإسم التجاري")),
      Or(Prop(d, "agentName"), Prop(d, "الوكيل")),
      Or(Prop(d, "manufacturer"), Prop(d, "المصنع")),
      CleanNumber(Or(Prop(d, "publicPrice"), Prop(d, "سعر الجمهور"))),
      CleanNumber(Or(Prop(d, "agentPrice"), Prop(d, "سعر الصيدلي"))),
      CleanNumber(Or(Prop(d, "priceBeforeDiscount"), Prop(d, "قبل الخصم"))),
      CleanNumber(Or(Prop(d, "discountPercent"), Prop(d, "نسبة الخصم"))))
  }

  /** An entry carrying a drug's properties under their own names, as a
      stored drug written with `JSON.stringify` does. */
  predicate HoldsDrug(o: Value, d: Drug) {
    Prop(o, "tradeName") == Str(d.tradeName) && Prop(o, "agentName") == Str(d.agentName)
    && Prop(o, "manufacturer") == Str(d.manufacturer) && Prop(o, "publicPrice") == Num(d.publicPrice)
    && Prop(o, "agentPrice") == Num(d.agentPrice) && Prop(o, "priceBeforeDiscount") == Num(d.priceBeforeDiscount)
    && Prop(o, "discountPercent") == Num(d.discountPercent)
  }

  /** An entry with none of the alternative spellings of the fields. */
  predicate LacksAliases(o: Value) {
    Prop(o, "name") == Missing && Prop(o, "اسم الدواء") == Missing && Prop(o, "الإسم التجاري") == Missing
    && Prop(o, "الوكيل") == Missing && Prop(o, "المصنع") == Missing && Prop(o, "سعر الجمهور") == Missing
    && Prop(o, "سعر الصيدلي") == Missing && Prop(o, "قبل الخصم") == Missing && Prop(o, "نسبة الخصم") == Missing
  }

  /** The value a text property gives the JSON mapping when no alternative
      spelling is present: an empty string is falsy and reads as absent. */
  function TextEntry(s: string): Value {
    if s == "" then Missing else Str(s)
  }

  /** A drug written as a JSON object maps back to its own four prices
      exactly and to its names, an empty name reading as absent. */
  lemma JsonPreviewOfDrug(o: Value, d: Drug)
    requires HoldsDrug(o, d) && LacksAliases(o)
    ensures var p := JsonPreview(o);
            p.tradeName == TextEntry(d.tradeName) && p.agentName == TextEntry(d.agentName)
            && p.manufacturer == TextEntry(d.manufacturer)
            && p.publicPrice == d.publicPrice && p.agentPrice == d.agentPrice
            && p.priceBeforeDiscount == d.priceBeforeDiscount && p.discountPercent == d.discountPercent
  {
    var p := JsonPreview(o);
    OwnPrice(d.publicPrice);
    OwnPrice(d.agentPrice);
    OwnPrice(d.priceBeforeDiscount);
    OwnPrice(d.discountPercent);
    assert p.agentName == Or(Str(d.agentName), Missing);
    assert p.tradeName == Or(Or(Or(Str(d.tradeName), Missing), Missing), Missing);
  }

  /** A stored price reads back whether or not it is 0: `0 || undefined`
      cleans to 0 as well. */
  lemma OwnPrice(x: real)
    ensures CleanNumber(Or(Num(x), Missing)) == x
  {
  }

  /** Mapping one entry: reading `tradeName` of `null` or `undefined` throws. */
  function JsonEntry(d: Value): (r: Result<Preview, ImportError>)
    ensures r.Err? <==> IsNullish(d)
    ensures r.Err? ==> r.error == ReadOfNullish(d, "tradeName")
  {
    if IsNullish(d) then Err(ReadOfNullish(d, "tradeName")) else Ok(JsonPreview(d))
  }

  /** The entries mapped in order; the first `null` (or `undefined`) entry
      throws, and no later entry is looked at. */
  function JsonPreviews(entries: seq<Value>): (r: Result<seq<Preview>, ImportError>)
    ensures r.Err? <==> exists i :: 0 <= i < |entries| && IsNullish(entries[i])
    ensures r.Err? ==> exists i :: 0 <= i < |entries| && IsNullish(entries[i])
                                   && (forall j :: 0 <= j < i ==> !IsNullish(entries[j]))
                                   && r.error == ReadOfNullish(entries[i], "tradeName")
    ensures r.Ok? ==> |r.value| == |entries| && forall i :: 0 <= i < |entries| ==> r.value[i] == JsonPreview(entries[i])
  {
    MapResult(entries, JsonEntry)
  }

  /** The JSON branch: `None` is a document `JSON.parse` refused.  Entries
      whose trade name is falsy are dropped; an empty result is not an
      error. */
  function JsonImport(parsed: Option<Value>): (r: Result<seq<Preview>, ImportError>)
    ensures parsed.None? <==> r == Err(InvalidJson)
    ensures r.Ok? ==> forall i :: 0 <= i < |r.value| ==> Truthy(r.value[i].tradeName)
    ensures parsed.Some? && PickEntries(parsed.value).Err? ==> r == Err(PickEntries(parsed.value).error)
    ensures parsed.Some? && PickEntries(parsed.value).Ok? && JsonPreviews(PickEntries(parsed.value).value).Err? ==>
              r == Err(JsonPreviews(PickEntries(parsed.value).value).error)
    ensures parsed.Some? && PickEntries(parsed.value).Ok? && JsonPreviews(PickEntries(parsed.value).value).Ok? ==>
              r == Ok(Filter(JsonPreviews(PickEntries(parsed.value).value).value, HasTruthyName))
  {
    match parsed
    case None => Err(InvalidJson)
    case Some(json) =>
      match PickEntries(json)
      case Err(e) => Err(e)
      case Ok(entries) =>
        match JsonPreviews(entries)
        case Err(e) => Err(e)
        case Ok(previews) => Ok(Filter(previews, HasTruthyName))
  }

  /** A preview with a truthy trade name, the ones the JSON branch keeps. */
  predicate HasTruthyName(p: Preview) {
    Truthy(p.tradeName)
  }

  /** The JSON branch keeps every named preview as often as the document
      maps to it, and no unnamed one. */
  lemma JsonImportKeepsNamed(parsed: Option<Value>, p: Preview)
    requires JsonImport(parsed).Ok?
    ensures multiset(JsonImport(parsed).value)[p] ==
              if Truthy(p.tradeName) then multiset(JsonPreviews(PickEntries(parsed.value).value).value)[p] else 0
  {
    FilterCount(JsonPreviews(PickEntries(parsed.value).value).value, HasTruthyName, p);
  }

  /** HasTruthyName previews keep their relative order: those mapped from the first
      entries of the document come first. */
  lemma JsonImportInOrder(parsed: Option<Value>, front: seq<Preview>, back: seq<Preview>)
    requires parsed.Some? && PickEntries(parsed.value).Ok?
    requires JsonPreviews(PickEntries(parsed.value).value) == Ok(front + back)
    ensures JsonImport(parsed) == Ok(Filter(front, HasTruthyName) + Filter(back, HasTruthyName))
  {
    FilterAppend(front, back, HasTruthyName);
  }

  /** The contents of the chosen file, as the two readers would deliver
      them: the parse of its text, and the rows of each sheet. */
  datatype FileInput = FileInput(name: string, json: Option<Value>, sheets: seq<seq<Fields>>)

  predicate EndsWith(s: string, suffix: string) {
    |suffix| <= |s| && s[|s| - |suffix|..] == suffix
  }

  /** Which branch reads the file: a name ending in `.json` is read as JSON,
      anything else as a workbook. */
  function ReadFile(file: FileInput): (r: Result<seq<Preview>, ImportError>)
    ensures EndsWith(file.name, ".json") ==> r == JsonImport(file.json)
    ensures !EndsWith(file.name, ".json") ==> r == SheetImport(file.sheets)
  {
    if EndsWith(file.name, ".json") then JsonImport(file.json) else SheetImport(file.sheets)
  }

  // ---------------------------------------------------------------------
  // Saving the preview.
  // ---------------------------------------------------------------------

  /** One preview row as a drug: `'غير معروف'` for a missing name, `'-'` for
      a missing agent or manufacturer, the pre-discount price falling back
      to the public price and then to 0. */
  function PreviewToDrug(p: Preview, id: string, now: int): (d: Drug)
    ensures d.id == id && d.createdAt == now && d.addedBy == "Import"
    ensures d.tradeName == TextOr(p.tradeName, "غير معروف")
    ensures d.agentName == TextOr(p.agentName, "-") && d.manufacturer == TextOr(p.manufacturer, "-")
    ensures d.publicPrice == p.publicPrice && d.agentPrice == p.agentPrice
    ensures d.priceBeforeDiscount == if p.priceBeforeDiscount != 0.0 then p.priceBeforeDiscount else p.publicPrice
    ensures d.discountPercent == p.discountPercent
  {
    Drug(id,
         TextOr(p.agentName, "-"),
         TextOr(p.manufacturer, "-"),
         TextOr(p.tradeName, "غير معروف"),
         if p.publicPrice != 0.0 then p.publicPrice else 0.0,
         if p.agentPrice != 0.0 then p.agentPrice else 0.0,
         if p.priceBeforeDiscount != 0.0 then p.priceBeforeDiscount
         else if p.publicPrice != 0.0 then p.publicPrice else 0.0,
         if p.discountPercent != 0.0 then p.discountPercent else 0.0,
         "Import",
         now)
  }

  /** The preview mapped to drugs, one per row, in order; ids and clock
      readings are drawn per row. */
  function ImportToDrugs(previews: seq<Preview>, ids: nat -> string, clock: nat -> int): (r: seq<Drug>)
    ensures |r| == |previews|
    ensures forall i :: 0 <= i < |r| ==> r[i] == PreviewToDrug(previews[i], ids(i), clock(i))
  {
    seq(|previews|, i requires 0 <= i < |previews| => PreviewToDrug(previews[i], ids(i), clock(i)))
  }

  /** The page's state: the preview table and the two banners. */
  class ImportPage {
    var preview: seq<Preview>
    var error: Option<string>
    var success: Option<string>

    constructor ()
      ensures preview == [] && error.None? && success.None?
    {
      preview, error, success := [], None, None;
    }

    /** `handleFile`: nothing without a file; otherwise the banners are
      cleared and the preview is the file's rows or, on failure, empty with
      the failure's message shown. */
    method HandleFile(file: Option<FileInput>)
      modifies this
      ensures file.None? ==> preview == old(preview) && error == old(error) && success == old(success)
      ensures file.Some? && ReadFile(file.value).Ok? ==>
                preview == ReadFile(file.value).value && error.None? && success.None?
      ensures file.Some? && ReadFile(file.value).Err? ==>
                preview == [] && error == Some(Message(ReadFile(file.value).error)) && success.None?
    {
      if file.None? {
        return;
      }
      error := None;
      success := None;
      preview := [];
      match ReadFile(file.value)
      case Ok(rows) =>
        preview := rows;
      case Err(e) =>
        var message := Message(e);
        error := Some(if message != "" then message else "فشل في قراءة الملف");
    }

    /** `saveToInventory`: nothing for an empty preview; otherwise the
      drugs are appended to the store, the preview cleared and the count
      reported. */
    method SaveToInventory(store: LocalStore, ids: nat -> string, clock: nat -> int)
      requires store.Valid()
      modifies this, store
      ensures store.Valid()
      ensures old(preview) == [] ==>
                preview == [] && error == old(error) && success == old(success)
                && store.drugs == old(store.drugs) && store.drugsStored == old(store.drugsStored)
      ensures old(preview) != [] ==>
                store.drugs == old(store.drugs) + ImportToDrugs(old(preview), ids, clock)
                && store.drugsStored && preview == [] && error == old(error)
                && success == Some("تم إضافة " + NatToString(|old(preview)|) + " صنف بنجاح إلى المخزون!")
      ensures store.users == old(store.users) && store.notifications == old(store.notifications)
      ensures store.usersStored == old(store.usersStored)
      ensures store.notificationsStored == old(store.notificationsStored)
      ensures store.deviceCredential == old(store.deviceCredential)
    {
      if |preview| == 0 {
        return;
      }
      var newDrugs := ImportToDrugs(preview, ids, clock);
      store.AddDrugsBatch(newDrugs);
      success := Some("تم إضافة " + NatToString(|newDrugs|) + " صنف بنجاح إلى المخزون!");
      preview := [];
    }
  }
}
