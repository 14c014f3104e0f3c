/** The inventory view (pages/Inventory.tsx): the search filter and the
    column sort over a copy of the stored drugs, the sort-direction toggle,
    the drug a manual entry creates, and the rows the exports are made of. */
module Inventory {
  import opened Wrappers
  import opened JsText
  import opened JsValue
  import opened Seqs
  import opened Sorting
  import opened Types
  import opened Store
  import opened Resolver
  import opened ImportData

  datatype SortKey =
    | Id | AgentName | Manufacturer | TradeName | PublicPrice | AgentPrice
    | PriceBeforeDiscount | DiscountPercent | AddedBy | CreatedAt

  datatype Direction = Asc | Desc

  datatype SortConfig = SortConfig(key: SortKey, direction: Direction)

  /** `handleSort`: descending only when the same column is currently
      sorted ascending; ascending otherwise. */
  function HandleSort(current: Option<SortConfig>, key: SortKey): (r: SortConfig)
    ensures r.key == key
    ensures r.direction == Desc <==> current == Some(SortConfig(key, Asc))
  {
    if current.Some? && current.value.key == key && current.value.direction == Asc
    then SortConfig(key, Desc)
    else SortConfig(key, Asc)
  }

  /** Each click on the same column header flips the direction, so two clicks
      restore the order. */
  lemma HandleSortToggles(current: Option<SortConfig>, key: SortKey)
    ensures HandleSort(Some(HandleSort(current, key)), key).direction != HandleSort(current, key).direction
    ensures HandleSort(Some(HandleSort(Some(HandleSort(current, key)), key)), key) == HandleSort(current, key)
  {
  }

  // ---------------------------------------------------------------------
  // Search.
  // ---------------------------------------------------------------------

  /** The search test: the trade name contains the term ignoring case, or
      the agent or the manufacturer contains it as typed. */
  predicate MatchesSearch(d: Drug, term: string) {
    Includes(ToLowerCase(d.tradeName), ToLowerCase(term))
    || Includes(d.agentName, term)
    || Includes(d.manufacturer, term)
  }

  /** The filter step: an empty term keeps every drug. */
  function SearchFilter(drugs: seq<Drug>, term: string): (r: seq<Drug>)
    ensures term == "" ==> r == drugs
    ensures term != "" ==> forall i :: 0 <= i < |r| ==> MatchesSearch(r[i], term)
  {
    if term == "" then drugs else Filter(drugs, (d: Drug) => MatchesSearch(d, term))
  }

  /** A non-empty term keeps each matching drug as often as it is stored and
      drops every other one. */
  lemma SearchFilterExact(drugs: seq<Drug>, term: string, d: Drug)
    requires term != ""
    ensures multiset(SearchFilter(drugs, term))[d] == if MatchesSearch(d, term) then multiset(drugs)[d] else 0
  {
    FilterCount(drugs, (e: Drug) => MatchesSearch(e, term), d);
  }

  // ---------------------------------------------------------------------
  // Sort.
  // ---------------------------------------------------------------------

  predicate IsTextKey(key: SortKey) {
    key.Id? || key.AgentName? || key.Manufacturer? || key.TradeName? || key.AddedBy?
  }

  function TextField(d: Drug, key: SortKey): string
    requires IsTextKey(key)
  {
    match key
    case Id => d.id
    case AgentName => d.agentName
    case Manufacturer => d.manufacturer
    case TradeName => d.tradeName
    case AddedBy => d.addedBy
  }

  function NumberField(d: Drug, key: SortKey): real
    requires !IsTextKey(key)
  {
    match key
    case PublicPrice => d.publicPrice
    case AgentPrice => d.agentPrice
    case PriceBeforeDiscount => d.priceBeforeDiscount
    case DiscountPercent => d.discountPercent
    case CreatedAt => d.createdAt as real
  }

  /** The comparator of the sort: text columns through the locale's
      collation (arguments swapped for descending), number columns by value
      with -1, 1 or 0. */
  function CompareDrugs(cfg: SortConfig, locale: (string, string) -> int, a: Drug, b: Drug): (r: int)
    ensures !IsTextKey(cfg.key) ==> (r == 0 <==> NumberField(a, cfg.key) == NumberField(b, cfg.key))
    ensures !IsTextKey(cfg.key) && cfg.direction == Asc ==> (r < 0 <==> NumberField(a, cfg.key) < NumberField(b, cfg.key))
    ensures !IsTextKey(cfg.key) && cfg.direction == Desc ==> (r < 0 <==> NumberField(a, cfg.key) > NumberField(b, cfg.key))
    ensures IsTextKey(cfg.key) && cfg.direction == Asc ==> r == locale(TextField(a, cfg.key), TextField(b, cfg.key))
    ensures IsTextKey(cfg.key) && cfg.direction == Desc ==> r == locale(TextField(b, cfg.key), TextField(a, cfg.key))
  {
    if IsTextKey(cfg.key) then
      if cfg.direction == Asc then locale(TextField(a, cfg.key), TextField(b, cfg.key))
      else locale(TextField(b, cfg.key), TextField(a, cfg.key))
    else
      var x, y := NumberField(a, cfg.key), NumberField(b, cfg.key);
      if x < y then (if cfg.direction == Asc then -1 else 1)
      else if x > y then (if cfg.direction == Asc then 1 else -1)
      else 0
  }

  /** With a consistent collation, the column comparator is consistent. */
  lemma CompareDrugsIsComparator(cfg: SortConfig, locale: (string, string) -> int)
    requires IsComparator(locale)
    ensures IsComparator((a: Drug, b: Drug) => CompareDrugs(cfg, locale, a, b))
  {
  }

  /** `sortedDrugs`: the search filter, then the sort when a column is
      chosen.  Both work on a copy, so the stored list is an input only. */
  function SortedDrugs(drugs: seq<Drug>, term: string, cfg: Option<SortConfig>,
                       locale: (string, string) -> int): (r: seq<Drug>)
    ensures multiset(r) == multiset(SearchFilter(drugs, term))
    ensures cfg.None? ==> r == SearchFilter(drugs, term)
  {
    var kept := SearchFilter(drugs, term);
    if cfg.None? then kept
    else SortBy(kept, (a: Drug, b: Drug) => CompareDrugs(cfg.value, locale, a, b))
  }

  /** A number column sorted ascending is non-decreasing, descending
      non-increasing. */
  lemma NumberSortOrdered(drugs: seq<Drug>, term: string, cfg: SortConfig, locale: (string, string) -> int)
    requires !IsTextKey(cfg.key)
    ensures var r := SortedDrugs(drugs, term, Some(cfg), locale);
            forall i, j :: 0 <= i < j < |r| ==>
              if cfg.direction == Asc then NumberField(r[i], cfg.key) <= NumberField(r[j], cfg.key)
              else NumberField(r[i], cfg.key) >= NumberField(r[j], cfg.key)
  {
    var cmp := (a: Drug, b: Drug) => CompareDrugs(cfg, locale, a, b);
    assert IsComparator(cmp);
    SortBySorted(SearchFilter(drugs, term), cmp);
  }

  /** A text column sorted ascending follows the collation; descending, the
      reverse collation. */
  lemma TextSortOrdered(drugs: seq<Drug>, term: string, cfg: SortConfig, locale: (string, string) -> int)
    requires IsTextKey(cfg.key) && IsComparator(locale)
    ensures var r := SortedDrugs(drugs, term, Some(cfg), locale);
            forall i, j :: 0 <= i < j < |r| ==>
              if cfg.direction == Asc then locale(TextField(r[i], cfg.key), TextField(r[j], cfg.key)) <= 0
              else locale(TextField(r[j], cfg.key), TextField(r[i], cfg.key)) <= 0
  {
    var cmp := (a: Drug, b: Drug) => CompareDrugs(cfg, locale, a, b);
    CompareDrugsIsComparator(cfg, locale);
    SortBySorted(SearchFilter(drugs, term), cmp);
  }

  /** The sort is stable: drugs the comparator ties keep the order the
      search filter left them in. */
  lemma SortedDrugsStable(drugs: seq<Drug>, term: string, cfg: SortConfig, locale: (string, string) -> int, y: Drug)
    requires IsComparator(locale)
    ensures var cmp := (a: Drug, b: Drug) => CompareDrugs(cfg, locale, a, b);
            Filter(SortedDrugs(drugs, term, Some(cfg), locale), e => Tied(cmp, e, y))
            == Filter(SearchFilter(drugs, term), e => Tied(cmp, e, y))
  {
    var cmp := (a: Drug, b: Drug) => CompareDrugs(cfg, locale, a, b);
    CompareDrugsIsComparator(cfg, locale);
    SortByStable(SearchFilter(drugs, term), cmp, y);
  }

  // ---------------------------------------------------------------------
  // Manual entry.
  // ---------------------------------------------------------------------

  /** The drug a new-drug form creates: `''` for a missing text field,
      `Number(x) || 0` for each price, added by `'Manual'`. */
  function NewManualDrug(form: DrugPatch, id: string, now: int): (d: Drug)
    ensures d.id == id && d.createdAt == now && d.addedBy == "Manual"
    ensures form.publicPrice.None? ==> d.publicPrice == 0.0
    ensures form.tradeName.None? ==> d.tradeName == ""
    ensures forall x :: form.publicPrice == Some(x) ==> d.publicPrice == x
    ensures forall t :: form.tradeName == Some(t) ==> d.tradeName == t
    ensures form.agentName.None? ==> d.agentName == ""
    ensures forall t :: form.agentName == Some(t) ==> d.agentName == t
    ensures form.manufacturer.None? ==> d.manufacturer == ""
    ensures forall t :: form.manufacturer == Some(t) ==> d.manufacturer == t
    ensures form.agentPrice.None? ==> d.agentPrice == 0.0
    ensures forall x :: form.agentPrice == Some(x) ==> d.agentPrice == x
    ensures form.priceBeforeDiscount.None? ==> d.priceBeforeDiscount == 0.0
    ensures forall x :: form.priceBeforeDiscount == Some(x) ==> d.priceBeforeDiscount == x
    ensures form.discountPercent.None? ==> d.discountPercent == 0.0
    ensures forall x :: form.discountPercent == Some(x) ==> d.discountPercent == x
  {
    Drug(id,
         form.agentName.GetOr(""),
         form.manufacturer.GetOr(""),
         form.tradeName.GetOr(""),
         form.publicPrice.GetOr(0.0),
         form.agentPrice.GetOr(0.0),
         form.priceBeforeDiscount.GetOr(0.0),
         form.discountPercent.GetOr(0.0),
         "Manual",
         now)
  }

  /** A form filled from an existing drug creates the same drug under a new
      id, with a new time and `'Manual'` as its origin. */
  lemma ManualCopy(d: Drug, id: string, now: int)
    ensures NewManualDrug(PatchOf(d), id, now) == d.(id := id, addedBy := "Manual", createdAt := now)
  {
  }

  /** `handleSubmit`: an edit merges the form into the drug being edited;
      a new entry appends the drug the form describes. */
  method HandleSubmit(store: LocalStore, editing: Option<Drug>, form: DrugPatch, newId: string, now: int)
    requires store.Valid()
    modifies store
    ensures store.Valid()
    ensures editing.Some? && UpdateDrugIn(old(store.drugs), editing.value.id, form).Some? ==>
              store.drugs == UpdateDrugIn(old(store.drugs), editing.value.id, form).value
    ensures editing.Some? && UpdateDrugIn(old(store.drugs), editing.value.id, form).None? ==>
              store.drugs == old(store.drugs)
    ensures editing.None? ==> store.drugs == old(store.drugs) + [NewManualDrug(form, newId, now)]
    ensures editing.None? ==> store.drugsStored
    ensures editing.Some? && UpdateDrugIn(old(store.drugs), editing.value.id, form).Some? ==> store.drugsStored
    ensures editing.Some? && UpdateDrugIn(old(store.drugs), editing.value.id, form).None? ==>
              store.drugsStored == old(store.drugsStored)
    ensures store.users == old(store.users) && store.notifications == old(store.notifications)
    ensures store.usersStored == old(store.usersStored) && store.notificationsStored == old(store.notificationsStored)
    ensures store.deviceCredential == old(store.deviceCredential)
  {
    if editing.Some? {
      store.UpdateDrug(editing.value.id, form);
    } else {
      store.AddDrug(NewManualDrug(form, newId, now));
    }
  }

  /** `handleDelete`: the drug's records go once the user confirms. */
  method HandleDelete(store: LocalStore, id: string, confirmed: bool)
    requires store.Valid()
    modifies store
    ensures store.Valid()
    ensures confirmed ==> store.drugs == RemoveDrug(old(store.drugs), id)
    ensures !confirmed ==> store.drugs == old(store.drugs)
    ensures confirmed ==> store.drugsStored
    ensures !confirmed ==> store.drugsStored == old(store.drugsStored)
    ensures store.users == old(store.users) && store.notifications == old(store.notifications)
    ensures store.usersStored == old(store.usersStored) && store.notificationsStored == old(store.notificationsStored)
    ensures store.deviceCredential == old(store.deviceCredential)
  {
    if confirmed {
      store.DeleteDrug(id);
    }
  }

  // ---------------------------------------------------------------------
  // Export rows.
  // ---------------------------------------------------------------------

  /** One drug as an export row, under the Arabic column titles; the date is
      the locale's rendering of `createdAt`. */
  function ExportRow(d: Drug, formatDate: int -> string): (row: Fields)
    ensures Keys(row) == ["الإسم التجاري", "الوكيل", "المصنع", "سعر الجمهور", "سعر الصيدلي",
                          "قبل الخصم", "نسبة الخصم %", "تاريخ الإضافة"]
  {
    [("الإسم التجاري", Str(d.tradeName)),
     ("الوكيل", Str(d.agentName)),
     ("المصنع", Str(d.manufacturer)),
     ("سعر الجمهور", Num(d.publicPrice)),
     ("سعر الصيدلي", Num(d.agentPrice)),
     ("قبل الخصم", Num(d.priceBeforeDiscount)),
     ("نسبة الخصم %", Num(d.discountPercent)),
     ("تاريخ الإضافة", Str(formatDate(d.createdAt)))]
  }

  /** `prepareExportData`: one row per displayed drug, in display order. */
  function PrepareExportData(shown: seq<Drug>, formatDate: int -> string): (rows: seq<Fields>)
    ensures |rows| == |shown|
    ensures forall i :: 0 <= i < |shown| ==> rows[i] == ExportRow(shown[i], formatDate)
  {
    seq(|shown|, i requires 0 <= i < |shown| => ExportRow(shown[i], formatDate))
  }

  /** In an export row each title occurs once. */
  lemma ExportTitlesDistinct(d: Drug, formatDate: int -> string)
    ensures var row := ExportRow(d, formatDate);
            forall j, k :: 0 <= j < |row| && 0 <= k < |row| && j != k ==> row[j].0 != row[k].0
  {
  }

  /** The alias lists of the importer name an export title only after the
      aliases the export row does not carry. */
  lemma ExportTitlesSkipped(d: Drug, formatDate: int -> string)
    ensures var titles := Keys(ExportRow(d, formatDate));
            (forall j :: 0 <= j < 8 ==> TradeNameHeaders[j] !in titles)
            && (forall j :: 0 <= j < 4 ==> AgentNameHeaders[j] !in titles)
            && (forall j :: 0 <= j < 4 ==> ManufacturerHeaders[j] !in titles)
            && (forall j :: 0 <= j < 3 ==> PublicPriceHeaders[j] !in titles)
            && (forall j :: 0 <= j < 4 ==> AgentPriceHeaders[j] !in titles)
            && (forall j :: 0 <= j < 5 ==> PriceBeforeDiscountHeaders[j] !in titles)
            && (forall j :: 0 <= j < 6 ==> DiscountHeaders[j] !in titles)
  {
  }

  /** The title lists of the importer reach the export titles at these places. */
  lemma ExportTitlesFound(d: Drug, formatDate: int -> string)
    ensures var row := ExportRow(d, formatDate);
            TradeNameHeaders[8] == row[0].0 && AgentNameHeaders[4] == row[1].0
            && ManufacturerHeaders[4] == row[2].0 && PublicPriceHeaders[3] == row[3].0
            && AgentPriceHeaders[4] == row[4].0 && PriceBeforeDiscountHeaders[5] == row[5].0
            && DiscountHeaders[6] == row[6].0
  {
  }

  /** When the first candidate an export row carries is the title of cell
      `k`, the column is that cell's value. */
  lemma ExportColumn(d: Drug, formatDate: int -> string, headers: seq<string>, i: nat, k: nat)
    requires i < |headers| && k < 7
    requires forall j :: 0 <= j < i ==> headers[j] !in Keys(ExportRow(d, formatDate))
    requires headers[i] == ExportRow(d, formatDate)[k].0
    ensures Column(ExportRow(d, formatDate), headers) == ExportRow(d, formatDate)[k].1
  {
    var row := ExportRow(d, formatDate);
    forall j | 0 <= j < i ensures !ExactHit(row, headers[j]) {
      assert forall k :: 0 <= k < |row| ==> row[k].0 != headers[j] by {
        forall k | 0 <= k < |row| ensures row[k].0 != headers[j] {
          assert Keys(row)[k] == row[k].0;
        }
      }
    }
    ExportTitlesDistinct(d, formatDate);
    GetFirstKey(row, k);
    ExactFirst(row, headers, i, Normalize.NormalizeText);
  }

  /** Each column of the importer finds its export cell. */
  lemma ExportColumns(d: Drug, formatDate: int -> string)
    ensures var row := ExportRow(d, formatDate);
            Column(row, TradeNameHeaders) == Str(d.tradeName)
            && Column(row, AgentNameHeaders) == Str(d.agentName)
            && Column(row, ManufacturerHeaders) == Str(d.manufacturer)
            && Column(row, PublicPriceHeaders) == Num(d.publicPrice)
            && Column(row, AgentPriceHeaders) == Num(d.agentPrice)
            && Column(row, PriceBeforeDiscountHeaders) == Num(d.priceBeforeDiscount)
            && Column(row, DiscountHeaders) == Num(d.discountPercent)
  {
    ExportTitlesSkipped(d, formatDate);
    ExportTitlesFound(d, formatDate);
    ExportColumn(d, formatDate, TradeNameHeaders, 8, 0);
    ExportColumn(d, formatDate, AgentNameHeaders, 4, 1);
    ExportColumn(d, formatDate, ManufacturerHeaders, 4, 2);
    ExportColumn(d, formatDate, PublicPriceHeaders, 3, 3);
    ExportColumn(d, formatDate, AgentPriceHeaders, 4, 4);
    ExportColumn(d, formatDate, PriceBeforeDiscountHeaders, 5, 5);
    ExportColumn(d, formatDate, DiscountHeaders, 6, 6);
  }

  /** The row mapping of the importer reads an export row back: text fields
      trimmed, prices exact, the pre-discount price falling back to the public
      price when it is 0; a drug without a name gives no row. */
  lemma ExportRowImports(d: Drug, formatDate: int -> string)
    ensures MapExcelRow(ExportRow(d, formatDate))
            == if d.tradeName == "" then None
               else Some(Preview(Str(Trim(d.tradeName)), Str(Trim(d.agentName)), Str(Trim(d.manufacturer)),
                                 d.publicPrice, d.agentPrice,
                                 if d.priceBeforeDiscount != 0.0 then d.priceBeforeDiscount else d.publicPrice,
                                 d.discountPercent))
  {
    ExportColumns(d, formatDate);
    PreviewOfStringsAndNumbers(d);
  }

  /** A string cell becomes that string trimmed. */
  lemma TrimmedString(s: string)
    ensures TrimmedText(Str(s)) == Str(Trim(s))
  {
    assert Or(Str(s), Str("")) == Str(s);
    assert ToStr(Str(s)) == s;
  }

  /** Strings and numbers come through the preview mapping as the strings
      trimmed and the numbers unchanged. */
  lemma PreviewOfStringsAndNumbers(d: Drug)
    ensures PreviewOf(Str(d.tradeName), Str(d.agentName), Str(d.manufacturer), Num(d.publicPrice),
                      Num(d.agentPrice), Num(d.priceBeforeDiscount), Num(d.discountPercent))
            == if d.tradeName == "" then None
               else Some(Preview(Str(Trim(d.tradeName)), Str(Trim(d.agentName)), Str(Trim(d.manufacturer)),
                                 d.publicPrice, d.agentPrice,
                                 if d.priceBeforeDiscount != 0.0 then d.priceBeforeDiscount else d.publicPrice,
                                 d.discountPercent))
  {
    var r := PreviewOf(Str(d.tradeName), Str(d.agentName), Str(d.manufacturer), Num(d.publicPrice),
                       Num(d.agentPrice), Num(d.priceBeforeDiscount), Num(d.discountPercent));
    if d.tradeName != "" {
      assert Truthy(Str(d.tradeName));
      assert ToStr(Str(d.tradeName)) == d.tradeName;
      TrimmedString(d.agentName);
      TrimmedString(d.manufacturer);
      var p := r.value;
      assert p.tradeName == Str(Trim(d.tradeName));
      assert p.agentName == Str(Trim(d.agentName)) && p.manufacturer == Str(Trim(d.manufacturer));
      assert p.publicPrice == d.publicPrice && p.agentPrice == d.agentPrice;
      assert p.discountPercent == d.discountPercent;
      assert p.priceBeforeDiscount == if d.priceBeforeDiscount != 0.0 then d.priceBeforeDiscount else d.publicPrice;
    }
  }
}
