/** The vision-based import page (pages/OcrUpload.tsx): the image it holds,
    the payload it sends to the recognition service, the rows the service
    returns tagged with temporary ids, row removal, and the drugs saved. */
module Ocr {
  import opened Wrappers
  import opened JsText
  import opened JsValue
  import opened Seqs
  import opened Types
  import opened Store

  /** `image.split(',')[1]`: the text between the first and the second comma
      of the data URL, `undefined` (`None`) when there is no comma. */
  function DataUrlPayload(image: string): (r: Option<string>)
    ensures r.None? <==> ',' !in image
    ensures r.Some? ==> ',' !in r.value
  {
    SplitMany(image, ',');
    var parts := Split(image, ',');
    if |parts| >= 2 then Some(parts[1]) else None
  }

  /** A data URL `header,payload` yields its payload when neither part holds a comma. */
  lemma DataUrlPayloadOf(header: string, payload: string)
    requires ',' !in header && ',' !in payload
    ensures DataUrlPayload(header + "," + payload) == Some(payload)
  {
    SplitAtFirst(header, payload, ',');
    SplitWithoutSep(payload, ',');
  }

  const TempIdKey: string := "tempId"

  /** `{...item, tempId: id}` for each returned item, with a fresh id each. */
  function TagItems(items: seq<Value>, ids: nat -> string): (rows: seq<Fields>)
    ensures |rows| == |items|
    ensures forall i :: 0 <= i < |items| ==> Get(rows[i], TempIdKey) == Str(ids(i))
  {
    seq(|items|, i requires 0 <= i < |items| => SetProp(Spread(items[i]), TempIdKey, Str(ids(i))))
  }

  /** Tagging keeps every other property of the item. */
  lemma TagItemsKeep(items: seq<Value>, ids: nat -> string, i: nat, k: string)
    requires i < |items| && k != TempIdKey
    ensures Get(TagItems(items, ids)[i], k) == Get(Spread(items[i]), k)
  {
  }

  predicate NotTagged(tempId: string, row: Fields) {
    Get(row, TempIdKey) != Str(tempId)
  }

  /** `removeRow`: every row carrying the id goes, the others stay in order. */
  function RemoveRow(rows: seq<Fields>, tempId: string): (r: seq<Fields>)
    ensures |r| <= |rows|
    ensures forall i :: 0 <= i < |r| ==> Get(r[i], TempIdKey) != Str(tempId)
  {
    Filter(rows, (row: Fields) => NotTagged(tempId, row))
  }

  /** Every row without the id stays as often as it occurred; a row with it
      does not stay at all. */
  lemma RemoveRowKeepsOthers(rows: seq<Fields>, tempId: string, row: Fields)
    ensures multiset(RemoveRow(rows, tempId))[row] ==
              if NotTagged(tempId, row) then multiset(rows)[row] else 0
  {
    FilterCount(rows, (row: Fields) => NotTagged(tempId, row), row);
  }

  /** Removal works piecewise, so the remaining rows keep their order. */
  lemma RemoveRowAppend(front: seq<Fields>, back: seq<Fields>, tempId: string)
    ensures RemoveRow(front + back, tempId) == RemoveRow(front, tempId) + RemoveRow(back, tempId)
  {
    FilterAppend(front, back, (row: Fields) => NotTagged(tempId, row));
  }

  /** Removing an id no row carries leaves the table as it was. */
  lemma RemoveAbsentRow(rows: seq<Fields>, tempId: string)
    requires forall i :: 0 <= i < |rows| ==> NotTagged(tempId, rows[i])
    ensures RemoveRow(rows, tempId) == rows
  {
    FilterKeepsAll(rows, (row: Fields) => NotTagged(tempId, row));
  }

  /** Ids the id source hands out for the first `n` items are distinct. */
  predicate DistinctIds(ids: nat -> string, n: nat) {
    forall i, j :: 0 <= i < n && 0 <= j < n && i != j ==> ids(i) != ids(j)
  }

  /** With distinct ids, removing the id of row `k` removes row `k` and no other. */
  lemma RemoveTaggedRow(items: seq<Value>, ids: nat -> string, k: nat)
    requires k < |items| && DistinctIds(ids, |items|)
    ensures var rows := TagItems(items, ids);
            RemoveRow(rows, ids(k)) == rows[..k] + rows[k + 1..]
  {
    var rows := TagItems(items, ids);
    FilterDropsOne(rows, (row: Fields) => NotTagged(ids(k), row), k);
  }

  /** The properties the saved drug is read from. */
  const OcrKeys: set<string> := {"agentName", "manufacturer", "tradeName", "publicPrice",
                                 "agentPrice", "priceBeforeDiscount", "discountPercent"}

  /** The drug saved for one row: a missing or falsy name gets its default,
      each price is `Number(x) || 0`, the origin is `'OCR System'`. */
  function OcrToDrug(row: Fields, id: string, now: int): (d: Drug)
    ensures d.id == id && d.createdAt == now && d.addedBy == "OCR System"
    ensures !Truthy(Get(row, "tradeName")) ==> d.tradeName == "منتج جديد"
    ensures !Truthy(Get(row, "agentName")) ==> d.agentName == "غير محدد"
    ensures !Truthy(Get(row, "manufacturer")) ==> d.manufacturer == "غير محدد"
    ensures forall s :: Get(row, "tradeName") == Str(s) && s != "" ==> d.tradeName == s
    ensures forall x :: Get(row, "publicPrice") == Num(x) ==> d.publicPrice == x
    ensures ToNumber(Get(row, "publicPrice")).None? ==> d.publicPrice == 0.0
    ensures Truthy(Get(row, "agentName")) ==> d.agentName == ToStr(Get(row, "agentName"))
    ensures Truthy(Get(row, "manufacturer")) ==> d.manufacturer == ToStr(Get(row, "manufacturer"))
    ensures d.agentPrice == NumberOr0(Get(row, "agentPrice"))
            && d.priceBeforeDiscount == NumberOr0(Get(row, "priceBeforeDiscount"))
            && d.discountPercent == NumberOr0(Get(row, "discountPercent"))
    ensures d.publicPrice == NumberOr0(Get(row, "publicPrice"))
    ensures Truthy(Get(row, "tradeName")) ==> d.tradeName == ToStr(Get(row, "tradeName"))
  {
    Drug(id,
         TextOr(Get(row, "agentName"), "غير محدد"),
         TextOr(Get(row, "manufacturer"), "غير محدد"),
         TextOr(Get(row, "tradeName"), "منتج جديد"),
         NumberOr0(Get(row, "publicPrice")),
         NumberOr0(Get(row, "agentPrice")),
         NumberOr0(Get(row, "priceBeforeDiscount")),
         NumberOr0(Get(row, "discountPercent")),
         "OCR System",
         now)
  }

  /** The saved drug reads only the properties in `OcrKeys`. */
  lemma SameKeysSameDrug(a: Fields, b: Fields, id: string, now: int)
    requires forall k :: k in OcrKeys ==> Get(a, k) == Get(b, k)
    ensures OcrToDrug(a, id, now) == OcrToDrug(b, id, now)
  {
  }

  /** The temporary id plays no part in the saved drug. */
  lemma TagIgnoredOnSave(item: Value, tempId: string, id: string, now: int)
    ensures OcrToDrug(SetProp(Spread(item), TempIdKey, Str(tempId)), id, now) == OcrToDrug(Spread(item), id, now)
  {
    var fs := Spread(item);
    var tagged := SetProp(fs, TempIdKey, Str(tempId));
    forall k | k in OcrKeys ensures Get(tagged, k) == Get(fs, k) {
      assert |k| != |TempIdKey|;
    }
    SameKeysSameDrug(tagged, fs, id, now);
  }

  function OcrToDrugs(rows: seq<Fields>, ids: nat -> string, clock: nat -> int): (r: seq<Drug>)
    ensures |r| == |rows|
    ensures forall i :: 0 <= i < |r| ==> r[i] == OcrToDrug(rows[i], ids(i), clock(i))
  {
    seq(|rows|, i requires 0 <= i < |rows| => OcrToDrug(rows[i], ids(i), clock(i)))
  }

  const OfflineMessage: string := "عذراً، هذه الميزة تتطلب اتصالاً بالإنترنت للوصول إلى محركات الذكاء الاصطناعي."
  const ExtractFailedMessage: string := "فشل في استخراج البيانات. الرجاء التأكد من وضوح الصورة والمحاولة مرة أخرى."

  /** The page's state: the data URL of the chosen image, the rows of the
      table and the error banner. */
  class OcrPage {
    var image: Option<string>
    var rows: seq<Fields>
    var error: Option<string>

    constructor ()
      ensures image.None? && rows == [] && error.None?
    {
      image, rows, error := None, [], None;
    }

    /** `handleFileChange`, once the file is read: a new image clears the table and the banner. */
    method LoadImage(dataUrl: string)
      modifies this
      ensures image == Some(dataUrl) && rows == [] && error.None?
    {
      image, rows, error := Some(dataUrl), [], None;
    }

    /** `processImage`: nothing without an image; offline, only the banner;
        otherwise the payload goes to the recognition service (`extract`,
        `None` when it fails) and the returned items, tagged, fill the table. */
    method ProcessImage(online: bool, extract: Option<string> -> Option<seq<Value>>, ids: nat -> string)
      modifies this
      ensures image == old(image)
      ensures old(image).None? || old(image) == Some("") ==> rows == old(rows) && error == old(error)
      ensures old(image).Some? && old(image) != Some("") && !online ==>
                rows == old(rows) && error == Some(OfflineMessage)
      ensures old(image).Some? && old(image) != Some("") && online ==>
                match extract(DataUrlPayload(old(image).value))
                case None => rows == old(rows) && error == Some(ExtractFailedMessage)
                case Some(items) => rows == TagItems(items, ids) && error.None?
    {
      if image.None? || image.value == "" {
        return;
      }
      if !online {
        error := Some(OfflineMessage);
        return;
      }
      error := None;
      match extract(DataUrlPayload(image.value))
      case None =>
        error := Some(ExtractFailedMessage);
      case Some(items) =>
        rows := TagItems(items, ids);
    }

    /** `removeRow`. */
    method RemoveRowWithId(tempId: string)
      modifies this
      ensures rows == RemoveRow(old(rows), tempId)
      ensures image == old(image) && error == old(error)
    {
      rows := RemoveRow(rows, tempId);
    }

    /** `saveToInventory`: every row is appended to the stored drugs, then the
        table and the image are cleared. */
    method SaveToInventory(store: LocalStore, ids: nat -> string, clock: nat -> int)
      requires store.Valid()
      modifies this, store
      ensures store.Valid() && store.drugsStored
      ensures store.drugs == old(store.drugs) + OcrToDrugs(old(rows), ids, clock)
      ensures rows == [] && image.None? && error == old(error)
      ensures store.users == old(store.users) && store.notifications == old(store.notifications)
      ensures store.usersStored == old(store.usersStored)
      ensures store.notificationsStored == old(store.notificationsStored)
      ensures store.deviceCredential == old(store.deviceCredential)
    {
      store.AddDrugsBatch(OcrToDrugs(rows, ids, clock));
      rows := [];
      image := None;
    }
  }
}
