# PharmaEye inventory core in Dafny

PharmaEye is a browser application for a pharmacy's drug inventory. It keeps
users, drugs and notifications in the browser's `localStorage`. Drugs are
entered by hand, imported in bulk from a spreadsheet or a JSON file, or read
from a photographed price list by a vision service. A user can log in with a
device credential whose id is stored as unpadded URL-safe base 64.

This project models the logic at the centre of that application and proves
properties about it:

- `store.dfy`: the storage gateway (`services/db.ts`). It is a class whose
  fields are the stored arrays. Its methods are proved against functions over
  sequences.
- `import_data.dfy`, `normalize.dfy` and `resolver.dfy`: the bulk importer
  (`pages/ImportData.tsx`). This covers the number cleaner, header
  normalisation, the three-stage column resolver (kept as its three loops),
  the row mapping, both file branches with their error messages, and saving
  the preview.
- `inventory.dfy`: the inventory view (`pages/Inventory.tsx`). This covers the
  sort toggle, the search filter, the column sort, manual entry, deletion and
  the export rows. It also proves that the importer reads an export row back.
- `ocr.dfy`: the vision import page (`pages/OcrUpload.tsx`). This covers the
  payload split, tagging rows with temporary ids, row removal and saving.
- `base64.dfy` and `biometric.dfy`: base 64 following RFC 4648 (section 3.2
  on padding, section 4 for the standard alphabet, section 5 for the URL- and
  filename-safe alphabet), the browser's `btoa`/`atob`, and the byte helpers of
  `services/biometricService.ts`. The two byte loops are kept as array loops.
- `js_text.dfy`, `js_value.dfy`, `seqs.dfy`, `sorting.dfy`, `types.dfy` and
  `wrappers.dfy`: the JavaScript values and built-ins the code relies on, and
  the records of `types.ts`.
  - `Array.prototype.sort` is modelled as a stable insertion sort. ECMAScript
    has required a stable sort since 2019.
  - Strings are sequences of Unicode scalar values.
  - Numbers are exact reals.

Inputs the code receives from outside become parameters:

- the parsed JSON document and the workbook's sheets;
- the vision service's reply and `navigator.onLine`;
- the id generators and the clock;
- the locale collation `localeCompare(…, ['ar','en'])`;
- the date formatter `toLocaleDateString('ar-EG')`;
- the answer to `window.confirm`.

## Model

| member | source | states |
|---|---|---|
| Store.WelcomeNote | services/db.ts:27-33 | the seeded note is unread and dated with the clock reading given |
| Store.AddUserTo | services/db.ts:47-54 | refused with the "already exists" error exactly when some account shares the username or the email; otherwise the list with the user appended and nothing else changed |
| Store.AddUserKeepsUnique | services/db.ts:47-54 | a successful add keeps every username and email unique |
| Store.MergeUser | services/db.ts:73-77 | the merged account takes the patch's id, and its username, email, role, full name, credential, avatar and phone wherever the patch supplies them, the account's own otherwise; an empty or absent password keeps the stored one |
| Store.UpdateUserIn | services/db.ts:56-86 | nothing for an unknown id; a clash only when another account holds a supplied username or email; otherwise the first account with the id is replaced by the merge, and the merge is returned without its password |
| Store.MergeKeepsUnique | services/db.ts:62-79 | merging a non-clashing patch with non-empty login strings into its own account keeps logins unique when ids are unique |
| Store.UpdateUserKeepsUnique | services/db.ts:56-86 | a successful update whose supplied username and email are non-empty keeps logins unique |
| Store.DeleteUserFrom | services/db.ts:88-97 | refused exactly when the first account with the id is named `root` |
| Store.DeleteUserRemovesExactly | services/db.ts:95-96 | a successful delete removes every account with the id and keeps every other account as often as before |
| Store.DeleteUserKeepsOrder | services/db.ts:88-97 | with unique ids, deleting the id of an account not named `root` gives the list without that one account, the others in their order |
| Store.DeleteAbsentUser | services/db.ts:95-96 | deleting an id no account has leaves the list unchanged |
| Store.LastAdminDeletable | services/db.ts:90-95 | despite the comment, the only administrator is deleted when it is not named `root` |
| Store.Authenticate | services/db.ts:99-107 | `null` exactly when no account accepts the identifier (username or email) and the password; otherwise the first account that does, without its password |
| Store.RootLogsIn | services/db.ts:15-24 | the seeded account logs in with its demo password by username and by email |
| Store.RegisterCredential | services/db.ts:110-119 | nothing when no account has the id; otherwise exactly the first such account gets the credential id |
| Store.AuthenticateWithDeviceToken | services/db.ts:121-130 | `null` for an empty credential; otherwise `null` exactly when no account holds it, and the first holder, without its password, when one does |
| Store.RegisteredCredentialLogsIn | services/db.ts:110-130 | a credential that no account held, once registered for an account, logs that account in |
| Store.UpdateDrugIn | services/db.ts:146-153 | no change exactly when no drug has the id; otherwise only the first drug with the id is replaced by the merge |
| Store.RemoveDrug | services/db.ts:155-159 | no drug with the id remains |
| Store.RemoveDrugKeepsOthers | services/db.ts:155-159 | every drug with another id stays, as often as before |
| Store.RemoveAbsentDrug | services/db.ts:155-159 | deleting an id that no drug has changes nothing |
| Store.SortedNotes | services/db.ts:162-165 | the notes are a permutation of the stored ones |
| Store.SortedNotesNewestFirst | services/db.ts:162-165 | the read-back notes are ordered newest first |
| Store.MarkRead | services/db.ts:169 | same length, and each note is marked read with its other fields kept |
| Store.MarkAllReadKeepsNotes | services/db.ts:167-171 | after marking, no note is lost, all are read, and they are ordered newest first |
| Store.LocalStore.Empty | services/db.ts:45 | a browser without the keys reads every array as empty |
| Store.LocalStore.SeedData | services/db.ts:13-39 | root account and welcome note only when the users key is absent, an empty drug list only when the drugs key is, and nothing else changes |
| Store.LocalStore.AddUser | services/db.ts:47-54 | throws and stores nothing when `AddUserTo` refuses; otherwise stores its result; the other keys are unchanged |
| Store.LocalStore.UpdateUser | services/db.ts:56-86 | returns `null`, throws "already in use", or stores the update and returns the account without its password, following `UpdateUserIn`; the other keys are unchanged |
| Store.LocalStore.DeleteUser | services/db.ts:88-97 | throws for the root account; otherwise stores the filtered list even when nothing matched |
| Store.LocalStore.RegisterDeviceForBiometrics | services/db.ts:110-119 | stores the credential and sets the device marker only when the account exists |
| Store.LocalStore.AddDrug | services/db.ts:135-139 | the drug is appended to the stored list |
| Store.LocalStore.AddDrugsBatch | services/db.ts:141-144 | the batch is appended in order |
| Store.LocalStore.UpdateDrug | services/db.ts:146-153 | writes the update only when a drug has the id |
| Store.LocalStore.DeleteDrug | services/db.ts:155-159 | the stored list becomes `RemoveDrug` of the old one |
| Store.LocalStore.MarkAllNotificationsRead | services/db.ts:167-171 | stores the notes sorted newest first, each marked read |
| Store.LocalStore.AddNotification | services/db.ts:173-176 | stores the new note in front of the sorted old ones |
| Store.SeededStoreAcceptsRoot | services/db.ts:13-24 | a fresh seeded store authenticates `root` / `root1` |
| Types.MergeDrug | services/db.ts:150 | each of the ten fields is the patch's value where the patch supplies one and the drug's own otherwise; the empty patch leaves the drug unchanged |
| Types.PatchOf | pages/Inventory.tsx:87-91 | the edit form filled from a drug turns any drug into that drug when merged |
| Types.WithoutPassword | services/db.ts:82-83 | the password is removed and every other field is kept |
| Seqs.FindFirst | services/db.ts:58 | `findIndex`: the first position satisfying the test, and `None` exactly when there is none |
| Seqs.Filter | services/db.ts:157 | `filter`: every kept element passes |
| Seqs.FilterCount | services/db.ts:157 | `filter` keeps every occurrence of a passing element and none of a failing one |
| Seqs.MapResult | pages/ImportData.tsx:158-166 | a `map` whose callback may throw: the first failure is its error; otherwise one result per element |
| Seqs.ChooseMember | pages/ImportData.tsx:182-184 | map-then-filter keeps exactly the values that some element maps to |
| Sorting.SortBy | pages/Inventory.tsx:62-75 | the result has the same elements as the input, each as often, and the same length |
| Sorting.SortBySorted | pages/Inventory.tsx:63-75 | with a consistent comparator the result is ordered by it |
| Sorting.SortByStable | pages/Inventory.tsx:63-75 | elements the comparator ties keep their relative order |
| JsText.Trim | pages/ImportData.tsx:115-117 | the result is the slice of the string after its leading whitespace, everything dropped before and after it is whitespace, and it has no whitespace at either end |
| JsText.Includes | pages/Inventory.tsx:57-59 | true exactly when the term occurs at some position |
| JsText.Split | pages/OcrUpload.tsx:39 | at least one part, no part holds the separator, and joining the parts with it gives the input back |
| JsText.SplitMany | pages/OcrUpload.tsx:39 | a string splits into several parts exactly when it holds the separator |
| JsText.NatToStringRoundTrip | pages/ImportData.tsx:222 | the rendered count reads back as the count |
| JsValue.Get | pages/ImportData.tsx:41 | `undefined` when no property has the key; otherwise a value the row holds under the key |
| JsValue.Keys | pages/ImportData.tsx:37 | `Object.keys`: the keys in property order |
| JsValue.NumberOr0 | pages/OcrUpload.tsx:62-65 | a number passes unchanged and anything that does not convert becomes 0 |
| JsValue.SetProp | pages/OcrUpload.tsx:43-46 | the new property reads back as set, every other property is unchanged, and existing keys keep their places |
| JsValue.Spread | pages/OcrUpload.tsx:44 | an object's spread is its own properties |
| Normalize.Fold | pages/ImportData.tsx:30-32 | each character is folded in place and no folded variant remains |
| Normalize.Strip | pages/ImportData.tsx:33 | only a-z, 0-9 and U+0621..U+064A remain |
| Normalize.StripIsFilter | pages/ImportData.tsx:33 | stripping is the filter on a-z, 0-9 and U+0621..U+064A: every such character survives, in order, and nothing else |
| Normalize.NormalizeText | pages/ImportData.tsx:27-34 | the output is a normal form, and the empty input gives "" |
| Normalize.NormalizeOfNormal | pages/ImportData.tsx:27-34 | a normal form normalises to itself |
| Normalize.NormalizeIdempotent | pages/ImportData.tsx:27-34 | normalising twice is normalising once |
| Normalize.StripFoldTrim | pages/ImportData.tsx:29-33 | trimming before the strip makes no difference |
| Normalize.NormalizeUntrimmed | pages/ImportData.tsx:27-34 | a non-empty header normalises to the kept characters of its folded lower-case form |
| Normalize.AlifVariantsMatch | pages/ImportData.tsx:30 | a hamza Alif and a bare Alif in the same place give the same canonical header |
| Resolver.ExactMatch | pages/ImportData.tsx:40-42 | the value of the first candidate that is present and not `null`, and `None` exactly when there is none |
| Resolver.NormIndex | pages/ImportData.tsx:46-49 | each normal form maps to a row key that has that normal form |
| Resolver.NormIndexDomain | pages/ImportData.tsx:46-49 | the dictionary holds exactly the normal forms of the row's keys |
| Resolver.NormIndexLast | pages/ImportData.tsx:46-49 | among keys with the same normal form, the last one wins |
| Resolver.FuzzyMatch | pages/ImportData.tsx:51-58 | the first candidate whose normal form leads to a non-empty key with a present, non-`null` value |
| Resolver.FoundKeyFirst | pages/ImportData.tsx:67 | the first key in row order whose normal form contains the target, and none exactly when no key's does |
| Resolver.ContainsMatch | pages/ImportData.tsx:62-69 | the first candidate of three or more normalised characters whose containing key is present; `null` is accepted here |
| Resolver.ResolveValue | pages/ImportData.tsx:36-72 | an exact hit decides; failing that a normalised hit; failing both a containment hit; `undefined` when none hits; the result is `undefined` or one of the row's own values, and `null` comes only from the third stage |
| Resolver.ExactStage | pages/ImportData.tsx:40-42 | the first loop computes `ExactMatch` |
| Resolver.BuildIndex | pages/ImportData.tsx:46-49 | the fold over the keys computes `NormIndex` |
| Resolver.FuzzyStage | pages/ImportData.tsx:51-58 | the second loop computes `FuzzyMatch` |
| Resolver.ContainsStage | pages/ImportData.tsx:62-69 | the third loop computes `ContainsMatch` |
| Resolver.GetValue | pages/ImportData.tsx:36-72 | the three loops with early returns compute `ResolveValue` under `normalizeText` |
| Resolver.ExactFirst | pages/ImportData.tsx:39-42 | the first exact hit decides, whatever the later stages would find |
| Resolver.SingleColumnFound | pages/ImportData.tsx:44-69 | a header spelt differently, with the same normal form or one containing the candidate's, is still found |
| ImportData.KeepNumeric | pages/ImportData.tsx:20 | only digits and dots remain |
| ImportData.KeepNumericIsFilter | pages/ImportData.tsx:20 | the cleaner is the filter on digits and dots: every one survives, in order, and nothing else |
| ImportData.ParseFloatOfNumeric | pages/ImportData.tsx:20-21 | whatever `parseFloat` reads from cleaned text is not negative |
| ImportData.CleanNumber | pages/ImportData.tsx:16-22 | 0 for a falsy value, a number unchanged; anything else is what `parseFloat` reads from its digits and dots, 0 when it reads nothing, and never negative |
| ImportData.CleanNumberOfPrice | pages/ImportData.tsx:16-22 | the price text `"15.5 ريال"` cleans to 15.5 |
| ImportData.KeepNumericOfPrice | pages/ImportData.tsx:20 | the cleaner keeps `15.5` of `"15.5 ريال"` |
| ImportData.ParseFloatOfPrice | pages/ImportData.tsx:21 | `parseFloat("15.5")` is 15.5 |
| ImportData.TrimmedText | pages/ImportData.tsx:84-92 | `String(v).trim()` of a truthy value, so a number cell gives its decimal text trimmed; "" for a falsy value |
| ImportData.PreviewOf | pages/ImportData.tsx:79-122 | no row exactly when the trade name is falsy; the text trimmed; prices cleaned; the pre-discount price falls back to the public price |
| ImportData.MapExcelRow | pages/ImportData.tsx:74-123 | over the columns the resolver finds: no row exactly when the trade-name column is falsy; the name, agent and manufacturer trimmed; the three prices and the discount cleaned; the pre-discount price cleaned, falling back to the public price when that is 0 |
| ImportData.KeptRow | pages/ImportData.tsx:182-184 | a kept row has a non-empty string name and is the row's mapping |
| ImportData.SheetPreviewsFromRows | pages/ImportData.tsx:182-184 | a preview row is exactly the mapping of some sheet row with a non-empty name |
| ImportData.SheetPreviewsNamed | pages/ImportData.tsx:184 | every preview row has a non-empty, trimmed trade name |
| ImportData.Message | pages/ImportData.tsx:193-195 | every failure has a non-empty message, so the generic fallback is never shown |
| ImportData.SheetImport | pages/ImportData.tsx:170-191 | no sheets, an empty sheet and "no valid rows" (listing the first row's columns) are the three errors; a sheet with rows fails with "no valid rows" exactly when it has no preview, and otherwise gives its previews |
| ImportData.ObjectValues | pages/ImportData.tsx:150 | one value per own property, the i-th property's value at position i |
| ImportData.PickEntries | pages/ImportData.tsx:143-156 | a nullish document throws reading `drugs`; a `drugs` array wins, then the document itself when it is an array, then the first array-valued property; "unsupported" exactly when there is none; no other error occurs |
| ImportData.JsonPreview | pages/ImportData.tsx:158-165 | the trade name is the first truthy of its four spellings, the agent and the manufacturer the first truthy of their two, and each price and the discount the cleaned first truthy of their two |
| ImportData.JsonPreviewOfDrug | pages/ImportData.tsx:158-165 | an entry carrying a drug's own properties and no alternative spelling maps to that drug's four prices exactly and to its names, an empty name reading as absent |
| ImportData.OwnPrice | pages/ImportData.tsx:162-165 | a stored price reads back through `cleanNumber(x \|\| undefined)`, 0 included |
| ImportData.JsonEntry | pages/ImportData.tsx:158-159 | fails exactly on a `null` or `undefined` entry |
| ImportData.JsonPreviews | pages/ImportData.tsx:158-166 | fails exactly when some entry is nullish, with the first one's error; otherwise one preview per entry, in order |
| ImportData.JsonImport | pages/ImportData.tsx:134-168 | invalid JSON exactly when the parse failed; otherwise the error of picking the entries, else that of mapping them, else the mapped previews filtered on a truthy trade name |
| ImportData.JsonImportKeepsNamed | pages/ImportData.tsx:166 | every preview with a truthy trade name is kept as often as the document maps to it, and no other |
| ImportData.JsonImportInOrder | pages/ImportData.tsx:166 | the kept previews of the earlier entries come before those of the later ones |
| ImportData.ReadFile | pages/ImportData.tsx:134 | a name ending in `.json` takes the JSON branch; anything else takes the workbook branch |
| ImportData.PreviewToDrug | pages/ImportData.tsx:207-218 | the defaults for missing names, the pre-discount fallback to the public price, origin `Import` |
| ImportData.ImportToDrugs | pages/ImportData.tsx:207-218 | one drug per preview row, in order |
| ImportData.ImportPage.constructor | pages/ImportData.tsx:10-12 | an empty preview and no banners |
| ImportData.ImportPage.HandleFile | pages/ImportData.tsx:125-200 | nothing without a file; otherwise the banners are cleared and the preview is the file's rows, or empty with the failure's message |
| ImportData.ImportPage.SaveToInventory | pages/ImportData.tsx:202-228 | nothing for an empty preview; otherwise the drugs are appended, the preview is cleared and the count is reported |
| Inventory.HandleSort | pages/Inventory.tsx:45-51 | the chosen column, descending exactly when it was sorted ascending |
| Inventory.HandleSortToggles | pages/Inventory.tsx:45-51 | a second click flips the direction, and a third click restores the first click's order |
| Inventory.SearchFilter | pages/Inventory.tsx:55-60 | an empty term keeps everything; otherwise every kept drug matches |
| Inventory.SearchFilterExact | pages/Inventory.tsx:55-60 | a non-empty term keeps each matching drug as often as it is stored, and no other drug |
| Inventory.CompareDrugs | pages/Inventory.tsx:63-75 | numbers compare as 0 exactly when equal, negative exactly when in order for the direction; ascending text is the collation of the two names, descending text swaps its arguments |
| Inventory.CompareDrugsIsComparator | pages/Inventory.tsx:63-75 | with a consistent collation, the column comparator is consistent |
| Inventory.SortedDrugs | pages/Inventory.tsx:53-78 | a permutation of the searched drugs, in stored order when no column is chosen |
| Inventory.NumberSortOrdered | pages/Inventory.tsx:72-74 | a number column is non-decreasing when ascending and non-increasing when descending |
| Inventory.TextSortOrdered | pages/Inventory.tsx:67-71 | a text column follows the collation, reversed when descending |
| Inventory.SortedDrugsStable | pages/Inventory.tsx:63-75 | drugs the comparator ties keep their stored order |
| Inventory.NewManualDrug | pages/Inventory.tsx:104-115 | fresh id, time and origin `Manual`; a missing name or price gives "" or 0; supplied values are kept |
| Inventory.ManualCopy | pages/Inventory.tsx:104-115 | a form filled from a drug creates that drug under the new id, time and origin |
| Inventory.HandleSubmit | pages/Inventory.tsx:99-120 | an edit stores the merge into the edited drug and writes the drugs key only when the drug exists; a new entry appends `NewManualDrug` and writes the key; users, notifications, their keys and the device marker are unchanged |
| Inventory.HandleDelete | pages/Inventory.tsx:80-85 | after confirmation the drug's records are removed and the drugs key is written; otherwise the drugs and their key are unchanged; users, notifications, their keys and the device marker are always unchanged |
| Inventory.ExportRow | pages/Inventory.tsx:125-134 | the row's keys are the eight Arabic titles, in order |
| Inventory.PrepareExportData | pages/Inventory.tsx:124-135 | one row per displayed drug, in display order |
| Inventory.ExportColumns | pages/Inventory.tsx:126-132 | each column of the importer finds its cell in an export row |
| Inventory.ExportRowImports | pages/Inventory.tsx:124-135 | the importer reads an export row back as the drug's trimmed text and exact prices, or drops it when the name is empty |
| Ocr.DataUrlPayload | pages/OcrUpload.tsx:39 | `undefined` exactly when the data URL has no comma, and the payload never holds one |
| Ocr.DataUrlPayloadOf | pages/OcrUpload.tsx:38-39 | `header,payload` gives the payload |
| Ocr.TagItems | pages/OcrUpload.tsx:43-46 | one row per item, each carrying its own temporary id |
| Ocr.TagItemsKeep | pages/OcrUpload.tsx:43-46 | tagging keeps every other property of the item |
| Ocr.RemoveRow | pages/OcrUpload.tsx:76-78 | no remaining row carries the id |
| Ocr.RemoveRowKeepsOthers | pages/OcrUpload.tsx:76-78 | every row without the id stays as often as before; a row with it does not stay |
| Ocr.RemoveRowAppend | pages/OcrUpload.tsx:76-78 | removal works piecewise over a split table, so the remaining rows keep their order |
| Ocr.RemoveAbsentRow | pages/OcrUpload.tsx:76-78 | removing an id no row carries leaves the table unchanged |
| Ocr.RemoveTaggedRow | pages/OcrUpload.tsx:76-78 | with distinct ids, removing row k's id removes row k and keeps the others in order |
| Ocr.OcrToDrug | pages/OcrUpload.tsx:57-68 | a truthy name is kept as its string, a falsy one gets its default; every price is `Number(x) \|\| 0`; origin `OCR System` |
| Ocr.TagIgnoredOnSave | pages/OcrUpload.tsx:43-68 | the temporary id plays no part in the saved drug |
| Ocr.OcrToDrugs | pages/OcrUpload.tsx:57-68 | one drug per row, in order |
| Ocr.OcrPage.constructor | pages/OcrUpload.tsx:9-12 | no image, no rows, no error |
| Ocr.OcrPage.LoadImage | pages/OcrUpload.tsx:19-23 | a new image clears the table and the banner |
| Ocr.OcrPage.ProcessImage | pages/OcrUpload.tsx:28-54 | nothing without an image; the offline banner when offline; a failed reply keeps the table and shows the failure; a reply fills the table with the tagged items |
| Ocr.OcrPage.RemoveRowWithId | pages/OcrUpload.tsx:76-78 | the table becomes `RemoveRow` of the old table |
| Ocr.OcrPage.SaveToInventory | pages/OcrUpload.tsx:56-74 | every row is appended as a drug, then the table and the image are cleared |
| Base64.AlphabetChar | services/biometricService.ts:16 | alphabet characters are printable and never the padding character |
| Base64.StdValue | services/biometricService.ts:22 | each standard character stands for the value whose character it is |
| Base64.QuantumRoundTrip | services/biometricService.ts:16-22 | decoding one quantum's 6-bit groups gives its bytes back |
| Base64.EncodeSextets | services/biometricService.ts:16 | four groups per three bytes, and a final partial quantum of one more group than its bytes |
| Base64.DecodeSextets | services/biometricService.ts:22 | three bytes per four groups, and one fewer than the groups of a final partial quantum |
| Base64.DecodeEncodeSextets | services/biometricService.ts:16-22 | decoding the groups of a byte string gives it back |
| Base64.Padding | services/biometricService.ts:16 | at most two padding characters |
| Base64.Encode | services/biometricService.ts:16 | padded output of four characters per started quantum |
| Base64.EncodeUrl | services/biometricService.ts:16 | the URL-safe form has no `+`, `/` or `=` |
| Base64.BytesToBinary | services/biometricService.ts:13-15 | a binary string whose char codes are the bytes |
| Base64.BinaryToBytes | services/biometricService.ts:24-26 | the char codes of a binary string |
| Base64.BinaryRoundTrip | services/biometricService.ts:13-26 | bytes to binary string and back is the identity |
| Base64.Btoa | services/biometricService.ts:16 | defined exactly on binary strings, where it is the padded encoding of their bytes |
| Base64.StripPadding | services/biometricService.ts:22 | the result is a prefix of the input |
| Base64.StripPaddingOf | services/biometricService.ts:22 | exactly the padding is removed from a padded text |
| Base64.Atob | services/biometricService.ts:22 | a successful decode is a binary string |
| Base64.AtobOfChars | services/biometricService.ts:22 | decoding characters of 6-bit values, padded or not, gives their bytes |
| Base64.AtobOfEncode | services/biometricService.ts:16-22 | `atob` undoes `btoa` |
| Biometric.FirstCodeUnit | services/biometricService.ts:6 | the character itself below U+10000, otherwise a high surrogate |
| Biometric.StrToBin | services/biometricService.ts:5-7 | one byte per character: its first code unit modulo 256 |
| Biometric.StrToBinOfBytes | services/biometricService.ts:5-7 | the challenge bytes of a binary string are its char codes |
| Biometric.ReplaceChar | services/biometricService.ts:16 | each occurrence of the character is replaced and nothing else changes |
| Biometric.TrimTrailing | services/biometricService.ts:16 | exactly the final run of the character is removed |
| Biometric.TrimTrailingAt | services/biometricService.ts:16 | trimming stops at the last character that is not the one trimmed |
| Biometric.UrlFormOfEncode | services/biometricService.ts:16 | replacing `+` and `/` and dropping the padding turns the encoding of section 4 of RFC 4648 into the unpadded encoding of section 5 of RFC 4648 |
| Biometric.BufferToBase64url | services/biometricService.ts:10-17 | the loop and the rewriting compute the unpadded URL-safe encoding of the buffer's bytes |
| Biometric.UrlPadding | services/biometricService.ts:20 | `(4 - n % 4) % 4` padding characters, capped at two |
| Biometric.DecodeUrl | services/biometricService.ts:19-28 | fails exactly where `atob` throws |
| Biometric.DecodeEncodeUrl | services/biometricService.ts:10-28 | a credential id stored by `bufferToBase64url` is read back by `base64urlToBuffer` as the same bytes |
| Biometric.Base64urlToBuffer | services/biometricService.ts:19-28 | the new array holds exactly the decoded bytes, and there is none where `atob` throws |

## Left out

- `exportData` (services/db.ts:179-191) downloads a file through the DOM. It is browser I/O and is not modelled.
- The Excel, PDF and JSON export writers are not modelled. Only the rows they are built from (`prepareExportData`) are.
- Storage reads follow `JSON.parse(getItem(key) || '[]')`. The model keeps the arrays themselves, so a corrupt stored value, which would make the read throw, is not modelled.
- A key holding the empty string also counts as absent in the code (`!getItem(key)`). The model has only "stored" or "absent".
- These outside inputs are parameters:
  - `JSON.parse`, `XLSX.read` and `sheet_to_json`, and the file reads: the parse result and the sheets' rows;
  - the vision service `extractDrugData`: `extract`;
  - `navigator.onLine`: `online`;
  - `uuidv4`, `generateId` and `Date.now`: `ids`, `newId`, `clock` and `now`;
  - `toLocaleDateString('ar-EG')`: `formatDate`;
  - `localeCompare`: `locale`, required to be a consistent comparator;
  - `window.confirm`: `confirmed`.
- The page state that affects no data is left out: loading flags, resetting the file input, alerts, modal visibility, and the `refreshData` re-reads. The store is the state the model reads.
- The WebAuthn calls of services/biometricService.ts are not modelled. Neither are the pages Users, Settings and Landing, the layout, the application shell and the Supabase client. Only the three byte helpers are.
- `Biometric.StrToBin`: iterates by code point, as `Uint8Array.from` does, so an astral character gives one byte, from its high surrogate, not two. Other string operations such as `length` and `split` count scalar values, not UTF-16 code units. They differ only on astral characters.
- `JsText.ToLowerCase` maps only A-Z, U+00C0..U+00DE other than U+00D7, U+0178, U+0130, U+212A and U+212B, the capitals whose lower case falls in Basic Latin or Latin-1. The rest of the Unicode case tables are left out. Header normalisation is not affected: no left-out capital lower-cases into a-z, 0-9 or U+0621..U+064A, so it is dropped either way. The case-insensitive trade-name search (pages/Inventory.tsx:57) is affected: it treats such a capital and its lower case as different.
- `JsValue.StringToNumber` and `JsValue.ParseFloat` read decimal literals only. Hexadecimal, octal, binary and `Infinity` forms are left out.
- Numbers are exact reals, so floating-point rounding, NaN ordering, -0 and infinities are left out. `String(number)` is a plain decimal rendering, not the engine's shortest round-trip form with exponents.
- Rows and JSON objects are lists of distinct keys in `Object.keys` order. Left out:
  - integer-like keys, which JavaScript lists first;
  - duplicate JSON keys, where `JSON.parse` keeps the last value;
  - inherited prototype properties such as `constructor` on the resolver's dictionary.
- The JSON import (pages/ImportData.tsx:159-161, 209-211) and the vision import (pages/OcrUpload.tsx:59-61) can store a truthy non-string name, a number say, where the type says string. The spreadsheet import cannot, because it stores `String(x).trim()` (pages/ImportData.tsx:115-117). The model stores `String(v)` instead. What is lost: in the source such a record makes the inventory search with a non-empty term throw, since `toLowerCase` and `includes` are not functions on a number (pages/Inventory.tsx:57-59), and makes the sort compare a number with a string through `<` and `>` (pages/Inventory.tsx:72-74). In the model both go ahead on the string.
- `Store.MergeUser`: a patch property that is present but `undefined` is treated as absent. In the code the spread writes `undefined`, and the storage round trip then drops the field.
- `Store.UpdateUserKeepsUnique`: requires the supplied username and email to be non-empty. The code skips the duplicate check for empty strings, so two accounts can both be given an empty username.
- `Store.DeleteUserFrom`: the comment at services/db.ts:90 says the last administrator is protected, but only the `root` account is. `Store.LastAdminDeletable` states what the code does.
- `Inventory.NewManualDrug`: the form's prices are numbers already, because the inputs convert with `Number`, so `Number(x) || 0` is the value itself. A NaN from an unparsable input is not modelled.
- `Base64.Atob`: follows the forgiving base 64 decode of the HTML standard. Its `ensures` states only that the result is a binary string. Its agreement with `btoa` is `Base64.AtobOfEncode`.
