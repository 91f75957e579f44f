# Clinic image slot store — a Dafny model

This project models the image service in `images.js`, which stores per-patient
"before"/"after" photos. The service keeps one flat directory of files. A
file's name encodes its slot: `<patientId>_<type>_<millis>.jpg`. There are
three handlers:

- **upload** (`POST /api/upload-image`): rejects a missing `patientId`,
  `type` or `imageData`. Otherwise it unlinks the *first* listed file whose
  name starts with `<patientId>_<type>`. It then strips an optional
  `data:image/<word>;base64,` header, decodes the payload and writes it
  under a fresh time-stamped name. It answers with the name and the public
  path `/clinic-images/<name>`.
- **get images** (`GET /api/get-images/:patientId`): returns the public path of
  the first file starting with `<patientId>_before` and of the first starting
  with `<patientId>_after`, or `null` for either.
- **delete** (`DELETE /api/delete-image/:fileName`): unlinks the file with
  exactly that name, or answers not found.

The directory is a value: a sequence of `Entry(name, bytes)` in listing
order. "The first file that ..." is the matching entry with the lowest
index. Each handler is a pure function from the directory (and its inputs)
to a reply and, for upload and delete, a new directory. Reading has no
directory result, so it cannot change anything. `Date.now()` is the
parameter `now: nat`. `Buffer.from(_, 'base64')` is the parameter
`decode: string -> Bytes`. Writing a name that already exists overwrites
that entry in place. A new name is appended to the listing. Entries that
neither handler touches keep their relative order.

Modules:

- `Decimal`: the digits of the timestamp.
- `DataUrl`: the header strip of line 51.
- `Directory`: the listing and the scan, unlink and write primitives.
- `DirectoryFacts`: how those primitives move counts and first matches.
- `ImageStore`: the three handlers.
- `StoreProperties`: the general guarantees.
- `Scenarios`: concrete runs.

Three things one would expect of such a store hold only in part. The
model follows the code and proves how far each one holds:

- One would expect an upload to leave exactly one file in its slot.
  `StoreProperties.PutSlotCount` gives the general law. The first match, if
  any, is unlinked. The new name adds a file unless it overwrites one still
  listed. So the slot ends with exactly one file whenever it held at most one
  (`StoreProperties.PutKeepsSingleSlot`). From a slot that holds two files, an
  upload in a new millisecond leaves two (`Scenarios.PutDoesNotRepairSlot`).
  One in the second file's millisecond leaves one, and both old files are
  gone (`Scenarios.PutCollisionUnlinksTwo`). A delete never adds a file to
  any slot (`StoreProperties.DeleteNeverGrowsSlot`).
- One would expect an upload never to affect another patient's slots. This
  holds when patient ids contain no `_` (`StoreProperties.PutLeavesOtherPatients`).
  More generally, it holds for any slot whose prefix is incomparable with the
  upload's prefix. With `_` in ids it fails both ways: patient "1"'s upload
  unlinks patient "1_before"'s file, and patient "1_after"'s upload fills
  patient "1"'s "after" slot (`Scenarios.UploadUnlinksOtherPatientsFile`,
  `Scenarios.UploadFillsOtherPatientsSlot`). The type is an opaque string
  too. An upload for patient 7 with type "bef" unlinks the patient's
  "before" image and stores a file that no read shows
  (`Scenarios.UploadWithShortKindUnlinksBefore`).
- One would expect a data URL and its bare payload to store the same bytes.
  This holds only when the bare payload does not itself begin with a
  header, because the pattern is anchored by `^` at the start of the data
  (`StoreProperties.DataUrlUploadSameAsRaw`, `StoreProperties.StripOnlyOnce`).

## Model

| member | source | states |
|---|---|---|
| `Directory.FirstWithPrefix` | images.js:45 | `files.find(f => f.startsWith(p))`: no result exactly when no listed name starts with `p`; otherwise the result starts with `p` and every earlier name does not |
| `Directory.IndexOfName` | images.js:100-102 | the existence test by exact name: absent exactly when no entry has that name; otherwise it points to the first entry with that name |
| `Directory.Evict` | images.js:44-48 | unlinking the old slot file: the listing is unchanged when no name starts with the prefix; otherwise it loses one entry, exactly the first match, and every other entry survives |
| `Directory.Write` | images.js:55-57 | `writeFileSync`: afterwards reading the name gives the written bytes, every entry with another name survives, and the only possible new entry is the written one |
| `Decimal.NatToDecimal` | images.js:54 | the rendered timestamp is a non-empty string of decimal digits with no leading zero, and starts with `0` only for time 0 |
| `Decimal.DecimalRoundTrip` | images.js:54 | reading the rendered digits back gives the timestamp |
| `Decimal.CanonicalIsRendering` | images.js:54 | every digit string without a leading zero is the rendering of its value, so the rendering is a bijection onto such strings |
| `DataUrl.HeaderSubtypeUnique` | images.js:51 | where a header `data:image/<w>;base64,` starts the data, the greedy `\w+` ends exactly at the end of `w`, so the data carries at most one header |
| `DataUrl.Strip` | images.js:51 | the anchored replacement: if the data starts with `data:image/` + a non-empty word + `;base64,`, exactly that header is removed; if no such header starts it, the data is unchanged |
| `DataUrl.StripRemovesHeader` | images.js:51 | stripping a data URL gives back its payload |
| `ImageStore.Put` | images.js:35-69 | the reply is the missing-fields error exactly when `patientId`, `type` or `imageData` is empty, and then the directory is unchanged; otherwise the stored name starts with `<patientId>_<type>_`, the path is `/clinic-images/` + the name, and reading the name gives `decode` of the stripped data |
| `ImageStore.GetPair` | images.js:75-92 | each slot is `null` exactly when no name starts with `<patientId>_before` (resp. `_after`); otherwise it is `/clinic-images/` + the first such name in listing order |
| `ImageStore.Delete` | images.js:98-113 | not found exactly when no entry has the name, and then the directory is unchanged; otherwise one entry with that name is removed and all the others stay |
| `StoreProperties.PutFileNameShape` | images.js:54-63 | an accepted upload's name is `<patientId>_<type>_<digits>.jpg` with canonical digits whose value is the upload time, and its path is `/clinic-images/<name>` |
| `StoreProperties.FileNameDeterminesTime` | images.js:54 | two uploads for one slot at different milliseconds get different names |
| `StoreProperties.PutKeepsOtherFiles` | images.js:44-57 | every file whose name does not start with the slot prefix survives an upload with its bytes; every file afterwards was there before or is the new one |
| `StoreProperties.PutUnlinksOnlyFirstMatch` | images.js:44-57 | any file an upload removes is the first match of the slot, or a file bearing the very name the upload writes |
| `StoreProperties.PutReplacesAtMostOne` | images.js:44-57 | with at most one file in the slot, the directory after the upload is the one before, minus the first match if there was one, plus the new file, as multisets |
| `StoreProperties.WriteIntoEmptySlot` | images.js:44-57 | after evicting from a slot that held at most one file, no file of the slot is left, so the write appends the new file |
| `StoreProperties.PutKeepsSingleSlot` | images.js:44-57 | with at most one file in the slot before, exactly one file is in it afterwards: the new one, holding the decoded payload |
| `StoreProperties.PutSlotCount` | images.js:44-57 | for an accepted upload, whatever the slot held: the slot's file count afterwards is the count before, minus one if some file was in the slot, plus one unless the new name overwrites a file still listed |
| `StoreProperties.TwoPutsKeepLatest` | images.js:44-57 | two uploads in a row into a slot with at most one file leave exactly one file there, holding the second payload |
| `StoreProperties.PutThenGetPair` | images.js:44-57 | after a "before"/"after" upload, that slot of the get-images reply is non-null; with at most one file in the slot before, it is the path the upload returned, and that name serves the decoded payload |
| `StoreProperties.PutKeepsIncomparableSlot` | images.js:45 | an upload leaves both the first name and the number of names for every prefix incomparable with its slot prefix |
| `StoreProperties.BeforeAfterIncomparable` | images.js:80-81 | no file name can start with both `<p>_before` and `<p>_after` |
| `StoreProperties.PutLeavesOtherKind` | images.js:80-81 | a "before" upload leaves the patient's "after" reply unchanged, and vice versa |
| `StoreProperties.DistinctPatientsIncomparable` | images.js:45 | for distinct patient ids without `_`, the slot prefixes of any two types are incomparable |
| `StoreProperties.PutLeavesOtherPatients` | images.js:45 | with `_`-free ids, an upload for one patient leaves another patient's get-images reply unchanged |
| `StoreProperties.DeleteRemovesExactlyNamed` | images.js:100-104 | in a directory without repeated names, deleting a listed name succeeds; afterwards no entry has the name, every other entry survives, and nothing new appears |
| `StoreProperties.PutPreservesDistinct` | images.js:47-57 | uploads keep the directory's names distinct |
| `StoreProperties.DeletePreservesDistinct` | images.js:100-104 | deletes keep the directory's names distinct |
| `StoreProperties.DeleteNeverGrowsSlot` | images.js:100-104 | a delete removes one file from a slot exactly when it succeeds and the deleted name starts with the slot prefix, and leaves every other slot's count as it was; so no slot ever grows |
| `StoreProperties.DataUrlUploadSameAsRaw` | images.js:51-57 | uploading `data:image/<w>;base64,<payload>` has the same effect as uploading `<payload>`, when the payload is non-empty and starts with no header itself |
| `StoreProperties.StripOnlyOnce` | images.js:51 | a doubled header loses only its outer copy |
| `StoreProperties.UploadReadDeleteRead` | images.js:35-113 | for a patient without files: upload "before", read, delete the returned name, read; the reads give `{before: path, after: null}`, then `{null, null}` |
| `Scenarios.PutCollisionUnlinksTwo` | images.js:45-57 | a same-millisecond upload into a slot that holds two files unlinks the first and overwrites the second, so both old files are gone |
| `Scenarios.PutDoesNotRepairSlot` | images.js:45-57 | an upload into a slot that holds two files leaves two files there |
| `Scenarios.UploadUnlinksOtherPatientsFile` | images.js:45-47 | patient "1_before"'s "after" file is shown as patient "1"'s "before" image, and a "before" upload for patient "1" unlinks it |
| `Scenarios.UploadFillsOtherPatientsSlot` | images.js:80-81 | a "before" upload for patient "1_after" fills patient "1"'s empty "after" slot |
| `Scenarios.UploadWithShortKindUnlinksBefore` | images.js:45-57 | an upload for patient 7 with type "bef" unlinks the file the patient's "before" read showed, and afterwards that read is `null` |
| `Scenarios.UploadJpegDataUrl` | images.js:51-63 | uploading `data:image/jpeg;base64,/9j/4AA` for patient 42 into an empty directory stores `decode("/9j/4AA")` under `42_before_<digits>.jpg`; the reply path is `/clinic-images/` + that name, and a read shows it as "before" with "after" null |

## Left out

- Express setup, CORS, body parsers, static file serving and the listener (images.js:1-20, 28-29, 119-121): framework plumbing. The public path is modelled only as the string `/clinic-images/<name>`.
- Creating the directory at start-up (images.js:24-26): I/O. The model starts from any listing.
- Base64 decoding (images.js:52): the lenient library routine is the parameter `decode`, and no property depends on what it computes. The concrete scenarios only ask that `"AAAA"` decode to three zero bytes, as base64 defines.
- `Date.now()` (images.js:54): the parameter `now`.
- `path.join` normalisation (images.js:55, 100): names are opaque exact keys, so path traversal through `/` or `..` is not modelled.
- `existsSync` being true for a directory (images.js:102): a delete whose name resolves to a directory fails with a server error in the code. The model treats names only as file names.
- File-system failures mapped to HTTP 500 (images.js:65-68, 88-91, 109-112): there is no storage-error outcome. In particular, the state after an unlink succeeds and the following write fails is not modelled.
- JavaScript truthiness of non-string body fields (images.js:39): the inputs are strings, and "missing" means empty.
- The race between concurrent uploads for one slot: handlers are atomic, sequential steps.
- Console logging.
- Listing order: `readdirSync`'s order is platform-dependent. The model fixes one order and appends new files to it. Every property except the concrete scenarios holds for any starting order.
- Empty route parameters: Express never routes an empty patient id, but the get-images model also accepts one. It then scans for the prefixes `_before` and `_after`, as the code would.
- Text encoding of names: names are sequences of Unicode scalar values and compared as such. The code holds UTF-16 strings, and the file system stores names as UTF-8. A lone surrogate in a JSON `patientId` reaches the disk as U+FFFD, so the next upload's prefix test (images.js:45) would miss the old file. The model does not capture this.
