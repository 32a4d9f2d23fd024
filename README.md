# brightwheel-photos popup: a Dafny model of its sequential core

The popup of this browser extension logs into the photo service through the
active tab's session and lists the guardian's students. On request it pages
through one student's photo activities and downloads every photo into one
archive. This project models the deterministic logic inside that flow. The
browser, the network and the compression library are replaced by parameters.

- **Student list** (`Students`, `Popup.Loader.InitStudents`): the `students`
  array is filtered to entries whose `enrollment_status` is `"Active"`. Each
  kept entry becomes `{ id: object_id, name: first_name + " " + last_name }`,
  in the original order. The first one is selected. With no Active student
  the source reads `id` of `undefined` and throws. The model returns
  `Fail(NoActiveStudent)` in that case, after the (empty) list has already
  been stored, as in the source.
- **Pagination aggregator** (`Pagination`, `Popup.Loader.PaginateImages`): a
  do-while loop requests pages 0, 1, 2, … and concatenates them. It stops
  after the first empty page. A page source is a function from page index to
  response. A failed request (`RequestFailed`) aborts the loop with
  `RequestError(page)`. The precondition `Terminates` says that some page
  ends the loop.
- **Entry naming** (`Naming`): each activity becomes
  `{ url: media.image_url, name: created_at + "." + object_id }`. The
  payload's MIME type is split on `"/"` with JavaScript's `split` semantics,
  and the segment at index 1 is the extension. With no `"/"` that segment is
  `undefined`, which the template literal renders as the text `"undefined"`.
  For `a/b/c` the extension is `b`, the second `/`-separated segment. The
  entry name is `name + "." + extension`.
- **Archive accumulation** (`Archive`, `Popup.Loader.CreateZip`): each image
  is fetched in order and stored under its entry name in a name→payload map
  (class `Zip`). A second entry with the same name replaces the first. The
  first failed fetch aborts the build with `FetchFailed(url)`.
- **Submit** (`Popup.Loader.Submit`): paginate, map the activities to
  `{url, name}` pairs, build the archive.

## Model

| member | source | states |
|---|---|---|
| Students.ActiveStudents | popup.js:134-139 | every option in the result is the `{id, "first last"}` projection of an Active entry of the input, and there are no more options than entries |
| Students.ActiveStudentsAppend | popup.js:134-139 | filtering distributes over concatenation, so the input order is kept and nothing is reordered or merged |
| Students.ActiveStudentsPosition | popup.js:134-139 | every Active entry appears, projected, at the index equal to the number of Active entries before it |
| Students.ActiveStudentsEmpty | popup.js:134-140 | the filtered list is empty exactly when no entry has status "Active" |
| Students.FirstActiveStudent | popup.js:140 | the first option is the projection of the first Active entry, so the selected id is that entry's `object_id` |
| Popup.Loader.constructor | popup.js:7-26 | a new loader has no student list and no selected student, and holds the given date window |
| Popup.Loader.InitStudents | popup.js:133-140 | stores the Active list; succeeds iff some entry is Active, then selects the first option's id; otherwise fails with NoActiveStudent and leaves the selection unchanged |
| Popup.Loader.PaginateImages | popup.js:143-153 | returns the specification `Paginated` of its page source; requests pages 0, 1, 2, … in +1 steps, exactly FirstEnd + 1 of them |
| Pagination.Paginated | popup.js:143-153 | the aggregation fails iff the first page that ends the loop is a failed request, with `RequestError` of that page; on success its length is the number of records on the pages before it |
| Pagination.CollectedLength | popup.js:149 | the aggregate's length is the sum of the sizes of the pages consumed (no deduplication) |
| Pagination.CollectedPage | popup.js:147-151 | page p occupies the contiguous slice that starts after pages 0..p-1, in arrival order |
| Pagination.PaginatedIgnoresLaterPages | popup.js:147-152 | pages after the first empty one affect neither the number of requests nor the result |
| Pagination.EmptyFirstPage | popup.js:147-152 | page 0 is always requested; when it is empty the result is empty after one request |
| Pagination.PaginatedOk | popup.js:144-152 | on success, pages before the last request are all non-empty and the last is empty; the result length is the sum of their sizes |
| Pagination.TwoPagesThenEmpty | popup.js:143-153 | pages of sizes 200, 47, 0 give 247 records after 3 requests |
| Naming.Split | popup.js:89 | `split` yields at least one part and no part contains the separator |
| Naming.JoinSplit | popup.js:89 | joining the parts of a split with the separator gives back the input |
| Naming.SplitJoin | popup.js:89 | splitting a join of separator-free parts gives back the parts |
| Naming.Extension | popup.js:89 | a defined extension contains no "/"; where it sits in the type is stated by the three lemmas below and `ExtensionIsSecondSegment` |
| Naming.ExtensionOfSegments | popup.js:89 | for a type made of "/"-free segments, the extension is the second segment |
| Naming.ExtensionOfType | popup.js:89 | `type/subtype` has extension `subtype` |
| Naming.ExtensionAbsent | popup.js:89 | the extension is undefined exactly when the type contains no "/" |
| Naming.ExtensionIsSecondSegment | popup.js:89 | a defined extension is "/"-free and sits right after the first "/", followed by the end or another "/" |
| Naming.ExtensionTextCollision | popup.js:89-90 | two extensions print alike iff they are equal or one is undefined and the other is the text "undefined", so `image` and `x/undefined` payloads get the same entry name |
| Naming.EntryNameParts | popup.js:89-90 | the entry name `${name}.${extension}` starts with the base name and "."; the rest is the printed extension, which contains no "/" |
| Naming.JpegEntryName | popup.js:89-90 | a payload of type `image/jpeg` is stored as `name.jpeg` |
| Naming.UndefinedEntryName | popup.js:89-90 | a payload whose type has no "/" (an empty type included) is stored as `name.undefined` |
| Naming.BaseName | popup.js:78 | the base name starts with `created_at` and ".", and is exactly one character longer than `created_at` and `object_id` together; with a dot-free id, no "." follows the one after `created_at` |
| Naming.ImageRefs | popup.js:76-79 | one `{url, name}` per activity, in order, with `url = media.image_url` and `name = created_at + "." + object_id` |
| Naming.BaseNameInjective | popup.js:78 | with dot-free object ids, two activities share a base name iff they share `created_at` and `object_id` |
| Naming.EntryNameInjective | popup.js:90 | with dot-free extensions, two entry names are equal iff base names and extensions are equal |
| Archive.Zip.constructor | popup.js:85 | a new archive has no entries |
| Archive.Zip.File | popup.js:92 | adding an entry stores the payload under the name and changes no other entry |
| Archive.Build | popup.js:86-93 | a successful build holds at most one entry per input |
| Archive.BuildErrSticky | popup.js:87-88 | once a fetch has failed, the whole build fails with that error |
| Archive.BuildOk | popup.js:86-93 | the build succeeds exactly when every fetch succeeds; name collisions never make it fail |
| Archive.BuildFirstFailure | popup.js:86-88 | a failed build reports the url of the first image whose fetch failed, and every earlier fetch succeeded |
| Archive.BuildKeys | popup.js:86-92 | the archive's names are exactly the entry names derived for the inputs |
| Archive.BuildLastWins | popup.js:92 | an entry holds the payload of the last input stored under its name (later entries overwrite) |
| Archive.BuildSize | popup.js:86-93 | with pairwise distinct entry names the archive holds exactly one entry per input |
| Archive.DistinctActivitiesFillArchive | popup.js:76-92 | activities with distinct (created_at, object_id), dot-free ids and dot-free extensions give one entry each |
| Popup.Loader.CreateZip | popup.js:83-95 | the loop's result is `Build` of its inputs: entries inserted one at a time in input order, or the first fetch error |
| Popup.Loader.Submit | popup.js:66-81 | a failed pagination is propagated; otherwise the result is the archive built from the `{url, name}` mapping of the aggregated activities |

## Left out

- Browser plumbing (`chrome.tabs.query`, `chrome.scripting.executeScript`, popup.js:105-131, 155-172): the activities request is the parameter `api` and each image fetch the parameter `fetch`. Both are deterministic functions of their arguments.
- `initGuardianID` (popup.js:110-121): it only stores the id of an identity response; the student entries reach `InitStudents` already parsed.
- DOM work: `updateUI`, the change listeners that overwrite the student and dates, the download link (popup.js:28-41, 49-63, 97-102).
- Date handling: the constructor's "now minus three months" and the `toISOString` conversions (popup.js:21-25, 161-162) depend on the platform clock and calendar. The loader receives its date window as strings and passes them to the request unchanged.
- The compression library: serialisation (`generateAsync`, popup.js:95) is not modelled, and the archive is returned as its name→payload map. The library's own duplicate-name handling and its folder entries for names containing "/" are not modelled. Overwriting on a duplicate name is a modelling choice.
- Pagination that never ends: `Terminates` requires a finite page source. The non-terminating case, when the server never answers with an empty page, is not modelled.
- Malformed responses (an `activities` or `students` field that is missing or not an array), and `null` names concatenated as the text "null", are not modelled. Responses are typed records.
- Popup.Loader.PaginateImages: its second result `requested` lists the page index of each request. The source returns only the records. This log exists only to state the request order.
- `console.log` calls and async scheduling: the awaits of one run are modelled in order as sequential code; events handled while a run waits at an await are not modelled.
- Popup.Loader.PaginateImages: the student and date window are fixed for the whole run (one `PageSource`). The source re-reads `studentID`, `startAt` and `endAt` for every page (popup.js:159-162), and a change listener or a second click handled at an await (popup.js:49-63, 72, 148) can change them between pages; such runs are not modelled.
