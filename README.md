# pbsv.photo R2 sync, modelled in Dafny

This project models the scripts that keep the photo site's content folder and
its Cloudflare R2 bucket in step, together with the build-time gallery data
that reads the same folder:

- `upload-to-r2.js` syncs the bucket with the content folder. It scans the
  originals and compares their fingerprints with the stored state. It then
  uploads every new or changed original with a WebP preview, and deletes every
  bucket key that is neither a scanned original nor the preview of one. Only
  after that does it persist the new state and the image metadata index.
- `generate-worker-config.js` builds the per-gallery image lists of the
  password-protected galleries. It rewrites the `GALLERY_PASSWORDS` and
  `GALLERY_IMAGES` blocks of the auth worker's `auth.js`.
- `list-r2-photos.js` reports the bucket. It lists every page, adds up the
  sizes, splits the image keys into originals and previews sorted by key, and
  names the originals that seem to lack a preview.
- `galleries.js` is the site's gallery data. For each visible gallery whose
  folder exists, it gives the images in numeric order with their dimensions
  and previews.
- `generate-previews.js` writes `<stem>_preview.webp` beside every gallery
  image that lacks one.
- `clear-previews.js` deletes every preview file under the events folder.

Module layout:

| file | module | models |
|---|---|---|
| common.dfy | Common | `Option`/`Result`, and `map` with a callback that may throw |
| text.dfy | Text | string methods: `includes`, `indexOf`, `split`/`join`, `\d+` with `parseInt` |
| json.dfy | Json | `JSON.stringify` of strings and values, and plain objects with their key enumeration order |
| sorting.dfy | Sorting | stable `Array.prototype.sort`, `filter`, and `filter(...).map(...)` |
| fstree.dfy | FsTree | the content folder as a tree of named entries |
| filenames.dfy | FileNames | `path.extname`/`basename`, the image-extension patterns, preview names |
| media.dfy | Media | `imageSize` and `sharp` as a parameter (`Codec`), the resize policy, metadata records |
| gallerymeta.dfy | GalleryMeta | gallery metadata and `isProtectedGallery` |
| r2store.dfy | R2Store | the bucket (a class), the operation counters, `uploadToR2`, `deleteFromR2`, `listR2Objects` |
| r2sync.dfy | R2Sync | the diff, `processUpload`, the upload and delete phases of `upload-to-r2.js` |
| syncpass.dfy | SyncPass | `main` of `upload-to-r2.js` and the properties of a whole pass |
| galleries.dfy | Galleries | `galleries.js` |
| listphotos.dfy | ListPhotos | `list-r2-photos.js` |
| generatepreviews.dfy | GeneratePreviews | `generate-previews.js` |
| clearpreviews.dfy | ClearPreviews | `clear-previews.js` |
| workerconfig.dfy | WorkerConfig | `generate-worker-config.js` |

How the model is shaped:

- **The bucket is a class.** `R2Store.Bucket` holds the stored objects and the
  key listing, and `R2Store.Stats` holds the operation counters. Both are
  updated in place, as the script's `r2Client` and `stats` are.
- **Any request may fail.** A failed request changes nothing. The first
  failure rejects the phase it belongs to, so nothing is persisted, as
  `main().catch` does.
- **Loops are methods.** Each loop of the scripts is a method whose contract
  ties it to a specification function. Lemmas then prove the properties of
  those functions.
- **Folders are values.** The local content folder is a tree value, and
  writes and unlinks return the new tree.
- **Outside effects are inputs.** The image libraries, the file fingerprint
  and the processor count are parameters of the model.

What a pass of `upload-to-r2.js` does when something goes wrong, as the code has it:

- An unchanged file that has no metadata record gets none: `main` carries over
  only the records it finds (`SyncPass.UnchangedFileWithoutRecord`). So every
  scanned path has a record after a pass only when every unchanged file already
  had one (`SyncPass.ScannedPathsRecorded`).
- The first rejected upload or delete rejects `processInParallel`, and through
  it `main`, before the state and metadata files are written (`SyncPass.Sync`:
  a failed pass leaves `LocalStore` as it was).
- A failed listing rejects `listR2Objects`, and the pass aborts the same way,
  with nothing persisted and nothing deleted (`SyncPass.RemoveOrphans`,
  `SyncPass.Sync`).

## Model

| member | source | states |
|---|---|---|
| R2Store.Without | src/scripts/upload-to-r2.js:85-93 | removing a key from the listing keeps exactly the other keys, distinct and in ascending order |
| R2Store.Bucket.Put | src/scripts/upload-to-r2.js:71-82 | a successful PutObject stores the object under its key, replacing any old one, and adds the key to the ascending listing only if it is new; a failed one changes nothing |
| R2Store.InsertKey | src/scripts/upload-to-r2.js:71-82 | a new key takes its place in ascending key order, the listing keeps no key twice, and a key already listed leaves the listing as it was |
| R2Store.Bucket.Delete | src/scripts/upload-to-r2.js:85-93 | a successful DeleteObject removes exactly that key from the objects and the listing, and deleting an absent key succeeds; a failed one changes nothing |
| R2Store.Bucket.ListPage | src/scripts/upload-to-r2.js:96-118 | a page is the next at most 1000 keys after the continuation token, with a next token exactly when keys remain |
| R2Store.Stats.constructor | src/scripts/upload-to-r2.js:60-69 | every counter starts at zero |
| R2Store.UploadToR2 | src/scripts/upload-to-r2.js:71-82 | the object is stored with its content type, and the put count and byte count grow only on success and by exactly one put and the body's size |
| R2Store.DeleteFromR2 | src/scripts/upload-to-r2.js:85-93 | the key is gone on success, and only the delete count grows, by one, on success |
| R2Store.PageCount | src/scripts/upload-to-r2.js:96-118 | listing always takes at least one request, and exactly one when the bucket holds at most 1000 keys |
| R2Store.PageCountCovers | src/scripts/upload-to-r2.js:96-118 | a listing of n keys takes the fewest 1000-key pages that cover it |
| R2Store.ListR2Objects | src/scripts/upload-to-r2.js:96-118 | following continuation tokens yields exactly the bucket's listing, counting one ListObjects per page; a failed request aborts |
| R2Sync.Concurrency | src/scripts/upload-to-r2.js:17 | the worker count is the larger of 4 and the processor count |
| R2Sync.WorkerCount | src/scripts/upload-to-r2.js:292-308 | `processInParallel` starts min(concurrency, items) workers, and at least one when there is work |
| R2Sync.GetContentType | src/scripts/upload-to-r2.js:192-201 | the content type is always one of the four types of the table |
| R2Sync.ContentTypeOfFile | src/scripts/upload-to-r2.js:192-201 | the type of `dir/stem.ext` depends only on the lower-cased extension |
| R2Sync.Paths | src/scripts/upload-to-r2.js:354-355 | the scanned keys, one per scanned file, in scan order |
| R2Sync.SetNewKeyAppends | src/scripts/upload-to-r2.js:328 | assigning a key an object lacks appends it at the end |
| R2Sync.StateOfKeys | src/scripts/upload-to-r2.js:324-338 | the new state's keys are the scanned paths in scan order |
| R2Sync.CarriedKeys | src/scripts/upload-to-r2.js:332-336 | every carried-over record belongs to a scanned path |
| R2Sync.Diff | src/scripts/upload-to-r2.js:318-338 | the diff loop builds exactly the work list, the new state and the carried metadata |
| R2Sync.NewStateExact | src/scripts/upload-to-r2.js:324-328 | the new state maps each scanned path to its current fingerprint and holds no other path |
| R2Sync.UploadListExact | src/scripts/upload-to-r2.js:330-331 | the work list holds exactly the files whose hash differs from the stored one, and `isNew` holds exactly when no hash was stored |
| R2Sync.CarriedExact | src/scripts/upload-to-r2.js:332-336 | an unchanged file that had a record keeps it unchanged; every other path gets none from the diff |
| R2Sync.UploadRecord | src/scripts/upload-to-r2.js:265-276 | the record holds the original's public URL and dimensions, and the preview's URL under the preview key and its dimensions |
| R2Sync.UploadImages | src/scripts/upload-to-r2.js:244-264 | only the original's key and its preview key change; on success the original and a WebP preview are stored, with two puts counted |
| R2Sync.ProcessUpload | src/scripts/upload-to-r2.js:244-289 | a failure writes no metadata; on success the file's record is set to what its images measure, and the report says whether its gallery is protected |
| R2Sync.ResultsOf | src/scripts/upload-to-r2.js:288 | one report per uploaded item |
| R2Sync.UploadAll | src/scripts/upload-to-r2.js:292-308 | draining the shared index takes every item exactly once; on success every item is stored with its preview and recorded, with two puts per item |
| R2Sync.UploadedUpToStep | src/scripts/upload-to-r2.js:296-302 | one more successful item extends what the drain has done by that item |
| R2Sync.UploadNext | src/scripts/upload-to-r2.js:296-302 | one turn of a worker uploads the next item with two puts and no other request, keeps every earlier upload, and touches only the keys of the work list |
| R2Sync.UploadedStep | src/scripts/upload-to-r2.js:296-302 | an upload keeps the earlier items' files and previews in the bucket |
| R2Sync.ImageFilesNoPreviewClash | src/scripts/upload-to-r2.js:356 | a preview key never equals the key of a scanned image |
| R2Sync.UploadListDistinct | src/scripts/upload-to-r2.js:324-331 | the work list holds each scanned file at most once |
| R2Sync.UploadListNoPreviewClash | src/scripts/upload-to-r2.js:324-331 | no file of the work list sits at another item's preview key |
| R2Sync.Orphans | src/scripts/upload-to-r2.js:354-361 | the keys to delete are exactly the listed keys that are neither a scanned path nor its preview key |
| R2Sync.OrphansDistinct | src/scripts/upload-to-r2.js:360-361 | the keys to delete keep the listing's order and hold no key twice |
| R2Sync.DeleteAll | src/scripts/upload-to-r2.js:363-375 | only the given keys can disappear; on success all of them are gone with one DeleteObject each |
| SyncPass.LocalStore.constructor | src/scripts/upload-to-r2.js:130-152 | missing state and metadata files read as empty objects |
| SyncPass.CountProtected | src/scripts/upload-to-r2.js:381-385 | the protected count never exceeds the number of records |
| SyncPass.Sync | src/scripts/upload-to-r2.js:310-403 | a failed pass persists nothing. A successful pass persists the new state and metadata, leaves every changed original and its preview in the bucket, and leaves nothing but scanned originals and their previews. It reports the uploads, and as deletions the number of stored keys that were orphans when the pass began, each counted as one DeleteObject. Expected keys are never lost |
| SyncPass.RemoveOrphans | src/scripts/upload-to-r2.js:353-375 | listing and deleting never touch an expected key; on success only expected keys remain, and the count is `toDelete.length`: one DeleteObject per listed orphan |
| R2Sync.OrphansCount | src/scripts/upload-to-r2.js:360-361 | filtering the listing gives one orphan per stored key that is neither a scanned original nor its preview |
| R2Sync.TouchedExpected | src/scripts/upload-to-r2.js:341-357 | the uploads of a pass write only keys the clean-up expects, so they create no orphans |
| R2Sync.SecondPassDeletesNothing | src/scripts/upload-to-r2.js:360-375 | a bucket that holds only scanned originals and their previews, as a successful pass leaves it, has nothing to delete |
| SyncPass.ExpectedSurvive | src/scripts/upload-to-r2.js:353-375 | a key that is expected and was present before the pass is present after it |
| SyncPass.UploadsSurvive | src/scripts/upload-to-r2.js:341-375 | what the upload phase stored survives the clean-up |
| SyncPass.RecordedGet | src/scripts/upload-to-r2.js:282 | every upload records its own file, and a path no upload touches keeps its old record |
| SyncPass.UploadListNoneChanged | src/scripts/upload-to-r2.js:330-331 | when no fingerprint changed, nothing is uploaded |
| SyncPass.StateOfIsCurrent | src/scripts/upload-to-r2.js:328 | the persisted state holds every scanned file's current fingerprint |
| SyncPass.StateOfCurrentAt | src/scripts/upload-to-r2.js:328 | the persisted state maps each scanned path to its fingerprint |
| SyncPass.SecondPassUploadsNothing | src/scripts/upload-to-r2.js:324-338 | a second pass over the same files uploads nothing |
| SyncPass.SecondPassKeepsRecords | src/scripts/upload-to-r2.js:332-336 | a second pass keeps every scanned path's record as it was and drops the others |
| SyncPass.ScannedPathsRecorded | src/scripts/upload-to-r2.js:324-338 | after a pass a path has a record exactly when it was scanned, provided every unchanged file already had one |
| SyncPass.UnchangedFileWithoutRecord | src/scripts/upload-to-r2.js:332-336 | an unchanged file with no record is neither uploaded nor given a record |
| GalleryMeta.FindGallery | src/scripts/upload-to-r2.js:178-186 | `find` returns an entry for the folder, and none exactly when no entry names it |
| GalleryMeta.FindGalleryFirst | src/scripts/upload-to-r2.js:178-186 | `find` returns the first entry for the folder |
| GalleryMeta.FindGalleryProtectedIff | src/scripts/upload-to-r2.js:180-185 | `find` followed by `password === true` holds exactly when the first entry for the folder has password `true` |
| GalleryMeta.ProtectedIff | src/scripts/upload-to-r2.js:172-189 | `kind/folder/...` is protected exactly when the first entry of that kind for the folder has password `true` |
| GalleryMeta.UnprotectedShapes | src/scripts/upload-to-r2.js:172-189 | a path with one segment, or whose first segment is neither kind, is never protected |
| FileNames.BaseName | src/scripts/generate-previews.js:41 | the base name is the path's last segment, free of '/' |
| FileNames.ExtName | src/scripts/generate-previews.js:40 | the extension is the suffix from the last dot, and is empty for a leading dot or no dot |
| FileNames.Stem | src/scripts/generate-previews.js:41 | stem followed by extension gives the name back |
| FileNames.BaseNameOfChild | src/scripts/upload-to-r2.js:192-201 | the base name of `dir/name` is `name` |
| FileNames.ExtNameOfStem | src/scripts/generate-previews.js:40-41 | the extension of `stem.ext` is `.ext` |
| FileNames.ImageExtLength | src/scripts/upload-to-r2.js:356 | the extension the image pattern matches is 4 or 5 characters long |
| FileNames.WebpIsNotImageExt | src/scripts/upload-to-r2.js:260 | a `.webp` key never matches the original-image pattern |
| FileNames.PreviewKeyShape | src/scripts/upload-to-r2.js:260 | the preview key ends in `_preview.webp`, keeps everything before the extension, and differs from the original key |
| FileNames.PreviewKeyIsNotImage | src/scripts/upload-to-r2.js:356 | a preview key is never an original's key |
| FileNames.PreviewKeyCollision | src/scripts/upload-to-r2.js:260 | two originals share a preview key exactly when they agree up to the image extension |
| FileNames.PreviewFileIsPreview | src/scripts/generate-previews.js:46 | the preview file written for a name counts as a preview in clear-previews and in generate-previews |
| FsTree.Find | src/scripts/generate-previews.js:49 | a name is found exactly when it is listed |
| FsTree.WriteFile | src/scripts/generate-previews.js:23-31 | writing an existing name keeps the listing, and a new name is appended |
| FsTree.WriteFileFind | src/scripts/generate-previews.js:23-31 | after a write the name holds the new file, and every other name is unchanged |
| FsTree.ReplaceNode | src/scripts/clear-previews.js:13-25 | replacing a node keeps the listing's names and order |
| FsTree.ReplaceNodeFind | src/scripts/clear-previews.js:13-25 | after the replacement the name finds the new node, and every other name is unchanged |
| FsTree.ReplaceNodeSame | src/scripts/generate-previews.js:69-95 | putting back the node already there changes nothing |
| Media.PreviewResize | src/scripts/upload-to-r2.js:40-51 | events previews are 400 pixels high, others 800 pixels wide, and small images are never enlarged |
| Media.PublicUrlInjective | src/scripts/upload-to-r2.js:12 | distinct keys have distinct public URLs |
| Common.MapAll | src/_data/galleries.js:76-81 | a map whose callback may throw gives every result in order, and fails exactly when some element fails |
| Common.MapAllAppend | src/_data/galleries.js:76-81 | mapping a concatenation is mapping both parts, or the first failure |
| Text.IndexOfFrom | src/scripts/generate-worker-config.js:50-59 | `indexOf` returns the first occurrence at or after the start, or none |
| Text.ContainsIffFound | src/scripts/list-r2-photos.js:75 | `includes` holds exactly when `indexOf` finds the string |
| Text.LastIndexOfChar | src/scripts/generate-previews.js:40 | the last index of a character |
| Text.Split | src/scripts/generate-worker-config.js:80 | `split` gives at least one piece, none holds the separator, and joining them gives the string back |
| Text.SplitJoin | src/scripts/generate-worker-config.js:109 | splitting a join of separator-free pieces gives the pieces back |
| Text.NatToDecimal | src/_data/galleries.js:51-55 | the decimal spelling of n reads back as n |
| Text.RunEnd | src/_data/galleries.js:53 | a `\d+` run is maximal |
| Text.FirstDigitFrom | src/_data/galleries.js:53 | the leftmost digit at or after a position |
| Text.Repeat | src/scripts/generate-worker-config.js:19 | `' '.repeat(n)` is n spaces |
| Json.EscapeAt | src/scripts/generate-worker-config.js:27-28 | an escape sequence is read with its length |
| Json.UnescapeEscapeString | src/scripts/generate-worker-config.js:27-28 | decoding what `JSON.stringify` escaped gives the string back |
| Json.QuoteRoundTrip | src/scripts/generate-worker-config.js:27-28 | a `JSON.stringify`ed string is read back unchanged |
| Json.QuoteInjective | src/scripts/generate-worker-config.js:28 | distinct keys are written differently |
| Json.StringifyHasNoControlChars | src/scripts/generate-worker-config.js:27 | compact `JSON.stringify` output holds no raw control character, so no line break |
| Json.Set | src/scripts/generate-worker-config.js:71 | assigning a property sets that key only; an existing key keeps its place and a new key is appended |
| Json.GetSome | src/scripts/generate-worker-config.js:114 | a property is present exactly when its key is |
| Json.PropertyOrder | src/scripts/generate-worker-config.js:20 | `Object.entries` enumerates every property once |
| Json.InsertionOrderWithoutIndexKeys | src/scripts/generate-worker-config.js:104 | without array-index keys, enumeration is insertion order |
| Json.IndexKeysFirst | src/scripts/generate-worker-config.js:104 | array-index keys come first, in ascending numeric order, then the other keys |
| Sorting.FilterMembers | src/scripts/upload-to-r2.js:361 | `filter` keeps exactly the elements that pass: every kept element passes and every passing element is kept |
| Sorting.FilterAppend | src/scripts/upload-to-r2.js:361 | filtering a concatenation filters each part and keeps their order |
| Sorting.FilterMapAllErr | src/_data/galleries.js:64-81 | `filter(...).map(...)` fails exactly when the callback fails on a kept element |
| Sorting.PushFiltered | src/_data/galleries.js:63-91 | `filter(...).forEach(push)` appends the kept results in order, or stops at the first failure |
| Sorting.FilterMapExact | src/scripts/generate-previews.js:37-53 | `map(...).filter(Boolean)` keeps exactly the present results |
| Sorting.SortBy | src/_data/galleries.js:71 | `sort` returns a permutation of its input |
| Sorting.SortBySorted | src/_data/galleries.js:71 | the result of `sort` is ordered by the comparator |
| Sorting.SortByStable | src/scripts/generate-worker-config.js:128-132 | `sort` keeps elements the comparator cannot tell apart in their input order |
| Sorting.StringOrderIsTotalPreorder | src/scripts/list-r2-photos.js:99-100 | key order is total and transitive, so sorting by it is well defined |
| Galleries.GetImageNumber | src/_data/galleries.js:51-55 | a name without digits has number 0 |
| Galleries.ImageNumberOf | src/_data/galleries.js:51-55 | a number written after a digit-free prefix is the number the name sorts by |
| Galleries.ByNumberIsTotalPreorder | src/_data/galleries.js:71 | the numeric comparator is a total preorder |
| Galleries.GetImageFiles | src/_data/galleries.js:6-8 | the image files are exactly the listed names ending in `.jpg`, `.jpeg` or `.png`, in any case |
| Galleries.SortedImagesOrdered | src/_data/galleries.js:68-71 | the sorted images are the image files, each as often as listed, in non-decreasing number order |
| Galleries.GetImageMeta | src/_data/galleries.js:18-48 | an image's record exists exactly when the file can be measured; its preview exists exactly when the preview file can be measured, at the preview URL |
| Galleries.OrEmpty | src/_data/galleries.js:83 | `a \|\| ""` keeps a non-empty string |
| Galleries.MakeGallery | src/_data/galleries.js:73-89 | the gallery's kind, path, title and defaulted fields; the preview is the named one, else the first image, else null |
| Galleries.GalleryFor | src/_data/galleries.js:65-91 | one record per sorted image at `<urlPrefix><file>`, or failure exactly when some image cannot be read |
| Galleries.PreviewFallback | src/_data/galleries.js:84-88 | without a named preview, the gallery preview is the first image's URL, or null when there are no images |
| Galleries.GalleryImagesOrdered | src/_data/galleries.js:68-81 | every image URL names an image file of the folder, and the URLs follow number order |
| Galleries.Shown | src/_data/galleries.js:63-67 | the shown entries are exactly the visible ones whose folder exists, in metadata order |
| Galleries.ReadGlobalMeta | src/_data/galleries.js:10-16 | a missing metadata file means no galleries |
| Galleries.CollectKind | src/_data/galleries.js:63-91 | one kind's loop pushes exactly that kind's galleries, or the first failure |
| Galleries.GetGalleries | src/_data/galleries.js:57-128 | `getGalleries` collects portfolio, then events, exactly as the specification function does |
| Galleries.KindShape | src/_data/galleries.js:63-125 | one gallery per shown entry, in metadata order, each built from its entry and folder |
| Galleries.KindOfKind | src/_data/galleries.js:73-74 | every gallery of a kind has that kind |
| Galleries.PortfolioBeforeEvents | src/_data/galleries.js:57-128 | all portfolio galleries come before all events galleries |
| Galleries.NoMetadataNoGalleries | src/_data/galleries.js:10-16 | without a metadata file there are no galleries |
| ListPhotos.DimsAt | src/scripts/list-r2-photos.js:10-19 | a dimensions tag matched at a position spans at least `__w0h0` |
| ListPhotos.FirstDims | src/scripts/list-r2-photos.js:10-19 | the regular expression finds the leftmost match, followed by a dot when required |
| ListPhotos.StripDims | src/scripts/list-r2-photos.js:127 | removing the tag never lengthens the key |
| ListPhotos.DimensionsRoundTrip | src/scripts/list-r2-photos.js:10-19 | a key tagged `__w<w>h<h>.` yields exactly w and h, and stripping the tag leaves the rest |
| ListPhotos.TaggedRoundTrip | src/scripts/list-r2-photos.js:10-19 | the round trip for any two digit runs, leading zeros included |
| ListPhotos.KeyRoundTrip | src/scripts/list-r2-photos.js:10-19 | a key whose first `__w<digits>h<digits>.` tag starts at a given place yields those dimensions, and stripping removes exactly that tag |
| ListPhotos.FoundFirst | src/scripts/list-r2-photos.js:10-19 | the first match decides both the dimensions and what the stripping removes |
| ListPhotos.UntaggedKey | src/scripts/list-r2-photos.js:10-19 | a key without `__w` has no dimensions and is not changed by the stripping |
| ListPhotos.Entries | src/scripts/list-r2-photos.js:79-85 | one entry per listed key |
| ListPhotos.ByKeyIsTotalPreorder | src/scripts/list-r2-photos.js:99-100 | the key comparator is a total preorder |
| ListPhotos.MissingPreviewsAsWritten | src/scripts/list-r2-photos.js:126-129 | as written: the originals whose tag-stripped key is contained in no preview key |
| ListPhotos.PreviewBase | src/scripts/list-r2-photos.js:127 | the base a preview is named after is a prefix of the tag-stripped key |
| ListPhotos.MissingPreviews | src/scripts/list-r2-photos.js:126-129 | corrected: the originals whose base without extension is contained in no preview key |
| ListPhotos.AsWrittenMissesUploadedPreview | src/scripts/list-r2-photos.js:126-129 | as written, `a.jpg` is reported missing although its preview `a_preview.webp` is listed |
| ListPhotos.UploadedPreviewFound | src/scripts/list-r2-photos.js:126-129 | corrected: an original whose preview key is listed is never reported |
| ListPhotos.MissingPreviewsNarrower | src/scripts/list-r2-photos.js:126-129 | the corrected check only removes false alarms from the as-written one |
| ListPhotos.TallyOneMore | src/scripts/list-r2-photos.js:64-92 | the tally grows by one object at a time |
| ListPhotos.TallyPage | src/scripts/list-r2-photos.js:63-93 | tallying a page extends the tally of the listing so far by exactly that page |
| ListPhotos.ReadPage | src/scripts/list-r2-photos.js:55-93 | one request reads the next page from the continuation token; the tally then covers exactly the keys listed so far, and a further token points past them |
| ListPhotos.ListPhotos | src/scripts/list-r2-photos.js:30-146 | without the three credentials no request is made; a successful run reports the whole bucket with one request per page, and names the originals without a preview by the check as written |
| ListPhotos.ReportSorted | src/scripts/list-r2-photos.js:98-100 | both lists are sorted by key and are permutations of what was tallied |
| ListPhotos.ReportedAreListed | src/scripts/list-r2-photos.js:69-91 | every reported entry is a listed image key, split on `_preview` |
| ListPhotos.ListedAreReported | src/scripts/list-r2-photos.js:69-91 | every listed image key is reported, among the previews exactly when it contains `_preview` |
| ListPhotos.TotalSizeSplit | src/scripts/list-r2-photos.js:66-73 | the total size counts skipped objects too: kept sizes plus skipped sizes |
| GeneratePreviews.JobFor | src/scripts/generate-previews.js:38-51 | a job names the listed image and `<stem>_preview.webp` |
| GeneratePreviews.ProcessJob | src/scripts/generate-previews.js:13-31 | one job succeeds exactly when the image is there and encodes to a WebP sized for the gallery kind; the preview name then holds that WebP, and every other name keeps what it held |
| GeneratePreviews.SelectJobsExact | src/scripts/generate-previews.js:37-53 | the jobs are exactly the listed names that call for one |
| GeneratePreviews.PreviewNeedsNoJob | src/scripts/generate-previews.js:43-46 | a job's preview file never calls for a job of its own |
| GeneratePreviews.PreviewWorkers | src/scripts/generate-previews.js:63 | the worker count is the larger of 2 and half the processor count |
| GeneratePreviews.RunJobsStopsAtFailure | src/scripts/generate-previews.js:55-64 | after a failed job the remaining jobs change nothing |
| GeneratePreviews.DrainJobs | src/scripts/generate-previews.js:55-64 | draining the shared index runs every job once, in order, and stops at the first failure |
| GeneratePreviews.ProcessGallery | src/scripts/generate-previews.js:34-67 | `processGallery` selects the jobs, runs them, and reports how many there were |
| GeneratePreviews.EntryRun | src/scripts/generate-previews.js:82-89 | each listed entry stays under its name |
| GeneratePreviews.GalleriesRun | src/scripts/generate-previews.js:82-89 | the listing keeps its length |
| GeneratePreviews.ProcessGalleries | src/scripts/generate-previews.js:81-89 | the gallery loop processes the directories of a base folder in listing order, and stops at the first failure |
| GeneratePreviews.ProcessBase | src/scripts/generate-previews.js:72-90 | a missing base folder is skipped, and otherwise its galleries are processed |
| GeneratePreviews.GenerateAll | src/scripts/generate-previews.js:69-100 | `main` does events, then portfolio; it counts the previews written and fails when a job or a lookup fails |
| GeneratePreviews.RunJobsWrites | src/scripts/generate-previews.js:23-31 | after a successful drain every job's preview exists, nothing that existed is gone, and only previews were added |
| GeneratePreviews.PreviewNameNoJob | src/scripts/generate-previews.js:43 | a name whose stem ends in `_preview` never gets a job |
| GeneratePreviews.GallerySettles | src/scripts/generate-previews.js:34-67 | after a successful `processGallery` the folder calls for no job |
| GeneratePreviews.SettledRunsEmpty | src/scripts/generate-previews.js:81-89 | a settled listing is left as it is, with nothing generated |
| GeneratePreviews.GalleriesSettle | src/scripts/generate-previews.js:81-89 | after a successful pass over a base folder, its listing is settled |
| GeneratePreviews.BaseSettledRunsEmpty | src/scripts/generate-previews.js:72-90 | a settled or missing base folder is left as it is |
| GeneratePreviews.BaseSettles | src/scripts/generate-previews.js:72-90 | after a successful pass the base folder is settled |
| GeneratePreviews.BaseSettledElsewhere | src/scripts/generate-previews.js:72 | processing the other base folder keeps this one settled |
| GeneratePreviews.SecondRunGeneratesNothing | src/scripts/generate-previews.js:69-95 | a second run after a successful one writes nothing and leaves the folder exactly as it was |
| ClearPreviews.ClearFolder | src/scripts/clear-previews.js:13-25 | the recursive walk unlinks preview files and clears each subdirectory, as the specification function does |
| ClearPreviews.ClearAll | src/scripts/clear-previews.js:27-34 | a missing folder stops the script before anything is deleted; otherwise the folder is cleared |
| ClearPreviews.ClearedHasNoPreviews | src/scripts/clear-previews.js:13-25 | after the walk no preview file is left, however deep |
| ClearPreviews.FindClearedEntry | src/scripts/clear-previews.js:15-22 | what the walk leaves of one entry |
| ClearPreviews.ClearedFind | src/scripts/clear-previews.js:15-22 | a preview file is gone, any other file is kept unchanged, and a directory keeps its name with its listing cleared |
| ClearPreviews.ClearIdempotent | src/scripts/clear-previews.js:13-25 | clearing twice removes nothing more |
| ClearPreviews.ClearedAppend | src/scripts/clear-previews.js:15-23 | the walk handles each entry independently, in listing order |
| WorkerConfig.FormatObjectAsMultiline | src/scripts/generate-worker-config.js:18-32 | an empty object is written `{}`, and any other starts with `{` and a line break and ends with a line break and `}` |
| WorkerConfig.MultilineLayout | src/scripts/generate-worker-config.js:18-32 | the text's lines are `{`, one `"key": value, // #ignore` line per property in enumeration order, and `}` |
| WorkerConfig.LoadGalleryPasswords | src/scripts/generate-worker-config.js:65-76 | the password map is built entry by entry, and a missing file gives `{}` |
| WorkerConfig.LastPasswordWins | src/scripts/generate-worker-config.js:70-72 | when several entries name a folder, the last one's password is kept |
| WorkerConfig.NoEntryNoPassword | src/scripts/generate-worker-config.js:70-72 | a folder no entry names has no password |
| WorkerConfig.FirstNumbered | src/scripts/generate-worker-config.js:129-130 | the regular expression's match is the leftmost `/digits.` |
| WorkerConfig.SortNumber | src/scripts/generate-worker-config.js:129-130 | a key without `/digits.` sorts as 0 |
| WorkerConfig.SortNumberOf | src/scripts/generate-worker-config.js:129-130 | the key `prefix/n.ext` sorts as n |
| WorkerConfig.MatchesGalleryOrder | src/scripts/generate-worker-config.js:126-132 | for files named `n.ext` the worker's sort number agrees with the gallery page's |
| WorkerConfig.GroupAllGet | src/scripts/generate-worker-config.js:114-123 | a folder's group is its kept items in order, and a folder with none has no group |
| WorkerConfig.CollectProtected | src/scripts/generate-worker-config.js:102-124 | the loop skips preview keys, unprotected keys and short keys, and groups the rest by folder; a missing preview throws |
| WorkerConfig.KeptFolder | src/scripts/generate-worker-config.js:105-112 | an entry is kept exactly when its key names no preview, lies in a protected gallery and has at least three path segments; its folder is the second segment |
| WorkerConfig.CollectEntries | src/scripts/generate-worker-config.js:104-124 | the loop pushes the items of the kept entries one by one and groups them by folder, or throws at the first kept entry without a preview |
| WorkerConfig.CollectedByPushing | src/scripts/generate-worker-config.js:104-124 | pushing entry by entry gives the same galleries as filtering the kept entries, reading each one and grouping the results |
| WorkerConfig.ByImageNumberIsTotalPreorder | src/scripts/generate-worker-config.js:128-132 | the number comparator is a total preorder |
| WorkerConfig.FinishOrder | src/scripts/generate-worker-config.js:127-138 | each gallery is a permutation of its items in non-decreasing number order, with ties kept in insertion order, projected to url and preview |
| WorkerConfig.GetFinishAll | src/scripts/generate-worker-config.js:127-139 | every folder's list is sorted and projected |
| WorkerConfig.OrderGalleries | src/scripts/generate-worker-config.js:127-139 | the sort loop gives the folders exactly the finished lists and keeps the folder set |
| WorkerConfig.FailsOnMissingPreview | src/scripts/generate-worker-config.js:104-124 | the script throws exactly when a kept entry has a null preview |
| WorkerConfig.GalleryOfFolder | src/scripts/generate-worker-config.js:102-139 | a folder's list is the ordered images of its kept entries |
| WorkerConfig.OnlyProtectedImages | src/scripts/generate-worker-config.js:104-110 | only non-preview images of protected galleries, at depth three or more, reach the output |
| WorkerConfig.BlockAt | src/scripts/generate-worker-config.js:50-59 | the lazy pattern matches from the first declaration to the first `};` after it, and nothing matches when either is missing |
| WorkerConfig.OpeningBeforeBlock | src/scripts/generate-worker-config.js:50-53 | the rewritten file keeps everything before the block |
| WorkerConfig.ReplaceBlockFindsBlock | src/scripts/generate-worker-config.js:50-53 | after the literal replacement, the pattern matches the new declaration |
| WorkerConfig.ReplaceBlockIdempotent | src/scripts/generate-worker-config.js:50-53 | replacing the block again with the same text changes nothing |
| WorkerConfig.UpdateAuthJS | src/scripts/generate-worker-config.js:34-63 | corrected: the blocks are inserted literally; nothing is written exactly when `auth.js` is missing |
| WorkerConfig.UpdateAuthJSAsWritten | src/scripts/generate-worker-config.js:34-63 | as written: both blocks go through `replace` with `$` patterns expanded; nothing is written exactly when `auth.js` is missing |
| WorkerConfig.UpdateAgreesWithoutDollar | src/scripts/generate-worker-config.js:50-59 | when neither block holds a `$`, the update as written is the literal one |
| WorkerConfig.SubstitutePrefix | src/scripts/generate-worker-config.js:50-59 | `$` expansion of a text without `$` is the text itself |
| WorkerConfig.AsWrittenAgreesWithoutDollar | src/scripts/generate-worker-config.js:50-59 | with no `$` in the new blocks, the as-written update equals the literal one |
| WorkerConfig.DollarPasswordRewritten | src/scripts/generate-worker-config.js:50-53 | as written, the password `p$$` is written to `auth.js` as `p$`; the literal replacement keeps `p$$` |
| WorkerConfig.Generate | src/scripts/generate-worker-config.js:97-147 | a missing metadata file or a missing preview fails the script; otherwise it writes the grouped galleries and updates `auth.js` as the code does, `$` patterns included |

## Left out

- The fingerprint (`getFileHash`, an MD5 of the file) is not computed. It is a field of each scanned file.
- `imageSize` and `sharp` are not modelled: they are the `Media.Codec` parameter. Only the resize options the scripts pass are fixed.
- `scanLocalFiles` is not modelled: its result is an input. Its paths are required to be distinct and to carry an image extension, as the scan produces them.
- Console output is left out, including `formatBytes`, `sizeFormatted` and the reported lines, as are exit codes beyond success or failure.
- The JSON files' pretty-printed text and their parsing are left out. The files are values, and a missing file is `None`.
- Only the success-or-error outcome of S3 requests is modelled. Credentials, endpoints and the client objects are left out.
- Concurrency is not modelled. Uploads, deletes and preview jobs are taken from the shared index one at a time in order, so results are as if the workers ran in turn. Interleaving, and in-flight requests that finish after the first rejection, are left out.
- `R2Sync.WorkerCount`, `GeneratePreviews.PreviewWorkers`: the worker counts are computed as the scripts compute them, but with the workers run in turn they do not change what the drains do, and the drains do not take them.
- `path.join` normalisation and symbolic-link targets are not modelled. Anything that is not a directory is a file.
- `Sorting.StringLeq`: `localeCompare` is approximated by code-point order.
- `Text.DecimalValue`: `parseInt` is exact on every digit string. JavaScript's rounding of numbers beyond 2^53 is left out.
- `Text.Lower`: case folding is ASCII only, which is all the extension patterns need.
- `ListPhotos.ObjectSize`: `obj.Size \|\| 0` always sees the stored body's length. A listing with no size is not modelled.
- JavaScript objects inherit keys from their prototype, which is left out. A folder named `constructor` would behave differently there.
- `WorkerConfig.ReplaceBlockIdempotent`: requires that no password or URL contains `};`. One that does ends the lazy match early.
- `WorkerConfig.Generate`: the gallery metadata is read with `Galleries.ReadGlobalMeta`, which has the same missing-file rule as this script's `loadGalleryMetadata`. The two read different paths.
- `groupEventsByMonth` and the rest of `galleries.js` after line 128 are not part of this model.
- The Python scripts, `tailwind.config.js` and `.eleventy.js` are not part of this model.
- The output of `saveState` and `saveMetadata` is modelled as fields of `SyncPass.LocalStore`, and their on-disk JSON text is left out.
- Files are modelled as values: writes and unlinks return the new folder tree. Changing the tree in place, and aliasing, are not modelled.

## Findings

| source | as written | input that shows it | evidently intended | confidence | as-written member | corrected member |
|---|---|---|---|---|---|---|
| src/scripts/list-r2-photos.js:126-129 | an original counts as previewed only if some preview key contains the original key, minus only its `__w…h…` tag, extension included | original `a.jpg` with preview `a_preview.webp`, as the uploader names it: `a.jpg` is reported as lacking a preview | compare the key without its extension as well, so the uploader's preview is found | not executed | ListPhotos.AsWrittenMissesUploadedPreview | ListPhotos.UploadedPreviewFound |
| src/scripts/generate-worker-config.js:50-59 | `String.prototype.replace` with a string replacement expands `$$`, `$&`, `` $` `` and `$'` in the new block | a gallery password `p$$` is written to `auth.js` as `p$` | insert the new block literally, for example with a replacement function | not executed | WorkerConfig.DollarPasswordRewritten | WorkerConfig.ReplaceBlockIdempotent |
