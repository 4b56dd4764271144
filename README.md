# Memory gallery of the birthday-card site, in Dafny

This project models the photo-gallery page of a browser "birthday card" site
(`memory.js`). The page keeps a page-wide list of image sources, `images`, and
a cursor into it, `currentIndex`. Event handlers change them:

- "add images" compresses each picked image file, uploads it to Cloudinary and
  appends the resulting source;
- "change" replaces the current image;
- "clear all" empties the list after a confirmation;
- the previous/next buttons, the arrow keys and the thumbnails move the cursor.

After each completed handler that changed it, the list is persisted to
localStorage, or to IndexedDB when the localStorage write throws. An add cut
short by a throw from `dataURLToBlob` leaves its pushed entries unsaved. On page load it is read back from the first of
the two stores that holds an array.

The model follows the source's own shape:

- `Gallery.Gallery` is a class whose fields `images` and `currentIndex` the
  handler methods update in place.
- `Storage.BrowserStorage` is a class with two abstract slots: the
  localStorage entry and the IndexedDB record.
- The pure helpers are functions with lemmas: the wrap-around formula of
  `showImage` (with JavaScript's truncating `%`), the resize rule of
  `resizeImageFile` (with `Math.round`), the MIME and byte handling of
  `dataURLToBlob`, and the upload file name `replace(/\s+/g, '_')`.
- The byte-copy countdown loop and the add loop are `while` loops with
  invariants.

Every answer that comes from outside is an input:

- the decoded picture, or a decoding failure;
- the JPEG the canvas encoder produces;
- `atob`'s result, or its throw;
- the upload response;
- whether each storage read or write throws;
- the user's answer to the confirmation.

A handler that awaits such an answer is treated as one atomic step.

Facts the proofs establish, beyond the handler contracts:

- The cursor formula is the floor-modulo residue. It lies in [0, n) for
  every integer, including negative ones.
- "previous" undoes "next", and n clicks on "next" come back to the start.
- The resize keeps the longer side at most 1200 and rounds the other side to
  within half a pixel.
- The MIME type of `data:t;base64,...` is `t` when `t` is non-empty and has
  no `;`, `,` or line break, and splitting at commas loses nothing.
- The sanitised name has no whitespace, keeps the other text, turns each run
  into one underscore, and sanitising twice changes nothing.
- A successful localStorage save reads back as the same list.
- An IndexedDB fallback save reads back as the same list only when
  localStorage holds no older array. When it does, `loadImagesFromStorage`
  returns that older array first. `Storage.FallbackSaveRoundTrip` states this
  behaviour of the code.

Some things the page does not do, stated here so that the model's scope is
plain:

- memory.js has no operation that deletes a single image.
- memory.js keeps no remote record ids or paths and does not merge lists by
  URL.
- memory.js has no import or export of the list.
- The upload file name only has its whitespace runs turned into `_`; no other
  character is removed or replaced.
- Navigation moves one step at a time; there is no jump by an arbitrary
  offset.

## Model

| member | source | states |
|---|---|---|
| JsMath.JsRem | memory.js:233 | JavaScript `%` for a positive divisor: the result lies strictly between -n and n, has the sign of the dividend and the same floor-modulo residue |
| JsMath.Round | memory.js:151-152 | `Math.round(num / den)`: the integer r with r - 1/2 <= num/den < r + 1/2 (halves go up), non-negative for a non-negative quotient |
| Cursor.Normalize | memory.js:233 | the `showImage` wrap `((i % n) + n) % n` lands in [0, n) for every integer i, negative included, equals the floor-modulo residue of i, and leaves an i already in [0, n) unchanged |
| Cursor.NormalizePeriodic | memory.js:233 | asking for an index moved by any whole number of list lengths shows the same image |
| Cursor.Next | memory.js:244-246 | the cursor after "next" is (c + 1) mod n and lies in [0, n) |
| Cursor.Prev | memory.js:241-243 | the cursor after "previous" is (c - 1) mod n and lies in [0, n) |
| Cursor.PrevAfterNext | memory.js:241-246 | from a cursor in range, "previous" after "next" returns to it |
| Cursor.NextAfterPrev | memory.js:241-246 | from a cursor in range, "next" after "previous" returns to it |
| Cursor.NextsAdvance | memory.js:244-246 | k clicks on "next" from a cursor c in range give (c + k) mod n |
| Cursor.NextsFullTurn | memory.js:244-246 | n clicks on "next" return to the starting image |
| Resize.ScaledSide | memory.js:151-152 | the rescaled short side is the nearest integer to short * maxDim / long (halves up) and never exceeds maxDim |
| Resize.TargetSize | memory.js:148-153 | a picture that fits is kept as is; otherwise the longer side (width only when strictly wider) becomes maxDim and the other side is within half a pixel of its exact aspect-preserving length; the longer target side is min(max(w, h), maxDim) and orientation is kept |
| Resize.TargetSizeExamples | memory.js:148-153 | 2000x1000 becomes 1200x600 and 400x300 is unchanged under the 1200 limit |
| Resize.ResizeImageFile | memory.js:143-168 | a data URL that fails to decode is returned unchanged; a decoded picture comes back encoded at a size whose longer side is min(its longer side, maxDim), with its orientation kept, and at its own size when it already fits |
| DataUrl.Split | memory.js:171 | `split(',')` yields at least one piece and no piece contains a comma |
| DataUrl.JoinSplit | memory.js:171 | joining the pieces with commas gives back the original string |
| DataUrl.SplitOnce | memory.js:171 | a string with exactly one comma splits into its header and payload |
| DataUrl.MatchStart | memory.js:172 | the search for `/:(.*?);/` finds the leftmost colon that a `;` follows without a line break in between, and finds none exactly when no colon has such a `;` |
| DataUrl.MatchFrom | memory.js:172 | the match of `/:(.*?);/` is the leftmost one: its capture follows the first colon that a `;` follows without a line break in between, runs up to that `;`, and contains neither `;` nor a line terminator; there is no match exactly when no colon has such a `;` |
| DataUrl.MimeType | memory.js:172 | the MIME type is never empty and has no `;`: it is either `image/jpeg` or the text between a colon of the header and the next `;` |
| DataUrl.NoColonMeansDefault | memory.js:172 | a header without a colon yields `image/jpeg` |
| DataUrl.MimeTypeOfHeader | memory.js:172 | for a header `prefix:t;rest` with no colon in prefix and a non-empty t free of `;` and line breaks, the MIME type is exactly t |
| DataUrl.CopyBytes | memory.js:174-176 | the countdown loop fills a fresh array of the decoded string's length so that byte i is the code of character i, truncated to 8 bits, for every i |
| DataUrl.DataUrlToBlob | memory.js:170-178 | the blob is built exactly when `atob` accepts the payload (the piece after the first comma, or "undefined" without one); it carries one byte per decoded character and a non-empty type argument |
| DataUrl.BlobOfWellFormed | memory.js:170-178 | `data:t;base64,p` gives a blob with type argument t holding the bytes of `atob(p)` |
| Filename.SanitizeRemovesWhitespace | memory.js:265 | the upload file name has no whitespace left and is no longer than the original |
| Filename.SanitizeClean | memory.js:265 | a name without whitespace is sent unchanged |
| Filename.SanitizeIdempotent | memory.js:265 | sanitising a sanitised name changes nothing |
| Filename.SanitizeKeepsText | memory.js:265 | every character that is neither whitespace nor `_` survives, in order |
| Filename.SanitizeAppend | memory.js:265 | sanitising splits at any point right after a non-whitespace character |
| Filename.SanitizeRun | memory.js:265 | each maximal whitespace run becomes exactly one `_` |
| Storage.SaveOutcome | memory.js:86-102 | save reports success exactly when the localStorage write or the IndexedDB fallback succeeded; a successful primary write leaves IndexedDB untouched; a throwing write leaves its store unchanged |
| Storage.PrimarySaveRoundTrip | memory.js:86-131 | after a save whose localStorage write succeeded, loading gives back the saved list |
| Storage.FallbackSaveRoundTrip | memory.js:86-131 | after a save that fell back to IndexedDB, loading gives the saved list unless localStorage still holds an older array, which is returned instead |
| Gallery.AddLoopEntries | memory.js:255-275 | the add loop pushes, in selection order, one source per image file (all of them when it runs to the end, a proper prefix when it is cut short); the source is the upload's `secure_url`, else its `url`, else (no upload configured, a failed upload or empty fields) the compressed data URL; each pushed file had its blob built and, with uploads configured, was uploaded once with its sanitised name |
| Gallery.AddLoopAborts | memory.js:255-275 | the loop is cut short exactly when `dataURLToBlob` throws for some image file, and then it stops at the first such file, right after the files whose sources it pushed; so with no throw every image file's source is pushed |
| Gallery.AddLoopNoImages | memory.js:255-256 | a selection without image files pushes nothing and uploads nothing |
| Gallery.AddLoopStopped | memory.js:259 | once `dataURLToBlob` has thrown, later files change nothing |
| Gallery.Gallery.Init | memory.js:335-347 | at page load the list is what the stores hold and the cursor is 0, within the gallery invariant |
| Gallery.Gallery.LoadImagesFromStorage | memory.js:104-131 | the list becomes the stores' content chosen by the two-tier load order |
| Gallery.Gallery.SaveImagesToStorage | memory.js:86-102 | the stores and the returned flag are those of a two-tier save of the current list |
| Gallery.Gallery.ShowImage | memory.js:224-238 | on an empty list the cursor is untouched and no element is read; otherwise the cursor becomes the wrapped index and that image is shown |
| Gallery.Gallery.PrevClicked | memory.js:241-243 | on a non-empty list the cursor moves one step back with wrap-around; on an empty list nothing changes; the invariant is kept |
| Gallery.Gallery.NextClicked | memory.js:244-246 | on a non-empty list the cursor moves one step forward with wrap-around; on an empty list nothing changes; the invariant is kept |
| Gallery.Gallery.KeyDown | memory.js:343-346 | ArrowLeft acts as "previous", ArrowRight as "next", other keys change nothing |
| Gallery.Gallery.ThumbnailClicked | memory.js:215-218 | clicking thumbnail idx makes idx the cursor |
| Gallery.Gallery.AddImages | memory.js:250-283 | no selection changes nothing; otherwise the old entries are kept and the loop's sources appended; a completed loop saves once, alerts on a failed save and puts the cursor at len - 1 (so -1 on a still-empty list); an aborted one leaves cursor and stores alone; the uploads sent are the loop's |
| Gallery.Gallery.ChangeCurrent | memory.js:286-320 | a click on "change" with an empty list only alerts and never consults the picked file; otherwise the change handler runs on the picked file: the length and every entry other than the one under the cursor are kept; for an image file whose blob was built, that entry becomes the file's source, the file is uploaded, the cursor is wrapped, the list saved and a failed save alerted; for any other file the list, cursor and stores stay as they were and nothing is uploaded |
| Gallery.Gallery.ChangeImage | memory.js:293-320 | only the entry under the cursor is replaced: length and all other entries are kept, the cursor stays (wrapped), the list is saved; no file, a non-image (with an alert) or a throw from `dataURLToBlob` change nothing |
| Gallery.Gallery.ClearAll | memory.js:323-332 | an empty list only alerts and a declined confirmation changes nothing; otherwise the list becomes empty, the cursor 0 and the empty list is saved, with an alert if that save fails |

## Left out

- Resize.ScaledSide: rounds the exact rational `short * maxDim / long`. The source computes `h * (maxDim / w)` in floating point, which can fall on the other side of a half.
- Reading files: `FileReader` is assumed to succeed. The fallback that re-reads a file when `resizeImageFile` rejects (memory.js:258, 299) is not modelled.
- Browser and network calls: image decoding, canvas drawing, JPEG encoding at quality 0.78, `atob` and the Cloudinary `fetch`/`FormData` request are not modelled. Their results come in as inputs. The `Blob` a data URL becomes is built by the model from its bytes and the type argument.
- DataUrl.DataUrlToBlob: `mime` is the `type` option handed to `new Blob`. The constructor's own normalisation of that option (lower-casing it, and replacing it by the empty string when it holds a character outside U+0020 to U+007E) is not modelled.
- The raw upload response: modelled as its `secure_url` and `url` fields only.
- IndexedDB plumbing: `openIdb` and the transaction and request callbacks are not modelled. Each store is a slot whose reads and writes may fail.
- JSON encoding: `JSON.stringify`/`JSON.parse` are folded into the slot values.
- Stored arrays with non-string elements: not modelled, since the source does not check them.
- Presentation: thumbnail rendering, image alt text, the position label, the empty `src` at init, and the clearing of file inputs are not modelled. Only their effect on the cursor is.
- Missing DOM elements: the early return when the image element is absent is not modelled. The element is assumed present.
- Alert and confirm dialogs: each alert is returned as a value, and the confirmation answer is an input.
- Concurrency: handlers are treated as atomic. Two handlers whose awaits interleave are not modelled.
- Strings: modelled as sequences of Unicode scalar values rather than UTF-16 code units. This affects `charCodeAt` only above U+FFFF, which `atob` never produces.
- Other page behaviour: the "go to cake" navigation is not modelled.
- Other pages: `script.js` and `cake.js` are not modelled. They only wire up animations, audio and page navigation.
