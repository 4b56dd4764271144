/** The memory gallery page: a page-wide list of image sources and a cursor
    into it, changed by the add, change, clear, previous, next and thumbnail
    handlers and set up by `init`. Every browser or network answer a handler
    waits for (the decoded picture, the upload response, whether a storage
    write throws, the user's confirmation) is an input. */
module Gallery {
  import opened Wrappers
  import opened JsMath
  import opened Cursor
  import opened Resize
  import opened DataUrl
  import opened Storage
  import opened Filename

  /** The Cloudinary account and unsigned preset the page is set up with. */
  const CloudName: string := "dpdvqfoyf"
  const UploadPreset: string := "img_preset"

  /** Uploads are attempted only when both settings are non-empty. */
  predicate CloudConfigured() {
    CloudName != "" && UploadPreset != ""
  }

  /** What `uploadToCloudinary` gives back: a throw (network error, a
      non-2xx status), or the response's `secure_url` and `url` fields, with
      the empty string standing for a missing field. */
  datatype UploadResponse = UploadFailed | UploadOk(secureUrl: string, url: string)

  /** A file the user picked: its MIME type, its name, the data URL
      `FileReader` reads it as, what decoding that data URL as a picture
      gives, and what the upload endpoint answers for it. */
  datatype SelectedFile = SelectedFile(
    mimeType: string,
    name: string,
    dataUrl: string,
    decoded: Decoded,
    upload: UploadResponse)

  /** `type.startsWith('image/')`. */
  predicate IsImageType(t: string) {
    |t| >= 6 && t[..6] == "image/"
  }

  /** The data URL `resizeImageFile(file, 1200, 0.78)` resolves to. */
  function CompressedDataUrl(f: SelectedFile): string {
    ResizeImageFile(f.dataUrl, f.decoded, MaxDim)
  }

  /** `publicUrl` after the upload step: the response's `secure_url || url`,
      or the empty string (JavaScript's `null`) when no upload was made or
      it threw. */
  function PublicUrl(r: UploadResponse): string {
    if CloudConfigured() && r.UploadOk? then
      (if r.secureUrl != "" then r.secureUrl else r.url)
    else ""
  }

  /** `publicUrl || compressedDataUrl`: the source the list receives. */
  function UrlToStore(f: SelectedFile): string {
    var publicUrl := PublicUrl(f.upload);
    if publicUrl != "" then publicUrl else CompressedDataUrl(f)
  }

  /** The source an image file contributes, or `None` when `dataURLToBlob`
      throws on its compressed data URL (which ends the handler). */
  function EntryFor(f: SelectedFile, atob: string -> Option<string>): Option<string> {
    if BlobOf(CompressedDataUrl(f), atob).None? then None else Some(UrlToStore(f))
  }

  /** A call of `uploadToCloudinary`: the blob and the file name sent. */
  datatype UploadRequest = UploadRequest(blob: Blob, filename: string)

  /** The upload a handler makes for an image file whose blob was built:
      one request carrying that blob under the file's name with its
      whitespace runs turned into underscores, if uploads are configured. */
  function UploadsFor(f: SelectedFile, atob: string -> Option<string>): seq<UploadRequest>
    requires BlobOf(CompressedDataUrl(f), atob).Some?
  {
    if CloudConfigured() then [UploadRequest(BlobOf(CompressedDataUrl(f), atob).value, Sanitize(f.name))] else []
  }

  /** What the add handler's loop does with the selection: the sources it
      pushes, the uploads it makes, and whether it was cut short by a throw. */
  datatype AddRun = AddRun(entries: seq<string>, uploads: seq<UploadRequest>, aborted: bool)

  /** The add loop over `files`, file by file in selection order: files
      whose type is not an image are skipped; an image file pushes its
      source, unless `dataURLToBlob` throws, which ends the loop. */
  function AddLoop(files: seq<SelectedFile>, atob: string -> Option<string>): AddRun
    decreases |files|
  {
    if files == [] then AddRun([], [], false)
    else
      var before := AddLoop(files[..|files| - 1], atob);
      var f := files[|files| - 1];
      if before.aborted || !IsImageType(f.mimeType) then before
      else
        match EntryFor(f, atob)
        case None => before.(aborted := true)
        case Some(e) => AddRun(before.entries + [e], before.uploads + UploadsFor(f, atob), false)
  }

  /** One more file of the selection: the loop over `files[..i + 1]` is the
      loop over `files[..i]` followed by the step for `files[i]`. */
  lemma AddLoopStep(files: seq<SelectedFile>, atob: string -> Option<string>, i: nat)
    requires i < |files|
    ensures var before := AddLoop(files[..i], atob);
      var f := files[i];
      AddLoop(files[..i + 1], atob) ==
        if before.aborted || !IsImageType(f.mimeType) then before
        else if BlobOf(CompressedDataUrl(f), atob).None? then before.(aborted := true)
        else AddRun(before.entries + [UrlToStore(f)], before.uploads + UploadsFor(f, atob), false)
  {
    assert files[..i + 1][..i] == files[..i];
  }

  /** The image files of a selection, in selection order. */
  function ImageFiles(files: seq<SelectedFile>): seq<SelectedFile>
    decreases |files|
  {
    if files == [] then []
    else
      var f := files[|files| - 1];
      ImageFiles(files[..|files| - 1]) + (if IsImageType(f.mimeType) then [f] else [])
  }

  /** The add loop pushes, in selection order, the source of each image
      file: all of them when it runs to the end, a proper prefix of them when
      it is cut short. Each pushed file had its blob built, and with uploads
      configured each was uploaded once, in the same order. The loop is cut
      short exactly when `dataURLToBlob` throws for one of the image files,
      and it stops at the first such file. */
  lemma {:induction false} AddLoopEntries(files: seq<SelectedFile>, atob: string -> Option<string>)
    ensures var run := AddLoop(files, atob);
      && (if run.aborted then |run.entries| < |ImageFiles(files)| else |run.entries| == |ImageFiles(files)|)
      && (forall k | 0 <= k < |run.entries| ::
            && run.entries[k] == UrlToStore(ImageFiles(files)[k])
            && BlobOf(CompressedDataUrl(ImageFiles(files)[k]), atob).Some?)
      && (if CloudConfigured() then |run.uploads| == |run.entries| else run.uploads == [])
      && (forall k | 0 <= k < |run.uploads| ::
            run.uploads[k] == UploadRequest(BlobOf(CompressedDataUrl(ImageFiles(files)[k]), atob).value,
                                            Sanitize(ImageFiles(files)[k].name)))
    decreases |files|
  {
    if files != [] {
      var prefix := files[..|files| - 1];
      AddLoopEntries(prefix, atob);
    }
  }

  /** The add loop is cut short exactly when `dataURLToBlob` throws for one
      of the image files, and then it stops at the first such file: the one
      right after the files whose sources it pushed. */
  lemma {:induction false} AddLoopAborts(files: seq<SelectedFile>, atob: string -> Option<string>)
    ensures var run := AddLoop(files, atob);
      && (run.aborted <==>
            exists k | 0 <= k < |ImageFiles(files)| :: BlobOf(CompressedDataUrl(ImageFiles(files)[k]), atob).None?)
      && (run.aborted ==>
            && |run.entries| < |ImageFiles(files)|
            && BlobOf(CompressedDataUrl(ImageFiles(files)[|run.entries|]), atob).None?)
    decreases |files|
  {
    if files != [] {
      var prefix := files[..|files| - 1];
      var f := files[|files| - 1];
      AddLoopAborts(prefix, atob);
      AddLoopEntries(prefix, atob);
      var before := AddLoop(prefix, atob);
      var run := AddLoop(files, atob);
      var imgs := ImageFiles(prefix);
      var all := ImageFiles(files);
      assert all == imgs + (if IsImageType(f.mimeType) then [f] else []);
      assert forall k | 0 <= k < |imgs| :: all[k] == imgs[k];
      if before.aborted || !IsImageType(f.mimeType) {
        assert run == before;
        if !IsImageType(f.mimeType) {
          assert all == imgs;
        }
      } else if BlobOf(CompressedDataUrl(f), atob).None? {
        assert run == before.(aborted := true);
        assert all[|imgs|] == f;
      } else {
        assert !run.aborted;
        assert all[|imgs|] == f;
        assert forall k | 0 <= k < |all| :: BlobOf(CompressedDataUrl(all[k]), atob).Some?;
      }
    }
  }

  /** A selection without image files pushes nothing and runs to the end. */
  lemma {:induction false} AddLoopNoImages(files: seq<SelectedFile>, atob: string -> Option<string>)
    requires forall f <- files :: !IsImageType(f.mimeType)
    ensures AddLoop(files, atob) == AddRun([], [], false)
    decreases |files|
  {
    if files != [] {
      var prefix := files[..|files| - 1];
      assert forall f <- prefix :: f in files;
      assert files[|files| - 1] in files;
      AddLoopNoImages(prefix, atob);
    }
  }

  /** Once the loop has been cut short, later files change nothing. */
  lemma {:induction false} AddLoopStopped(files: seq<SelectedFile>, atob: string -> Option<string>, j: nat)
    requires j <= |files| && AddLoop(files[..j], atob).aborted
    ensures AddLoop(files, atob) == AddLoop(files[..j], atob)
    decreases |files|
  {
    if j < |files| {
      var prefix := files[..|files| - 1];
      assert prefix[..j] == files[..j];
      AddLoopStopped(prefix, atob, j);
    } else {
      assert files[..j] == files;
    }
  }

  /** The change handler gets past its checks with `file`: an image file
      whose blob was built. */
  predicate Replaces(file: Option<SelectedFile>, atob: string -> Option<string>) {
    file.Some? && IsImageType(file.value.mimeType) && EntryFor(file.value, atob).Some?
  }

  /** The messages the handlers show with `alert`. */
  datatype Alert =
    | NoAlert
    | SaveListFailed      // the list could not be saved after an add
    | NoImagesToChange    // "change" was clicked with an empty list
    | NotAnImage          // the replacement file is not an image
    | SaveUpdateFailed    // the list could not be saved after a change
    | NothingToClear      // "clear all" was clicked with an empty list
    | ClearFailed         // the emptied list could not be saved

  /** The gallery state of one page. */
  class Gallery {
    var images: seq<string>
    var currentIndex: int
    const storage: BrowserStorage

    /** The cursor is -1 only after an add that left the list empty; a later
        add cut short by a throw keeps that -1 on a list that is no longer
        empty. Otherwise it points into the list, except for 0 on an empty
        list (at page load and after a clear). */
    ghost predicate Valid()
      reads this
    {
      -1 <= currentIndex && (currentIndex == 0 || currentIndex < |images|)
    }

    /** `init()`: the list starts empty with cursor 0, is loaded from the
        stores and, when it is not empty, its first image is shown. */
    constructor Init(storage: BrowserStorage, faults: ReadFaults)
      ensures Valid()
      ensures this.storage == storage
      ensures images == Load(storage.Contents(), faults)
      ensures currentIndex == 0
    {
      this.storage := storage;
      images := [];
      currentIndex := 0;
      new;
      LoadImagesFromStorage(faults);
      if |images| > 0 {
        var src := ShowImage(0);
      }
    }

    /** `loadImagesFromStorage()`: replaces the list by what the stores hold. */
    method LoadImagesFromStorage(faults: ReadFaults)
      modifies this`images
      ensures images == Load(storage.Contents(), faults)
    {
      if !faults.localThrows && storage.local.ArrayOf? {
        images := storage.local.items;
        return;
      }
      if !faults.idbFails && storage.idb.ArrayOf? {
        images := storage.idb.items;
        return;
      }
      images := [];
    }

    /** `saveImagesToStorage()`: writes the list to localStorage, or to
        IndexedDB when that write throws; `ok` tells whether either worked. */
    method SaveImagesToStorage(faults: WriteFaults) returns (ok: bool)
      modifies storage
      ensures Saved(ok, storage.Contents()) == Save(old(storage.Contents()), images, faults)
    {
      if !faults.localThrows {
        storage.local := ArrayOf(images);
        return true;
      }
      if !faults.idbThrows {
        storage.idb := ArrayOf(images);
        return true;
      }
      return false;
    }

    /** `showImage(index)`: with an empty list only the "no images" display
        is set up (`src` is the empty source it shows); otherwise the cursor
        becomes `index` wrapped into the list and that image is shown. */
    method ShowImage(index: int) returns (src: string)
      modifies this`currentIndex
      ensures images == [] ==> currentIndex == old(currentIndex) && src == ""
      ensures images != [] ==> currentIndex == Normalize(index, |images|) && src == images[currentIndex]
    {
      if |images| == 0 {
        return "";
      }
      currentIndex := JsRem(JsRem(index, |images|) + |images|, |images|);
      src := images[currentIndex];
    }

    /** The "previous" button: on a non-empty list, one step back with wrap-around. */
    method PrevClicked()
      requires Valid()
      modifies this`currentIndex
      ensures Valid()
      ensures images == [] ==> currentIndex == old(currentIndex)
      ensures images != [] ==> currentIndex == Prev(old(currentIndex), |images|)
    {
      if |images| > 0 {
        currentIndex := JsRem(currentIndex - 1 + |images|, |images|);
        var src := ShowImage(currentIndex);
      }
    }

    /** The "next" button: on a non-empty list, one step forward with wrap-around. */
    method NextClicked()
      requires Valid()
      modifies this`currentIndex
      ensures Valid()
      ensures images == [] ==> currentIndex == old(currentIndex)
      ensures images != [] ==> currentIndex == Next(old(currentIndex), |images|)
    {
      if |images| > 0 {
        currentIndex := JsRem(currentIndex + 1, |images|);
        var src := ShowImage(currentIndex);
      }
    }

    /** The arrow keys click "previous" and "next". */
    method KeyDown(key: string)
      requires Valid()
      modifies this`currentIndex
      ensures Valid()
      ensures key == "ArrowLeft" && images != [] ==> currentIndex == Prev(old(currentIndex), |images|)
      ensures key == "ArrowRight" && images != [] ==> currentIndex == Next(old(currentIndex), |images|)
      ensures (key != "ArrowLeft" && key != "ArrowRight") || images == [] ==> currentIndex == old(currentIndex)
    {
      if key == "ArrowLeft" {
        PrevClicked();
      }
      if key == "ArrowRight" {
        NextClicked();
      }
    }

    /** A click on the thumbnail of image `idx` (thumbnails are drawn from
        the current list) shows that image. */
    method ThumbnailClicked(idx: int)
      requires Valid() && 0 <= idx < |images|
      modifies this`currentIndex
      ensures Valid() && currentIndex == idx
    {
      currentIndex := idx;
      var src := ShowImage(currentIndex);
    }

    /** The add handler: each picked image file is compressed, uploaded and
        its source pushed, in order; then the list is saved once and the
        last image shown. With no file picked nothing happens; a throw from
        `dataURLToBlob` ends the handler with what was pushed so far, unsaved. */
    method AddImages(files: seq<SelectedFile>, atob: string -> Option<string>, faults: WriteFaults)
      returns (alert: Alert, sent: seq<UploadRequest>)
      requires Valid()
      modifies this, storage
      ensures Valid()
      ensures files == [] ==> images == old(images) && sent == []
      ensures files != [] ==> images == old(images) + AddLoop(files, atob).entries
      ensures files != [] ==> sent == AddLoop(files, atob).uploads
      ensures files == [] || AddLoop(files, atob).aborted ==>
        currentIndex == old(currentIndex) && storage.Contents() == old(storage.Contents()) && alert == NoAlert
      ensures files != [] && !AddLoop(files, atob).aborted ==>
        var saved := Save(old(storage.Contents()), images, faults);
        && storage.Contents() == saved.slots
        && currentIndex == |images| - 1
        && alert == (if saved.ok then NoAlert else SaveListFailed)
    {
      sent := [];
      if |files| == 0 {
        return NoAlert, sent;
      }
      var i := 0;
      while i < |files|
        invariant 0 <= i <= |files|
        invariant images == old(images) + AddLoop(files[..i], atob).entries
        invariant sent == AddLoop(files[..i], atob).uploads
        invariant !AddLoop(files[..i], atob).aborted
        invariant currentIndex == old(currentIndex)
        invariant storage.Contents() == old(storage.Contents())
      {
        var file := files[i];
        AddLoopStep(files, atob, i);
        if !IsImageType(file.mimeType) {
          i := i + 1;
          continue;
        }
        var compressedDataUrl := ResizeImageFile(file.dataUrl, file.decoded, MaxDim);
        var blob := DataUrlToBlob(compressedDataUrl, atob);
        if blob.None? {
          AddLoopStopped(files, atob, i + 1);
          return NoAlert, sent;
        }
        var publicUrl := "";
        if CloudConfigured() {
          sent := sent + [UploadRequest(blob.value, Sanitize(file.name))];
          publicUrl := PublicUrl(file.upload);
        }
        var urlToStore := if publicUrl != "" then publicUrl else compressedDataUrl;
        images := images + [urlToStore];
        i := i + 1;
      }
      assert files[..i] == files;
      var ok := SaveImagesToStorage(faults);
      alert := if ok then NoAlert else SaveListFailed;
      currentIndex := |images| - 1;
      var src := ShowImage(currentIndex);
    }

    /** The "change" button: opens the file picker when there is an image to
        replace, and otherwise only alerts. */
    method ChangeClicked() returns (opensPicker: bool, alert: Alert)
      ensures opensPicker <==> images != []
      ensures alert == if images == [] then NoImagesToChange else NoAlert
    {
      if |images| == 0 {
        return false, NoImagesToChange;
      }
      return true, NoAlert;
    }

    /** The change handler (reachable only through the picker, so the list is
        not empty): the current image is replaced by the picked file's
        source, the list saved and the current image shown again. A missing
        or non-image file, or a throw from `dataURLToBlob`, changes nothing.
        A cursor of -1 names no element, so writing there leaves the list as
        it is. */
    method ChangeImage(file: Option<SelectedFile>, atob: string -> Option<string>, faults: WriteFaults)
      returns (alert: Alert, sent: seq<UploadRequest>)
      requires Valid() && images != []
      modifies this, storage
      ensures Valid()
      ensures sent == if file.Some? && IsImageType(file.value.mimeType) && EntryFor(file.value, atob).Some?
                      then UploadsFor(file.value, atob) else []
      ensures file.Some? && !IsImageType(file.value.mimeType) ==> alert == NotAnImage
      ensures file.None? || !IsImageType(file.value.mimeType) || EntryFor(file.value, atob).None? ==>
        && images == old(images) && currentIndex == old(currentIndex)
        && storage.Contents() == old(storage.Contents())
        && (file.None? || IsImageType(file.value.mimeType) ==> alert == NoAlert)
      ensures file.Some? && IsImageType(file.value.mimeType) && EntryFor(file.value, atob).Some? ==>
        var saved := Save(old(storage.Contents()), images, faults);
        && images == (if old(currentIndex) >= 0 then old(images)[old(currentIndex) := EntryFor(file.value, atob).value] else old(images))
        && currentIndex == Normalize(old(currentIndex), |images|)
        && storage.Contents() == saved.slots
        && alert == (if saved.ok then NoAlert else SaveUpdateFailed)
    {
      sent := [];
      if file.None? {
        return NoAlert, sent;
      }
      var f := file.value;
      if !IsImageType(f.mimeType) {
        return NotAnImage, sent;
      }
      var compressedDataUrl := ResizeImageFile(f.dataUrl, f.decoded, MaxDim);
      var blob := DataUrlToBlob(compressedDataUrl, atob);
      if blob.None? {
        return NoAlert, sent;
      }
      var publicUrl := "";
      if CloudConfigured() {
        sent := [UploadRequest(blob.value, Sanitize(f.name))];
        publicUrl := PublicUrl(f.upload);
      }
      var newUrl := if publicUrl != "" then publicUrl else compressedDataUrl;
      if currentIndex >= 0 {
        images := images[currentIndex := newUrl];
      }
      var ok := SaveImagesToStorage(faults);
      alert := if ok then NoAlert else SaveUpdateFailed;
      var src := ShowImage(currentIndex);
    }

    /** The whole change flow: a click on "change", then, only if that opened
        the picker, the change handler on the file picked there. With an
        empty list the user is alerted and the picked file never consulted;
        otherwise at most the entry under the cursor is replaced, and only
        by an image file whose blob was built. */
    method ChangeCurrent(file: Option<SelectedFile>, atob: string -> Option<string>, faults: WriteFaults)
      returns (alert: Alert, sent: seq<UploadRequest>)
      requires Valid()
      modifies this, storage
      ensures Valid()
      ensures old(images) == [] ==>
        && images == old(images) && currentIndex == old(currentIndex)
        && storage.Contents() == old(storage.Contents())
        && alert == NoImagesToChange && sent == []
      ensures old(images) != [] ==>
        && |images| == |old(images)|
        && (forall k | 0 <= k < |images| && k != old(currentIndex) :: images[k] == old(images)[k])
        && (0 <= old(currentIndex) && Replaces(file, atob) ==> images[old(currentIndex)] == UrlToStore(file.value))
        && (images != old(images) ==> Replaces(file, atob))
      ensures old(images) != [] && Replaces(file, atob) ==>
        var saved := Save(old(storage.Contents()), images, faults);
        && currentIndex == Normalize(old(currentIndex), |images|)
        && storage.Contents() == saved.slots
        && alert == (if saved.ok then NoAlert else SaveUpdateFailed)
        && sent == UploadsFor(file.value, atob)
      ensures old(images) != [] && !Replaces(file, atob) ==>
        && currentIndex == old(currentIndex) && storage.Contents() == old(storage.Contents())
        && sent == []
    {
      var opensPicker;
      opensPicker, alert := ChangeClicked();
      sent := [];
      if opensPicker {
        alert, sent := ChangeImage(file, atob, faults);
      }
    }

    /** The "clear all" button: with an empty list it only alerts; if the
        user confirms, the list is emptied, the cursor reset and the empty
        list saved; if not, nothing changes. */
    method ClearAll(confirmed: bool, faults: WriteFaults) returns (alert: Alert)
      requires Valid()
      modifies this, storage
      ensures Valid()
      ensures old(images) == [] || !confirmed ==>
        && images == old(images) && currentIndex == old(currentIndex)
        && storage.Contents() == old(storage.Contents())
        && alert == (if old(images) == [] then NothingToClear else NoAlert)
      ensures old(images) != [] && confirmed ==>
        var saved := Save(old(storage.Contents()), [], faults);
        && images == [] && currentIndex == 0
        && storage.Contents() == saved.slots
        && alert == (if saved.ok then NoAlert else ClearFailed)
    {
      if |images| == 0 {
        return NothingToClear;
      }
      if !confirmed {
        return NoAlert;
      }
      images := [];
      currentIndex := 0;
      var ok := SaveImagesToStorage(faults);
      alert := if ok then NoAlert else ClearFailed;
      var src := ShowImage(currentIndex);
    }
  }
}
