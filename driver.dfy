/** The main loop of thumbnail_maker.py that turns the downloaded files into the list
    of thumbnails to upload (lines 316-328). */
module Driver {
  import opened Results
  import opened Imaging
  import opened Paths

  /** A downloaded file as the loop meets it: its path, what `Image.open` decodes from
      it (`None` when it raises), and whether the work inside the loop's `try` block
      (the thumbnail and its JPEG save) completed. */
  datatype Download = Download(path: string, image: Option<Raster>, saved: bool)

  ghost predicate WellFormed(files: seq<Download>)
  {
    forall i :: 0 <= i < |files| && files[i].image.Some? ==> files[i].image.value.Valid()
  }

  /** The outcome of the loop over `files`: the names of the saved thumbnails, in
      order; or the error that stops the run. `Image.open`, `convert_to_jpeg` and the
      mode check of `make_thumbnail` are outside what `except Exception` catches, so a
      file that cannot be opened or an invalid mode ends the whole run. */
  function UploadList(files: seq<Download>, mode: string): (r: Result<seq<string>>)
    requires WellFormed(files)
    ensures r.Ok? ==> |r.value| <= |files|
    ensures r.Ok? ==> forall k :: 0 <= k < |r.value| ==> !HasRenamedExtension(r.value[k])
  {
    if files == [] then Ok([])
    else
      var file := files[|files| - 1];
      match UploadList(files[..|files| - 1], mode)
      case Fail(e) => Fail(e)
      case Ok(uploads) =>
        if file.image.None? then Fail(OpenFailed(file.path))
        else
          match ThumbnailOf(ConvertToJpeg(file.image.value), DefaultMinSize, White, mode)
          case Fail(e) => Fail(e)
          case Ok(_) => Ok(if file.saved then uploads + [JpgName(file.path)] else uploads)
  }

  /** The main loop: each file is opened, converted and made into a thumbnail, which is
      saved under the renamed file name and listed for upload. */
  method BuildUploadList(files: seq<Download>, mode: string) returns (r: Result<seq<string>>)
    requires WellFormed(files)
    ensures r == UploadList(files, mode)
  {
    var uploads: seq<string> := [];
    for i := 0 to |files|
      invariant UploadList(files[..i], mode) == Ok(uploads)
    {
      assert files[..i + 1][..i] == files[..i];
      var file := files[i];
      if file.image.None? {
        r := Fail(OpenFailed(file.path));
        UploadListStopsAtFailure(files, i + 1, mode);
        return;
      }
      var img := ConvertToJpeg(file.image.value);
      var thumbnail := MakeThumbnail(img, DefaultMinSize, White, mode);
      if thumbnail.Fail? {
        r := Fail(thumbnail.error);
        UploadListStopsAtFailure(files, i + 1, mode);
        return;
      }
      var filename := JpgName(file.path);
      if file.saved {
        uploads := uploads + [filename];
      }
    }
    assert files[..|files|] == files;
    r := Ok(uploads);
  }

  /** Once a prefix of the files has stopped the run, the files after it change
      nothing. */
  lemma {:induction false} UploadListStopsAtFailure(files: seq<Download>, k: nat, mode: string)
    requires WellFormed(files) && k <= |files|
    requires UploadList(files[..k], mode).Fail?
    ensures UploadList(files, mode) == UploadList(files[..k], mode)
  {
    if k < |files| {
      var init := files[..|files| - 1];
      assert init[..k] == files[..k];
      UploadListStopsAtFailure(init, k, mode);
    } else {
      assert files[..k] == files;
    }
  }

  /** The names of the files whose thumbnails were saved, renamed, in order. */
  function SavedNames(files: seq<Download>): seq<string>
  {
    if files == [] then []
    else
      var file, names := files[|files| - 1], SavedNames(files[..|files| - 1]);
      if file.saved then names + [JpgName(file.path)] else names
  }

  /** With a valid mode and files that all open, the run lists exactly the thumbnails
      that were saved, in the files' order; a file whose save failed is skipped and the
      run goes on. */
  lemma {:induction false} UploadListWhenAllOpen(files: seq<Download>, mode: string)
    requires WellFormed(files)
    requires mode == "pad" || mode == "crop"
    requires forall i :: 0 <= i < |files| ==> files[i].image.Some?
    ensures UploadList(files, mode) == Ok(SavedNames(files))
  {
    if files != [] {
      var init := files[..|files| - 1];
      assert forall i :: 0 <= i < |init| ==> init[i] == files[i];
      UploadListWhenAllOpen(init, mode);
      var file := files[|files| - 1];
      assert file.image.Some? && file.image.value.Valid();
      var img := ConvertToJpeg(file.image.value);
      assert img.Valid();
      assert ThumbnailOf(img, DefaultMinSize, White, mode).Ok?;
    }
  }

  /** An invalid mode stops the run at the first file that opens, with the mode's
      error message, before any thumbnail is listed. */
  lemma UploadListInvalidMode(files: seq<Download>, mode: string)
    requires WellFormed(files)
    requires mode != "pad" && mode != "crop"
    requires files != [] && files[0].image.Some?
    ensures UploadList(files, mode) == Fail(ExitError("Thumbnail mode: " + mode + " is invalid."))
  {
    assert files[..1][..0] == [];
    UploadListStopsAtFailure(files, 1, mode);
  }

  /** With no files the loop body never runs, so an invalid mode is not noticed. */
  lemma UploadListNoFiles(mode: string)
    ensures UploadList([], mode) == Ok([])
  {
  }

  /** A file that cannot be opened stops the run when the loop reaches it. */
  lemma UploadListOpenFailure(files: seq<Download>, k: nat, mode: string)
    requires WellFormed(files)
    requires mode == "pad" || mode == "crop"
    requires k < |files| && files[k].image.None?
    requires forall i :: 0 <= i < k ==> files[i].image.Some?
    ensures UploadList(files, mode) == Fail(OpenFailed(files[k].path))
  {
    var prefix := files[..k + 1];
    assert prefix[..k] == files[..k];
    UploadListWhenAllOpen(files[..k], mode);
    UploadListStopsAtFailure(files, k + 1, mode);
  }
}
