# nature-thumbnail-maker: a Dafny model of its thumbnail logic

`thumbnail_maker.py` scrapes a Nature Asia journal's article listing for DOIs. It asks
a content API for each article's image and downloads it. It turns each image into a
200 × 200 JPEG thumbnail, in `pad` or `crop` mode, and uploads it to a MinIO bucket
under `ja-jp/<journal>/img/articles/<file>`. This project models the deterministic
logic of that script and proves properties of it:

- `strings.dfy` (module `Strings`): the Python string operations the script relies on.
  These are `split(sep).pop()`, `strip()` (with Python's exact `isspace` set), and
  `lstrip(chars)`, which drops a leading run of characters from a set.
- `scraper.dfy` (module `Scraper`): how `natureasia_scraper1` turns each article's DOI
  text into an identifier, and its accumulation loop as a method. The loop is modelled
  as written. The list it returns is compared with the list the corrected identifier
  gives (see "## Findings").
- `paths.dfy` (module `Paths`): the download file name `"{doi}.{ext}"`, the
  `re.sub(r'\.(png|tiff|bmp)$', '.jpg', file)` rename, and the object-store key of
  `upload_file`.
- `cli.dfy` (module `Cli`): `parse_args`.
- `imaging.dfy` (module `Imaging`): `convert_to_jpeg` and `make_thumbnail`. In pad
  mode, an `array2` canvas is filled with the fill colour and the source is pasted onto
  it in place by a nested loop (`Paste`). The method is proved equal to a pure
  description of the canvas (`PadComposite`).
- `driver.dfy` (module `Driver`): the main loop that builds `upload_list`, as a method
  proved against a recursive function.
- `results.dfy` (module `Results`): `exit_error(message)` becomes
  `Fail(ExitError(message))`. An exception that escapes the main loop becomes
  `Fail(OpenFailed(path))`.

Pixels are RGB triples. `Image.resize(..., ANTIALIAS)` and `ImageOps.fit` are kept
symbolic. A `Thumbnail` records what was resampled or fitted, and to what size. So
only the size of the final image is modelled, not its resampled pixels.

Some behaviour of the script is easy to misread. The model follows the code:

- A downloaded file that `Image.open` cannot read is not skipped. `Image.open` and
  `convert_to_jpeg` run outside the loop's `try`, so the exception ends the whole run.
  `Driver.UploadListOpenFailure` states this. Only failures inside the `try` block (the
  thumbnail and its save) skip the file.
- An invalid mode is only noticed inside `make_thumbnail`. It ends the run at the first
  file, if that file opens (`Driver.UploadListInvalidMode`); otherwise the open failure
  ends the run. With no files it is never noticed (`Driver.UploadListNoFiles`).
- The scraper does not remove the prefix `10.1038/`. It removes every leading character
  from the set {`1`, `0`, `.`, `3`, `8`, `/`}. `Scraper.ExtractDoi` models that line as
  written, and `Scraper.ScrapeDois` builds its list with it; see "## Findings".
- Only `.png`, `.tiff` and `.bmp` names are renamed to `.jpg`. For any other extension,
  the thumbnail is saved under the downloaded file's own name and overwrites it.

## Model

| member | source | states |
|---|---|---|
| `Strings.LastField` | thumbnail_maker.py:104 | `split(sep).pop()` is a suffix of its input and holds no separator. Either it is the whole input, or a separator stands just before it. |
| `Strings.LastFieldAfterSeparator` | thumbnail_maker.py:161-162 | Whatever precedes the last separator, the last field of `prefix + sep + x` is `x`. |
| `Strings.LStrip` | thumbnail_maker.py:105 | `lstrip` returns a suffix of its input. Every removed character is in the set. The result is empty or starts with a character outside the set. |
| `Strings.IsSpaceExactly` | thumbnail_maker.py:104 | The characters `strip()` removes are exactly Python's 29 whitespace characters, listed one by one. |
| `Strings.RStrip` | thumbnail_maker.py:104 | Trimming the end returns a prefix of its input. Every removed character satisfies the predicate. The result is empty or ends with a character that does not. |
| `Strings.Strip` | thumbnail_maker.py:104 | `strip()` adds no character. The result is empty or starts and ends with a non-whitespace character. Everything removed before it is whitespace, it is a prefix of the left-trimmed text, and everything removed after it is whitespace. |
| `Strings.StripKeepsTrimmed` | thumbnail_maker.py:104 | A text without surrounding whitespace is its own `strip()`, so `strip()` is idempotent. |
| `Scraper.DoiText` | thumbnail_maker.py:104 | The text after the last `:` of the DOI field, stripped, holds no `:` and has no whitespace at either end. Only whitespace was removed from that field on either side. |
| `Scraper.ExtractDoi` | thumbnail_maker.py:104-105 | The identifier is a suffix of the stripped text. Everything cut off is in {`1`,`0`,`.`,`3`,`8`,`/`}. It does not start with such a character, and it holds no `:`. |
| `Scraper.DoiList` | thumbnail_maker.py:100-106 | The list has at most one identifier per article. |
| `Scraper.ScrapeDois` | thumbnail_maker.py:100-106 | The `for`/`append` loop returns exactly `DoiList(texts, ExtractDoi)`: one identifier per non-empty DOI text, as line 105 computes it, in page order. |
| `Scraper.DoiListAppend` | thumbnail_maker.py:100-106 | Scraping two runs of articles gives the first run's identifiers followed by the second's, so page order is kept. |
| `Scraper.DoiListSources` | thumbnail_maker.py:101-106 | Every listed identifier comes from an article whose DOI text is non-empty. |
| `Scraper.DoiListContains` | thumbnail_maker.py:101-106 | Every article whose DOI text is non-empty contributes its identifier. |
| `Scraper.DoiListSkipsEmpty` | thumbnail_maker.py:103 | Articles with an empty DOI text contribute nothing. |
| `Scraper.DoiListAgrees` | thumbnail_maker.py:100-106 | Two ways of computing one article's identifier that agree on every listed article give the same list. |
| `Scraper.DoiListDiffers` | thumbnail_maker.py:100-106 | Two ways that disagree on one listed article give different lists. |
| `Scraper.DoiListAgreesOnLetterSuffixes` | thumbnail_maker.py:100-106 | When every listed suffix after `10.1038/` starts outside the set, the loop as written returns exactly the intended list. |
| `Scraper.DoiListDiffersOnSetChar` | thumbnail_maker.py:100-106 | One listed suffix starting with a set character makes the loop as written return a list other than the intended one. |
| `Scraper.RemovePrefix` | thumbnail_maker.py:105 | The intended identifier is a suffix of the stripped text. When that text starts with `10.1038/`, it is exactly what follows those 8 characters. Otherwise it is the whole text. |
| `Scraper.RegistrantSuffix` | thumbnail_maker.py:104-105 | The corrected identifier of one article is a suffix of its DOI text. It is 8 characters shorter when the text starts with `10.1038/`, and otherwise it is the whole text. |
| `Scraper.ExtractDoiEndsIntended` | thumbnail_maker.py:105 | Whatever the DOI text, line 105 as written returns a suffix of the intended identifier. |
| `Scraper.LStripPrefixRun` | thumbnail_maker.py:105 | A leading run of set characters is removed completely, whatever follows it. |
| `Scraper.LStripVersusRemovePrefix` | thumbnail_maker.py:105 | On a text starting with `10.1038/`, the character set and the prefix removal give the same suffix when it does not start with a set character. When it does, the set gives something strictly shorter. |
| `Scraper.DoiTextAfterColon` | thumbnail_maker.py:104 | A field whose text after its last `:` has no surrounding whitespace reads as exactly that text. |
| `Scraper.ExtractDoiAgreesOnLetterSuffix` | thumbnail_maker.py:105 | When the character after `10.1038/` is outside the set, as in `s41586-…`, the code as written gives the intended identifier. |
| `Scraper.ExtractDoiLosesSetChar` | thumbnail_maker.py:105 | When the character after `10.1038/` is a set character, the code as written returns less than the intended identifier. |
| `Scraper.NumericSuffixLosesDigit` | thumbnail_maker.py:105 | `doi:10.1038/35057062` yields `5057062` as written, where the prefix removal yields `35057062`. |
| `Paths.Extension` | thumbnail_maker.py:161-162 | The extension holds no `/` and no `.`. It ends the link's last `/`-segment, and it is that whole segment when the segment has no `.`. Otherwise a `.` stands just before it. |
| `Paths.DownloadName` | thumbnail_maker.py:163 | The download name starts with the identifier and a `.`, its last `.`-field is the link's extension, and nothing lies between them: its length is that of the identifier, one `.` and the extension. It holds no `/` when the identifier holds none. |
| `Paths.DownloadPath` | thumbnail_maker.py:164 | The path starts with the workspace and a `/`, and nothing lies between them and the download name: its length is that of the workspace, one `/` and the name. For an identifier without `/`, its last component is the download name. |
| `Paths.JpgName` | thumbnail_maker.py:323 | The renamed name no longer ends in `.png`, `.tiff` or `.bmp`. It is at most one character shorter than the original, and never longer. A name that ends in none of them, neither at its end nor before one final newline, is returned unchanged. |
| `Paths.JpgNameReplaces` | thumbnail_maker.py:323 | A name ending in `.png`, `.tiff` or `.bmp`, optionally before one final newline (Python's `$`), keeps everything before the extension and gets `.jpg`. |
| `Paths.JpgNameKeepsOthers` | thumbnail_maker.py:323 | Names ending `.gif`, `.jpeg`, `.jpg` or `.PNG` are left unchanged. |
| `Paths.JpgNameIdempotent` | thumbnail_maker.py:323 | Renaming twice is renaming once. |
| `Paths.JpgNameInDirectory` | thumbnail_maker.py:164 | Renaming a workspace path renames only its last component. |
| `Paths.Basename` | thumbnail_maker.py:247 | `Path.name` holds no `/` and ends the path. Either it is the whole path, or a `/` stands just before it. |
| `Paths.ObjectKey` | thumbnail_maker.py:246-251 | The key starts with `ja-jp/<shortname>/img/articles/`, and its last `/`-field is the uploaded file's base name. Nothing else is in it: its length is that of the prefix plus the base name. |
| `Paths.ThumbnailKey` | thumbnail_maker.py:248-251 | The key uploaded for an identifier without `/` is `ja-jp/<shortname>/img/articles/` followed by the renamed download name, whatever the workspace directory is. |
| `Cli.ParseArgs` | thumbnail_maker.py:225-232 | Success exactly when there are two arguments, which are returned in order. Otherwise the run fails with "Entered too many arguments." or "Entered too few arguments.". |
| `Cli.ParseArgsRoundTrip` | thumbnail_maker.py:225-226 | A command line built from a short name and a mode parses back to them. |
| `Imaging.ConvertToJpeg` | thumbnail_maker.py:213-215 | Size and pixels are kept. The result is RGB or still JPEG-format. A JPEG-format image is returned unchanged. Any other becomes an RGB image with no format. |
| `Imaging.ConvertToJpegIdempotent` | thumbnail_maker.py:213-215 | Converting twice is converting once. |
| `Imaging.PadSide` | thumbnail_maker.py:193 | The canvas side is at least `min_size` and at least each source dimension, and equals one of them: `max(min_size, x, y)`. |
| `Imaging.PadOffset` | thumbnail_maker.py:195 | The offset plus the source extent fits in the side. The margin before the source equals the margin after it, or is one less. |
| `Imaging.PadComposite` | thumbnail_maker.py:192-195 | The composed canvas is a well-formed RGB image without a format. It is a square of side `max(min_size, x, y)`. |
| `Imaging.PadKeepsSource` | thumbnail_maker.py:195 | No source pixel is clipped. Each one is on the canvas at its position plus the paste offset. |
| `Imaging.PadFillsRest` | thumbnail_maker.py:194-195 | Every canvas pixel outside the pasted rectangle has the fill colour. |
| `Imaging.PadSquareIsIdentity` | thumbnail_maker.py:193-195 | A source that is already a `min_size` square is its own canvas, with no fill added. |
| `Imaging.PadLandscapeExample` | thumbnail_maker.py:190-195 | A 400 × 300 source gives a 400 × 400 canvas. Source pixel (r, c) is at (50 + r, c), the 50 rows above are fill, and the `pad` thumbnail is that canvas resized to 200 × 200. |
| `Imaging.PadSinglePixel` | thumbnail_maker.py:193-195 | A 1 × 1 source gives a 200 × 200 canvas whose only source pixel is at (99, 99). Every other pixel is fill. |
| `Imaging.ThumbnailOf` | thumbnail_maker.py:190-201 | Success exactly for `pad` and `crop`, and then the thumbnail is `min_size` × `min_size`. Any other mode fails with "Thumbnail mode: <mode> is invalid.". |
| `Imaging.Paste` | thumbnail_maker.py:195 | After the in-place paste, each canvas cell under the source holds the source pixel and every other cell keeps its colour. Parts outside the canvas are dropped. |
| `Imaging.MakeThumbnail` | thumbnail_maker.py:175-201 | Allocating, filling and pasting onto the `array2` canvas, then resizing, gives exactly `ThumbnailOf`. |
| `Driver.UploadList` | thumbnail_maker.py:316-328 | A completed run lists at most one name per file, and no listed name still ends in `.png`, `.tiff` or `.bmp`. |
| `Driver.BuildUploadList` | thumbnail_maker.py:316-328 | The main loop's `upload_list`, or the error that stops the run, is exactly `UploadList(files, mode)`. |
| `Driver.UploadListStopsAtFailure` | thumbnail_maker.py:317-322 | Once a prefix of the files has stopped the run, later files change nothing. |
| `Driver.UploadListWhenAllOpen` | thumbnail_maker.py:316-328 | With a valid mode and files that all open, the list holds the renamed names of exactly the saved thumbnails, in file order. A failed save skips its file only. |
| `Driver.UploadListInvalidMode` | thumbnail_maker.py:199-200 | When the first file opens, an invalid mode stops the run there, with the mode's error message. |
| `Driver.UploadListNoFiles` | thumbnail_maker.py:316-317 | With no files, the result is an empty list whatever the mode. |
| `Driver.UploadListOpenFailure` | thumbnail_maker.py:318 | With a valid mode, the first file that cannot be opened stops the run with that file's path. |

## Findings

| source | as written | input that shows it | evidently intended | confidence | as-written member | corrected member |
|---|---|---|---|---|---|---|
| thumbnail_maker.py:105 | `doi.lstrip('10.1038/')` removes every leading character from the set {`1`,`0`,`.`,`3`,`8`,`/`} | `doi:10.1038/35057062` gives `5057062` | remove the registrant prefix `10.1038/` and give `35057062`, as the docstring of `get_image_links` ("DOI without the '10.1038'") says | high, not executed | `Scraper.NumericSuffixLosesDigit` | `Scraper.RemovePrefix` |

`Scraper.ExtractDoi` is line 105 as written, and `Scraper.ScrapeDois` builds the
scraper's list with it: `DoiList(texts, ExtractDoi)`. `Scraper.ExtractDoiLosesSetChar`
generalises the example to every suffix that starts with `0`, `1`, `3` or `8`. The
corrected identifier is `Scraper.RegistrantSuffix`, which is `RemovePrefix` applied to
the DOI text, and the intended list is `DoiList(texts, RegistrantSuffix)`.
`Scraper.ExtractDoiAgreesOnLetterSuffix` proves that both give the same identifier
whenever the suffix starts with a character outside the set. That covers current
Nature suffixes such as `s41586-…` and `nature12345`. `Scraper.DoiListAgreesOnLetterSuffixes`
lifts this to the whole list, and `Scraper.DoiListDiffersOnSetChar` shows that a single
numeric suffix makes the two lists differ. `Scraper.ExtractDoiEndsIntended` bounds the
damage: the code as written only ever loses leading characters of the intended
identifier.

## Left out

- Network and storage: `get_html`, `get_image_links` (the HTTP calls and JSON
  navigation), the `urlopen` download, the MinIO client, `bucket_exists` and
  `fput_object`. These are external services. Their results enter the model as
  parameters: the DOI texts, the image links, the decoded images and the save outcome.
- HTML parsing with BeautifulSoup (lines 97-99, 102). The text of each article's DOI
  field is the input of the scraper.
- The scraper-selection loop in the main block (lines 292-304). It holds only one
  scraper, and its `try`/`continue` is process control around `natureasia_scraper1`.
- Pillow's pixel arithmetic: the `ANTIALIAS` resample, `ImageOps.fit`, the colour
  conversion of `convert('RGB')` (alpha dropped, palettes and grey expanded), the mode
  conversion that `paste` applies to non-RGB JPEG sources, and JPEG encoding at quality
  70. Pixels are RGB triples throughout.
- `Imaging.ThumbnailOf`: does not model the resampled or cropped pixels, because the
  resampling filter is floating-point library code. The thumbnail is described by its
  source and requested size only.
- `Imaging.ConvertToJpeg`: does not change pixel values, because the colour conversion
  is left out as above. Only mode, format and size are stated.
- Python's `is not` on strings (lines 43, 213) is modelled as string inequality. This
  matches CPython, which interns the literals involved.
- Filesystem and process control: workspace creation and removal, the lock file, the
  `os.name` check, the random cache-buster query parameter, printing, and
  `exit()`/`KeyboardInterrupt` handling. `exit_error` is modelled as an error result
  that stops the run.
- The unreachable final `else` of `parse_args` (lines 233-234), since the three
  comparisons before it cover every argument count.
- unipath's own checks in `Path.child` and path normalisation are not part of this
  model. `WORKSPACE.child(name)` is modelled as `workspace + "/" + name`, and
  `Path(file).name` as the text after the last `/`. The check that is lost: `Path.child`
  rejects a name that contains `/`. Line 164 lies outside `download_image`'s `try`, so
  such a name ends the whole run, where `Paths.DownloadPath` returns a longer path. A
  DOI from another registrant shows it: `10.1126/x` becomes `26/x` after line 105.
