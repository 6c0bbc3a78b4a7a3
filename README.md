# gyazo-exporter, modelled in Dafny

gyazo-exporter is a small Go program (`main.go`). It moves every image out of
a Gyazo account into a local `images/` folder. It lists a page of images, and
for each image that has a URL it:

1. builds a file name from the image's metadata (`getNewFileName`);
2. strips the nine characters of the regular expression `[\\/:*?"<>|]`,
   which Windows refuses in file names;
3. downloads the image under that name;
4. deletes the image from the account once the download has succeeded.

It then lists again, until a listing comes back empty. Any failure on the
way (a listing, a download or a delete) ends the program.

The model has four modules:

- `Api` (`Api.dfy`): the record the listing returns for one image. It keeps
  the URL, the image id, the `metadata.app` label, the creation timestamp and
  the file type.
- `GoStrings` (`GoStrings.dfy`): the two functions of Go's `strings` package
  that the name builder calls. `TrimSpace` is a forward scan and a backward
  scan over white space, followed by a slice, as in Go. White space is the
  Unicode White_Space set, which `unicode.IsSpace` tests. `ReplaceAll` is
  modelled for a one-character pattern.
- `FileName` (`FileName.dfy`): `getNewFileName`, and the regular expression
  `[\\/:*?"<>|]` replaced by "" as `StripForbidden`. Both are pure functions,
  with lemmas about the shape of the name, the label part, padding, blank
  labels, and the sanitiser (output free of the nine characters, an order-preserving subsequence
  that keeps every allowed character, idempotence).
- `Drain` (`Drain.dfy`): the body of `main` from the first listing on.
  - The network is abstract. The successive answers of the listing endpoint
    are a sequence of `Listing`s: a page, or `ListingFailed`. The download
    and the delete are oracles that say whether they succeeded.
  - What the program does becomes a trace of `Download`, `Delete` and
    `Abort` events.
  - The body of the inner loop (`DrainImage`) and the two loops
    (`DrainPage`, `Run`) are methods proved equal to the trace functions
    `ImageEvents`, `PageTrace` and `RunTrace`.
  - The trace functions take the naming of files as a parameter. The methods
    pass `FileName.FileNameOf`, which is `SanitizedFileName` on every image
    the run names. The lemmas hold for any naming, and
    `Drain.PageDownloadNames` instantiates them with the run's.
  - Lemmas about those functions give the safety of the program:
    - an image is deleted only right after its own successful download;
    - a failed download or delete ends the run;
    - images without a URL leave no trace;
    - downloads follow the page order under sanitised names;
    - a page on which nothing fails is downloaded and deleted in full.

A timestamp shorter than five characters makes Go's slice in
`getNewFileName` panic. `FileName.GetNewFileName` therefore requires at
least five characters. In the run, that case is the event
`Abort(BadTimestamp)`.

The strip also removes the colons of the timestamp (main.go:58-59): the
timestamp `2023-05-01T12:00:00.000Z` gives the date part
`2023-05-01T12:00:00`, which is saved as `2023-05-01T120000`
(`FileName.StripsTimeColon`).

## Model

| member | source | states |
|---|---|---|
| GoStrings.SpanStart | main.go:138 | the forward scan stops at the first non-white-space index at or after its start, with only white space skipped |
| GoStrings.SpanStop | main.go:138 | the backward scan stops right after the last non-white-space character above its lower bound, with only white space skipped |
| GoStrings.TrimSpace | main.go:138 | the result has no white space at either end, is no longer than the input, and is empty exactly when the input is all white space |
| GoStrings.TrimSpaceSplit | main.go:138 | the label is its trimmed form with only white space added before and after it |
| GoStrings.TrimSpaceOfPadded | main.go:138 | trimming a white-space-padded string with no white space at its ends gives exactly that string back |
| GoStrings.TrimSpaceOfPaddedAny | main.go:138 | adding white space on either side of any label does not change what `strings.TrimSpace` returns |
| GoStrings.TrimSpaceIdempotent | main.go:138 | trimming twice is trimming once |
| GoStrings.ReplaceAll | main.go:140 | same length; every `from` becomes `to` and every other character stays in place |
| GoStrings.ReplaceAllRoundTrip | main.go:140 | when `to` does not occur in the input, replacing back restores the input |
| FileName.StripForbidden | main.go:58-59 | the result has none of the nine characters `\ / : * ? " < > \|` and is no longer than the input |
| FileName.StripForbiddenKeepsAllowed | main.go:58-59 | the result is an order-preserving subsequence of the input (an increasing index map exists) that keeps every allowed character of the input |
| FileName.StripForbiddenOfLegal | main.go:58-59 | a name without forbidden characters comes out unchanged |
| FileName.StripForbiddenIdempotent | main.go:58-59 | stripping twice is stripping once |
| FileName.StripForbiddenAppend | main.go:58-59 | stripping works character by character: stripping a concatenation concatenates the stripped parts |
| FileName.FormatName | main.go:139-144 | the two `Sprintf` layouts: `<label>_<date>.<type>` with spaces of the label replaced by `_`, or `<date>.<type>` when the label is empty, given as length and the position of each part |
| FileName.GetNewFileName | main.go:136-145 | the name ends with the timestamp minus its last five characters, a `.` and the type; before that is nothing when the trimmed label is empty, and otherwise the trimmed label with spaces turned into `_`, followed by `_` |
| FileName.LabelledName | main.go:139-141 | with a non-blank label, the name is the underscored trimmed label, `_`, the date, `.` and the type |
| FileName.LabelPartHasNoSpace | main.go:138-141 | the label part has the trimmed label's length, contains no space, keeps every non-space character of the trimmed label in place, and is followed by `_` |
| FileName.BlankLabelIsNoLabel | main.go:138-144 | a label made only of white space gives the same name as no label, namely `<date>.<type>` |
| FileName.LabelPaddingIgnored | main.go:138 | white space around the label does not change the file name |
| FileName.LabelRecoverable | main.go:140-141 | when the trimmed label has no `_`, it is recovered from the name by turning `_` back into spaces in its part of the name |
| FileName.NameIgnoresTimestampSuffix | main.go:137 | two images that differ only in the last five characters of the timestamp get the same name |
| FileName.SanitizedFileName | main.go:57-59 | the name the download is saved under contains none of the nine characters of `[\\/:*?"<>\|]` and is no longer than the unsanitised name |
| FileName.FileNameOf | main.go:57-59 | the name the run saves an image under contains none of the nine characters and, for a timestamp of at least five characters, no longer than `getNewFileName`'s name |
| FileName.StripsTimeColon | main.go:58-59 | the strip removes the colon of a time of day: `12:00` becomes `1200` |
| FileName.SanitizedComponents | main.go:57-59 | the sanitised name is the stripped label part, `_`, the stripped date, `.` and the stripped type: the separators survive sanitising |
| Drain.DrainImage | main.go:53-90 | the body of the inner loop produces exactly `ImageEvents`: nothing without a URL, an abort on a short timestamp, a download, then a delete only after a successful download, with an abort after a failed download or delete |
| Drain.DrainPage | main.go:52-91 | the inner loop over a page produces exactly `PageTrace`: its images' events in order, up to and including the first abort |
| Drain.Run | main.go:48-95 | the whole run produces exactly `RunTrace` over the successive listings, with files named by `FileNameOf`; it finishes exactly when the trace does not end in an abort |
| Drain.ImageEventsWellFormed | main.go:62-90 | one image's events are well formed: a delete only right after a successful download of the same id, a failed download or delete followed by its abort as the last event |
| Drain.ThenWellFormed | main.go:52-91 | running one part after another keeps the trace well formed |
| Drain.PageTraceWellFormed | main.go:52-91 | a page's trace is well formed |
| Drain.RunTraceWellFormed | main.go:48-95 | a run's trace is well formed: no image is deleted before its download succeeded, and a failed download or delete ends the run with no delete after it |
| Drain.SkipEmptyUrl | main.go:53-55 | an image without a URL, wherever it sits in the page, does not change the page's trace |
| Drain.BlankPageProducesNothing | main.go:53-55 | a page none of whose images has a URL produces no events |
| Drain.ImageDownloads | main.go:53-67 | one image gives one download attempt, under its file name, exactly when it has a URL and a timestamp of at least five characters |
| Drain.PageDownloadsInOrder | main.go:52-67 | the download attempts of a page are for its first images with a URL, in page order, each under the file name of its own image, for any naming |
| Drain.PageDownloadNames | main.go:52-67 | with the run's naming, each download of a page is of the next image with a URL, under that image's `SanitizedFileName`, which contains none of the nine characters |
| Drain.PageAllSucceed | main.go:52-91 | when every image with a URL has a usable timestamp and downloads and deletes successfully, the page downloads and then deletes each such image in page order, does nothing else and does not abort |

## Left out

- The HTTP requests of `requestImages` and `deleteImage` (main.go:101-133) are not modelled. They become the listing sequence and the `remove` oracle. A failed request, a failed body read or a delete status other than 200 is one failed answer.
- `requestImages` ignores the error of `json.Unmarshal` (main.go:113). A body that does not decode therefore lists no images. The model has no bytes to decode: such an answer is a `Page([])`.
- The download client (`grab`) is not modelled. The `fetch` oracle says whether the download succeeded. A failed `grab.NewRequest` (main.go:62-65) and a failed download (main.go:83-86) are the same event.
- The progress ticker and `select` loop (main.go:69-80) are left out. They print progress with floating-point percentages while another goroutine downloads, and they do not change what is downloaded or deleted.
- The access-token check and the creation of `images/` (main.go:30-43) are left out. They are environment and file-system setup done before the first listing.
- Printing is left out. `log.Fatal` and `log.Panic` both end the program, and both are one `Abort` event.
- Drain.Run requires the last listing it is given to be final (failed or empty). The outer loop of main.go:51-95 stops only when the service returns an empty page, so its termination is not modelled. For example, a page whose images all lack a URL is listed again and again, since nothing is deleted (see Drain.BlankPageProducesNothing).
- FileName.GetNewFileName: lengths are counted in characters, while Go counts bytes. Cutting five bytes and cutting five characters agree on the ASCII timestamps the service returns, but not on other text.
- GoStrings.TrimSpace: strings are sequences of Unicode characters. UTF-8 decoding, and invalid UTF-8 in particular, is not modelled.
- Drain.DrainImage: the download oracle `fetch` is given the image, not the destination path `./images/<fileName>`. Whether a download succeeds is therefore not tied to its file name, for example to a clash with an existing file.
- FileName.SanitizedFileName: the strip removes only the nine characters of main.go:58. Windows refuses more than these, and such names pass through unchanged: control characters U+0001 to U+001F (a label `"a\u0001b"` gives `a\u0001b_<date>.<type>`), a name that ends in `.` or a space (an empty type leaves a trailing `.`), and reserved names such as `CON`. The program does not handle these either.
- Drain.Run: the `fetch` and `remove` oracles depend only on the image record, so an image listed again gets the same download and delete results as before. The program lists the first page each time (main.go:102). If the service still returns an image just deleted, a second `deleteImage` may get a status other than 200 and end the program (main.go:130-131). The model cannot show that case: a second delete of an image whose first delete succeeded succeeds too.
