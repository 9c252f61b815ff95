# file-upload, modelled in Dafny

A model of the small Go HTTP server in `main.go`:

- **the upload handler** (`uploadHandler`). It accepts a multipart POST. It then checks each part of the form field `file` in order:
  1. the declared size (at most 512 MiB);
  2. opening the part and reading its first 512 bytes;
  3. the sniffed content type (MP4, JPEG or PNG only);
  4. seeking back to the start and creating the upload directory;
  5. creating `<uploadDir>/<UnixNano><original extension>` and copying the part into it.

  The first part that fails ends the request with that check's status. Files written for earlier parts stay on disk. When every part passes, the reply is a 303 redirect to `/`.
- **the progress counter** (`Progress`). It is an `io.Writer` that counts the bytes teed into it while a part is copied.
- **the media listing** (`getVideos`). It walks the upload directory and keeps the regular files whose names end in `.mp4`, `.jpg` or `.png`, in walk order. It stops at the first walk error.

The modules:

| module | file | contents |
|---|---|---|
| `Common` | `common.dfy` | `Option`, the `byte` and `int64` ranges, `Min` |
| `Naming` | `naming.dfy` | `%d` formatting of a timestamp and its parse-back; `filepath.Ext`; the stored name and its injectivity |
| `ProgressCounter` | `progress.dfy` | class `Progress` with `TotalSize`/`BytesRead`; `io.Copy` through the tee in 32 KiB chunks |
| `Listing` | `listing.dfy` | `getVideos` as a loop over the walk's callback calls, specified by `Collected` |
| `Upload` | `upload.dfy` | the request, part and directory model; `HandlePart` (one loop iteration); `UploadHandler`, proved equal to the function `UploadOutcome` |
| `UploadProperties` | `upload_properties.dfy` | what each rejection does, which files a request leaves, and how stored names meet the listing |

Foreign code becomes inputs:

- The content sniffer `http.DetectContentType` is the parameter `Env.sniff`. It is applied to the zero-padded 512-byte buffer.
- The clock is `Env.now`. `now(i)` is the `UnixNano` reading taken when part `i` reaches `os.Create`; it is read only for parts that get that far.
- The outcome of each `Open`, `Read`, `Seek`, `MkdirAll`, `Create` and `io.Copy` call is a per-part flag in `PartIo`.
- The upload directory is a map from path to bytes.

Four behaviours of the code are easy to miss; the model follows the code in each:

- A failing `os.Create` or `io.Copy` answers 400, not 500 (`main.go:110-113`, `main.go:119-122`).
- An empty part fails the first `Read` with `io.EOF`, so it is refused with 500 (`main.go:85-89`).
- When the walk fails, `getVideos` returns the records collected so far along with the error, not an empty list (`main.go:146`).
- An upload named `x.jpeg` whose content is JPEG is accepted and stored as `<timestamp>.jpeg`, but the listing never shows it (`JpegUploadNeverListed`).

## Model

| member | source | states |
|---|---|---|
| Upload.UploadHandler | main.go:58-126 | The status and the resulting directory are exactly `UploadOutcome`. A non-POST request gets 405 and leaves the directory unchanged. |
| Upload.HandlePart | main.go:71-122 | One part: the failure it returns is the first check the part fails, in source order. The directory gains the part's file (its written bytes) exactly when the part got past `os.Create`; otherwise the directory is unchanged. |
| Upload.SniffBuffer | main.go:84-91 | The sniffed buffer is 512 bytes long. It holds the part's first bytes and zeros after them. |
| Upload.FirstFailure | main.go:70-123 | The index of the first failing part: every earlier part passes every check, and the part at that index fails one (or the index is past the end). |
| ProgressCounter.Progress.constructor | main.go:117 | A new counter has the part's declared size as `TotalSize` and zero bytes read. |
| ProgressCounter.Progress.Write | main.go:25-30 | Returns `len(p)` and no error. `BytesRead` grows by `len(p)` with int64 wrap-around. `TotalSize` is unchanged. |
| ProgressCounter.CopyThrough | main.go:117-118 | The destination receives the source byte for byte. The counter grows by the number of bytes copied. Starting from zero with no overflow, it ends equal to that number. `TotalSize` is unchanged. |
| ProgressCounter.Wrap | main.go:27 | The int64 result differs from the exact sum by a multiple of 2^64. |
| ProgressCounter.WrapCongruent | main.go:27 | Sums that differ by a multiple of 2^64 wrap to the same int64. |
| ProgressCounter.WrapAdd | main.go:27 | Wrapping after every chunk gives the same count as wrapping once at the end. |
| ProgressCounter.WrapInRange | main.go:27 | In-range sums do not wrap. |
| Listing.FirstWalkError | main.go:137-140 | The index of the first callback call that carries an error: every earlier call is a visit. |
| Listing.GetVideos | main.go:135-147 | The records are those `Collected` from the walk up to its first error. The error returned is that first error, or none. |
| Listing.CollectedAppend | main.go:141-142 | Collecting distributes over concatenation, so records keep the walk's order. |
| Listing.CollectedMembership | main.go:141-142 | A record is listed exactly when some non-directory entry with a media name has that base name and path. |
| Listing.EveryListedNameIsMedia | main.go:141 | Every listed name ends in `.mp4`, `.jpg` or `.png`. |
| Listing.JpegNameNeverMedia | main.go:141 | A name ending in `.jpeg` is never listed. |
| Naming.DigitsShape | main.go:109 | `%d` of a natural number is a non-empty run of decimal digits. |
| Naming.DecimalShape | main.go:109 | `%d` of an integer is non-empty digits, with an optional leading minus sign. |
| Naming.DecimalHasNoDot | main.go:109 | A formatted timestamp contains no dot. |
| Naming.DigitsRoundTrip | main.go:109 | Parsing the digits of `n` gives back `n`. |
| Naming.DecimalRoundTrip | main.go:109 | Parsing `%d` of any integer gives that integer back. |
| Naming.DecimalInjective | main.go:109 | Two timestamps format alike exactly when they are equal. |
| Naming.ExtShape | main.go:109 | `filepath.Ext` is empty, or it is a dot followed by characters that are neither `.` nor `/`. |
| Naming.ExtIsSuffix | main.go:109 | `filepath.Ext` is a suffix of the path. |
| Naming.ExtEmptyMeansNoDot | main.go:109 | An empty extension means the final path element has no dot. |
| Naming.ExtOfDottedSuffix | main.go:109 | A path ending in a dot followed by no further dot or slash has exactly that ending as its extension. |
| Naming.FirstDot | main.go:109 | The position of the first dot in a string, with nothing but non-dots before it. |
| Naming.FirstDotSplits | main.go:109 | In a dot-free string followed by an extension, the first dot is where the extension starts. |
| Naming.SplitUnique | main.go:109 | A dot-free head followed by an extension splits in only one way. |
| Naming.StoredBaseNameInjective | main.go:109 | Two stored base names are equal exactly when their timestamps and extensions are. |
| Naming.StoredNameInjective | main.go:109 | Two stored paths in one upload directory are equal exactly when their timestamps and original extensions are. |
| UploadProperties.OutcomeAtFailure | main.go:70-123 | When part `k` fails first, the status is that failure's. The directory holds the files of parts `0..k`, with part `k` included exactly when its copy was what failed. |
| UploadProperties.OutcomeAtSuccess | main.go:70-125 | When every part passes, the status is 303 and every part is written. |
| UploadProperties.PartNameFormat | main.go:109 | Part `i`'s path is the upload directory, `/`, its timestamp in decimal, and the original filename's extension; the sniffed type plays no part. |
| UploadProperties.PersistKeys | main.go:109-118 | Writing parts `0..n` adds exactly their paths to the directory and no other path. |
| UploadProperties.PersistElsewhere | main.go:109-118 | A path that none of the written parts uses keeps its previous presence and content. |
| UploadProperties.LastWriteWins | main.go:109-118 | A part's file holds its written bytes unless a later part reused its path. |
| UploadProperties.NameSetSize | main.go:109 | `n` pairwise different paths form a set of size `n`. |
| UploadProperties.PersistDistinct | main.go:109-118 | With pairwise different paths, `n` parts add `n` paths, each holding its own part's bytes. |
| UploadProperties.SizeCheckIsStrict | main.go:71-74 | A part is refused as too big exactly when its declared size exceeds 512·1024·1024, so a part of exactly 512 MiB passes this check. |
| UploadProperties.RefusedBeforeCreate | main.go:71-113 | A part refused by any check up to and including `os.Create` ends the request with that check's status. Only the earlier parts' paths are added. |
| UploadProperties.OversizedPartRefused | main.go:71-74 | An oversized part gives 400. No file is created for it or for any later part. |
| UploadProperties.DisallowedTypeRefused | main.go:91-95 | A part whose sniffed type is not `video/mp4`, `image/jpeg` or `image/png` gives 400. No file is created for it or for any later part. |
| UploadProperties.FirstFailureEndsRequest | main.go:70-123 | The first failing part decides the status. Paths are added only for parts up to it. An earlier part's path is in the directory and holds that part's bytes unless a later part that got a file reused the path. |
| UploadProperties.RedirectIff | main.go:58-125 | The reply is 303 exactly when the request is a parsed POST and every part passes. |
| UploadProperties.DistinctTimestampsGiveDistinctNames | main.go:109 | Parts with different timestamps get different paths. |
| UploadProperties.AllPartsStored | main.go:109-125 | When all parts pass and timestamps do not repeat, the reply is 303 and `n` distinct paths are written, one per part, each holding that part's bytes. A path the directory already held is overwritten, not added. |
| UploadProperties.RepeatedTimestampOverwrites | main.go:109 | Two parts before the first failure with the same timestamp and extension share one path, and the later part's bytes replace the earlier part's, whether or not a later part fails. |
| UploadProperties.DottedSuffixOfStoredName | main.go:109 | A stored base name ends in a four-character dotted suffix exactly when the original extension is that suffix. |
| UploadProperties.StoredUploadListedIff | main.go:141 | A stored upload is listed exactly when its original extension is `.mp4`, `.jpg` or `.png`, whatever its sniffed type. |
| UploadProperties.JpegUploadNeverListed | main.go:141 | An upload named `*.jpeg` is stored with extension `.jpeg` and never listed. |

## Left out

- HTTP plumbing is not modelled: the mux, `ListenAndServe`, the `/videos/` file server, and the bodies written by `http.Error` and `http.Redirect` (`main.go:149-160`). Only the status code is modelled.
- `IndexHandler` and its template rendering (`main.go:45-56`) are foreign template code. Only `getVideos` is modelled.
- `ParseMultipartForm` (`main.go:64`) is a boolean input. Its 32 MiB memory limit and parsing are library internals.
- `http.DetectContentType` is a function input. Its sniffing table is library code.
- The filesystem is not modelled. Each call's success is a flag, and the directory is a map from path to bytes. Path normalisation and aliasing, such as `./uploads//x` versus `uploads/x`, are not modelled: paths are compared as strings.
- `Upload.HandlePart`: a copy that fails after some bytes is modelled only by what reached the file (`copiedBeforeFailure`). The progress counter's count in that case is not modelled, because nothing reads it afterwards.
- The clock is the input `Env.now`. `UnixNano` is taken as an unbounded integer, not wrapped at int64, because real timestamps are far inside the range.
- `io.Copy`'s chunking is fixed at 32 KiB chunks with every read and write succeeding. Short reads and the `WriterTo`/`ReaderFrom` fast paths are not modelled. Only fixed chunking makes the count visible.
- Flag parsing in `init` (`main.go:40-43`) is reduced to the input `Env.uploadDir`.
- The `fmt.Printf` logging in `Write` and the `Print` method (`main.go:28`, `main.go:32-35`) only write to stdout, so they are left out.
- `defer Close` calls and file-handle lifetimes are left out. They do not change any status or directory contents.
- Concurrent requests, and timestamp collisions between requests, are left out. One request is modelled at a time.
- `filepath.Walk` is an input: the sequence of callback calls it makes. Its lexical order and its handling of `SkipDir` are library internals; the callback never returns `SkipDir`.
