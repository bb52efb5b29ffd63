# imaget in Dafny

A Dafny model of the core of `imaget`, a downloader that finds the image
URLs on one web page and saves the images into a directory tree or a zip
archive, resuming interrupted downloads through an on-disk cache. All of
the modelled logic is in `imaget.go`:

- **Reference extractor** (`Extractor`): `extractImageURLs` drops repeated
  matches, keeping the first occurrence and the order, then keeps only the
  URLs the optional regular expression accepts. The loop method
  `ExtractImageURLs` follows the source's two loops (the seen-set `c` and
  the slices `b` and `a`). It is proved equal to the specification
  function `ImageURLs`. Lemmas prove that `ImageURLs` has no repeats,
  holds exactly the accepted matches, and lists them in order of first
  occurrence. A further lemma proves that these three properties
  determine the result completely.
- **Cache naming** (`Utf8`, `Base64`, `CacheStore`): `base64Filename` is
  the padded, URL-safe base64 encoding (section 5 of RFC 4648) of the
  URL's UTF-8 bytes, followed by `filepath.Ext` of the URL. The cache path
  is that name joined onto the cache root `tmpDir`. Both encodings are
  proved reversible. From this, the file name is one path element, it
  decodes back to its URL, and distinct URLs never share a cache path, so
  a later run finds the same partial file again.
- **Path helpers** (`GoStrings`, `FilePath`): the parts of Go's `strings`
  and `path/filepath` the core relies on, with `/` as the separator:
  `TrimPrefix`, `Ext`, `Base`, `Join`, and `Clean` seen on the list of
  path elements.
- **Destination** (`Sink`): `newDst` picks a directory for a path whose
  last element has no extension and a zip archive for a path ending in
  `.zip`. Every other extension, `.tar` and `.tar.gz` included, gives the
  error "unsupported destination". `copyFileToDst` names the file by the
  base of its cached path (flat) or by the URL without its `http://` or
  `https://` prefix (hierarchical), and writes it under that name
  whatever the name holds.
- **Pipeline** (`Pipeline`): `downloadImages` walks the URLs in order,
  sends one file per successful fetch, skips a failed URL and stops at the
  first cancellation. `copyFilesToDst` copies the received files in
  order, goes on after a failed copy, and stops when the channel closes or
  when the context is done. Both loops are methods proved against the
  functions `Produced` and `CopyOne`; `CopyOne` is the copy as
  written, and `CheckedCopyOne` is the copy with the destination-name check
  it evidently intends. Each fetch result and
  each file-system result is an input.
- **Report** (`Report`): `pluralize`, and the number of saved images the
  closing message prints.

Go `string`s are Dafny `string`s. The `[]byte` conversion is modelled by
the UTF-8 encoder in `Utf8`.

## Model

| member | source | states |
|---|---|---|
| Extractor.ExtractImageURLs | imaget.go:132-157 | the two loops return `ImageURLs(matches, regex)`: no URL twice, a URL is returned iff it is a match the regex accepts (every match when there is no regex), in the order of first occurrence among the matches |
| Extractor.ImageURLsSpec | imaget.go:132-157 | the result has no repeats, holds exactly the accepted matches, keeps first-occurrence order, and without a regex is exactly the deduplicated matches |
| Extractor.DedupSpec | imaget.go:137-144 | deduplication keeps every distinct match exactly once, where it first occurs, and nothing else |
| Extractor.KeepIfMembers | imaget.go:147-156 | the filter keeps an element iff it is in the input and the regex matches it |
| Extractor.KeepIfNoDuplicates | imaget.go:147-156 | filtering a list without repeats gives a list without repeats |
| Extractor.KeepIfOrder | imaget.go:147-156 | filtering keeps the first-occurrence order |
| Extractor.FirstOccurrenceOrderUnique | imaget.go:137-156 | two lists without repeats, with the same elements, both in first-occurrence order of the matches, are equal, so the properties above fix the output |
| Utf8.EncodeChar | imaget.go:296 | one code point becomes 1 to 4 bytes, a single byte exactly for ASCII (equal to the code), the others continuation bytes |
| Utf8.Encode | imaget.go:296 | `[]byte(s)` has between `len(s)` and `4*len(s)` bytes |
| Utf8.DecodeFirstOfEncodeChar | imaget.go:296 | decoding the bytes of one code point, followed by anything, gives that code point and its byte count |
| Utf8.DecodeEncode | imaget.go:296 | decoding the UTF-8 bytes of a string gives the string back |
| Utf8.EncodeInjective | imaget.go:296 | distinct strings have distinct bytes |
| Utf8.EncodeAscii | imaget.go:296 | an ASCII string has one byte per character, equal to its code |
| Base64.CharOf | imaget.go:296 | every 6-bit value maps to a character of the URL-safe alphabet |
| Base64.ValueOf | imaget.go:296 | every alphabet character has a 6-bit value that maps back to it |
| Base64.Encode | imaget.go:296 | the text has `4*ceil(n/3)` characters for `n` bytes, each from `A-Z a-z 0-9 - _` or the pad `=` |
| Base64.EncodeHasNoDotOrSeparator | imaget.go:296 | the encoded text contains no `.` and no `/` |
| Base64.Regroup | imaget.go:296 | the four sextets of three bytes recombine to those bytes |
| Base64.DecodeQuadValues | imaget.go:296 | a group of four characters, with zero, one or two pads, decodes to the bytes its sextets hold |
| Base64.DecodeEncode | imaget.go:296 | decoding the encoding of any byte sequence gives it back |
| Base64.EncodeInjective | imaget.go:296 | distinct byte sequences have distinct encodings |
| FilePath.LastElement | imaget.go:296 | the last element is the suffix after the last `/` and contains no `/` |
| FilePath.Ext | imaget.go:296 | `filepath.Ext` is empty iff the last element has no dot; otherwise it is the suffix of the last element from its last dot |
| FilePath.ExtOfSuffix | imaget.go:313 | a suffix that starts with the only dot it holds and has no `/` is the extension |
| FilePath.Base | imaget.go:268 | `filepath.Base` is never empty; it is `/` exactly for a path of separators only, otherwise one element, and the last element when the path does not end in `/` |
| FilePath.CleanHasNoTrailingSeparator | imaget.go:208 | a clean path other than `/` does not end in a separator |
| FilePath.JoinElement | imaget.go:214 | joining a clean root and one element puts the element directly under the root, `Base` of the result is that element, and the result is clean again |
| FilePath.SplitRoundTrip | imaget.go:345 | joining the elements of a path with `/` gives the path back; the last element is `LastElement` |
| FilePath.SplitAtSeparator | imaget.go:345 | the elements of `a/b` are the elements of `a` followed by those of `b` |
| FilePath.Resolve | imaget.go:345 | cleaning a rooted path leaves only named elements: no empty, `.` or `..` element survives |
| FilePath.ResolveRelative | imaget.go:345 | cleaning a rooted path followed by a relative one climbs from the rooted path by the relative path's leading `..` count, never above the root, then appends its named elements |
| FilePath.JoinedRelative | imaget.go:345 | the elements of `filepath.Join(dst, name)` are those of the cleaned `dst`, less as many trailing elements as the clean form of `name` climbs, followed by that clean form's named elements |
| FilePath.ResolveAppend | imaget.go:345 | cleaning `dst` joined with `name` is cleaning `name`'s elements on top of the cleaned `dst` |
| FilePath.ResolveWithoutParent | imaget.go:345 | without `..` elements, cleaning only appends to the clean prefix, and a named element makes it longer |
| GoStrings.TrimPrefix | imaget.go:270-271 | with the prefix the result is what follows it; without it the string is unchanged |
| CacheStore.Base64Filename | imaget.go:295-297 | the name has no `/`, is empty only for the empty URL, and is otherwise a single named path element |
| CacheStore.Base64FilenameDecodes | imaget.go:295-297 | the name is the base64 text of the URL's bytes (alphabet and pad only, `4*ceil(bytes/3)` long), which decodes back to the URL, followed by `Ext(url)` |
| CacheStore.Base64FilenameAsciiLength | imaget.go:295-297 | for an ASCII URL the name is `4*ceil(len(url)/3)` characters plus the extension |
| CacheStore.Base64FilenameInjective | imaget.go:295-297 | distinct URLs get distinct names |
| CacheStore.CachePath | imaget.go:214 | the cache file of a URL lies directly under the cache root and its base is `base64Filename(url)` |
| CacheStore.CachePathInjective | imaget.go:208-214 | distinct URLs never share a cache path, and the path depends on the root and the URL alone |
| Sink.NewDst | imaget.go:308-325 | for the clean absolute path `filepath.Abs` returns: a directory iff the last element has no dot; a zip archive iff the path ends in `.zip`; otherwise the error "unsupported destination" |
| Sink.ZipExtension | imaget.go:318 | the extension is `.zip` iff the path ends in `.zip` |
| Sink.TarIsUnsupported | imaget.go:313-325 | a path ending in `.tar` or `.gz` is refused with "unsupported destination" |
| Sink.DottedParentIsDirectory | imaget.go:313-316 | a dot in a parent directory does not stop a path from naming a directory |
| Sink.HierarchicalName | imaget.go:270-271 | the name is a suffix of the URL; it equals the URL iff the URL has neither prefix; an `https://` URL loses exactly that prefix, an `http://` URL exactly that one unless `https://` follows |
| Sink.HierarchicalNameOfHttps | imaget.go:270-271 | `https://a.test/img/x.png` is saved as `a.test/img/x.png` |
| Sink.HierarchicalNameStripsBoth | imaget.go:270-271 | `http://` is removed first and `https://` after it, so `http://https://a/x.png` becomes `a/x.png` |
| Sink.DstFileName | imaget.go:266-272 | a flat name is one element (or `/`); a hierarchical name is a suffix of the URL |
| Sink.FlatNameIsCacheName | imaget.go:266-268 | the flat name of a file cached at line 214 is `base64Filename(url)` |
| Sink.LocalNameStaysBelow | imaget.go:344-345 | a name whose clean form neither starts with `..` nor is empty lands strictly inside any destination it is joined onto |
| Sink.EscapingNameLeaves | imaget.go:344-345 | every other name lands outside some clean absolute destination directory, which the lemma returns |
| Sink.LocalExactly | imaget.go:344-345 | a name is local iff it lands strictly inside every clean absolute destination directory, as `newDst` selects them; a local name lands inside any destination at all |
| Sink.LocalDstFileName | imaget.go:266-274 | the checked name is returned, unchanged, iff it lands strictly inside every clean absolute destination directory, and refused otherwise; a returned name lands inside any destination |
| Sink.InnerParentIsLocal | imaget.go:270-271 | a `..` that only undoes an element of the name, as in `a/b/../x`, does not make it refused |
| Sink.FlatCacheNamesAreLocal | imaget.go:266-268 | every flat name of a cached file passes the check unchanged |
| Sink.ParentElementsEscape | imaget.go:344-345 | as written, a name `a/../../x` joined onto any destination other than `/` lands beside it, not inside it |
| Sink.DotDotUrlName | imaget.go:270-271 | the page URL `http://a/../../x.png` gets the name `a/../../x.png` |
| Pipeline.FirstCancel | imaget.go:197-199 | the position of the first cancellation: no earlier outcome is a cancellation |
| Pipeline.Produced | imaget.go:180-205 | the producer sends at most one file per URL before the first cancellation |
| Pipeline.DownloadImages | imaget.go:180-205 | the loop sends exactly `Produced(urls, outcomes)` and starts fetches up to and including the first cancelled one |
| Pipeline.ProducedAppend | imaget.go:188-204 | without a cancellation in the first part, the files of two runs of URLs are the files of each, in order |
| Pipeline.FailureSkipsOnlyThatURL | imaget.go:195-200 | a failed fetch changes nothing but dropping its own URL |
| Pipeline.CancelStops | imaget.go:197-199 | after a cancellation nothing is sent, whatever later fetches would return |
| Pipeline.ProducedMembers | imaget.go:188-204 | a file is sent iff some URL before the first cancellation was fetched to that path |
| Pipeline.AllFetchedProduced | imaget.go:188-204 | when every fetch succeeds, the i-th file sent is the i-th URL with its path |
| Pipeline.FlatNamesOfProduced | imaget.go:203 | every file sent from the cache is named, in flat mode, by its URL's encoded name, and passes the name check |
| Pipeline.CopyOne | imaget.go:258-285 | as written: a copy succeeds iff the cached file opens and the destination entry is created and written, always under `DstFileName`; no name is refused |
| Pipeline.CopyEscapes | imaget.go:258-285 | as written, the image of `http://a/../../x.png` is copied, in hierarchical mode, to beside any destination directory other than `/` |
| Pipeline.CheckedCopyOne | imaget.go:258-285 | the checked copy refuses a file iff it opens and its name would leave some clean absolute destination directory; otherwise it does what the copy as written does, and a copied name stays inside every destination |
| Pipeline.CheckedCopyRefusesEscape | imaget.go:270-274 | the checked copy refuses the image of `http://a/../../x.png` |
| Pipeline.CopyFilesToDst | imaget.go:241-255 | the loop handles the received files in order, one result per file, and a failed copy does not stop later files; it handles every file unless the context is done first, and then no more than were received before |
| Pipeline.Transfer | imaget.go:92-98 | the files the consumer handles are, in order, the first files the producer sends |
| Pipeline.FlatTransferNames | imaget.go:92-98 | with no cancellation and a working file system, a flat transfer writes one entry per URL, named by the encoded URL |
| Report.Pluralize | imaget.go:300-305 | the word is unchanged iff the count is 1 or -1, and gets an `s` otherwise |
| Report.ReportedSaved | imaget.go:87-90 | as written, the count printed is the number of URLs found, whatever was written |
| Report.SavedCount | imaget.go:87-90 | the number of images written is at most the number of files handled, and equal iff every copy succeeded |
| Report.SavedCountBound | imaget.go:87-90 | the images written never outnumber the URLs found, and equal them only when every URL was fetched |
| Report.ProducedAllFetched | imaget.go:188-204 | one file per URL is sent only when every fetch succeeded |
| Report.ReportedSavedOvercounts | imaget.go:88 | as written, one found URL whose download fails is reported as one saved image while none was written |

## Left out

- The regular expression engine: the pattern matches of `imageRegex` (imaget.go:129, 134) are an input, and `Regex.MatchString` is an uninterpreted predicate.
- The page request and its reading (`newRequest`, `readSite`), and the `grab` download with its resume and ranged requests: each fetch is an input outcome `Fetched(path)`, `Failed` or `Cancelled`.
- The goroutine, the channel of capacity 3 and its blocking: only the order in which files are sent and received is modelled. The moment at which the consumer sees the context done is an input (`done`).
- The progress bar, the ticker and all printing.
- Opening the cached file (`os.Open` in `copyFileToDst`) and creating and writing the destination entry (`dst.create` and `io.Copy`): their success or failure is an input predicate of the file system (`FileSystem`: `opens` and `writes`). The directory creation of `dirDst.create` and the zip archive writer are not modelled.
- `acceptScreen` and the command-line programs under `cmd/`.
- The cache root `tmpDir` (imaget.go:208) is a parameter. It is required to be clean, as `filepath.Join` makes it: absolute with named elements, or relative with leading `..` elements followed by named elements.
- Sink.NewDst: `filepath.Abs` (imaget.go:309) is not modelled; the input is required to be a clean absolute path, as `Abs` returns it, and the `MkdirAll` and `os.Create` errors of the `.zip` branch are not modelled.
- FilePath.JoinElement: `filepath.Join` is modelled only for a clean root and one named element, which is how the cache path uses it.
- FilePath.Resolve: `filepath.Clean` is modelled on the list of path elements, not as a string function.
- The consumer `CopyFilesToDst` uses the copy as written (`CopyOne`); the checked copy `CheckedCopyOne` is stated beside it and proved to differ only by refusing names that would leave a destination.
- Utf8.Encode: Go strings can hold invalid UTF-8; the model's strings hold Unicode scalar values only.
- The usage text of the command-line program lists `.tar` and `.tar.gz` destinations (cmd/main.go:27) and a `-p` shell pattern (cmd/main.go:33, 61, 111). `newDst` refuses every extension other than `.zip` (imaget.go:313-325), and `extractImageURLs` applies only the regular expression (imaget.go:146-156); the model follows imaget.go.
- Once the context is done, the consumer returns without draining the channel (imaget.go:244); files still queued are not copied.
- The doc comment of `pluralize` (imaget.go:299) says 1, 0 or -1. The model follows the code, where 0 takes the plural.

## Findings

| source | as written | input that shows it | evidently intended | confidence | as-written member | corrected member |
|---|---|---|---|---|---|---|
| imaget.go:270-274 | the hierarchical name keeps `..` elements, and `dirDst.create` joins it onto the destination (imaget.go:345) | page URL `http://a/../../x.png` with destination `/d`: the image is written to `/x.png` | a file is written only inside the destination, so a name that would leave a destination directory is refused, and every other name is copied as written | medium; not executed | Pipeline.CopyEscapes | Pipeline.CheckedCopyOne |
| imaget.go:88 | the closing line reports `len(imageURLs)` images as saved | one URL found whose download fails: it reports "Saved 1 image" while nothing was written | the number of images actually written | medium; not executed | Report.ReportedSavedOvercounts | Report.SavedCount |
