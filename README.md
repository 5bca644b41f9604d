# download_books in Dafny

This project models the logic of `download_books.py`, a script that
downloads the page images of online books. For each book URL it does four
things:
- it fetches the page title, falling back to `Unknown_Book`;
- it turns the title into a directory name with `sanitize_for_directory_name`;
- it asks the server for `1.jpg`, `2.jpg`, ... under `<book>/files/mobile/`;
- it writes each image with status 200 into the directory, and
  stops at the first other status.

An image already on disk is skipped without a request. A request that
raises an exception is retried for the same index. The URL list itself
comes from `read_book_urls`, which keeps the stripped, non-blank lines of a
text file.

The model has six modules:
- `Strings`: Python's `str.isspace`, `str.strip` and `str.replace`, written
  over `seq<char>`, with whitespace as the exact `isspace` set.
- `Sanitizer`: sanitising a title into a directory name. It holds the
  function `Sanitize` and the method `SanitizeForDirectoryName`, which
  keeps the source's loop over the nine invalid characters and is proved
  equal to `Sanitize`.
- `BookList`: the comprehension of `read_book_urls`, over the file's lines.
- `Paths`: the names derived from a book. These are `str(i)` for a
  non-negative integer, POSIX `os.path.join`, the remote image URL and the
  local image path.
- `Downloader`: the download loop and `download_book`.
  - The directory is a `Disk` object holding a map from path to bytes.
    `Exists` reads the map and `Write` updates it.
  - The network is the sequence of replies the image requests will get,
    one per request, in order. Each reply is a response with a status and
    a body, or an exception.
  - The method `DownloadImages` is the `while True` loop. It is proved equal
    to the function `Run`, which describes the whole loop. The lemmas about
    `Run` state what the loop does to the directory and which requests it
    makes.
  - `DownloadBook` adds the page title, with the title lookup as an input.
- `Wrappers`: the `Option` type.

`Run` and its lemmas take the local file name as a function
`name: nat -> string`, and they ask of it only that distinct indices get
distinct names. `DownloadImages` gives it the real names,
`os.path.join(directory_path, f"{i}.jpg")`, and `Paths.LocalNamesInjective`
proves that these are distinct.

Files already in the directory are kept. Afterwards the directory holds
the old files plus `1.jpg` up to the file before the stopping index, and
that need not be a contiguous run from 1. `Downloader.DownloadImages` and
`Downloader.RunFiles` state this.

## Model

| member | source | states |
|---|---|---|
| Strings.IsSpace | download_books.py:9-16 | the whitespace that `str.strip()` removes: it includes space, tab, newline and carriage return, and it excludes `_`, the digits and the ASCII letters |
| Strings.Strip | download_books.py:16 | `str.strip()`: the result is no longer than the argument and has no whitespace at either end |
| Strings.StripSlice | download_books.py:16 | `strip` removes only whitespace, and only at the two ends: its result is a slice of the argument with whitespace before and after it |
| Strings.StripUnique | download_books.py:16 | that slice is unique: any slice with only whitespace outside it and none at its ends is what `strip` returns |
| Strings.StripTrimmed | download_books.py:9 | `strip` leaves a string without surrounding whitespace unchanged |
| Strings.ReplaceChar | download_books.py:15 | `str.replace(c, '_')` on one character: same length, every `c` becomes `_`, every other character stays |
| Strings.ReplaceAny | download_books.py:14-15 | replacing a set of characters: same length, each character in the set becomes `_`, the rest stay |
| Strings.ReplaceAnySnoc | download_books.py:14-15 | one more turn of the loop over the invalid characters is one more single-character replace |
| Sanitizer.ReplaceInvalid | download_books.py:13-15 | after the loop no invalid character is left, and each position holds `_` exactly where the title had one of the nine characters |
| Sanitizer.ReplaceInvalidKeepsSpaces | download_books.py:13-15 | the first step keeps every whitespace character, so it keeps a title without surrounding whitespace that way |
| Sanitizer.ReplaceSpaces | download_books.py:16 | `replace(' ', '_')` leaves no space and keeps the other properties of the name |
| Sanitizer.Sanitize | download_books.py:11-16 | the sanitised name has no invalid character, no space and no whitespace at either end, and is never longer than the title |
| Sanitizer.SanitizeForDirectoryName | download_books.py:11-16 | the source's loop, one replace per invalid character and then strip and the space replace, computes `Sanitize` |
| Sanitizer.SanitizeFixedPoint | download_books.py:11-16 | a name is left unchanged by the sanitiser exactly when it is clean, in both directions |
| Sanitizer.SanitizeIdempotent | download_books.py:11-16 | sanitising twice gives the same as sanitising once |
| Sanitizer.StripReplaceInvalid | download_books.py:14-16 | replacing the invalid characters and stripping commute |
| Sanitizer.SanitizeStripsThenReplaces | download_books.py:14-16 | the sanitiser is the same as stripping first and then replacing the nine characters and the space by `_` |
| Sanitizer.SanitizeDropsSurroundingSpaces | download_books.py:16 | spaces around a title are dropped rather than turned into `_`: `" a b "` gives `"a_b"` |
| Sanitizer.SanitizeExample | download_books.py:14-16 | `"A/B: C"` gives `"A_B__C"` |
| Sanitizer.SanitizeUnknownBook | download_books.py:28-33 | the fallback title `Unknown_Book` passes through the sanitiser unchanged |
| BookList.ReadBookUrls | download_books.py:7-9 | every URL is non-empty and stripped, and there are no more URLs than lines |
| BookList.ReadBookUrlsAppend | download_books.py:9 | the filter works line by line, in order: the lines of two files give the URLs of the first, then those of the second |
| BookList.ReadBookUrlsLine | download_books.py:9 | one line gives its stripped form, or nothing when that is empty |
| BookList.ReadBookUrlsMembership | download_books.py:9 | a string is in the list exactly when it is non-empty and is the stripped form of some line |
| BookList.ReadBookUrlsIdempotent | download_books.py:9 | filtering the filtered list again changes nothing |
| Paths.Decimal | download_books.py:43 | `str(i)`: at least one decimal digit, with a leading zero only for 0 |
| Paths.ParseDecimalOfDecimal | download_books.py:43 | reading the digits of `str(i)` gives back `i` |
| Paths.DecimalInjective | download_books.py:43 | distinct indices have distinct decimal strings |
| Paths.Join | download_books.py:34-43 | POSIX `os.path.join(a, b)`: the result always ends with `b`, and when `b` is relative it starts with `a` |
| Paths.JoinParts | download_books.py:34-43 | step lemma used by the others: spells out the two branches of `Join`. An absolute second part replaces the first. A relative one follows `JoinPrefix(a)`, which adds a `/` only when `a` is non-empty and does not already end with one |
| Paths.ImageFile | download_books.py:43 | `f"{i}.jpg"` starts with a digit, so it is relative, and ends with `.jpg` |
| Paths.RemoteName | download_books.py:20-49 | the request URL of image `i` starts with `book_url + "/files/mobile/"`, with the image's file name after it |
| Paths.LocalName | download_books.py:43 | the local file of image `i` starts with the directory path and is longer than it |
| Paths.LocalNameParts | download_books.py:43 | the local file of image `i` is the directory, one `/` if needed, then `i.jpg` |
| Paths.ImageFileInjective | download_books.py:43 | distinct indices have distinct image file names |
| Paths.LocalNameInjective | download_books.py:43 | two images of one book never share a local file |
| Paths.LocalNamesInjective | download_books.py:43 | the same, for all pairs of indices |
| Paths.RemoteNameInjective | download_books.py:49 | two images of one book are never requested under the same URL |
| Paths.RemoteNameExample | download_books.py:20-49 | for book `http://host/book`, image 12 is requested as `http://host/book/files/mobile/12.jpg` |
| Paths.LocalNameExample | download_books.py:43 | in the directory `./Title`, image 12 is saved as `./Title/12.jpg` |
| Downloader.NextMissing | download_books.py:43-46 | skipping files on disk from cursor `i` ends at an index from `i` on whose file is missing; it terminates because only finitely many files exist |
| Downloader.NextMissingSkips | download_books.py:45-46 | every index skipped on the way has its file on disk |
| Downloader.NextMissingUnique | download_books.py:45-46 | a missing index with only existing files before it is the one the skips reach |
| Downloader.NextMissingPast | download_books.py:45-46 | step lemma: moving the cursor past an existing file does not change the next request |
| Downloader.Run | download_books.py:42-62 | the reference definition of the whole loop, one reply consumed per request. It has no contract of its own. The `Run…` lemmas below state its properties, and `DownloadImages` is proved equal to it |
| Downloader.RunEnd | download_books.py:42-62 | the loop ends at or after the first missing index, and the file of that last index does not exist at the end |
| Downloader.RunKeepsFiles | download_books.py:45-53 | no file that existed before the loop is changed or removed |
| Downloader.RunFiles | download_books.py:42-62 | the files after the loop are the old files plus the images from the start up to the final index, and no others |
| Downloader.RunProbesCount | download_books.py:48-60 | at most one request per reply, and all replies used when the loop runs out of them |
| Downloader.RunProbesRange | download_books.py:45-49 | every request is for an index between the first missing one and the final cursor whose file did not exist, and the first request is for the first missing index |
| Downloader.RunProbesOrder | download_books.py:48-62 | after an exception the next request is for the same index; after a response it is for a higher index and the response was 200; a stop's last request got a status other than 200 for the stopping index |
| Downloader.RunContents | download_books.py:50-52 | each 200 body ends up, unchanged, in the file of the index it was requested for |
| Downloader.RunWritesEachMissing | download_books.py:45-62 | every index below the final cursor whose file was missing was requested and answered with a 200 |
| Downloader.RunFreshRequests | download_books.py:39-62 | in a directory without these files, with images `i` to `i + N - 1` served and then another status, the requests are exactly `i` to `i + N` and the loop stops at `i + N` |
| Downloader.RunFreshDirectory | download_books.py:39-62 | in that case exactly the files `i` to `i + N - 1` are added, each holding its own served body, and the rest of the directory is unchanged |
| Downloader.RunResume | download_books.py:45-46 | when images `i` to `k - 1` already exist, the loop from `i` behaves as the loop from `k` and requests none of them |
| Downloader.RunSkip | download_books.py:45-46 | step lemma for `DownloadImages`, one unfolding of `Run`: a skipped index leaves the rest of the loop as it continues from the next index |
| Downloader.RunOut | download_books.py:48-49 | step lemma for `DownloadImages`, one unfolding of `Run`: a missing file with no reply left ends the model's run at that index |
| Downloader.RunRetry | download_books.py:56-60 | step lemma for `DownloadImages`, one unfolding of `Run`: on an exception the request is recorded and the same index is asked for again |
| Downloader.RunWrite | download_books.py:50-53 | step lemma for `DownloadImages`, one unfolding of `Run`: on 200 the request is recorded, the body written to the index's file and the loop goes on from the next index |
| Downloader.RunStop | download_books.py:54-55 | step lemma for `DownloadImages`, one unfolding of `Run`: on another status the loop ends at that index without writing |
| Downloader.RunSummary | download_books.py:39-62 | from image 1: the old files stay, images below the final index exist, nothing else is added, the final file is missing, and a stop came from the last request |
| Downloader.Disk.Exists | download_books.py:45 | `os.path.exists` is true exactly for the paths in the directory |
| Downloader.Disk.Write | download_books.py:51-52 | writing sets the file's contents to the body and changes no other file |
| Downloader.Urls | download_books.py:49 | request `m` is for `book_url + "/files/mobile/" + str(i) + ".jpg"` with `i` the index of request `m` |
| Downloader.ImageNames | download_books.py:43 | the local file of each index, distinct for distinct indices |
| Downloader.DownloadImages | download_books.py:39-62 | the loop computes `Run` from cursor 1, and requests its URLs in order. The old files stay unchanged and every image below the final cursor exists. Nothing else is added, and the final cursor's file does not exist. On a stop, the last URL requested is the stopping index's |
| Downloader.DownloadSummary | download_books.py:39-62 | those facts for the run of image names of a directory |
| Downloader.Title | download_books.py:26-28 | the title is never empty. It is the page's title whenever that is not empty, and exactly `Unknown_Book` when the page has no title or an empty one |
| Downloader.DirectoryBelow | download_books.py:34 | after `./`, a clean name adds neither `/` nor a space |
| Downloader.BookDirectory | download_books.py:33-34 | the directory is `./` followed by the sanitised title, with no `/` or space after the `./` |
| Downloader.BookDirectoryFallback | download_books.py:26-34 | a page without a title, or with an empty one, is saved under `./Unknown_Book` |
| Downloader.BookDirectoryBlankTitle | download_books.py:26-34 | a title of only whitespace escapes the fallback and sanitises to nothing, so its images go into `./` itself |
| Downloader.BookDirectoryDotDot | download_books.py:33-43 | the sanitiser keeps the titles `..` and `.`: the images of a book titled `..` go into the parent of the working directory, and those of a book titled `.` into the working directory itself |
| Downloader.BookImagePath | download_books.py:34-43 | for any other title, image `i` is `i.jpg` inside the book's directory |
| Downloader.DownloadBook | download_books.py:19-62 | when the page cannot be fetched or parsed, the book is skipped and nothing changes. Otherwise the loop runs from image 1 in the directory of the sanitised title or its fallback |

## Left out

- HTTP (`requests.get`): the image replies are a sequence given as input, one per request in order, and the page is a `Page` value.
- Parsing the page with lxml and `findtext('.//title')`: the page's title arrives as an `Option<string>`.
- Liveness of the retry loop: the program can retry an index forever, while the model's run has one reply per request and ends with `OutOfReplies` when they are used up. The model does not state when the real loop terminates.
- `os.makedirs` (download_books.py:37): the model has no directories, only the paths of files. Creating the book's directory is not modelled. Nor is the exception `makedirs` raises, outside any `try`, when something that is not a directory already has that path; that exception ends the whole program.
- Failing file writes (download_books.py:51-52): `Disk.Write` always succeeds. In the source, an exception raised by `open` itself is retried like a connection error. An exception raised by `write` is different, because `open(filename, 'wb')` has already created the file. The `continue` goes back to the top of the loop, `os.path.exists` is then true, and the index is skipped. The empty or partial file stays and that image is never requested again. The model does not capture this.
- The `tqdm` progress bar, the `print` messages and the one-second `time.sleep` before a retry: these are output and timing only.
- Reading `books.txt` and splitting it into lines: the lines arrive as a sequence of strings.
- The `__main__` driver (download_books.py:68-71): a plain loop calling `download_book` on each URL.
- Python strings are sequences of code points and Dafny's `char` is used for them. No encoding is modelled.
