# OurManga: a verified model of the chapter downloader's decision rules

`main.py` downloads a manga chapter. The steps are:

1. Scrape the chapter page for numbered image links.
2. Download each image into a working directory.
3. Sort the files by their number.
4. Put them into a PDF whose page size is taken from the images.
5. Unless asked to keep them, remove the images and the directory.

A `--chapters` specifier (`1,2,3` or `9-11`) runs this once per chapter. Each run gets a derived URL, directory and file name.

The Dafny module `OurManga` (`ourmanga.dfy`) models the logic inside that I/O glue:

- **Link selection.** The regular expressions `.*/[0-9]*\.jpg` and `.*/[0-9]*\.png` under `re.match`, on the stripped `src`. The model includes Python's `str.strip()` whitespace set. It proves that the hand-written matcher decides exactly "a slash with no newline before it, then ASCII digits, then the extension". JPEG links are preferred, with a PNG fallback that is still labelled `.jpg`.
- **Page size.** The running-maximum loop of `make_pdf`, as a method proved against a fold. The result is `(0, 0)` or the earliest largest portrait image. There is one page per image, in list order.
- **Chapter specifier.**
  - `str.split`, with split/join round trips.
  - Python's `int()`: the whitespace it skips around the number, one sign, digit groups with single underscores. Unlike `str.strip()`, `int()` does not skip the information separators U+001C to U+001F.
  - `range(lo, hi + 1)`.
  - The per-chapter f-string names.
- **Image files.**
  - Names `{i}.jpg` and the sort key `int(name[:-4])`.
  - An in-place insertion sort on an array.
  - A proof that a key-sorted listing of the downloads is the index order, so `9.jpg` comes before `10.jpg`.
  - The cleanup rule: unlink when the full path contains `.jpg`, then `rmdir`.
  - The working directory is a class whose set of entries the download and cleanup loops change in place.
- **One chapter end to end.** `DownloadChapter` takes:
  - the page's `src` values;
  - the state of the output path before the run;
  - a size function standing in for the image library.

  For a fresh directory, it proves two things, given that every downloaded file decodes (a decode error is not modelled; see "## Left out"). The PDF holds downloads 0 … n−1 in index order with the page size of the size loop. Without `--keep`, the directory is removed. For any directory, the chapter fails exactly when an old entry has no integer key, and the failure names such an entry.

Behaviour of the code that the model keeps:

- A failed download still leaves an entry. `download_image` opens `{i}.jpg` for writing before the GET (main.py:32-39), so the file exists even when the response is not 200. `WorkDir.Download` adds every name.
- A `--chapters` value with neither `,` nor `-` (say `5`) leaves `chapters` unbound (main.py:139-143), and the loop at main.py:144 raises. `ParseChapters` returns `Err(ChaptersUnbound)` there. A single chapter is run only when `--chapters` is absent.
- Cleanup tests the whole path string, directory included (main.py:124), not the file name. A working directory whose own path contains `.jpg` loses every entry.
- `rmdir` (main.py:126) raises `OSError` on a directory that still holds other entries, and nothing catches it. `DownloadChapter` returns `DirectoryNotEmpty` for this case. That outcome stands for the exception, raised after the PDF has been written.
- A non-integer range part (main.py:142) or an entry without an integer key (main.py:115) raises `ValueError`, and nothing catches it. The model's `Err` values stand for these exceptions.

## Model

| member | source | states |
|---|---|---|
| OurManga.StripSpec | main.py:47 | `src.strip()` removes a whitespace-only prefix and suffix and keeps the middle as a contiguous slice; the result neither starts nor ends with whitespace |
| OurManga.StripKeeps | main.py:47 | a string with non-whitespace ends strips to itself |
| OurManga.ContainsSpec | main.py:124 | `find(t) != -1` holds exactly when `t` occurs at some position |
| OurManga.MatchesPatternSpec | main.py:15-16 | the hand-written matcher accepts exactly the strings with a `/` at some i, no newline before i, then only ASCII digits, then the extension (anything may follow, since the match is anchored only at the start) |
| OurManga.DigitsThenSpec | main.py:15-16 | the `[0-9]*` + extension tail matches exactly when some digit run is followed by the extension |
| OurManga.Select | main.py:46-61 | the filtered list holds exactly the src values whose stripped form matches, unstripped, and is no longer than the input |
| OurManga.SelectAppend | main.py:61-64 | filtering keeps document order: it distributes over concatenation |
| OurManga.SelectSpec | main.py:46-50 | a src is selected exactly when it is on the page and its stripped form matches the regular expression |
| OurManga.ScrapeImageUrls | main.py:60-67 | the label is always ".jpg"; the list is empty exactly when no src matches either pattern |
| OurManga.ScrapePrefersJpeg | main.py:61-63 | one JPEG-pattern src anywhere means the result is the JPEG-filtered list, non-empty |
| OurManga.ScrapeFallsBackToPng | main.py:63-67 | with no JPEG-pattern src, the result is the PNG-filtered list, still labelled ".jpg" |
| OurManga.PageSizeIsEarliestLargestPortrait | main.py:74-78 | the page size is (0, 0) when no image is portrait; otherwise it is the size of a portrait image whose w+h no portrait image exceeds, and no earlier portrait image ties it |
| OurManga.PageSize | main.py:74-78 | the loop computes the fold, gives (0, 0) exactly when no image is portrait, and otherwise gives the earliest largest portrait size |
| OurManga.MakePdf | main.py:70-84 | the format is the loop's page size; one page per image in list order, each drawing its image at (0, 0) at its own size |
| OurManga.PortraitPageExample | main.py:77 | of 100x150 and 150x100 only the portrait one sets the page: 100x150 |
| OurManga.DecimalRoundTrip | main.py:32 | the decimal digits `f'{n}'` writes denote n |
| OurManga.ParseIntRoundTrip | main.py:115 | `int()` reads back the decimal text `f'{i}'` writes for an integer i, negative ones included |
| OurManga.SeparatorNotSkipped | main.py:115 | `str.strip()` removes a leading U+001C but `int()` rejects `"\x1c5"`: the two skip different whitespace |
| OurManga.ParseIntOfDigits | main.py:142 | `int()` reads a digit string, with or without a leading minus, as its value |
| OurManga.ParseSignedNegative | main.py:142 | a leading minus negates the value of the digit groups after it |
| OurManga.NatToDecimalInjective | main.py:32 | different indices have different decimal names |
| OurManga.SplitCount | main.py:140-142 | `split(c)` yields one more part than there are separators |
| OurManga.SplitParts | main.py:139-142 | there are two or more parts exactly when the separator occurs, and no part contains it |
| OurManga.SplitJoin | main.py:140 | joining the split parts with the separator gives back the specifier |
| OurManga.JoinSplit | main.py:140 | separator-free parts joined by the separator split back into the same parts |
| OurManga.ParseAllSpec | main.py:142 | `[int(ch) for ch in parts]`: on success every part parses to its number, in order; on failure the first part that does not parse is named |
| OurManga.RangeLabels | main.py:143-147 | definition: `range(lo, hi + 1)` as the decimal labels lo, lo+1, …, hi−lo+1 of them and none when hi < lo |
| OurManga.RangeLabelsDistinct | main.py:143-147 | the chapters of a range are pairwise different labels, so with `JobsAreDistinct` no two range jobs share a URL, directory or file name |
| OurManga.ParseChapters | main.py:139-144 | the specifier fails as unbound exactly when it contains neither ',' nor '-' |
| OurManga.CommaSpecIsVerbatim | main.py:139-140 | with a comma, the chapters are at least two tokens that join back to the specifier, hyphens and all |
| OurManga.CommaTokensRoundTrip | main.py:139-140 | any two or more comma-free tokens come back unchanged from the comma-joined specifier |
| OurManga.CommaSpecExample | main.py:139-140 | "1,2,3" names the chapters "1", "2", "3" |
| OurManga.RangeSpecExample | main.py:141-143 | "9-11" names the chapters "9", "10", "11" |
| OurManga.RangeSpecParts | main.py:141-143 | without a comma, a hyphen specifier whose parts all pass `int()` (signs, padding, underscores, surrounding whitespace) names the chapters from the first part's value to the second's; a third or later part is only checked |
| OurManga.RangeSpec | main.py:141-143 | `lo-hi` in decimal names the chapters lo … hi inclusive, none when hi < lo |
| OurManga.RangeSpecNeedsIntegers | main.py:141-142 | without a comma, a hyphen specifier with any part that is not an integer fails, parts after the second included |
| OurManga.Plan | main.py:134-148 | definition of the calls `main` attempts: no specifier gives the base job alone; a failing specifier fails; otherwise one job per chapter, in order, each with the suffixed URL, directory and file name |
| OurManga.JobsAreDistinct | main.py:145-147 | different chapters get different URLs, directories and file names |
| OurManga.IndexPart | main.py:115 | `name[:-4]` is the name without its last four characters, or empty for a shorter name |
| OurManga.ImageNameKey | main.py:115 | the sort key of `{i}.jpg` is i |
| OurManga.ImageNamesDiffer | main.py:32 | downloads with different indices are written to different files |
| OurManga.ImageNamesSorted | main.py:108-115 | the names in index order are in ascending key order, and the key tells them apart |
| OurManga.NameSetCounts | main.py:108-109 | the n downloads are n distinct directory entries |
| OurManga.SortedUnique | main.py:115 | two key-sorted arrangements of the same entries, with keys telling them apart, are identical |
| OurManga.ListingOrder | main.py:114-115 | any key-sorted listing of downloads 0 … n−1 lists them in index order |
| OurManga.FreshListing | main.py:101-115 | in a directory created for the chapter, the sorted listing is exactly downloads 0 … n−1 in index order |
| OurManga.ListingCoversDownloads | main.py:108-114 | the listing of a directory holding the n downloads has at least n entries |
| OurManga.SortBy | main.py:115 | the in-place sort leaves the array in ascending key order and a permutation of what it held |
| OurManga.Insert | main.py:115 | one insertion step extends the sorted prefix by one element, permutes that prefix and leaves the rest of the array untouched |
| OurManga.SortedCopy | main.py:114-115 | the sorted list is in key order and a permutation of the listing |
| OurManga.FirstUnkeyed | main.py:115 | finds the first name whose key `int()` rejects, or reports that every name has a key |
| OurManga.Listing | main.py:114 | the listing holds every entry exactly once |
| OurManga.DownloadsKeyed | main.py:108-115 | every download has an integer sort key |
| OurManga.Survivors | main.py:123-125 | definition: an entry survives cleanup exactly when its full path does not contain ".jpg" |
| OurManga.DownloadsUnlinked | main.py:124 | every `{i}.jpg` download is removed by cleanup, whatever the directory |
| OurManga.DownloadsAllUnlinked | main.py:108-125 | a directory holding only the downloads is emptied by cleanup |
| OurManga.JpgDirectoryEmptied | main.py:124 | when the directory path itself contains ".jpg", every entry is removed |
| OurManga.JpgPathUnlinked | main.py:124 | any entry of a directory whose path contains ".jpg" is unlinked |
| OurManga.ContainsSuffix | main.py:124 | a path contains each of its suffixes, so a name ending in ".jpg" is matched |
| OurManga.ImagesOf | main.py:114-117 | definition: one image per listed name, at `dir/name`, with the size the image library reports for that path |
| OurManga.WorkDir.Download | main.py:108-109 | the entries afterwards are the old ones plus `{i}{ext}` for every link index i, whatever each response was |
| OurManga.WorkDir.SortedImages | main.py:114-115 | on success, the result is key-sorted and holds exactly the entries, each with a key; on failure, it names an entry whose key `int()` rejects |
| OurManga.WorkDir.Cleanup | main.py:121-126 | afterwards exactly the entries whose path lacks ".jpg" remain, and rmdir succeeds exactly when none remain |
| OurManga.DownloadChapter | main.py:87-126 | no links aborts exactly when neither pattern matches; a non-directory path aborts; the chapter fails exactly when there are links, the path is an existing directory and one of its old entries has no integer key, and the failure names such an entry; a written chapter has the `dir/../name.pdf` path; the entries left are all of them (old ones plus the downloads) under `--keep`, and otherwise exactly those whose path lacks ".jpg"; the directory is removed exactly when it is cleaned up and nothing is left; for a fresh directory the PDF holds downloads 0 … n−1 in index order with the loop's page size, and without `--keep` the directory is removed |

## Left out

- HTTP (`requests.Session.get`), status codes and response bytes (main.py:34-39, 53): network I/O. The model keeps only the fact that the file is created whatever the status.
- The exception path of `scrape_image_urls` (main.py:54-57). It refers to a global `args` and returns `None`, which then breaks the unpacking at main.py:96. It is error plumbing around network I/O.
- BeautifulSoup parsing and the page title (main.py:58-60). This is a foreign library. The page is given as the sequence of its `<img>` `src` values, and an `<img>` without `src` (a `KeyError`) is not modelled.
- PIL decoding, grayscale conversion and size queries (main.py:19-22, 76, 81, 110-112). This is a foreign codec. Sizes come from a `sizeOf` function parameter. A file that does not decode (for example an empty file left by a failed download) is not modelled.
- FPDF document writing (main.py:79-84, 116-119). The document is the value `Pdf(format, pages)`.
- argparse, logging, `print` and the timestamped default directory (main.py:129-133, 149-173). This is CLI plumbing. `main`'s loop over chapters is `Plan`, which lists the `download_chapter` calls `main` attempts, in order. The file-system state is not threaded from one chapter to the next.
- Exceptions across chapters. An uncaught exception in one chapter ends `main`, and the chapters after it are never downloaded. Examples are the `OSError` of `rmdir` (main.py:126), the `ValueError` of the sort key (main.py:115) and a decode error (main.py:112). `Plan` does not model this early stop. `DownloadChapter` reports the `OSError` and `ValueError` cases as outcomes (`DirectoryNotEmpty`, `Failed`). The decode error is not modelled, because `sizeOf` is total.
- ParseIntRoundTrip: does not model CPython's limit on integer string conversion (3.11 and later). Both `f'{i}'` and `int()` then raise `ValueError` for more than 4300 digits. The model's integers and decimal texts are unbounded.
- pathlib normalisation. `JoinPath` joins with "/" and does not collapse "./" or "..". `mkdir(parents=True)` and `exists`/`is_dir` are reduced to the state `Missing | Directory | NotDirectory`.
- ParseInt: accepts only ASCII digits. Python's `int()` also reads other Unicode decimal digits. Those are not modelled.
- SortBy: its contract does not state stability. It swaps only on a strictly larger key, so it is stable as Python's sort is, but the proof does not cover that. Every use in the model has keys that tell the entries apart, where stability makes no difference.
- DownloadChapter: for a pre-existing directory, its contract states the path, when the chapter fails, the entries left after cleanup and a lower bound on the page count, not the full page list. That list depends on the entries already present and on their keys.
- WorkDir.SortedImages: when several entries lack a key, the model reports any one of them. Python reports the first in `iterdir()` order, and that order is left open.
