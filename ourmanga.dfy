/** A model of the decision rules inside the manga downloader's main.py:
    which image links a chapter page yields, which page size the PDF gets,
    how the chapter specifier expands into per-chapter jobs, how downloaded
    files are named and ordered, and which files cleanup removes.
    HTTP, HTML parsing, image decoding, PDF writing and the file system are
    abstracted as plain input values. */
module OurManga {

  datatype Option<T> = None | Some(value: T)

  /** The failures of the modelled code.  Each is an exception the source
      does not catch. */
  datatype Error =
    | ChaptersUnbound             // main.py:144 reads `chapters`, which neither branch bound
    | NotAnInteger(part: string)  // int(part) raised ValueError (main.py:142)
    | BadImageName(name: string)  // int(name[:-4]) raised ValueError (main.py:115)

  datatype Result<T> = Ok(value: T) | Err(error: Error)

  // ---------------------------------------------------------------------
  // Characters and str.strip()
  // ---------------------------------------------------------------------

  /** Python's str.isspace() for one character, by code point: tab to
      carriage return, the four information separators, space, NEL, NBSP,
      the Ogham space mark, the general-punctuation spaces, the line and
      paragraph separators, and the ideographic space. */
  predicate IsSpace(c: char)
  {
    var n := c as int;
    (0x09 <= n <= 0x0D) || (0x1C <= n <= 0x20) || n == 0x85 || n == 0xA0 || n == 0x1680
    || (0x2000 <= n <= 0x200A) || n == 0x2028 || n == 0x2029 || n == 0x202F || n == 0x205F
    || n == 0x3000
  }

  /** The whitespace Python's int() skips around a number: CPython passes
      characters below 127 through to a scanner that skips only space and
      tab to carriage return, so the four information separators U+001C to
      U+001F are not skipped; every other isspace() character is. */
  predicate IsIntSpace(c: char)
  {
    IsSpace(c) && !(0x1C <= c as int <= 0x1F)
  }

  /** Every character of `s` is whitespace in the sense of `sp`. */
  predicate AllSpace(s: string, sp: char -> bool) { forall k :: 0 <= k < |s| ==> sp(s[k]) }

  /** `[0-9]` in a Python regular expression, and the digits int() reads here. */
  predicate IsDigit(c: char) { '0' <= c <= '9' }

  predicate AllDigits(s: string) { forall k :: 0 <= k < |s| ==> IsDigit(s[k]) }

  /** The number of whitespace characters `s` starts with. */
  function LeadingSpace(s: string, sp: char -> bool): (n: nat)
    ensures n <= |s|
  {
    if s != [] && sp(s[0]) then 1 + LeadingSpace(s[1..], sp) else 0
  }

  /** The number of whitespace characters `s` ends with. */
  function TrailingSpace(s: string, sp: char -> bool): (n: nat)
    ensures n <= |s|
  {
    if s != [] && sp(s[|s| - 1]) then 1 + TrailingSpace(s[..|s| - 1], sp) else 0
  }

  /** `s` without the whitespace at both ends, whitespace being `sp`:
      Python's str.strip() with no argument is `Strip(s, IsSpace)`. */
  function Strip(s: string, sp: char -> bool): string
  {
    var t := s[LeadingSpace(s, sp)..];
    t[..|t| - TrailingSpace(t, sp)]
  }

  lemma {:induction false} LeadingSpaceSpec(s: string, sp: char -> bool)
    ensures AllSpace(s[..LeadingSpace(s, sp)], sp)
    ensures LeadingSpace(s, sp) == |s| || !sp(s[LeadingSpace(s, sp)])
  {
    if s != [] && sp(s[0]) {
      LeadingSpaceSpec(s[1..], sp);
      var n := LeadingSpace(s[1..], sp);
      assert s[..n + 1] == [s[0]] + s[1..][..n];
    }
  }

  lemma {:induction false} TrailingSpaceSpec(s: string, sp: char -> bool)
    ensures AllSpace(s[|s| - TrailingSpace(s, sp)..], sp)
    ensures TrailingSpace(s, sp) == |s| || !sp(s[|s| - TrailingSpace(s, sp) - 1])
  {
    if s != [] && sp(s[|s| - 1]) {
      var init := s[..|s| - 1];
      TrailingSpaceSpec(init, sp);
      var n := TrailingSpace(init, sp);
      assert TrailingSpace(s, sp) == n + 1;
      var tail := s[|s| - (n + 1)..];
      forall k | 0 <= k < n + 1
        ensures sp(tail[k])
      {
        if k < n {
          assert tail[k] == s[|s| - (n + 1) + k] == init[|init| - n + k];
          assert init[|init| - n + k] == init[|init| - n..][k];
        }
      }
      if n < |init| {
        assert s[|s| - (n + 1) - 1] == init[|init| - n - 1];
      }
    } else {
      assert TrailingSpace(s, sp) == 0;
    }
  }

  /** `r` is `s` with the first `lo` characters and everything after
      `lo + |r|` cut off, and only whitespace was cut. */
  ghost predicate StrippedAt(s: string, lo: nat, r: string, sp: char -> bool)
  {
    lo + |r| <= |s| && s[lo..lo + |r|] == r && AllSpace(s[..lo], sp) && AllSpace(s[lo + |r|..], sp)
  }

  /** strip() removes whitespace from both ends and nothing else, and what
      it leaves neither starts nor ends with whitespace. */
  lemma {:induction false} StripSpec(s: string, sp: char -> bool)
    ensures var r := Strip(s, sp);
      && (r == [] || (!sp(r[0]) && !sp(r[|r| - 1])))
      && exists lo: nat :: StrippedAt(s, lo, r, sp)
  {
    var lo := LeadingSpace(s, sp);
    var t := s[lo..];
    LeadingSpaceSpec(s, sp);
    TrailingSpaceSpec(t, sp);
    var r := Strip(s, sp);
    assert r == t[..|t| - TrailingSpace(t, sp)];
    assert s[lo..lo + |r|] == r;
    assert s[lo + |r|..] == t[|t| - TrailingSpace(t, sp)..];
    assert StrippedAt(s, lo, r, sp);
  }

  /** A string that neither starts nor ends with whitespace strips to itself. */
  lemma {:induction false} StripKeeps(s: string, sp: char -> bool)
    requires s == [] || (!sp(s[0]) && !sp(s[|s| - 1]))
    ensures Strip(s, sp) == s
  {
    assert s[0..] == s;
    assert s[..|s|] == s;
  }

  // ---------------------------------------------------------------------
  // Substrings: str.find(t) != -1
  // ---------------------------------------------------------------------

  ghost predicate OccursAt(s: string, t: string, k: nat)
  {
    k + |t| <= |s| && s[k..k + |t|] == t
  }

  /** `s.find(t) != -1`, by trying every starting position in turn. */
  function Contains(s: string, t: string): bool
    decreases |s|
  {
    t <= s || (s != [] && Contains(s[1..], t))
  }

  lemma {:induction false} ContainsSpec(s: string, t: string)
    ensures Contains(s, t) <==> exists k: nat :: OccursAt(s, t, k)
    decreases |s|
  {
    if t <= s {
      assert OccursAt(s, t, 0);
    } else if s == [] {
    } else {
      ContainsSpec(s[1..], t);
      if Contains(s[1..], t) {
        var k: nat :| OccursAt(s[1..], t, k);
        OccursShift(s, t, k);
      }
      if k: nat :| OccursAt(s, t, k) {
        assert k != 0;
        OccursUnshift(s, t, k);
      }
    }
  }

  lemma {:induction false} OccursShift(s: string, t: string, k: nat)
    requires s != [] && OccursAt(s[1..], t, k)
    ensures OccursAt(s, t, k + 1)
  {
    assert s[k + 1..k + 1 + |t|] == s[1..][k..k + |t|];
  }

  lemma {:induction false} OccursUnshift(s: string, t: string, k: nat)
    requires 0 < k && OccursAt(s, t, k)
    ensures OccursAt(s[1..], t, k - 1)
  {
    assert s[1..][k - 1..k - 1 + |t|] == s[k..k + |t|];
  }

  /** A string contains each of its suffixes. */
  lemma {:induction false} ContainsSuffix(p: string, t: string)
    ensures Contains(p + t, t)
  {
    assert (p + t)[|p|..|p| + |t|] == t;
    assert OccursAt(p + t, t, |p|);
    ContainsSpec(p + t, t);
  }

  // ---------------------------------------------------------------------
  // Image-link selection (scrape_image_urls)
  // ---------------------------------------------------------------------

  const Jpg := ".jpg"
  const Png := ".png"

  predicate NoNewline(s: string) { forall k :: 0 <= k < |s| ==> s[k] != '\n' }

  // The regular expression `.*/[0-9]*` followed by `ext` matches the start
  // of `s` using the slash at `i` and the digits `s[i+1..j]`: `.` does not
  // match a newline, and `re.match` anchors at the start only.
  ghost predicate MatchAt(s: string, ext: string, i: nat, j: nat)
  {
    i < j && j + |ext| <= |s| && NoNewline(s[..i]) && s[i] == '/'
    && AllDigits(s[i + 1..j]) && s[j..j + |ext|] == ext
  }

  ghost predicate PatternSpec(s: string, ext: string)
  {
    exists i: nat, j: nat :: MatchAt(s, ext, i, j)
  }

  /** `[0-9]*` then `ext` matches the start of `t`. */
  function DigitsThen(t: string, ext: string): bool
    decreases |t|
  {
    ext <= t || (t != [] && IsDigit(t[0]) && DigitsThen(t[1..], ext))
  }

  // `re.match(".*/[0-9]*" + ext, s) is not None` (main.py:15-16, 47, 50),
  // scanning the candidate positions of the slash from the left.
  function MatchesPattern(s: string, ext: string): bool
    decreases |s|
  {
    s != [] && s[0] != '\n'
    && ((s[0] == '/' && DigitsThen(s[1..], ext)) || MatchesPattern(s[1..], ext))
  }

  ghost predicate DigitsThenAt(t: string, ext: string, j: nat)
  {
    j + |ext| <= |t| && AllDigits(t[..j]) && t[j..j + |ext|] == ext
  }

  lemma {:induction false} DigitsThenSpec(t: string, ext: string)
    ensures DigitsThen(t, ext) <==> exists j: nat :: DigitsThenAt(t, ext, j)
  {
    if DigitsThen(t, ext) {
      DigitsThenSound(t, ext);
    }
    if j: nat :| DigitsThenAt(t, ext, j) {
      DigitsThenComplete(t, ext, j);
    }
  }

  lemma {:induction false} DigitsThenSound(t: string, ext: string)
    requires DigitsThen(t, ext)
    ensures exists j: nat :: DigitsThenAt(t, ext, j)
    decreases |t|
  {
    if ext <= t {
      assert t[..0] == [] && t[0..|ext|] == ext;
      assert DigitsThenAt(t, ext, 0);
    } else {
      DigitsThenSound(t[1..], ext);
      var j: nat :| DigitsThenAt(t[1..], ext, j);
      DigitsShift(t, ext, j);
    }
  }

  lemma {:induction false} DigitsShift(t: string, ext: string, j: nat)
    requires t != [] && IsDigit(t[0]) && DigitsThenAt(t[1..], ext, j)
    ensures DigitsThenAt(t, ext, j + 1)
  {
    assert t[1..][j..j + |ext|] == t[j + 1..j + 1 + |ext|];
    assert t[..j + 1] == [t[0]] + t[1..][..j];
  }

  lemma {:induction false} DigitsThenComplete(t: string, ext: string, j: nat)
    requires DigitsThenAt(t, ext, j)
    ensures DigitsThen(t, ext)
    decreases j
  {
    if j == 0 {
      assert t[..|ext|] == t[0..|ext|];
    } else {
      DigitsUnshift(t, ext, j);
      DigitsThenComplete(t[1..], ext, j - 1);
    }
  }

  lemma {:induction false} DigitsUnshift(t: string, ext: string, j: nat)
    requires 0 < j && DigitsThenAt(t, ext, j)
    ensures IsDigit(t[0]) && DigitsThenAt(t[1..], ext, j - 1)
  {
    assert t[..j][0] == t[0];
    assert t[1..][..j - 1] == t[1..j];
    assert t[1..][j - 1..j - 1 + |ext|] == t[j..j + |ext|];
  }

  /** The hand-written matcher decides exactly the regular expression. */
  lemma {:induction false} MatchesPatternSpec(s: string, ext: string)
    ensures MatchesPattern(s, ext) <==> PatternSpec(s, ext)
  {
    if MatchesPattern(s, ext) {
      MatchesPatternSound(s, ext);
    }
    if PatternSpec(s, ext) {
      var i: nat, j: nat :| MatchAt(s, ext, i, j);
      MatchesPatternComplete(s, ext, i, j);
    }
  }

  lemma {:induction false} MatchesPatternSound(s: string, ext: string)
    requires MatchesPattern(s, ext)
    ensures PatternSpec(s, ext)
    decreases |s|
  {
    if s[0] == '/' && DigitsThen(s[1..], ext) {
      DigitsThenSpec(s[1..], ext);
      var j: nat :| DigitsThenAt(s[1..], ext, j);
      assert s[1..][j..j + |ext|] == s[j + 1..j + 1 + |ext|];
      assert s[1..][..j] == s[1..j + 1];
      assert MatchAt(s, ext, 0, j + 1);
    } else {
      MatchesPatternSound(s[1..], ext);
      var i: nat, j: nat :| MatchAt(s[1..], ext, i, j);
      ShiftMatch(s, ext, i, j);
    }
  }

  /** A match in `s[1..]` is a match in `s` one position on, when `s[0]` is
      not a newline. */
  lemma {:induction false} ShiftMatch(s: string, ext: string, i: nat, j: nat)
    requires s != [] && s[0] != '\n' && MatchAt(s[1..], ext, i, j)
    ensures MatchAt(s, ext, i + 1, j + 1)
  {
    var t := s[1..];
    assert s[..i + 1] == [s[0]] + t[..i];
    assert forall k :: i + 2 <= k < j + 1 ==> s[k] == t[k - 1];
    assert t[i + 1..j] == s[i + 2..j + 1];
    assert t[j..j + |ext|] == s[j + 1..j + 1 + |ext|];
  }

  lemma {:induction false} MatchesPatternComplete(s: string, ext: string, i: nat, j: nat)
    requires MatchAt(s, ext, i, j)
    ensures MatchesPattern(s, ext)
    decreases i
  {
    if i == 0 {
      assert s[1..][..j - 1] == s[1..j];
      assert s[1..][j - 1..j - 1 + |ext|] == s[j..j + |ext|];
      assert DigitsThenAt(s[1..], ext, j - 1);
      DigitsThenSpec(s[1..], ext);
    } else {
      assert s[..i][0] == s[0];
      UnshiftMatch(s, ext, i, j);
      MatchesPatternComplete(s[1..], ext, i - 1, j - 1);
    }
  }

  lemma {:induction false} UnshiftMatch(s: string, ext: string, i: nat, j: nat)
    requires 0 < i && MatchAt(s, ext, i, j)
    ensures MatchAt(s[1..], ext, i - 1, j - 1)
  {
    assert s[1..][..i - 1] == s[1..i];
    assert s[1..][i..j - 1] == s[i + 1..j];
    assert s[1..][j - 1..j - 1 + |ext|] == s[j..j + |ext|];
  }

  /** The filter of one <img> src: the pattern is applied to the stripped
      value (main.py:46-50). */
  predicate SrcMatches(src: string, ext: string)
  {
    MatchesPattern(Strip(src, IsSpace), ext)
  }

  /** `[img['src'] for img in filter(f, all_images)]` (main.py:61, 64): the
      src values whose stripped form matches, unstripped and in page order. */
  function Select(srcs: seq<string>, ext: string): (r: seq<string>)
    ensures |r| <= |srcs|
    ensures forall x :: x in r <==> x in srcs && SrcMatches(x, ext)
  {
    if srcs == [] then []
    else (if SrcMatches(srcs[0], ext) then [srcs[0]] else []) + Select(srcs[1..], ext)
  }

  /** Selection distributes over concatenation; with Select([x]) this
      determines it: nothing is reordered, duplicated or dropped. */
  lemma {:induction false} SelectAppend(a: seq<string>, b: seq<string>, ext: string)
    ensures Select(a + b, ext) == Select(a, ext) + Select(b, ext)
  {
    if a == [] {
      assert a + b == b;
    } else {
      assert (a + b)[0] == a[0] && (a + b)[1..] == a[1..] + b;
      SelectAppend(a[1..], b, ext);
      var head := if SrcMatches(a[0], ext) then [a[0]] else [];
      assert Select(a + b, ext) == head + (Select(a[1..], ext) + Select(b, ext));
      assert Select(a, ext) == head + Select(a[1..], ext);
      AppendAssoc(head, Select(a[1..], ext), Select(b, ext));
    }
  }

  /** Kept as a lemma: stated inline, the step is much dearer for the
      solver in SelectAppend's context. */
  lemma {:induction false} AppendAssoc<T>(x: seq<T>, y: seq<T>, z: seq<T>)
    ensures (x + y) + z == x + (y + z)
  {
  }

  /** The links of a page and the extension the files get. */
  datatype ImageLinks = ImageLinks(urls: seq<string>, ext: string)

  /** The pure part of scrape_image_urls (main.py:60-67), given the src
      attributes of the page's <img> elements in document order. */
  function ScrapeImageUrls(srcs: seq<string>): (links: ImageLinks)
    ensures links.ext == Jpg
    ensures links.urls == [] <==> forall x :: x in srcs ==> !SrcMatches(x, Jpg) && !SrcMatches(x, Png)
  {
    var jpgs := Select(srcs, Jpg);
    if |jpgs| < 1 then
      var pngs := Select(srcs, Png);
      assert pngs != [] ==> pngs[0] in pngs;
      ImageLinks(pngs, Jpg)
    else
      assert jpgs[0] in jpgs;
      ImageLinks(jpgs, Jpg)
  }

  /** A src is selected for `ext` iff its stripped form has a slash with no
      newline before it, then ASCII digits, then `ext`. */
  lemma {:induction false} SelectSpec(srcs: seq<string>, ext: string, x: string)
    ensures x in Select(srcs, ext) <==> x in srcs && PatternSpec(Strip(x, IsSpace), ext)
  {
    MatchesPatternSpec(Strip(x, IsSpace), ext);
  }

  /** One JPEG-pattern src anywhere on the page means the JPEG list is the
      result. */
  lemma {:induction false} ScrapePrefersJpeg(srcs: seq<string>, k: nat)
    requires k < |srcs| && PatternSpec(Strip(srcs[k], IsSpace), Jpg)
    ensures ScrapeImageUrls(srcs) == ImageLinks(Select(srcs, Jpg), Jpg)
    ensures ScrapeImageUrls(srcs).urls != []
  {
    SelectSpec(srcs, Jpg, srcs[k]);
  }

  /** Without a JPEG-pattern src, the PNG-pattern srcs are taken, still
      labelled ".jpg". */
  lemma {:induction false} ScrapeFallsBackToPng(srcs: seq<string>)
    requires forall k :: 0 <= k < |srcs| ==> !PatternSpec(Strip(srcs[k], IsSpace), Jpg)
    ensures ScrapeImageUrls(srcs) == ImageLinks(Select(srcs, Png), Jpg)
  {
    if Select(srcs, Jpg) != [] {
      SelectSpec(srcs, Jpg, Select(srcs, Jpg)[0]);
      assert false;
    }
  }

  // ---------------------------------------------------------------------
  // Page size and layout (make_pdf)
  // ---------------------------------------------------------------------

  /** An image's pixel size, `im.size == (w, h)`. */
  datatype Size = Size(w: nat, h: nat)

  predicate IsPortrait(sz: Size) { sz.h > sz.w }

  /** `sum(im.size)`. */
  function Extent(sz: Size): nat { sz.w + sz.h }

  /** One turn of the loop at main.py:75-78. */
  function PageStep(page: Size, sz: Size): Size
  {
    if IsPortrait(sz) && Extent(sz) > Extent(page) then sz else page
  }

  /** The page size after the loop has seen all of `sizes`, from (0, 0). */
  function PageSizeOf(sizes: seq<Size>): Size
  {
    if sizes == [] then Size(0, 0)
    else PageStep(PageSizeOf(sizes[..|sizes| - 1]), sizes[|sizes| - 1])
  }

  /** Image `k` is portrait, no portrait image has a larger `w + h`, and every
      portrait image before it has a smaller one. */
  ghost predicate IsEarliestLargestPortrait(sizes: seq<Size>, k: nat)
  {
    && k < |sizes| && IsPortrait(sizes[k])
    && (forall j :: 0 <= j < |sizes| && IsPortrait(sizes[j]) ==> Extent(sizes[j]) <= Extent(sizes[k]))
    && (forall j :: 0 <= j < k && IsPortrait(sizes[j]) ==> Extent(sizes[j]) < Extent(sizes[k]))
  }

  predicate NoPortrait(sizes: seq<Size>)
  {
    forall j :: 0 <= j < |sizes| ==> !IsPortrait(sizes[j])
  }

  /** The page size is (0, 0) when no image is portrait, and otherwise the
      size of the earliest portrait image with the largest `w + h`. */
  lemma {:induction false} PageSizeIsEarliestLargestPortrait(sizes: seq<Size>)
    ensures NoPortrait(sizes) ==> PageSizeOf(sizes) == Size(0, 0)
    ensures !NoPortrait(sizes) ==>
      exists k: nat :: IsEarliestLargestPortrait(sizes, k) && PageSizeOf(sizes) == sizes[k]
  {
    if sizes != [] {
      var n := |sizes| - 1;
      var init, last := sizes[..n], sizes[n];
      PageSizeIsEarliestLargestPortrait(init);
      assert sizes == init + [last];
      if NoPortrait(init) {
        if IsPortrait(last) {
          assert IsEarliestLargestPortrait(sizes, n);
        }
      } else {
        var k: nat :| IsEarliestLargestPortrait(init, k) && PageSizeOf(init) == init[k];
        ExtendLargestPortrait(init, last, k);
      }
    }
  }

  lemma {:induction false} ExtendLargestPortrait(init: seq<Size>, last: Size, k: nat)
    requires IsEarliestLargestPortrait(init, k)
    ensures IsEarliestLargestPortrait(init + [last], if PageStep(init[k], last) == init[k] then k else |init|)
  {
    var sizes := init + [last];
    assert forall j :: 0 <= j < |init| ==> sizes[j] == init[j];
  }

  /** The loop at main.py:74-78 that picks the page size. */
  method PageSize(sizes: seq<Size>) returns (page: Size)
    ensures page == PageSizeOf(sizes)
    ensures NoPortrait(sizes) <==> page == Size(0, 0)
    ensures !NoPortrait(sizes) ==> exists k: nat :: IsEarliestLargestPortrait(sizes, k) && page == sizes[k]
  {
    page := Size(0, 0);
    for i := 0 to |sizes|
      invariant page == PageSizeOf(sizes[..i])
    {
      assert sizes[..i + 1][..i] == sizes[..i];
      var sz := sizes[i];
      if sz.h > sz.w && sz.w + sz.h > page.w + page.h {
        page := sz;
      }
    }
    assert sizes[..|sizes|] == sizes;
    PageSizeIsEarliestLargestPortrait(sizes);
  }

  /** An image file as make_pdf sees it: its path and its pixel size. */
  datatype Image = Image(path: string, size: Size)

  /** `pdf.image(path, x, y, w, h)` on a page of its own. */
  datatype Placement = Placement(path: string, x: nat, y: nat, w: nat, h: nat)

  /** The document: one page format for all pages, and the pages in order. */
  datatype Pdf = Pdf(format: Size, pages: seq<Placement>)

  function SizesOf(images: seq<Image>): (sizes: seq<Size>)
    ensures |sizes| == |images|
    ensures forall i :: 0 <= i < |images| ==> sizes[i] == images[i].size
  {
    seq(|images|, i requires 0 <= i < |images| => images[i].size)
  }

  /** make_pdf (main.py:70-84): the page format from the size loop, then one
      page per image in list order, with the image drawn at the origin at its
      own pixel size. */
  method MakePdf(images: seq<Image>) returns (doc: Pdf)
    ensures doc.format == PageSizeOf(SizesOf(images))
    ensures |doc.pages| == |images|
    ensures forall i :: 0 <= i < |images| ==>
      doc.pages[i] == Placement(images[i].path, 0, 0, images[i].size.w, images[i].size.h)
  {
    var format := PageSize(SizesOf(images));
    var pages: seq<Placement> := [];
    for i := 0 to |images|
      invariant |pages| == i
      invariant forall j :: 0 <= j < i ==>
        pages[j] == Placement(images[j].path, 0, 0, images[j].size.w, images[j].size.h)
    {
      var im := images[i];
      pages := pages + [Placement(im.path, 0, 0, im.size.w, im.size.h)];
    }
    doc := Pdf(format, pages);
  }

  /** Two images of 100x150 and 150x100: only the first is portrait, so
      every page is 100x150. */
  lemma {:induction false} PortraitPageExample()
    ensures PageSizeOf([Size(100, 150), Size(150, 100)]) == Size(100, 150)
  {
    var first, second := Size(100, 150), Size(150, 100);
    var sizes := [first, second];
    assert sizes[..1] == [first];
    assert [first][..0] == [];
    assert PageSizeOf([first]) == first;
  }

  // ---------------------------------------------------------------------
  // Decimal numbers: str(n) and int(s)
  // ---------------------------------------------------------------------

  function DigitChar(d: nat): char
    requires d < 10
  {
    "0123456789"[d]
  }

  /** The decimal text of a natural number, as `f'{n}'` writes it. */
  function NatToDecimal(n: nat): (r: string)
    ensures r != [] && AllDigits(r)
  {
    if n < 10 then [DigitChar(n)] else NatToDecimal(n / 10) + [DigitChar(n % 10)]
  }

  /** `f'{i}'` for an int. */
  function IntToDecimal(i: int): string
  {
    if i < 0 then "-" + NatToDecimal(-i) else NatToDecimal(i)
  }

  /** The number a string of ASCII digits denotes, read most significant
      digit first. */
  function DecimalValue(ds: string): nat
    requires AllDigits(ds)
  {
    if ds == [] then 0
    else DecimalValue(ds[..|ds| - 1]) * 10 + (ds[|ds| - 1] as int - '0' as int)
  }

  lemma {:induction false} DecimalRoundTrip(n: nat)
    ensures DecimalValue(NatToDecimal(n)) == n
  {
    var r := NatToDecimal(n);
    if n >= 10 {
      DecimalRoundTrip(n / 10);
      assert r[..|r| - 1] == NatToDecimal(n / 10);
    }
  }

  /** Digit groups as int() accepts them in base 10: digits, with single
      underscores allowed between two digits. */
  predicate IsDigitGroups(b: string)
  {
    && b != [] && IsDigit(b[0]) && IsDigit(b[|b| - 1])
    && (forall k :: 0 <= k < |b| ==> IsDigit(b[k]) || b[k] == '_')
    && (forall k :: 0 <= k < |b| - 1 ==> !DoubleUnderscoreAt(b, k))
  }

  predicate DoubleUnderscoreAt(b: string, k: nat)
    requires k + 1 < |b|
  {
    b[k] == '_' && b[k + 1] == '_'
  }

  function RemoveUnderscores(b: string): (ds: string)
    requires forall k :: 0 <= k < |b| ==> IsDigit(b[k]) || b[k] == '_'
    ensures AllDigits(ds)
    ensures AllDigits(b) ==> ds == b
  {
    if b == [] then []
    else (if b[0] == '_' then [] else [b[0]]) + RemoveUnderscores(b[1..])
  }

  function ParseUnsigned(b: string): (r: Option<nat>)
  {
    if IsDigitGroups(b) then Some(DecimalValue(RemoveUnderscores(b))) else None
  }

  /** What int() does once the whitespace is gone: one optional sign, then
      digit groups. */
  function ParseSigned(t: string): (r: Option<int>)
  {
    if t != [] && t[0] == '-' then Signed(ParseUnsigned(t[1..]), true)
    else if t != [] && t[0] == '+' then Signed(ParseUnsigned(t[1..]), false)
    else Signed(ParseUnsigned(t), false)
  }

  function Signed(u: Option<nat>, negative: bool): (r: Option<int>)
  {
    if u.None? then None
    else if negative then Some(-(u.value as int))
    else Some(u.value as int)
  }

  /** Python's `int(s)` for a str: the whitespace of IsIntSpace around the
      number is ignored.  None stands for ValueError. */
  function ParseInt(s: string): (r: Option<int>)
  {
    ParseSigned(Strip(s, IsIntSpace))
  }

  lemma {:induction false} ParseUnsignedDecimal(n: nat)
    ensures ParseUnsigned(NatToDecimal(n)) == Some(n)
  {
    var d := NatToDecimal(n);
    DecimalRoundTrip(n);
    assert IsDigitGroups(d);
  }

  lemma {:induction false} ParseSignedDigits(d: string, m: nat)
    requires d != [] && IsDigit(d[0]) && ParseUnsigned(d) == Some(m)
    ensures ParseSigned(d) == Some(m)
  {
  }

  lemma {:induction false} ParseSignedNegative(d: string, m: nat)
    requires ParseUnsigned(d) == Some(m)
    ensures ParseSigned("-" + d) == Some(-(m as int))
  {
    var t := "-" + d;
    assert t != [] && t[0] == '-';
    assert t[1..] == d;
  }

  lemma {:induction false} StripSigned(d: string)
    requires d != [] && IsDigit(d[|d| - 1])
    ensures Strip("-" + d, IsIntSpace) == "-" + d
  {
    var s := "-" + d;
    assert s[0] == '-' && s[|s| - 1] == d[|d| - 1];
    StripKeeps(s, IsIntSpace);
  }

  /** int() of a plain digit string, with or without a minus sign. */
  lemma {:induction false} ParseIntOfDigits(d: string, m: nat)
    requires d != [] && AllDigits(d) && ParseUnsigned(d) == Some(m)
    ensures ParseInt(d) == Some(m)
    ensures ParseInt("-" + d) == Some(-(m as int))
  {
    ParseSignedDigits(d, m);
    ParseSignedNegative(d, m);
    StripKeeps(d, IsIntSpace);
    StripSigned(d);
  }

  /** int() reads back what f'{i}' writes. */
  lemma {:induction false} ParseIntRoundTrip(i: int)
    ensures ParseInt(IntToDecimal(i)) == Some(i)
  {
    var m: nat := if i < 0 then -i else i;
    ParseUnsignedDecimal(m);
    ParseIntOfDigits(NatToDecimal(m), m);
  }

  /** str.strip() removes a leading U+001C, but int() does not skip it. */
  lemma {:induction false} SeparatorNotSkipped()
    ensures Strip([0x1C as char, '5'], IsSpace) == "5"
    ensures ParseInt([0x1C as char, '5']).None?
  {
    var s := [0x1C as char, '5'];
    assert LeadingSpace(s, IsSpace) == 1 && s[1..] == "5";
    assert LeadingSpace(s, IsIntSpace) == 0 && TrailingSpace(s, IsIntSpace) == 0;
    assert Strip(s, IsIntSpace) == s;
    assert !IsDigitGroups(s);
  }

  /** Two different numbers have different decimal texts. */
  lemma {:induction false} NatToDecimalInjective(m: nat, n: nat)
    requires NatToDecimal(m) == NatToDecimal(n)
    ensures m == n
  {
    DecimalRoundTrip(m);
    DecimalRoundTrip(n);
  }

  // ---------------------------------------------------------------------
  // str.split(c) and its inverse c.join(parts)
  // ---------------------------------------------------------------------

  /** Python's `s.split(c)` for a one-character separator. */
  function Split(s: string, c: char): (parts: seq<string>)
    ensures parts != []
    decreases |s|
  {
    if s == [] then [[]]
    else
      var rest := Split(s[1..], c);
      if s[0] == c then [[]] + rest
      else [[s[0]] + rest[0]] + rest[1..]
  }

  /** There is more than one part exactly when the separator occurs, and no
      part contains it. */
  lemma {:induction false} SplitParts(s: string, c: char)
    ensures c in s <==> |Split(s, c)| >= 2
    ensures forall p :: p in Split(s, c) ==> c !in p
    decreases |s|
  {
    if s != [] {
      SplitParts(s[1..], c);
      var rest := Split(s[1..], c);
      assert s == [s[0]] + s[1..];
      assert c in s <==> s[0] == c || c in s[1..];
      if s[0] != c {
        var parts := Split(s, c);
        assert parts == [[s[0]] + rest[0]] + rest[1..];
        assert rest[0] in rest;
        forall p | p in parts
          ensures c !in p
        {
          if p != parts[0] {
            assert p in rest[1..];
            assert p in rest;
          }
        }
      }
    }
  }

  /** Python's `c.join(parts)`. */
  function Join(parts: seq<string>, c: char): string
    requires parts != []
  {
    if |parts| == 1 then parts[0] else parts[0] + [c] + Join(parts[1..], c)
  }

  /** One more part than there are separators. */
  lemma {:induction false} SplitCount(s: string, c: char)
    ensures |Split(s, c)| == multiset(s)[c] + 1
    decreases |s|
  {
    if s != [] {
      SplitCount(s[1..], c);
      assert s == [s[0]] + s[1..];
      assert multiset(s) == multiset{s[0]} + multiset(s[1..]);
    }
  }

  lemma {:induction false} SplitJoin(s: string, c: char)
    ensures Join(Split(s, c), c) == s
    decreases |s|
  {
    if s != [] {
      SplitJoin(s[1..], c);
      if s[0] == c {
        SplitJoinSeparator(s, c);
      } else {
        SplitJoinOther(s, c);
      }
    }
  }

  lemma {:induction false} SplitJoinSeparator(s: string, c: char)
    requires s != [] && s[0] == c && Join(Split(s[1..], c), c) == s[1..]
    ensures Join(Split(s, c), c) == s
  {
    var rest := Split(s[1..], c);
    var parts := Split(s, c);
    assert parts == [[]] + rest && parts[1..] == rest;
    assert Join(parts, c) == [] + [c] + Join(rest, c);
    assert s == [s[0]] + s[1..];
  }

  /** Kept as a lemma for the same reason as AppendAssoc. */
  lemma {:induction false} Reassociate(a: string, b: string, c: string, d: string)
    ensures (a + b) + c + d == a + (b + c + d)
  {
  }

  lemma {:induction false} SplitJoinOther(s: string, c: char)
    requires s != [] && s[0] != c && Join(Split(s[1..], c), c) == s[1..]
    ensures Join(Split(s, c), c) == s
  {
    var rest := Split(s[1..], c);
    var parts := Split(s, c);
    assert s == [s[0]] + s[1..];
    if |rest| == 1 {
      assert parts == [[s[0]] + rest[0]];
    } else {
      var r0, tail := rest[0], Join(rest[1..], c);
      assert parts[0] == [s[0]] + r0 && parts[1..] == rest[1..];
      assert Join(parts, c) == ([s[0]] + r0) + [c] + tail;
      assert s[1..] == r0 + [c] + tail;
      Reassociate([s[0]], r0, [c], tail);
    }
  }

  /** Splitting a piece without the separator, followed by anything, keeps
      the piece at the front of the first part. */
  lemma {:induction false} SplitPrefix(p: string, t: string, c: char)
    requires c !in p
    ensures Split(p + t, c) == [p + Split(t, c)[0]] + Split(t, c)[1..]
    decreases |p|
  {
    if p == [] {
      var rest := Split(t, c);
      assert p + t == t && p + rest[0] == rest[0];
      assert [rest[0]] + rest[1..] == rest;
    } else {
      SplitPrefix(p[1..], t, c);
      SplitPrefixStep(p, t, c);
    }
  }

  lemma {:induction false} SplitPrefixStep(p: string, t: string, c: char)
    requires p != [] && c !in p
    requires Split(p[1..] + t, c) == [p[1..] + Split(t, c)[0]] + Split(t, c)[1..]
    ensures Split(p + t, c) == [p + Split(t, c)[0]] + Split(t, c)[1..]
  {
    var rest := Split(t, c);
    var s := p + t;
    assert s[0] == p[0] && s[1..] == p[1..] + t;
    var inner := Split(s[1..], c);
    assert inner[0] == p[1..] + rest[0] && inner[1..] == rest[1..];
    assert Split(s, c) == [[p[0]] + inner[0]] + inner[1..];
    assert [p[0]] + (p[1..] + rest[0]) == p + rest[0];
  }

  lemma {:induction false} JoinSplit(parts: seq<string>, c: char)
    requires parts != []
    requires forall k :: 0 <= k < |parts| ==> c !in parts[k]
    ensures Split(Join(parts, c), c) == parts
    decreases |parts|
  {
    if |parts| == 1 {
      SplitPrefix(parts[0], [], c);
      assert parts[0] + [] == parts[0];
    } else {
      JoinSplit(parts[1..], c);
      var tail := [c] + Join(parts[1..], c);
      assert Join(parts, c) == parts[0] + tail;
      SplitPrefix(parts[0], tail, c);
      assert tail[1..] == Join(parts[1..], c);
      assert Split(tail, c) == [[]] + parts[1..];
      assert parts[0] + [] == parts[0];
    }
  }

  lemma {:induction false} JoinContains(parts: seq<string>, c: char)
    requires |parts| >= 2
    ensures c in Join(parts, c)
  {
    assert Join(parts, c)[|parts[0]|] == c;
  }

  // ---------------------------------------------------------------------
  // The chapter specifier and the per-chapter jobs (main)
  // ---------------------------------------------------------------------

  /** Part `k` is the first that `parse` rejects. */
  predicate FirstBadPart(parts: seq<string>, k: nat, parse: string -> Option<int>)
  {
    k < |parts| && parse(parts[k]).None? && forall j :: 0 <= j < k ==> parse(parts[j]).Some?
  }

  /** `[parse(ch) for ch in parts]`, where the first part that does not
      parse raises.  main.py:142 uses int(), that is `ParseInt`. */
  function ParseAll(parts: seq<string>, parse: string -> Option<int>): (r: Result<seq<int>>)
    ensures r.Ok? ==> |r.value| == |parts|
    ensures r.Err? ==> r.error.NotAnInteger?
  {
    if parts == [] then Ok([])
    else match parse(parts[0])
      case None => Err(NotAnInteger(parts[0]))
      case Some(n) =>
        var rest := ParseAll(parts[1..], parse);
        if rest.Err? then rest else Ok([n] + rest.value)
  }

  /** On success every part parses to its number, in order; a failure names
      the first part that does not parse. */
  lemma {:induction false} ParseAllSpec(parts: seq<string>, parse: string -> Option<int>)
    ensures ParseAll(parts, parse).Ok? ==>
      forall k :: 0 <= k < |parts| ==> parse(parts[k]) == Some(ParseAll(parts, parse).value[k])
    ensures ParseAll(parts, parse).Err? ==>
      exists k: nat :: FirstBadPart(parts, k, parse) && ParseAll(parts, parse).error == NotAnInteger(parts[k])
    decreases |parts|
  {
    if parts != [] {
      var tail := parts[1..];
      ParseAllSpec(tail, parse);
      var r, rest := ParseAll(parts, parse), ParseAll(tail, parse);
      assert forall j :: 0 <= j < |tail| ==> tail[j] == parts[j + 1];
      if parse(parts[0]).None? {
        assert FirstBadPart(parts, 0, parse);
      } else if rest.Err? {
        var k: nat :| FirstBadPart(tail, k, parse) && rest.error == NotAnInteger(tail[k]);
        assert FirstBadPart(parts, k + 1, parse);
      } else {
        assert r.value == [parse(parts[0]).value] + rest.value;
        forall k | 0 <= k < |parts|
          ensures parse(parts[k]) == Some(r.value[k])
        {
          if k > 0 {
            assert r.value[k] == rest.value[k - 1];
          }
        }
      }
    }
  }

  /** `f'{c}'` for every c in `range(lo, hi + 1)`. */
  function RangeLabels(lo: int, hi: int): (r: seq<string>)
    ensures |r| == if lo <= hi then hi - lo + 1 else 0
    ensures forall k :: 0 <= k < |r| ==> r[k] == IntToDecimal(lo + k)
  {
    seq(if lo <= hi then hi - lo + 1 else 0, k => IntToDecimal(lo + k))
  }

  /** The chapters of a range are pairwise different texts. */
  lemma {:induction false} RangeLabelsDistinct(lo: nat, hi: int, i: nat, j: nat)
    requires i < j < |RangeLabels(lo, hi)|
    ensures RangeLabels(lo, hi)[i] != RangeLabels(lo, hi)[j]
  {
    var r := RangeLabels(lo, hi);
    assert r[i] == NatToDecimal(lo + i) && r[j] == NatToDecimal(lo + j);
    if r[i] == r[j] {
      NatToDecimalInjective(lo + i, lo + j);
    }
  }

  /** The chapters named by a `--chapters` value (main.py:139-143), each as
      the text it contributes to the f-strings at main.py:145-147. */
  function ParseChapters(spec: string): (r: Result<seq<string>>)
    ensures r == Err(ChaptersUnbound) <==> ',' !in spec && '-' !in spec
  {
    if ',' in spec then Ok(Split(spec, ','))
    else if '-' in spec then SplitParts(spec, '-'); ExpandRange(Split(spec, '-'))
    else Err(ChaptersUnbound)
  }

  /** main.py:142-143: every part through int(), then the inclusive range
      from the first number to the second. */
  function ExpandRange(parts: seq<string>): (r: Result<seq<string>>)
    requires |parts| >= 2
    ensures r.Err? ==> r.error.NotAnInteger?
  {
    match ParseAll(parts, ParseInt)
    case Err(e) => Err(e)
    case Ok(nums) => Ok(RangeLabels(nums[0], nums[1]))
  }

  /** A chapter's page URL, working directory and PDF base name. */
  datatype ChapterJob = ChapterJob(url: string, output: string, filename: string)

  function JobFor(url: string, output: string, filename: string, c: string): ChapterJob
  {
    ChapterJob(url + "/chapter-" + c, output + "_ch_" + c, filename + "_chapter_" + c)
  }

  /** The download_chapter calls main attempts, in order (main.py:134-148). */
  function Plan(url: string, output: string, filename: string, chapters: Option<string>): (r: Result<seq<ChapterJob>>)
    ensures chapters.None? ==> r == Ok([ChapterJob(url, output, filename)])
    ensures chapters.Some? && ParseChapters(chapters.value).Err? ==> r == Err(ParseChapters(chapters.value).error)
    ensures chapters.Some? && ParseChapters(chapters.value).Ok? ==>
      var cs := ParseChapters(chapters.value).value;
      r.Ok? && |r.value| == |cs| && forall k :: 0 <= k < |cs| ==> r.value[k] == JobFor(url, output, filename, cs[k])
  {
    match chapters
    case None => Ok([ChapterJob(url, output, filename)])
    case Some(spec) =>
      match ParseChapters(spec)
      case Err(e) => Err(e)
      case Ok(cs) => Ok(seq(|cs|, k requires 0 <= k < |cs| => JobFor(url, output, filename, cs[k])))
  }

  /** With a comma anywhere, the tokens are the comma-separated pieces,
      verbatim: joined back they give the specifier, hyphens included. */
  lemma {:induction false} CommaSpecIsVerbatim(spec: string)
    requires ',' in spec
    ensures ParseChapters(spec).Ok?
    ensures Join(ParseChapters(spec).value, ',') == spec
    ensures |ParseChapters(spec).value| >= 2
  {
    SplitJoin(spec, ',');
    SplitParts(spec, ',');
  }

  /** Any list of two or more comma-free tokens survives the round trip
      through the specifier. */
  lemma {:induction false} CommaTokensRoundTrip(tokens: seq<string>)
    requires |tokens| >= 2
    requires forall k :: 0 <= k < |tokens| ==> ',' !in tokens[k]
    ensures ParseChapters(Join(tokens, ',')) == Ok(tokens)
  {
    JoinContains(tokens, ',');
    JoinSplit(tokens, ',');
  }

  lemma {:induction false} ParseIntsPair(a: string, b: string, x: int, y: int)
    requires ParseInt(a) == Some(x) && ParseInt(b) == Some(y)
    ensures ParseAll([a, b], ParseInt) == Ok([x, y])
  {
    assert [b][1..] == [];
    assert ParseAll([b], ParseInt) == Ok([y] + []);
    assert [y] + [] == [y];
    assert [a, b][1..] == [b];
    assert ParseAll([a, b], ParseInt) == Ok([x] + [y]);
    assert [x] + [y] == [x, y];
  }

  /** Two hyphen-free pieces joined by a hyphen split back into them. */
  lemma {:induction false} SplitPair(a: string, b: string)
    requires '-' !in a && '-' !in b
    ensures Split(a + "-" + b, '-') == [a, b]
    ensures '-' in a + "-" + b
  {
    assert [a, b][1..] == [b];
    assert Join([a, b], '-') == a + "-" + b;
    JoinSplit([a, b], '-');
    JoinContains([a, b], '-');
  }

  /** `lo-hi` written in decimal expands to the chapters lo, lo+1, ..., hi,
      and to none when hi < lo. */
  lemma {:induction false} RangeSpec(lo: nat, hi: nat)
    ensures ParseChapters(NatToDecimal(lo) + "-" + NatToDecimal(hi)) == Ok(RangeLabels(lo, hi))
  {
    var a, b := NatToDecimal(lo), NatToDecimal(hi);
    var spec := a + "-" + b;
    assert '-' !in a && '-' !in b;
    SplitPair(a, b);
    assert ',' !in spec by {
      assert forall k :: 0 <= k < |spec| ==> spec[k] == '-' || IsDigit(spec[k]);
    }
    ParseIntRoundTrip(lo);
    ParseIntRoundTrip(hi);
    ParseIntsPair(a, b, lo, hi);
  }

  /** Without a comma, a hyphen specifier whose parts all pass int() names
      the chapters from the first part's value to the second's; further
      parts are only checked. */
  lemma {:induction false} RangeSpecParts(spec: string)
    requires ',' !in spec && '-' in spec
    requires forall k :: 0 <= k < |Split(spec, '-')| ==> ParseInt(Split(spec, '-')[k]).Some?
    ensures |Split(spec, '-')| >= 2
    ensures ParseChapters(spec) == Ok(RangeLabels(ParseInt(Split(spec, '-')[0]).value, ParseInt(Split(spec, '-')[1]).value))
  {
    var parts := Split(spec, '-');
    SplitParts(spec, '-');
    ParseAllSpec(parts, ParseInt);
    assert forall k: nat :: !FirstBadPart(parts, k, ParseInt);
  }

  /** A range specifier fails when any of its hyphen-separated parts is not
      an integer, the parts after the second included. */
  lemma {:induction false} RangeSpecNeedsIntegers(spec: string, k: nat)
    requires ',' !in spec && '-' in spec
    requires k < |Split(spec, '-')| && ParseInt(Split(spec, '-')[k]).None?
    ensures ParseChapters(spec).Err? && ParseChapters(spec).error.NotAnInteger?
  {
    ParseAllSpec(Split(spec, '-'), ParseInt);
  }

  /** Different chapters get different URLs, directories and file names. */
  lemma {:induction false} JobsAreDistinct(url: string, output: string, filename: string, c1: string, c2: string)
    requires c1 != c2
    ensures JobFor(url, output, filename, c1).url != JobFor(url, output, filename, c2).url
    ensures JobFor(url, output, filename, c1).output != JobFor(url, output, filename, c2).output
    ensures JobFor(url, output, filename, c1).filename != JobFor(url, output, filename, c2).filename
  {
    if url + "/chapter-" + c1 == url + "/chapter-" + c2 {
      SuffixCancel(url + "/chapter-", c1, c2);
    }
    if output + "_ch_" + c1 == output + "_ch_" + c2 {
      SuffixCancel(output + "_ch_", c1, c2);
    }
    if filename + "_chapter_" + c1 == filename + "_chapter_" + c2 {
      SuffixCancel(filename + "_chapter_", c1, c2);
    }
  }

  lemma {:induction false} SuffixCancel(p: string, a: string, b: string)
    requires p + a == p + b
    ensures a == b
  {
    assert a == (p + a)[|p|..];
    assert b == (p + b)[|p|..];
  }

  /** "9-11" names the chapters "9", "10", "11". */
  lemma {:induction false} RangeSpecExample()
    ensures ParseChapters("9-11") == Ok(["9", "10", "11"])
  {
    ExampleSpecText();
    ExampleLabels();
    RangeSpec(9, 11);
  }

  lemma {:induction false} ExampleSpecText()
    ensures NatToDecimal(9) + "-" + NatToDecimal(11) == "9-11"
  {
    assert NatToDecimal(11) == NatToDecimal(1) + [DigitChar(1)];
  }

  lemma {:induction false} ExampleLabels()
    ensures RangeLabels(9, 11) == ["9", "10", "11"]
  {
    var labels := RangeLabels(9, 11);
    assert NatToDecimal(11) == NatToDecimal(1) + [DigitChar(1)];
    assert NatToDecimal(10) == NatToDecimal(1) + [DigitChar(0)];
    assert labels[0] == "9" && labels[1] == "10" && labels[2] == "11";
  }

  /** `1,2,3` names "1", "2" and "3". */
  lemma {:induction false} CommaSpecExample()
    ensures ParseChapters("1,2,3") == Ok(["1", "2", "3"])
  {
    var tokens := ["1", "2", "3"];
    assert tokens[1..] == ["2", "3"] && tokens[1..][1..] == ["3"];
    assert Join(["3"], ',') == "3";
    assert Join(["2", "3"], ',') == "2,3";
    assert Join(tokens, ',') == "1,2,3";
    CommaTokensRoundTrip(tokens);
  }

  // ---------------------------------------------------------------------
  // Downloaded image files: names, the sort key and the cleanup rule
  // (download_image, download_chapter)
  // ---------------------------------------------------------------------

  /** `str(dir / name)`, without pathlib's normalisation. */
  function JoinPath(dir: string, name: string): string
  {
    dir + "/" + name
  }

  /** `f'{index}{format_str}'`, the name download `index` is written to. */
  function ImageName(index: nat, ext: string): string
  {
    NatToDecimal(index) + ext
  }

  /** The names of downloads 0 .. n-1, in index order. */
  function ImageNames(n: nat, ext: string): (r: seq<string>)
    ensures |r| == n
    ensures forall k :: 0 <= k < n ==> r[k] == ImageName(k, ext)
  {
    seq(n, k requires 0 <= k < n => ImageName(k, ext))
  }

  /** The same names as a set of directory entries. */
  function NameSet(n: nat, ext: string): set<string>
  {
    set k | 0 <= k < n :: ImageName(k, ext)
  }

  /** `name[:-4]`: all but the last four characters, empty when shorter. */
  function IndexPart(name: string): (r: string)
    ensures |name| >= 4 ==> name == r + name[|name| - 4..]
    ensures |name| < 4 ==> r == []
  {
    if |name| < 4 then [] else name[..|name| - 4]
  }

  /** The sort key `int(img.name[:-4])`; None stands for ValueError. */
  function SortKey(name: string): Option<int>
  {
    ParseInt(IndexPart(name))
  }

  /** The sort key as a number, 0 for a name without one (the listing is
      only sorted once every name has one). */
  function Key(name: string): int
  {
    var k := SortKey(name);
    if k.Some? then k.value else 0
  }

  /** `s` is in ascending order of `key`. */
  predicate SortedBy(s: seq<string>, key: string -> int)
  {
    forall i, j :: 0 <= i < j < |s| ==> key(s[i]) <= key(s[j])
  }

  /** Every name in `s` is told apart by its key. */
  ghost predicate KeysDistinguish(s: seq<string>, key: string -> int)
  {
    forall x, y :: x in s && y in s && key(x) == key(y) ==> x == y
  }

  /** The key of download `index` is `index`, for a four-character
      extension such as ".jpg". */
  lemma {:induction false} ImageNameKey(index: nat, ext: string)
    requires |ext| == 4
    ensures SortKey(ImageName(index, ext)) == Some(index)
    ensures Key(ImageName(index, ext)) == index
  {
    assert IndexPart(ImageName(index, ext)) == NatToDecimal(index);
    ParseIntRoundTrip(index);
  }

  /** Two downloads with different indices get different names. */
  lemma {:induction false} ImageNamesDiffer(i: nat, j: nat, ext: string)
    requires |ext| == 4 && i != j
    ensures ImageName(i, ext) != ImageName(j, ext)
  {
    ImageNameKey(i, ext);
    ImageNameKey(j, ext);
  }

  /** The names in index order are in key order: `9.jpg` before `10.jpg`. */
  lemma {:induction false} ImageNamesSorted(n: nat, ext: string)
    requires |ext| == 4
    ensures SortedBy(ImageNames(n, ext), Key)
    ensures KeysDistinguish(ImageNames(n, ext), Key)
  {
    var r := ImageNames(n, ext);
    forall k | 0 <= k < n
      ensures Key(r[k]) == k
    {
      ImageNameKey(k, ext);
    }
    forall x, y | x in r && y in r && Key(x) == Key(y)
      ensures x == y
    {
      var i :| 0 <= i < n && r[i] == x;
      var j :| 0 <= j < n && r[j] == y;
    }
  }

  /** Each entry occurs once, so the set and the list agree as multisets. */
  lemma {:induction false} NameSetCounts(n: nat, ext: string)
    requires |ext| == 4
    ensures multiset(NameSet(n, ext)) == multiset(ImageNames(n, ext))
  {
    if n > 0 {
      NameSetCounts(n - 1, ext);
      var x := ImageName(n - 1, ext);
      assert NameSet(n, ext) == NameSet(n - 1, ext) + {x};
      if x in NameSet(n - 1, ext) {
        var k :| 0 <= k < n - 1 && ImageName(k, ext) == x;
        ImageNamesDiffer(k, n - 1, ext);
      }
      assert ImageNames(n, ext) == ImageNames(n - 1, ext) + [x];
    }
  }

  /** Two key-sorted listings of the same entries, told apart by their
      keys, are the same list. */
  lemma {:induction false} SortedUnique(s: seq<string>, t: seq<string>, key: string -> int)
    requires SortedBy(s, key) && SortedBy(t, key)
    requires multiset(s) == multiset(t)
    requires KeysDistinguish(s, key)
    ensures s == t
    decreases |s|
  {
    assert |s| == |multiset(s)| == |multiset(t)| == |t|;
    if s != [] {
      SortedHeads(s, t, key);
      SameTails(s, t);
      SortedTail(s, key);
      SortedTail(t, key);
      SortedUnique(s[1..], t[1..], key);
      SameHeadTail(s, t);
    }
  }

  lemma {:induction false} SameHeadTail(s: seq<string>, t: seq<string>)
    requires s != [] && t != [] && s[0] == t[0] && s[1..] == t[1..]
    ensures s == t
  {
    assert s == [s[0]] + s[1..];
    assert t == [t[0]] + t[1..];
  }

  /** Both lists start with the entry of least key. */
  lemma {:induction false} SortedHeads(s: seq<string>, t: seq<string>, key: string -> int)
    requires s != [] && t != []
    requires SortedBy(s, key) && SortedBy(t, key)
    requires multiset(s) == multiset(t)
    requires KeysDistinguish(s, key)
    ensures s[0] == t[0]
  {
    assert s[0] in multiset(t) && t[0] in multiset(s);
    var i :| 0 <= i < |t| && t[i] == s[0];
    var j :| 0 <= j < |s| && s[j] == t[0];
    assert key(t[0]) <= key(s[0]) && key(s[0]) <= key(t[0]);
  }

  lemma {:induction false} SameTails(s: seq<string>, t: seq<string>)
    requires s != [] && t != [] && s[0] == t[0]
    requires multiset(s) == multiset(t)
    ensures multiset(s[1..]) == multiset(t[1..])
  {
    assert s == [s[0]] + s[1..] && t == [t[0]] + t[1..];
    assert multiset(s[1..]) == multiset(s) - multiset{s[0]};
    assert multiset(t[1..]) == multiset(t) - multiset{t[0]};
  }

  lemma {:induction false} SortedTail(s: seq<string>, key: string -> int)
    requires s != [] && SortedBy(s, key)
    ensures SortedBy(s[1..], key)
    ensures KeysDistinguish(s, key) ==> KeysDistinguish(s[1..], key)
  {
    forall x | x in s[1..]
      ensures x in s
    {
      var k :| 0 <= k < |s[1..]| && s[1..][k] == x;
      assert s[k + 1] == x;
    }
  }

  /** A key-sorted listing of the downloads 0 .. n-1 lists them in index
      order. */
  lemma {:induction false} ListingOrder(s: seq<string>, n: nat, ext: string)
    requires |ext| == 4
    requires SortedBy(s, Key) && multiset(s) == multiset(ImageNames(n, ext))
    ensures s == ImageNames(n, ext)
  {
    ImageNamesSorted(n, ext);
    var r := ImageNames(n, ext);
    SortedUnique(r, s, Key);
  }

  /** A stable insertion sort by `key`: `list.sort(key=...)` in place. */
  method SortBy(a: array<string>, key: string -> int)
    modifies a
    ensures SortedBy(a[..], key)
    ensures multiset(a[..]) == multiset(old(a[..]))
  {
    var i := 0;
    while i < a.Length
      invariant 0 <= i <= a.Length
      invariant SortedBy(a[..i], key)
      invariant multiset(a[..]) == multiset(old(a[..]))
    {
      Insert(a, i, key);
      i := i + 1;
    }
    assert a[..a.Length] == a[..];
  }

  /** The list copied into a fresh array and sorted there. */
  method SortedCopy(s: seq<string>, key: string -> int) returns (sorted: seq<string>)
    ensures SortedBy(sorted, key) && multiset(sorted) == multiset(s)
  {
    var a := new string[|s|](k requires 0 <= k < |s| => s[k]);
    assert a[..] == s;
    SortBy(a, key);
    sorted := a[..];
  }

  /** One insertion step: `a[i]` moves left past every larger key. */
  method Insert(a: array<string>, i: nat, key: string -> int)
    requires i < a.Length && SortedBy(a[..i], key)
    modifies a
    ensures SortedBy(a[..i + 1], key)
    ensures multiset(a[..]) == multiset(old(a[..]))
    ensures a[i + 1..] == old(a[..])[i + 1..]
    ensures multiset(a[..i + 1]) == multiset(old(a[..])[..i + 1])
  {
    ghost var s0 := a[..];
    var j: nat := i;
    while j > 0 && key(a[j - 1]) > key(a[j])
      invariant a.Length == |s0| && Inserting(a[..], s0, i, j, key)
    {
      ghost var s := a[..];
      SwapStep(s, s0, i, j, key);
      a[j - 1], a[j] := a[j], a[j - 1];
      assert a[..] == s[j - 1 := s[j]][j := s[j - 1]];
      j := j - 1;
    }
    InsertDone(a[..], s0, i, j, key);
  }

  /** Two permutations that agree from `m` on are permutations before it. */
  lemma {:induction false} PrefixPermuted(s: seq<string>, s0: seq<string>, m: nat)
    requires m <= |s| == |s0| && multiset(s) == multiset(s0) && s[m..] == s0[m..]
    ensures multiset(s[..m]) == multiset(s0[..m])
  {
    assert s == s[..m] + s[m..] && s0 == s0[..m] + s0[m..];
    assert multiset(s) == multiset(s[..m]) + multiset(s[m..]);
    assert multiset(s0) == multiset(s0[..m]) + multiset(s0[m..]);
    assert multiset(s[..m]) == multiset(s) - multiset(s[m..]);
    assert multiset(s0[..m]) == multiset(s0) - multiset(s0[m..]);
  }

  /** The state of the insertion loop: `s` is a permutation of `s0`, and
      `s[..i+1]` is in key order except for the moving element at `j`,
      whose key is below everything to its right. */
  predicate Inserting(s: seq<string>, s0: seq<string>, i: nat, j: nat, key: string -> int)
  {
    && j <= i < |s| == |s0| && multiset(s) == multiset(s0) && s[i + 1..] == s0[i + 1..]
    && SortedExcept(s, i, j, key) && BelowRight(s, i, j, key)
  }

  /** `s[..i+1]` is in key order once position `j` is left out. */
  predicate SortedExcept(s: seq<string>, i: nat, j: nat, key: string -> int)
    requires i < |s|
  {
    forall p, q :: 0 <= p < q <= i && p != j && q != j ==> key(s[p]) <= key(s[q])
  }

  /** The element at `j` has a smaller key than everything after it up to `i`. */
  predicate BelowRight(s: seq<string>, i: nat, j: nat, key: string -> int)
    requires j <= i < |s|
  {
    forall q :: j < q <= i ==> key(s[j]) < key(s[q])
  }

  lemma {:induction false} SwapStep(s: seq<string>, s0: seq<string>, i: nat, j: nat, key: string -> int)
    requires 0 < j && Inserting(s, s0, i, j, key)
    requires key(s[j - 1]) > key(s[j])
    ensures Inserting(s[j - 1 := s[j]][j := s[j - 1]], s0, i, j - 1, key)
  {
  }

  lemma {:induction false} InsertDone(s: seq<string>, s0: seq<string>, i: nat, j: nat, key: string -> int)
    requires Inserting(s, s0, i, j, key)
    requires j == 0 || key(s[j - 1]) <= key(s[j])
    ensures SortedBy(s[..i + 1], key) && multiset(s) == multiset(s0)
    ensures s[i + 1..] == s0[i + 1..] && multiset(s[..i + 1]) == multiset(s0[..i + 1])
  {
    PrefixPermuted(s, s0, i + 1);
  }

  /** The cleanup test of main.py:124: the whole path, directory included,
      contains ".jpg". */
  predicate Unlinked(dir: string, name: string)
  {
    Contains(JoinPath(dir, name), Jpg)
  }

  /** The entries left after the cleanup loop. */
  function Survivors(dir: string, files: set<string>): (r: set<string>)
    ensures forall f :: f in r <==> f in files && !Unlinked(dir, f)
  {
    set f | f in files && !Unlinked(dir, f)
  }

  /** Every ".jpg" download is removed. */
  lemma {:induction false} DownloadsUnlinked(dir: string, index: nat)
    ensures Unlinked(dir, ImageName(index, Jpg))
  {
    assert JoinPath(dir, ImageName(index, Jpg)) == (dir + "/" + NatToDecimal(index)) + Jpg;
    ContainsSuffix(dir + "/" + NatToDecimal(index), Jpg);
  }

  /** A directory whose own path contains ".jpg" loses every entry. */
  lemma {:induction false} JpgDirectoryEmptied(dir: string, files: set<string>)
    requires Contains(dir, Jpg)
    ensures Survivors(dir, files) == {}
  {
    forall f | f in files
      ensures Unlinked(dir, f)
    {
      JpgPathUnlinked(dir, f);
    }
  }

  lemma {:induction false} JpgPathUnlinked(dir: string, f: string)
    requires Contains(dir, Jpg)
    ensures Unlinked(dir, f)
  {
    ContainsPrefix(dir, "/", Jpg);
    ContainsPrefix(dir + "/", f, Jpg);
  }

  /** A string that contains `t` still does after text is appended. */
  lemma {:induction false} ContainsPrefix(p: string, q: string, t: string)
    requires Contains(p, t)
    ensures Contains(p + q, t)
  {
    ContainsSpec(p, t);
    var k: nat :| OccursAt(p, t, k);
    assert (p + q)[k..k + |t|] == p[k..k + |t|];
    assert OccursAt(p + q, t, k);
    ContainsSpec(p + q, t);
  }

  /** The position of the first name whose key is missing, if any: the
      keys are computed in list order before anything moves. */
  method FirstUnkeyed(s: seq<string>, keyOf: string -> Option<int>) returns (r: Option<nat>)
    ensures r.Some? ==> r.value < |s| && keyOf(s[r.value]).None?
    ensures r.Some? ==> forall k :: 0 <= k < r.value ==> keyOf(s[k]).Some?
    ensures r.None? ==> forall k :: 0 <= k < |s| ==> keyOf(s[k]).Some?
  {
    for i := 0 to |s|
      invariant forall k :: 0 <= k < i ==> keyOf(s[k]).Some?
    {
      if keyOf(s[i]).None? {
        return Some(i);
      }
    }
    return None;
  }

  /** `iterdir()`: every entry once, in an order the model leaves open. */
  method Listing(files: set<string>) returns (listing: seq<string>)
    ensures multiset(listing) == multiset(files)
  {
    listing := [];
    var rest := files;
    while rest != {}
      invariant rest <= files
      invariant multiset(listing) + multiset(rest) == multiset(files)
      decreases |rest|
    {
      var f :| f in rest;
      assert multiset(rest) == multiset(rest - {f}) + multiset{f};
      listing := listing + [f];
      rest := rest - {f};
    }
  }

  /** The chapter's working directory (`dir_path`) and the entries in it. */
  class WorkDir {
    const path: string
    var files: set<string>

    constructor (path: string, files: set<string>)
      ensures this.path == path && this.files == files
    {
      this.path := path;
      this.files := files;
    }

    /** The download loop of main.py:108-109.  download_image opens
        `path/{idx}{ext}` for writing before the GET, so the entry exists
        whatever the response. */
    method Download(urls: seq<string>, ext: string)
      modifies this
      ensures files == old(files) + NameSet(|urls|, ext)
    {
      for i := 0 to |urls|
        invariant files == old(files) + NameSet(i, ext)
      {
        assert NameSet(i + 1, ext) == NameSet(i, ext) + {ImageName(i, ext)};
        files := files + {ImageName(i, ext)};
      }
    }

    /** main.py:114-115: the entries in the order the listing yields them
        (which the model leaves open), then sorted by `int(name[:-4])`.
        Err names an entry whose key int() rejects. */
    method SortedImages() returns (r: Result<seq<string>>)
      ensures r.Ok? ==> SortedBy(r.value, Key) && multiset(r.value) == multiset(files)
      ensures r.Ok? ==> forall f :: f in files ==> SortKey(f).Some?
      ensures r.Err? ==> r.error.BadImageName? && r.error.name in files && SortKey(r.error.name).None?
    {
      var listing := Listing(files);
      var bad := FirstUnkeyed(listing, SortKey);
      if bad.Some? {
        assert listing[bad.value] in multiset(listing);
        return Err(BadImageName(listing[bad.value]));
      }
      forall f | f in files
        ensures SortKey(f).Some?
      {
        assert f in multiset(listing);
      }
      var sorted := SortedCopy(listing, Key);
      r := Ok(sorted);
    }

    /** main.py:121-126: unlink every entry whose path contains ".jpg", then
        rmdir, which succeeds only on an empty directory. */
    method Cleanup() returns (removed: bool)
      modifies this
      ensures files == Survivors(path, old(files))
      ensures removed <==> files == {}
    {
      var rest := files;
      while rest != {}
        invariant rest <= old(files)
        invariant files == Survivors(path, old(files) - rest) + rest
        decreases |rest|
      {
        var f :| f in rest;
        if Unlinked(path, f) {
          files := files - {f};
        }
        rest := rest - {f};
      }
      removed := files == {};
    }
  }

  /** Every download has a key. */
  lemma {:induction false} DownloadsKeyed(n: nat, ext: string)
    requires |ext| == 4
    ensures forall f :: f in NameSet(n, ext) ==> SortKey(f).Some?
  {
    forall f | f in NameSet(n, ext)
      ensures SortKey(f).Some?
    {
      var k :| 0 <= k < n && f == ImageName(k, ext);
      ImageNameKey(k, ext);
    }
  }

  /** Cleanup empties a directory that holds only the downloads. */
  lemma {:induction false} DownloadsAllUnlinked(dir: string, n: nat)
    ensures Survivors(dir, NameSet(n, Jpg)) == {}
  {
    forall f | f in NameSet(n, Jpg)
      ensures Unlinked(dir, f)
    {
      var k :| 0 <= k < n && f == ImageName(k, Jpg);
      DownloadsUnlinked(dir, k);
    }
  }

  // ---------------------------------------------------------------------
  // One chapter, end to end (download_chapter)
  // ---------------------------------------------------------------------

  /** What `output_dir` is when the chapter starts. */
  datatype PathState = Missing | Directory(files: set<string>) | NotDirectory

  datatype CleanupResult = ImagesKept | DirectoryRemoved | DirectoryNotEmpty

  datatype ChapterOutcome =
    | NoImageLinks
    | NotADirectory
    | Failed(error: Error)
    | Written(pdfPath: string, doc: Pdf, cleanup: CleanupResult, remaining: set<string>)

  /** `str(dir_path / '..' / filename) + '.pdf'`. */
  function PdfPath(outputDir: string, filename: string): string
  {
    JoinPath(JoinPath(outputDir, ".."), filename) + ".pdf"
  }

  /** The listed files as the PDF receives them, each with the size the
      image library reports for it. */
  function ImagesOf(dir: string, names: seq<string>, sizeOf: string -> Size): (images: seq<Image>)
    ensures |images| == |names|
    ensures forall k :: 0 <= k < |names| ==> images[k].path == JoinPath(dir, names[k])
    ensures forall k :: 0 <= k < |names| ==> images[k].size == sizeOf(images[k].path)
  {
    seq(|names|, k requires 0 <= k < |names| => Image(JoinPath(dir, names[k]), sizeOf(JoinPath(dir, names[k]))))
  }

  /** download_chapter for a page whose `<img>` sources are `srcs`: scrape,
      prepare the directory, download, list and sort, make the PDF, clean
      up.  `sizeOf` stands for the image library's size query. */
  method DownloadChapter(srcs: seq<string>, outputDir: string, filename: string, keep: bool,
                         state: PathState, sizeOf: string -> Size)
    returns (outcome: ChapterOutcome)
    ensures outcome == NoImageLinks <==> ScrapeImageUrls(srcs).urls == []
    ensures outcome == NotADirectory <==> ScrapeImageUrls(srcs).urls != [] && state == NotDirectory
    ensures outcome.Failed? ==>
      && state.Directory? && outcome.error.BadImageName?
      && outcome.error.name in state.files && SortKey(outcome.error.name).None?
    ensures outcome.Failed? <==>
      ScrapeImageUrls(srcs).urls != [] && state.Directory? && exists f :: f in state.files && SortKey(f).None?
    ensures outcome.Written? ==> outcome.pdfPath == PdfPath(outputDir, filename)
    ensures outcome.Written? ==> (outcome.cleanup == ImagesKept <==> keep)
    ensures outcome.Written? ==>
      var before := (if state.Directory? then state.files else {}) + NameSet(|ScrapeImageUrls(srcs).urls|, Jpg);
      && outcome.remaining == (if keep then before else Survivors(outputDir, before))
      && (outcome.cleanup == DirectoryRemoved <==> !keep && outcome.remaining == {})
    ensures outcome.Written? ==> |outcome.doc.pages| >= |ScrapeImageUrls(srcs).urls|
    ensures state == Missing && ScrapeImageUrls(srcs).urls != [] ==>
      var images := ImagesOf(outputDir, ImageNames(|ScrapeImageUrls(srcs).urls|, Jpg), sizeOf);
      && outcome.Written?
      && outcome.doc.format == PageSizeOf(SizesOf(images))
      && |outcome.doc.pages| == |images|
      && (forall k :: 0 <= k < |images| ==>
            outcome.doc.pages[k] == Placement(images[k].path, 0, 0, images[k].size.w, images[k].size.h))
      && outcome.cleanup == (if keep then ImagesKept else DirectoryRemoved)
      && (!keep ==> outcome.remaining == {})
  {
    var links := ScrapeImageUrls(srcs);
    if links.urls == [] {
      return NoImageLinks;
    }
    if state == NotDirectory {
      return NotADirectory;
    }
    var n := |links.urls|;
    var dir := new WorkDir(outputDir, if state.Directory? then state.files else {});
    dir.Download(links.urls, links.ext);
    assert NameSet(n, Jpg) <= dir.files;
    DownloadsKeyed(n, Jpg);
    var listed := dir.SortedImages();
    if listed.Err? {
      return Failed(listed.error);
    }
    var names := listed.value;
    ListingCoversDownloads(names, dir.files, n);
    if state == Missing {
      FreshListing(names, n);
    }
    var doc := MakePdf(ImagesOf(outputDir, names, sizeOf));
    var cleanup := ImagesKept;
    if !keep {
      if state == Missing {
        DownloadsAllUnlinked(outputDir, n);
      }
      var removed := dir.Cleanup();
      cleanup := if removed then DirectoryRemoved else DirectoryNotEmpty;
    }
    return Written(PdfPath(outputDir, filename), doc, cleanup, dir.files);
  }

  /** A listing of a directory that holds the n downloads has at least n
      entries. */
  lemma {:induction false} ListingCoversDownloads(names: seq<string>, files: set<string>, n: nat)
    requires multiset(names) == multiset(files) && NameSet(n, Jpg) <= files
    ensures |names| >= n
  {
    assert |names| == |multiset(files)| == |files|;
    NameSetCounts(n, Jpg);
    assert |multiset(NameSet(n, Jpg))| == |NameSet(n, Jpg)|;
    SubsetSize(NameSet(n, Jpg), files);
  }

  /** The sorted listing of a fresh directory is the downloads in index
      order. */
  lemma {:induction false} FreshListing(names: seq<string>, n: nat)
    requires SortedBy(names, Key) && multiset(names) == multiset({} + NameSet(n, Jpg))
    ensures names == ImageNames(n, Jpg)
  {
    assert {} + NameSet(n, Jpg) == NameSet(n, Jpg);
    NameSetCounts(n, Jpg);
    ListingOrder(names, n, Jpg);
  }

  lemma {:induction false} SubsetSize(a: set<string>, b: set<string>)
    requires a <= b
    ensures |a| <= |b|
  {
    assert b == a + (b - a);
  }
}
