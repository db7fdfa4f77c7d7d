/** The naming conventions that tie the three output trees together: one file per page,
    `page_NNNN` with the 1-indexed page number zero-padded to four digits; the grayscale
    directory derived from the colour one by `str.replace('/png', '/png_bw')`; and the OCR
    step naming its markdown after the image's `Path.stem`. */
module PageFiles {
  import opened Wrappers
  import opened Text
  import opened Numerals
  import opened StringOrder

  const PagePrefix: string := "page_"

  /** `f"page_{page_num + 1:04d}"` for a 0-indexed page. */
  function PageStem(page: nat): string {
    PagePrefix + Padded(page + 1, 4)
  }

  /** The file a page is exported to, for an extension such as `.png` or `.md`. */
  function PageFileName(page: nat, ext: string): string {
    PageStem(page) + ext
  }

  lemma PaddedExamples()
    ensures Padded(1, 4) == "0001" && Padded(7, 4) == "0007"
  {
    assert Decimal(1) == "1" && Decimal(7) == "7";
    assert Zeros(3) == "000";
  }

  lemma WideNumerals()
    ensures Padded(10000, 4) == "10000" && Padded(9999, 4) == "9999"
  {
    assert Decimal(10000) == "10000" by {
      assert Decimal(10) == "10" && Decimal(100) == "100" && Decimal(1000) == "1000";
    }
    assert Decimal(9999) == "9999" by {
      assert Decimal(99) == "99" && Decimal(999) == "999";
    }
  }

  lemma PageFileNameExamples()
    ensures PageFileName(0, ".png") == "page_0001.png"
    ensures PageFileName(6, ".md") == "page_0007.md"
    ensures PageFileName(9999, ".png") == "page_10000.png"
  {
    PaddedExamples();
    WideNumerals();
  }

  /** The name says which page it holds: after `page_` come at least four digits that `int()`
      reads as the 1-based page number, and the name ends with the extension. */
  lemma PageStemReadsBack(page: nat, ext: string)
    ensures var name := PageFileName(page, ext);
      && |PageStem(page)| >= |PagePrefix| + 4
      && name[..|PagePrefix|] == PagePrefix && EndsWith(name, ext)
      && PyInt(PageStem(page)[|PagePrefix|..]) == Some(page + 1)
  {
    var name := PageFileName(page, ext);
    assert PageStem(page)[|PagePrefix|..] == Padded(page + 1, 4);
    assert name[|name| - |ext|..] == ext;
    PyIntOfPadded(page + 1, 4);
  }

  /** Different pages get different files: no page of a run overwrites another. */
  lemma PageFileNameInjective(p: nat, q: nat, ext: string)
    ensures PageFileName(p, ext) == PageFileName(q, ext) <==> p == q
  {
    if PageFileName(p, ext) == PageFileName(q, ext) {
      var x, y := Padded(p + 1, 4), Padded(q + 1, 4);
      var n := PageFileName(p, ext);
      assert |x| == |y|;
      assert x == n[|PagePrefix|..|PagePrefix| + |x|];
      assert y == n[|PagePrefix|..|PagePrefix| + |y|];
      PyIntOfPadded(p + 1, 4);
      PyIntOfPadded(q + 1, 4);
    }
  }

  /** Pages below the ten-thousandth have four-digit numbers. */
  lemma FourDigits(page: nat)
    requires page < 9999
    ensures |Padded(page + 1, 4)| == 4
  {
    assert Pow10(4) == 10000;
    DecimalWidth(page + 1, 4);
  }

  /** Digit strings of one length compare as strings the way their values compare. */
  lemma {:induction false} DigitOrder(x: string, y: string)
    requires AllDigits(x) && AllDigits(y) && |x| == |y|
    ensures Below(x, y) <==> Value(x) < Value(y)
  {
    if |x| > 0 {
      ValueFront(x);
      ValueFront(y);
      var w := Pow10(|x| - 1);
      var dx, dy := DigitValue(x[0]), DigitValue(y[0]);
      ValueBelowPow(x[1..]);
      ValueBelowPow(y[1..]);
      if x[0] == y[0] {
        DigitOrder(x[1..], y[1..]);
      } else if x[0] < y[0] {
        assert dx + 1 <= dy;
        Weighted(dx, dy, w, Value(x[1..]), Value(y[1..]));
      } else {
        assert dy + 1 <= dx;
        Weighted(dy, dx, w, Value(y[1..]), Value(x[1..]));
      }
    }
  }

  lemma Weighted(a: nat, b: nat, w: nat, u: nat, v: nat)
    requires a + 1 <= b && u < w
    ensures a * w + u < b * w + v
  {
    var k: nat := b - a - 1;
    assert b * w == a * w + w + k * w;
  }

  /** A common prefix and suffix do not change how two strings of one length compare. */
  lemma {:induction false} BelowFrame(c: string, x: string, y: string, e: string)
    requires |x| == |y|
    ensures Below(c + x + e, c + y + e) <==> Below(x, y)
  {
    if |c| > 0 {
      assert (c + x + e)[1..] == c[1..] + x + e;
      assert (c + y + e)[1..] == c[1..] + y + e;
      BelowFrame(c[1..], x, y, e);
    } else if |x| > 0 {
      assert c + x + e == x + e && c + y + e == y + e;
      assert (x + e)[1..] == x[1..] + e && (y + e)[1..] == y[1..] + e;
      BelowFrame([], x[1..], y[1..], e);
      assert [] + x[1..] + e == x[1..] + e && [] + y[1..] + e == y[1..] + e;
    } else {
      assert c + x + e == e && c + y + e == e;
      BelowIrreflexive(e);
    }
  }

  /** Sorting page files by name sorts them by page, for documents of up to 9999 pages; the
      directory listings of the grayscale step and of the dashboard are in page order. */
  lemma PageFileOrder(p: nat, q: nat, ext: string)
    requires p < 9999 && q < 9999
    ensures Below(PageFileName(p, ext), PageFileName(q, ext)) <==> p < q
  {
    FourDigits(p);
    FourDigits(q);
    var x, y := Padded(p + 1, 4), Padded(q + 1, 4);
    BelowFrame(PagePrefix, x, y, ext);
    DigitOrder(x, y);
  }

  /** Past page 9999 the order breaks: `page_10000` sorts before `page_9999`. */
  lemma PageFileOrderBreaks(ext: string)
    ensures Below(PageFileName(9999, ext), PageFileName(9998, ext))
  {
    WideNumerals();
    var x, y := Padded(10000, 4) + ext, Padded(9999, 4) + ext;
    assert x[0] == '1' && y[0] == '9';
    BelowFrameHead(PagePrefix, x, y);
    assert PageFileName(9999, ext) == PagePrefix + x && PageFileName(9998, ext) == PagePrefix + y;
  }

  lemma {:induction false} BelowFrameHead(c: string, x: string, y: string)
    requires |x| > 0 && |y| > 0 && x[0] < y[0]
    ensures Below(c + x, c + y)
  {
    if |c| > 0 {
      assert (c + x)[1..] == c[1..] + x && (c + y)[1..] == c[1..] + y;
      BelowFrameHead(c[1..], x, y);
    } else {
      assert c + x == x && c + y == y;
    }
  }

  // ---------------------------------------------------------------------------------------
  // `str.replace` and the grayscale directory.

  /** Python's `s.replace(pat, rep)`: every non-overlapping occurrence, scanning left to right;
      an empty pattern inserts `rep` before every character and at the end. */
  function ReplaceAll(s: string, pat: string, rep: string): string
    decreases |s|, |pat|
  {
    if |pat| == 0 then
      if |s| == 0 then rep else rep + [s[0]] + ReplaceAll(s[1..], pat, rep)
    else if |s| < |pat| then s
    else if s[..|pat|] == pat then rep + ReplaceAll(s[|pat|..], pat, rep)
    else [s[0]] + ReplaceAll(s[1..], pat, rep)
  }

  predicate OccursAt(s: string, pat: string, i: nat) {
    i + |pat| <= |s| && s[i..i + |pat|] == pat
  }

  /** A string in which the pattern does not occur is left unchanged. */
  lemma {:induction false} ReplaceAbsent(s: string, pat: string, rep: string)
    requires |pat| > 0 && forall i: nat :: !OccursAt(s, pat, i)
    ensures ReplaceAll(s, pat, rep) == s
    decreases |s|
  {
    if |s| >= |pat| {
      assert !OccursAt(s, pat, 0);
      assert s[..|pat|] == s[0..0 + |pat|];
      forall i: nat ensures !OccursAt(s[1..], pat, i) {
        assert !OccursAt(s, pat, i + 1);
        if i + |pat| <= |s| - 1 {
          assert s[1..][i..i + |pat|] == s[i + 1..i + 1 + |pat|];
        }
      }
      ReplaceAbsent(s[1..], pat, rep);
      assert [s[0]] + s[1..] == s;
    }
  }

  /** A head that cannot start the pattern is copied through. */
  lemma {:induction false} ReplaceSkipsHead(h: string, t: string, pat: string, rep: string)
    requires |pat| > 0 && pat[0] !in h
    ensures ReplaceAll(h + t, pat, rep) == h + ReplaceAll(t, pat, rep)
    decreases |h|
  {
    if |h| > 0 {
      var s := h + t;
      assert s[0] == h[0] && s[1..] == h[1..] + t;
      if |s| >= |pat| {
        assert s[..|pat|][0] == h[0];
      }
      ReplaceSkipsHead(h[1..], t, pat, rep);
      assert [h[0]] + h[1..] == h;
    } else {
      assert h + t == t;
    }
  }

  /** `str(Path(f"{stem}/png")).replace('/png', '/png_bw')` is `f"{stem}/png_bw"` for a stem
      without a slash, as every `Path.stem` is: the grayscale tree sits beside the colour one. */
  lemma GrayscaleDirectory(stem: string)
    requires '/' !in stem
    ensures ReplaceAll(stem + "/png", "/png", "/png_bw") == stem + "/png_bw"
  {
    ReplaceSkipsHead(stem, "/png", "/png", "/png_bw");
    assert ReplaceAll("/png", "/png", "/png_bw") == "/png_bw" + ReplaceAll("", "/png", "/png_bw");
  }

  /** A directory whose path has no `/png` maps to itself: the grayscale images then overwrite
      the colour ones in place. */
  lemma GrayscaleInPlace(dir: string)
    requires '/' !in dir
    ensures ReplaceAll(dir, "/png", "/png_bw") == dir
  {
    forall i: nat ensures !OccursAt(dir, "/png", i) {
      if i + 4 <= |dir| {
        assert dir[i..i + 4][0] == dir[i];
        assert dir[i] in dir;
      }
    }
    ReplaceAbsent(dir, "/png", "/png_bw");
  }

  // ---------------------------------------------------------------------------------------
  // `Path.stem`, as the OCR step uses it to name its markdown.

  /** The position of the last `.` in a name, if any. */
  function LastDot(name: string): (r: Option<nat>)
    ensures r.Some? ==> r.value < |name| && name[r.value] == '.' && '.' !in name[r.value + 1..]
    ensures r.None? ==> '.' !in name
  {
    if |name| == 0 then None
    else if name[|name| - 1] == '.' then Some(|name| - 1)
    else
      var r := LastDot(name[..|name| - 1]);
      assert name == name[..|name| - 1] + [name[|name| - 1]];
      if r.Some? then
        assert name[r.value + 1..] == name[..|name| - 1][r.value + 1..] + [name[|name| - 1]];
        r
      else r
  }

  /** `PurePath(name).stem`: the name without its suffix, where the suffix starts at the last
      dot unless that dot opens the name or ends it. */
  function PathStem(name: string): string {
    match LastDot(name)
    case Some(i) => if 0 < i < |name| - 1 then name[..i] else name
    case None => name
  }

  /** The OCR step names the markdown of `page_NNNN.png` `page_NNNN.md`: its output pairs
      with the layout exporter's by name, which is what the dashboard matches on. */
  lemma OcrMarkdownName(page: nat)
    ensures PathStem(PageFileName(page, ".png")) + ".md" == PageFileName(page, ".md")
  {
    var stem := PageStem(page);
    var name := PageFileName(page, ".png");
    var digits := Padded(page + 1, 4);
    assert '.' !in stem by {
      assert forall i :: 0 <= i < |digits| ==> IsDigit(digits[i]);
      assert forall i :: 0 <= i < |stem| ==> stem[i] != '.' by {
        forall i | 0 <= i < |stem| ensures stem[i] != '.' {
          if i >= |PagePrefix| { assert stem[i] == digits[i - |PagePrefix|]; }
        }
      }
    }
    var d := LastDot(name);
    assert name[|stem|] == '.';
    forall j | 0 <= j < |name| && j != |stem| ensures name[j] != '.' {
      if j < |stem| {
        assert name[j] == stem[j];
      } else {
        assert name[j] == ".png"[j - |stem|];
      }
    }
    assert d == Some(|stem|);
    assert name[..|stem|] == stem;
  }
}
