/**
 * The page splitter: `renderizar_paginas` (its range check),
 * `extrair_chave_barcode` and `split_pdf_por_cte` of src/pdf_utils.py, and
 * the older `split_pdf_por_cte` of src/rateio.py.
 *
 * Rendering and barcode decoding are inputs: for each page, the decoded
 * payloads of its barcodes (`None` for a page that could not be rendered;
 * a `None` payload for bytes that are not valid UTF-8). The output folder
 * maps each file name to the index of the page written to it.
 */
module Splitter {
  import opened Wrappers
  import opened Text
  import opened FiscalKey
  import opened Files

  /** The decoded barcodes of one rendered page, or `None` when rendering failed. */
  type Scan = Option<seq<Option<string>>>

  /**
   * The range check of `renderizar_paginas`: the 1-based page `number` of a
   * document of `count` pages is the 0-based index `number - 1`, and a number
   * outside 1..count gives `None`.
   */
  function PageIndex(count: nat, number: int): (r: Option<nat>)
    ensures r.Some? <==> 1 <= number <= count
    ensures r.Some? ==> r.value + 1 == number && r.value < count
  {
    if number - 1 < 0 || number - 1 >= count then None else Some(number - 1)
  }

  // ---------------------------------------------------------------------
  // extrair_chave_barcode
  // ---------------------------------------------------------------------

  /** `re.sub(r"\D", "", s)`: the digits of `s`, in order. */
  function DigitsOnly(s: string): (r: string)
    ensures AllDigits(r) && |r| <= |s|
  {
    if s == [] then [] else (if IsDigit(s[0]) then [s[0]] else []) + DigitsOnly(s[1..])
  }

  /**
   * The payloads from the first one on: an undecodable payload ends the
   * search with `None` (the exception leaves the loop); otherwise the first
   * payload with exactly 44 digits gives them.
   */
  function CodesKey(codes: seq<Option<string>>): (r: Option<string>)
    ensures r.Some? ==> |r.value| == 44 && AllDigits(r.value)
  {
    if codes == [] then None
    else if codes[0].None? then None
    else if |DigitsOnly(codes[0].value)| == 44 then Some(DigitsOnly(codes[0].value))
    else CodesKey(codes[1..])
  }

  /** `extrair_chave_barcode` of a rendered page, or of none. */
  function ScanKey(scan: Scan): Option<string>
  {
    if scan.None? then None else CodesKey(scan.value)
  }

  /** The loop of `extrair_chave_barcode`. */
  method BarcodeKey(scan: Scan) returns (key: Option<string>)
    ensures key == ScanKey(scan)
    ensures key.Some? ==> |key.value| == 44 && AllDigits(key.value)
  {
    if scan.None? {
      return None;
    }
    var codes := scan.value;
    var i := 0;
    while i < |codes|
      invariant 0 <= i <= |codes|
      invariant CodesKey(codes) == CodesKey(codes[i..])
    {
      if codes[i].None? {
        return None;
      }
      var cleaned := DigitsOnly(codes[i].value);
      if |cleaned| == 44 {
        return Some(cleaned);
      }
      assert codes[i..][1..] == codes[i + 1..];
      i := i + 1;
    }
    return None;
  }

  /** Punctuation is dropped, and the model code is not checked: 44 zeros are a key here. */
  lemma BarcodeKeyNotValidated()
    ensures var zeros := seq(44, _ => '0');
      ScanKey(Some([Some("-"), Some(zeros + ".")])) == Some(zeros) && !IsCteKey(zeros)
  {
    var zeros := seq(44, _ => '0');
    var codes := [Some("-"), Some(zeros + ".")];
    assert DigitsOnly("-") == [];
    assert codes[1..] == [Some(zeros + ".")];
    DigitsOnlyConcat(zeros, ".");
    DigitsOnlyOfDigits(zeros);
    assert DigitsOnly(".") == [];
    assert zeros + [] == zeros;
    assert DigitsOnly(zeros + ".") == zeros;
    assert CodesKey(codes[1..]) == Some(zeros);
    assert CodesKey(codes) == Some(zeros);
    assert zeros[20..22][0] == '0';
  }

  /** An undecodable payload ahead of a key hides it: the whole page gives `None`. */
  lemma UndecodablePayloadAborts(rest: seq<Option<string>>)
    ensures ScanKey(Some([None] + rest)) == None
  {
  }

  lemma {:induction false} DigitsOnlyConcat(a: string, b: string)
    ensures DigitsOnly(a + b) == DigitsOnly(a) + DigitsOnly(b)
    decreases |a|
  {
    if a == [] {
      assert a + b == b;
    } else {
      var head: string := if IsDigit(a[0]) then [a[0]] else [];
      assert (a + b)[0] == a[0];
      assert (a + b)[1..] == a[1..] + b;
      assert DigitsOnly(a + b) == head + DigitsOnly(a[1..] + b);
      DigitsOnlyConcat(a[1..], b);
      assert DigitsOnly(a) == head + DigitsOnly(a[1..]);
    }
  }

  lemma {:induction false} DigitsOnlyOfDigits(s: string)
    requires AllDigits(s)
    ensures DigitsOnly(s) == s
    decreases |s|
  {
    if s != [] {
      DigitsOnlyOfDigits(s[1..]);
    }
  }

  // ---------------------------------------------------------------------
  // split_pdf_por_cte of src/pdf_utils.py
  // ---------------------------------------------------------------------

  /** One page: written when its key is wanted and its file does not exist yet. */
  function WritePage(files: map<string, nat>, scan: Scan, i: nat, wanted: set<string>): map<string, nat>
  {
    var key := ScanKey(scan);
    if key.Some? && key.value in wanted && SplitName(key.value) !in files then files[SplitName(key.value) := i]
    else files
  }

  /** The folder after the first `n` pages. */
  function SplitUpTo(files: map<string, nat>, scans: seq<Scan>, wanted: set<string>, n: nat): map<string, nat>
    requires n <= |scans|
  {
    if n == 0 then files else WritePage(SplitUpTo(files, scans, wanted, n - 1), scans[n - 1], n - 1, wanted)
  }

  /** How many pages are read: all of them, unless the stop event is set before page `c`. */
  function PagesRead(count: nat, cancelAt: Option<nat>): (r: nat)
    ensures r <= count
    ensures cancelAt.Some? ==> r <= cancelAt.value
  {
    if cancelAt.Some? && cancelAt.value < count then cancelAt.value else count
  }

  /**
   * The whole run: nothing for a PDF that cannot be opened (`None`),
   * otherwise the pages read before the stop event, in order.
   */
  function SplitSpec(files: map<string, nat>, pdf: Option<seq<Scan>>, wanted: set<string>, cancelAt: Option<nat>): map<string, nat>
  {
    if pdf.None? then files else SplitUpTo(files, pdf.value, wanted, PagesRead(|pdf.value|, cancelAt))
  }

  /** The folder the pages are written to, updated in place. */
  class SplitFolder {
    var files: map<string, nat>

    constructor(existing: map<string, nat>)
      ensures files == existing
    {
      files := existing;
    }

    /**
     * `split_pdf_por_cte` of src/pdf_utils.py. `cancelAt` is the first page
     * index at whose check the stop event is found set.
     */
    method SplitByKey(pdf: Option<seq<Scan>>, wanted: set<string>, cancelAt: Option<nat>)
      modifies this
      ensures files == SplitSpec(old(files), pdf, wanted, cancelAt)
    {
      if pdf.None? {
        return;
      }
      var scans := pdf.value;
      var i := 0;
      while i < |scans|
        invariant 0 <= i <= |scans|
        invariant cancelAt.Some? ==> i <= cancelAt.value
        invariant files == SplitUpTo(old(files), scans, wanted, i)
      {
        if cancelAt.Some? && cancelAt.value == i {
          return;
        }
        var key := BarcodeKey(scans[i]);
        if key.Some? && key.value in wanted {
          var target := SplitName(key.value);
          if target in files {
            i := i + 1;
            continue;
          }
          files := files[target := i];
        }
        i := i + 1;
      }
    }

    /**
     * `split_pdf_por_cte` of src/rateio.py: every page with a key, from its
     * text first and its barcodes otherwise, is written, overwriting.
     */
    method SplitAll(pdf: Option<seq<PageScan>>)
      modifies this
      ensures files == OverwriteSpec(old(files), pdf)
    {
      if pdf.None? {
        return;
      }
      var pages := pdf.value;
      var i := 0;
      while i < |pages|
        invariant 0 <= i <= |pages|
        invariant files == OverwriteUpTo(old(files), pages, i)
      {
        var key := ExtractKey(pages[i].text, pages[i].image);
        if key.Some? {
          files := files[SplitName(key.value) := i];
        }
        i := i + 1;
      }
    }
  }

  // ---------------------------------------------------------------------
  // Properties of the splitter of src/pdf_utils.py
  // ---------------------------------------------------------------------

  /** Files already there are never touched, and new files are only for wanted keys. */
  lemma {:induction false} SplitOnlyAdds(files: map<string, nat>, scans: seq<Scan>, wanted: set<string>, n: nat)
    requires n <= |scans|
    ensures var r := SplitUpTo(files, scans, wanted, n);
      (forall f :: f in files ==> f in r && r[f] == files[f])
      && (forall f :: f in r && f !in files ==> exists k :: k in wanted && f == SplitName(k))
  {
    if n > 0 {
      SplitOnlyAdds(files, scans, wanted, n - 1);
    }
  }

  /** After page `j` is read, the file of its wanted key exists. */
  lemma {:induction false} PageKeyWritten(files: map<string, nat>, scans: seq<Scan>, wanted: set<string>, j: nat, n: nat)
    requires j < n <= |scans|
    requires ScanKey(scans[j]).Some? && ScanKey(scans[j]).value in wanted
    ensures SplitName(ScanKey(scans[j]).value) in SplitUpTo(files, scans, wanted, n)
  {
    if n - 1 > j {
      PageKeyWritten(files, scans, wanted, j, n - 1);
    }
  }

  /** The file of a key is missing while no page read so far carries it. */
  lemma {:induction false} NotWrittenBefore(files: map<string, nat>, scans: seq<Scan>, wanted: set<string>, k: string, n: nat)
    requires n <= |scans| && SplitName(k) !in files
    requires forall i :: 0 <= i < n ==> ScanKey(scans[i]) != Some(k)
    ensures SplitName(k) !in SplitUpTo(files, scans, wanted, n)
  {
    if n > 0 {
      NotWrittenBefore(files, scans, wanted, k, n - 1);
      var key := ScanKey(scans[n - 1]);
      if key.Some? && SplitName(key.value) == SplitName(k) {
        SplitNameInjective(key.value, k);
      }
    }
  }

  lemma SplitNameInjective(a: string, b: string)
    requires SplitName(a) == SplitName(b)
    ensures a == b
  {
    assert "" + a + "-procCTe.pdf" == SplitName(a);
    assert "" + b + "-procCTe.pdf" == SplitName(b);
    MiddleEqual("", a, b, "-procCTe.pdf");
  }

  /**
   * The first page carrying a wanted key wins: the key's file holds that
   * page, whatever later pages carry.
   */
  lemma {:induction false} FirstPageWins(files: map<string, nat>, scans: seq<Scan>, wanted: set<string>, k: string, j: nat, n: nat)
    requires j < n <= |scans| && k in wanted && SplitName(k) !in files
    requires ScanKey(scans[j]) == Some(k)
    requires forall i :: 0 <= i < j ==> ScanKey(scans[i]) != Some(k)
    ensures SplitName(k) in SplitUpTo(files, scans, wanted, n)
    ensures SplitUpTo(files, scans, wanted, n)[SplitName(k)] == j
  {
    if n - 1 == j {
      NotWrittenBefore(files, scans, wanted, k, j);
    } else {
      FirstPageWins(files, scans, wanted, k, j, n - 1);
      var key := ScanKey(scans[n - 1]);
      if key.Some? && SplitName(key.value) == SplitName(k) {
        SplitNameInjective(key.value, k);
      }
    }
  }

  /** Reading pages again over a folder that already holds their files changes nothing. */
  lemma {:induction false} RereadChangesNothing(done: map<string, nat>, scans: seq<Scan>, wanted: set<string>, m: nat)
    requires m <= |scans|
    requires forall i :: (0 <= i < m && ScanKey(scans[i]).Some? && ScanKey(scans[i]).value in wanted
      ==> SplitName(ScanKey(scans[i]).value) in done)
    ensures SplitUpTo(done, scans, wanted, m) == done
  {
    if m > 0 {
      RereadChangesNothing(done, scans, wanted, m - 1);
    }
  }

  /** Re-running the splitter over the same inputs writes nothing new. */
  lemma SplitIdempotent(files: map<string, nat>, pdf: Option<seq<Scan>>, wanted: set<string>, cancelAt: Option<nat>)
    ensures var once := SplitSpec(files, pdf, wanted, cancelAt);
      SplitSpec(once, pdf, wanted, cancelAt) == once
  {
    if pdf.Some? {
      var scans := pdf.value;
      var n := PagesRead(|scans|, cancelAt);
      var once := SplitUpTo(files, scans, wanted, n);
      forall i | 0 <= i < n && ScanKey(scans[i]).Some? && ScanKey(scans[i]).value in wanted
        ensures SplitName(ScanKey(scans[i]).value) in once
      {
        PageKeyWritten(files, scans, wanted, i, n);
      }
      RereadChangesNothing(once, scans, wanted, n);
    }
  }

  /** The result depends only on the pages before the one at which the stop event is seen. */
  lemma {:induction false} SplitUpToPrefix(files: map<string, nat>, scans: seq<Scan>, wanted: set<string>, n: nat, c: nat)
    requires n <= c <= |scans|
    ensures SplitUpTo(files, scans[..c], wanted, n) == SplitUpTo(files, scans, wanted, n)
  {
    if n > 0 {
      SplitUpToPrefix(files, scans, wanted, n - 1, c);
    }
  }

  lemma CancelIgnoresLaterPages(files: map<string, nat>, scans: seq<Scan>, wanted: set<string>, c: nat)
    requires c <= |scans|
    ensures SplitSpec(files, Some(scans), wanted, Some(c)) == SplitSpec(files, Some(scans[..c]), wanted, None)
  {
    SplitUpToPrefix(files, scans, wanted, c, c);
  }

  // ---------------------------------------------------------------------
  // The splitter of src/rateio.py
  // ---------------------------------------------------------------------

  /** What the older splitter reads from a page: its text, if extractable, and its barcodes. */
  datatype PageScan = PageScan(text: Option<string>, image: Option<seq<Option<string>>>)

  function OverwriteUpTo(files: map<string, nat>, pages: seq<PageScan>, n: nat): map<string, nat>
    requires n <= |pages|
  {
    if n == 0 then files
    else
      var prev := OverwriteUpTo(files, pages, n - 1);
      var key := ExtractKey(pages[n - 1].text, pages[n - 1].image);
      if key.Some? then prev[SplitName(key.value) := n - 1] else prev
  }

  function OverwriteSpec(files: map<string, nat>, pdf: Option<seq<PageScan>>): map<string, nat>
  {
    if pdf.None? then files else OverwriteUpTo(files, pdf.value, |pdf.value|)
  }

  /**
   * With no existence check the last page carrying a key wins: a later page
   * with the same key overwrites an earlier one.
   */
  lemma {:induction false} LastPageWins(files: map<string, nat>, pages: seq<PageScan>, k: string, j: nat, n: nat)
    requires j < n <= |pages|
    requires ExtractKey(pages[j].text, pages[j].image) == Some(k)
    requires forall i :: j < i < n ==> ExtractKey(pages[i].text, pages[i].image) != Some(k)
    ensures SplitName(k) in OverwriteUpTo(files, pages, n)
    ensures OverwriteUpTo(files, pages, n)[SplitName(k)] == j
  {
    if n - 1 > j {
      LastPageWins(files, pages, k, j, n - 1);
      OverwriteOtherKey(files, pages, n, k);
    }
  }

  /** A page whose key is not `k` leaves the file of `k` as it was. */
  lemma OverwriteOtherKey(files: map<string, nat>, pages: seq<PageScan>, n: nat, k: string)
    requires 0 < n <= |pages|
    requires ExtractKey(pages[n - 1].text, pages[n - 1].image) != Some(k)
    requires SplitName(k) in OverwriteUpTo(files, pages, n - 1)
    ensures SplitName(k) in OverwriteUpTo(files, pages, n)
    ensures OverwriteUpTo(files, pages, n)[SplitName(k)] == OverwriteUpTo(files, pages, n - 1)[SplitName(k)]
  {
    var key := ExtractKey(pages[n - 1].text, pages[n - 1].image);
    if key.Some? && SplitName(key.value) == SplitName(k) {
      SplitNameInjective(key.value, k);
    }
  }

  /** Every file the older splitter adds is named after a valid CT-e key. */
  lemma {:induction false} OverwriteNamesValid(files: map<string, nat>, pages: seq<PageScan>, n: nat)
    requires n <= |pages|
    ensures forall f :: (f in OverwriteUpTo(files, pages, n) && f !in files
      ==> exists k :: IsCteKey(k) && f == SplitName(k))
  {
    if n > 0 {
      OverwriteNamesValid(files, pages, n - 1);
    }
  }
}
