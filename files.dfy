/**
 * File-name logic: finding an XML or PDF by name (src/xml_utils.py,
 * src/rateio.py, src/pdf_utils.py), `safe_rename` and
 * `renomear_pdfs_para_xmls` (src/rateio.py).
 *
 * A folder is its listing, in `os.listdir` order; a missing folder is
 * `None`. Paths are file names: the folder part of `os.path.join` is left out.
 */
module Files {
  import opened Wrappers
  import opened Text
  import opened FiscalKey

  // ---------------------------------------------------------------------
  // First name in a listing with an extension that contains a criterion
  // ---------------------------------------------------------------------

  /** `name.lower().endswith(ext) and criterion in name`. */
  predicate NameMatches(name: string, ext: string, criterion: string)
  {
    EndsWith(Lower(name), ext) && Contains(name, criterion)
  }

  /** The first matching position at or after `from`. */
  function FirstMatch(names: seq<string>, ext: string, criterion: string, from: nat): (r: Option<nat>)
    ensures r.Some? ==> from <= r.value < |names| && NameMatches(names[r.value], ext, criterion)
    ensures r.Some? ==> forall j :: from <= j < r.value ==> !NameMatches(names[j], ext, criterion)
    ensures r.None? ==> forall j :: from <= j < |names| ==> !NameMatches(names[j], ext, criterion)
    decreases |names| - from
  {
    if from >= |names| then None
    else if NameMatches(names[from], ext, criterion) then Some(from)
    else FirstMatch(names, ext, criterion, from + 1)
  }

  /**
   * The search shared by `localizar_xml_por_chave` and `localizar_pdf`:
   * `None` for an empty criterion or a missing folder, otherwise the first
   * name, in listing order, that has the extension and contains the criterion.
   */
  function Locate(listing: Option<seq<string>>, ext: string, criterion: string): (r: Option<string>)
    ensures r.Some? ==> listing.Some? && r.value in listing.value && NameMatches(r.value, ext, criterion)
    ensures r.None? <==> (criterion == "" || listing.None?
      || forall j :: 0 <= j < |listing.value| ==> !NameMatches(listing.value[j], ext, criterion))
  {
    if criterion == "" || listing.None? then None
    else
      match FirstMatch(listing.value, ext, criterion, 0)
      case None => None
      case Some(i) => Some(listing.value[i])
  }

  /** `localizar_xml_por_chave`. */
  function LocateXml(key: string, listing: Option<seq<string>>): Option<string>
  {
    Locate(listing, ".xml", key)
  }

  /** `localizar_pdf` of src/rateio.py. */
  function LocatePdf(listing: Option<seq<string>>, criterion: string): Option<string>
  {
    Locate(listing, ".pdf", criterion)
  }

  /** The name chosen is the first match: no earlier name in the listing matches. */
  lemma LocateIsFirst(names: seq<string>, ext: string, criterion: string, i: nat)
    requires criterion != "" && i < |names| && NameMatches(names[i], ext, criterion)
    requires forall j :: 0 <= j < i ==> !NameMatches(names[j], ext, criterion)
    ensures Locate(Some(names), ext, criterion) == Some(names[i])
  {
    var r := FirstMatch(names, ext, criterion, 0);
    assert r.Some?;
    assert r.value == i;
  }

  // ---------------------------------------------------------------------
  // The split pages: pdf_utils.localizar_pdf over an os.walk
  // ---------------------------------------------------------------------

  /** The name the splitter gives to the page of a key. */
  function SplitName(key: string): string
  {
    key + "-procCTe.pdf"
  }

  /**
   * `localizar_pdf` of src/pdf_utils.py: the first folder of the walk, in
   * walk order, whose files include "<key>-procCTe.pdf"; the folder and the name.
   */
  function LocateSplitPdf(walk: seq<(string, seq<string>)>, key: string): (r: Option<(string, string)>)
    ensures r.Some? ==> r.value.1 == SplitName(key)
    ensures r.Some? ==> exists i :: (0 <= i < |walk| && walk[i].0 == r.value.0 && SplitName(key) in walk[i].1
      && forall j :: 0 <= j < i ==> SplitName(key) !in walk[j].1)
    ensures r.None? <==> forall i :: 0 <= i < |walk| ==> SplitName(key) !in walk[i].1
  {
    if walk == [] then None
    else if SplitName(key) in walk[0].1 then Some((walk[0].0, SplitName(key)))
    else
      var r := LocateSplitPdf(walk[1..], key);
      assert forall i :: 1 <= i < |walk| ==> walk[i] == walk[1..][i - 1];
      assert r.Some? ==> exists i :: (1 <= i < |walk| && walk[i].0 == r.value.0 && SplitName(key) in walk[i].1
        && forall j :: 0 <= j < i ==> SplitName(key) !in walk[j].1) by {
        if r.Some? {
          var i' :| 0 <= i' < |walk[1..]| && walk[1..][i'].0 == r.value.0 && SplitName(key) in walk[1..][i'].1
            && forall j :: 0 <= j < i' ==> SplitName(key) !in walk[1..][j].1;
          assert walk[i' + 1] == walk[1..][i'];
          forall j | 0 <= j < i' + 1 ensures SplitName(key) !in walk[j].1 {
            if j > 0 { assert walk[j] == walk[1..][j - 1]; }
          }
        }
      }
      r
  }

  // ---------------------------------------------------------------------
  // safe_rename: the first free name among dst, base(1)ext, base(2)ext, ...
  // ---------------------------------------------------------------------

  /** The position of the last `.` in `s`, if any. */
  function LastDot(s: string): (r: Option<nat>)
    ensures r.Some? ==> r.value < |s| && s[r.value] == '.'
    ensures r.Some? ==> forall j :: r.value < j < |s| ==> s[j] != '.'
    ensures r.None? ==> forall j :: 0 <= j < |s| ==> s[j] != '.'
  {
    if s == [] then None
    else if s[|s| - 1] == '.' then Some(|s| - 1)
    else LastDot(s[..|s| - 1])
  }

  /**
   * `os.path.splitext` of a plain file name: the extension runs from the
   * last `.`, provided some character before it is not a `.` (so ".pdf"
   * and "..pdf" have no extension).
   */
  function SplitExt(name: string): (r: (string, string))
    ensures r.0 + r.1 == name
  {
    match LastDot(name)
    case None => (name, "")
    case Some(d) =>
      if exists j :: 0 <= j < d && name[j] != '.' then (name[..d], name[d..]) else (name, "")
  }

  /** The `n`-th name tried: `dst` itself, then `f"{base}({n}){ext}"`. */
  function Probe(dst: string, n: nat): string
  {
    if n == 0 then dst else SplitExt(dst).0 + Numbered(n) + SplitExt(dst).1
  }

  /** The "(n)" inserted before the extension. */
  function Numbered(n: nat): string
  {
    "(" + NatDigits(n) + ")"
  }

  /** Equal texts with a common start and end have equal middles. */
  lemma MiddleEqual(a: string, x: string, y: string, b: string)
    requires a + x + b == a + y + b
    ensures x == y
  {
    assert |x| == |y|;
    forall i | 0 <= i < |x| ensures x[i] == y[i] {
      assert (a + x + b)[|a| + i] == x[i];
      assert (a + y + b)[|a| + i] == y[i];
    }
  }

  /** Distinct attempts are distinct names, so the probing cannot cycle. */
  lemma ProbesDistinct(dst: string, m: nat, n: nat)
    requires m < n
    ensures Probe(dst, m) != Probe(dst, n)
  {
    var base, ext := SplitExt(dst).0, SplitExt(dst).1;
    if m == 0 {
      assert |Probe(dst, n)| == |base| + |Numbered(n)| + |ext| > |dst|;
    } else if Probe(dst, m) == Probe(dst, n) {
      MiddleEqual(base, Numbered(m), Numbered(n), ext);
      MiddleEqual("(", NatDigits(m), NatDigits(n), ")");
      assert false;
    }
  }

  /** The names tried before attempt `i`. */
  ghost function Tried(dst: string, i: nat): set<string>
  {
    if i == 0 then {} else Tried(dst, i - 1) + {Probe(dst, i - 1)}
  }

  lemma {:induction false} NotYetTried(dst: string, i: nat, n: nat)
    requires i <= n
    ensures Probe(dst, n) !in Tried(dst, i)
  {
    if i > 0 {
      NotYetTried(dst, i - 1, n);
      ProbesDistinct(dst, i - 1, n);
    }
  }

  /** The probing loop of `safe_rename`: the first attempt that is not an existing name. */
  method FreeName(existing: set<string>, dst: string) returns (name: string)
    ensures name !in existing
    ensures exists n: nat :: name == Probe(dst, n) && forall m: nat :: m < n ==> Probe(dst, m) in existing
  {
    var i: nat := 0;
    name := dst;
    while name in existing
      invariant name == Probe(dst, i)
      invariant forall m: nat :: m < i ==> Probe(dst, m) in existing
      invariant Tried(dst, i) <= existing
      decreases |existing - Tried(dst, i)|
    {
      ProbeTaken(existing, dst, i);
      forall m: nat | m < i + 1 ensures Probe(dst, m) in existing {
        if m == i { assert Probe(dst, m) == name; }
      }
      i := i + 1;
      name := Probe(dst, i);
    }
  }

  /** A taken attempt joins the tried names, leaving fewer untried existing names. */
  lemma ProbeTaken(existing: set<string>, dst: string, i: nat)
    requires Tried(dst, i) <= existing && Probe(dst, i) in existing
    ensures Tried(dst, i + 1) <= existing
    ensures |existing - Tried(dst, i + 1)| < |existing - Tried(dst, i)|
  {
    NotYetTried(dst, i, i);
    assert Probe(dst, i) in existing - Tried(dst, i);
    assert existing - Tried(dst, i + 1) < existing - Tried(dst, i);
  }

  /** When `dst` itself is free, the probing stops at once: the name is `dst`. */
  lemma FirstProbeWhenFree(existing: set<string>, dst: string, chosen: string)
    requires dst !in existing
    requires exists n: nat :: chosen == Probe(dst, n) && forall m: nat :: m < n ==> Probe(dst, m) in existing
    ensures chosen == dst
  {
    var n: nat :| chosen == Probe(dst, n) && forall m: nat :: m < n ==> Probe(dst, m) in existing;
    assert Probe(dst, 0) == dst;
  }

  /** No name twice: a folder listing. */
  predicate Distinct(names: seq<string>)
  {
    forall i, j :: 0 <= i < j < |names| ==> names[i] != names[j]
  }

  /**
   * What one XML name does to the PDF listing: for a ".xml" name carrying a
   * valid key whose "<key>-procCTe.pdf" is not there yet, the first ".pdf"
   * containing the key's CT-e number takes that name.
   */
  function RenameStep(names: seq<string>, xml: string): (r: seq<string>)
    ensures |r| == |names|
  {
    if !EndsWith(Lower(xml), ".xml") then names
    else
      match KeyFromFileName(xml)
      case None => names
      case Some(key) =>
        if !IsCteKey(key) || SplitName(key) in names then names
        else
          match FirstMatch(names, ".pdf", key[25..34], 0)
          case None => names
          case Some(i) => names[i := SplitName(key)]
  }

  /** The PDF listing after the XML names have been handled in order. */
  function RenameAll(names: seq<string>, xmls: seq<string>): (r: seq<string>)
    ensures |r| == |names|
  {
    if xmls == [] then names else RenameStep(RenameAll(names, xmls[..|xmls| - 1]), xmls[|xmls| - 1])
  }

  /**
   * One XML name renames at most one PDF: a name not ending in ".xml"
   * changes nothing, and otherwise either nothing changes or the first
   * ".pdf" containing the number of the name's valid key, whose target
   * name was free, takes exactly "<key>-procCTe.pdf".
   */
  lemma RenameStepCases(names: seq<string>, xml: string)
    ensures !EndsWith(Lower(xml), ".xml") ==> RenameStep(names, xml) == names
    ensures var r := RenameStep(names, xml);
      r == names
      || exists key: string, i: nat ::
           (EndsWith(Lower(xml), ".xml") && KeyFromFileName(xml) == Some(key) && IsCteKey(key)
           && SplitName(key) !in names && i < |names| && NameMatches(names[i], ".pdf", key[25..34])
           && (forall j :: 0 <= j < i ==> !NameMatches(names[j], ".pdf", key[25..34]))
           && r == names[i := SplitName(key)])
  {
  }

  /**
   * The converse: a ".xml" name carrying a valid key whose target is free
   * renames the first ".pdf" containing the key's number.
   */
  lemma RenameStepRenames(names: seq<string>, xml: string, key: string, i: nat)
    requires EndsWith(Lower(xml), ".xml") && KeyFromFileName(xml) == Some(key) && IsCteKey(key)
    requires SplitName(key) !in names
    requires i < |names| && NameMatches(names[i], ".pdf", key[25..34])
    requires forall j :: 0 <= j < i ==> !NameMatches(names[j], ".pdf", key[25..34])
    ensures RenameStep(names, xml) == names[i := SplitName(key)]
  {
    var m := FirstMatch(names, ".pdf", key[25..34], 0);
    assert m.Some?;
    assert m.value == i;
  }

  /** When no ".pdf" contains the key's number, the folder is left alone. */
  lemma RenameStepNoPdf(names: seq<string>, xml: string, key: string)
    requires KeyFromFileName(xml) == Some(key) && IsCteKey(key)
    requires forall j :: 0 <= j < |names| ==> !NameMatches(names[j], ".pdf", key[25..34])
    ensures RenameStep(names, xml) == names
  {
    var m := FirstMatch(names, ".pdf", key[25..34], 0);
    assert m.None?;
  }

  /** An XML whose "<key>-procCTe.pdf" already exists leaves the folder alone. */
  lemma RenameSkipsExistingTarget(names: seq<string>, xml: string, key: string)
    requires KeyFromFileName(xml) == Some(key) && SplitName(key) in names
    ensures RenameStep(names, xml) == names
  {
  }

  /** The pass never makes two files share a name. */
  lemma {:induction false} RenameAllKeepsDistinct(names: seq<string>, xmls: seq<string>)
    requires Distinct(names)
    ensures Distinct(RenameAll(names, xmls))
    decreases |xmls|
  {
    if xmls != [] {
      var prev := RenameAll(names, xmls[..|xmls| - 1]);
      RenameAllKeepsDistinct(names, xmls[..|xmls| - 1]);
      RenameStepCases(prev, xmls[|xmls| - 1]);
    }
  }

  /** A folder of PDFs whose listing the renaming pass changes in place. */
  class PdfFolder {
    var names: seq<string>

    predicate Valid()
      reads this
    {
      Distinct(names)
    }

    constructor(listing: seq<string>)
      requires Distinct(listing)
      ensures Valid() && names == listing
    {
      names := listing;
    }

    /** `safe_rename`: the file at `src` takes the first free name for `dst`. */
    method SafeRename(src: nat, dst: string) returns (chosen: string)
      requires Valid() && src < |names|
      modifies this
      ensures Valid()
      ensures chosen !in old(names)
      ensures exists n: nat :: chosen == Probe(dst, n) && forall m: nat :: m < n ==> Probe(dst, m) in (set n | n in old(names))
      ensures names == old(names)[src := chosen]
    {
      var existing := set n | n in names;
      chosen := FreeName(existing, dst);
      names := names[src := chosen];
    }

    /**
     * `renomear_pdfs_para_xmls` over the XML listing (`None`: no XML folder,
     * nothing happens).
     */
    method RenameToXmls(xmls: Option<seq<string>>)
      requires Valid()
      modifies this
      ensures Valid()
      ensures names == if xmls.None? then old(names) else RenameAll(old(names), xmls.value)
    {
      if xmls.None? {
        return;
      }
      var k := 0;
      while k < |xmls.value|
        invariant 0 <= k <= |xmls.value|
        invariant Valid()
        invariant names == RenameAll(old(names), xmls.value[..k])
      {
        var xml := xmls.value[k];
        assert xmls.value[..k + 1][..k] == xmls.value[..k];
        if EndsWith(Lower(xml), ".xml") {
          var key := KeyFromFileName(xml);
          if key.Some? && IsCteKey(key.value) && SplitName(key.value) !in names {
            var pdf := FirstMatch(names, ".pdf", key.value[25..34], 0);
            if pdf.Some? {
              ghost var existing := set n | n in names;
              var chosen := SafeRename(pdf.value, SplitName(key.value));
              FirstProbeWhenFree(existing, SplitName(key.value), chosen);
            }
          }
        }
        k := k + 1;
      }
      assert xmls.value[..k] == xmls.value;
    }
  }
}
