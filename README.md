# rateiocte in Dafny

A verified model of the reconciliation core of *rateiocte*, a tool that
splits the freight of a CT-e (Conhecimento de Transporte eletrônico) over
the lines of a spreadsheet and stamps each CT-e PDF with the split. One
label line is printed per kept row: "V: R$ 1.234,56" for a sale, "B: …"
for a bonus shipment and "A: …" for a sample.

The model covers these parts:

- **Currency** (`currency.dfy`). The Brazilian money parser
  `converter_moeda_para_decimal` and the printer `formato_brl`, in both
  copies (src/generalsutils.py and src/rateio.py).
  - A Python `Decimal` is `Decimal(mant, scale)`, worth `mant / 10^scale`.
    An amount quantised to 0.01 is an integer number of cents.
  - The parse/print round trip is proved.
- **Fiscal keys** (`fiscalkey.dfy`). The 44-digit access key:
  - its validity test `chave_cte` (model code `57` at offsets 20-21);
  - the key found in an XML file name;
  - the nine-digit CT-e number at offsets 25-33;
  - the key searched in a page's text, then among its barcodes.
- **Operations** (`operation.dfy`). The V/B/A prefix of an operation and
  the COMPLEMENTO test.
- **Rounding adjustment** (`rounding.dfy`). `ajustar_por_arredondamento`:
  an in-place update of an array of lines.
- **Files** (`files.dfy`).
  - The first-match lookups `localizar_xml_por_chave` and `localizar_pdf`,
    over a given listing.
  - The `os.walk` lookup of the page splitter.
  - `safe_rename` and `renomear_pdfs_para_xmls`, as a class whose field is
    the PDF folder's listing.
- **XML index** (`xmlindex.dfy`). The number → key index built at the
  start of `processar`.
- **Splitter** (`splitter.dfy`).
  - The barcode digit-cleaning rule and the page range check.
  - Both page-splitting loops, as a class whose field is the output
    folder (file name ↦ page written):
    - the src/pdf_utils.py one, which filters by key, skips existing files
      and stops on a cancel event;
    - the older src/rateio.py one, which overwrites.
- **Overlay** (`overlay.dfy`). The line layout of `criar_overlay`.
- **Duration** (`duration.dfy`). `converter_tempo`.
- **Pipeline** (`pipeline.dfy`). The group loop of `processar`
  (src/.gui.py):
  - key lookup;
  - PDF lookup;
  - the COMPLEMENTO check;
  - the row filter;
  - the one-cent reconciliation;
  - the label;
  - the counters and error lists.

Each loop of the source that updates state or writes files is a method
proved against a function that specifies it. The first-match searches
are recursive functions. The properties the tool relies on are lemmas
about those functions.

What the model takes as inputs instead of computing them:

- directory listings;
- spreadsheet groups;
- a PDF's first-page text;
- decoded barcode payloads;
- the `vTPrest` value read from each XML.

Three behaviours of the code are worth knowing:

- With several XML files for the same CT-e number, the index keeps the
  *last* one in listing order (src/.gui.py:181).
- 150.00 + 0.01 against a total of 150.02 is within one cent, so the
  0.01 line becomes 0.02.
- 150.00 alone against 150.02 is a divergence of two cents, and the group
  is skipped.

## Model

| member | source | states |
|---|---|---|
| Currency.PlaceholdersAreNone | src/generalsutils.py:23-26 | a text that strips to "", "nan", "-" or "—" converts to `None` |
| Currency.IntegerCellsExact | src/generalsutils.py:17-21 | `Decimal(str(i))` of an integer cell is exactly that integer, with no decimals |
| Currency.SeparatorsOfPrintedAmount | src/generalsutils.py:31-34 | for the printed shape (an optional sign, digits and points, one `,`, digits): with `,` and `.` present every `.` is dropped and the `,` becomes the decimal point; with `,` alone it becomes the point |
| Currency.PointOnlyIsDecimalPoint | src/generalsutils.py:28-37 | digits, one `.`, digits (no `,`) parse with the `.` as decimal point: value `wf / 10^|f|` |
| Currency.PointOnlyExample | src/generalsutils.py:31-37 | "1.234" parses as 1.234, not 1234 |
| Currency.TwoPointsUnreadable | src/generalsutils.py:36-39 | a literal with two `.` is not a decimal: `None`, no exception |
| Currency.RepeatedCommaUnreadable | src/generalsutils.py:31-39 | a text such as "1,2,3" (only `,`, at least twice) converts to `None` |
| Currency.NoDigitsUnreadable | src/generalsutils.py:36-39 | a literal without any digit (e.g. "abc" cleaned to "") converts to `None` |
| Currency.InnerMinusUnreadable | src/generalsutils.py:36-39 | a `-` anywhere but in front (e.g. "1-2") gives `None` |
| Currency.RoundHalfUpNearest | src/generalsutils.py:49-52 | `quantize(0.01, ROUND_HALF_UP)` returns the nearest cents; a tie goes away from zero; the sign is kept |
| Currency.RoundingExactAtTwoDecimals | src/generalsutils.py:49-52 | on an amount with at most two decimals, quantising is exact, and half-up agrees with half-even |
| Currency.PrintedShape | src/generalsutils.py:54-55 | the printed text is the sign, then the integer part with `.` every three digits, then `,`, then exactly two decimals |
| Currency.GroupedNumeral | src/generalsutils.py:54-55 | the grouped integer part starts with a digit, holds only digits and `.`, and its digits denote the integer part |
| Currency.FormatExamples | src/generalsutils.py:46-55 | `None` prints "0,00"; 1234.56 prints "1.234,56" |
| Currency.FormatNegativeExample | src/generalsutils.py:49-55 | -0.125 prints "-0,13" (ties away from zero) |
| Currency.ParsePrinted | src/generalsutils.py:23-39 | parsing sign + grouped digits + "," + two digits gives those digits (dots removed) as cents, signed |
| Currency.ParseGroupedAmount | src/generalsutils.py:9-55 | parsing the printed form of `units` and `cents` gives `units*100 + cents` cents, signed |
| Currency.ParseFormatRoundTrip | src/generalsutils.py:9-55 | parsing what `formato_brl` prints gives the input rounded half-up to cents, for every input |
| Currency.ParseFormatIdentity | src/generalsutils.py:9-55 | for every amount with at most two decimals, `converter_moeda_para_decimal(formato_brl(x)) == x` |
| Currency.FormattersAgreeAtTwoDecimals | src/rateio.py:87-91 | the src/rateio.py formatter prints every amount with at most two decimals exactly as the src/generalsutils.py one |
| Currency.FormattersDifferOnTies | src/rateio.py:87-91 | on a tie such as 0.125 the two formatters differ: "0,13" against "0,12" |
| Currency.ParseMoney | src/generalsutils.py:9-39 | defines the converter: `None` for a missing cell or a placeholder, `Decimal(str(i))` for an integer, otherwise the cleaned and separator-normalised literal, `None` when it is not a decimal |
| Currency.RoundHalfUp | src/generalsutils.py:49-52 | defines `quantize(Decimal("0.01"), ROUND_HALF_UP)` in cents; `RoundHalfUpNearest` states what it computes |
| Currency.FormatBrl | src/generalsutils.py:42-55 | defines `formato_brl`: "0,00" for `None`, otherwise the half-up cents printed with `.` grouping and `,` decimals |
| Currency.FormatBrlHalfEven | src/rateio.py:87-91 | defines the src/rateio.py `formato_brl`, which rounds half-even |
| Currency.FormatBrlHalfEvenText | src/rateio.py:87-91 | a printed amount holds only digits, `.`, `,` and `-` |
| Operation.OperationPrefix | src/generalsutils.py:62-78 | the prefix's keyword occurs in the upper-cased text and no keyword of higher priority does; `None` exactly when the text is absent or holds no keyword |
| Operation.PrefixIgnoresCase | src/generalsutils.py:69-76 | lower-casing the operation text does not change its prefix |
| Operation.SaleTakesPriority | src/generalsutils.py:71-74 | a text holding both VENDA and BONIF is a sale, "V" |
| Operation.IsComplement | src/generalsutils.py:85-92 | only a present text at least as long as "COMPLEMENTO" can be a complement; what the test means is stated by `ComplementIgnoresCase` and `ComplementVersionsAgree` |
| Operation.ComplementIgnoresCase | src/generalsutils.py:92 | the COMPLEMENTO test does not depend on letter case |
| Operation.IsComplementNoneOnly | src/rateio.py:332-341 | defines the src/rateio.py `verificar_complemento`, which tests only for `None` |
| Operation.ComplementVersionsAgree | src/rateio.py:332-341 | the src/rateio.py test, which only rejects `None`, agrees with the src/generalsutils.py one on every input |
| Rounding.FirstMinIndex | src/generalsutils.py:106 | `min(linhas, key=valor)` picks a line of minimum value, the first one on a tie |
| Rounding.AdjustByRounding | src/generalsutils.py:99-118 | updates the lines in place and returns the flag, exactly as the specification function `Adjusted` |
| Rounding.AdjustedSum | src/generalsutils.py:103-109 | the flag is true iff there are lines and the difference is non-zero; the sum then grows by exactly the difference, and otherwise nothing changes |
| Rounding.AdjustedChangesOneValue | src/generalsutils.py:106-109 | only the first minimum line changes, by the difference, and it keeps its prefix |
| FiscalKey.IsCteKey | src/xml_utils.py:11-20 | defines `chave_cte`: 44 digits with model code "57" at offsets 20-21 |
| FiscalKey.FirstDigitRun | src/xml_utils.py:31 | the run found is the leftmost position where 44 digits start; `None` when there is none |
| FiscalKey.KeyFromFileName | src/xml_utils.py:27-32 | a key read from a file name is 44 digits |
| FiscalKey.KeyAfterDigitFreePrefix | src/xml_utils.py:27-32 | names such as "CTe<key>.xml" and "<key>-procCTe.xml" yield their key |
| FiscalKey.FileNameKeyNotValidated | src/xml_utils.py:27-32 | the name's key is not checked for the model code: 44 zeros are returned though not a valid key |
| FiscalKey.NumberOfKey | src/xml_utils.py:35-39 | `None` exactly for an absent or empty key; at most nine characters |
| FiscalKey.NumberOfValidKey | src/xml_utils.py:11-39 | for a valid key the CT-e number is `key[25:34]`: nine digits, leading zeros kept |
| FiscalKey.StripLeadingZerosIsNumeral | src/.gui.py:181 | `lstrip("0")` of a digit string is the canonical numeral of its value, or "" when the value is 0 |
| FiscalKey.KeyTokens | src/rateio.py:173 | every token found is 44 digits |
| FiscalKey.MatchIsToken | src/rateio.py:173 | every word-bounded run of 44 digits is among the tokens |
| FiscalKey.TokenIsMatch | src/rateio.py:173 | every token is a word-bounded run of 44 digits of the text |
| FiscalKey.FirstValidKey | src/rateio.py:173-175 | the first token passing `chave_cte`, `None` iff none passes |
| FiscalKey.TextKey | src/rateio.py:172-175 | a key found in text passes `chave_cte` |
| FiscalKey.TextKeyFound | src/rateio.py:172-175 | a text holding a word-bounded valid key yields a key |
| FiscalKey.FirstKeyPayload | src/rateio.py:157-166 | the first decodable payload passing `chave_cte` |
| FiscalKey.ImageKey | src/rateio.py:156-168 | a key read from barcodes passes `chave_cte` |
| FiscalKey.ExtractKey | src/rateio.py:171-180 | any key returned passes `chave_cte` |
| FiscalKey.TextKeyTakesPrecedence | src/rateio.py:171-180 | when the text holds a valid key, the barcodes are not consulted |
| Files.FirstMatch | src/xml_utils.py:53-55 | the first position whose name ends in the extension (any case) and contains the criterion |
| Files.LocateXml | src/xml_utils.py:46-57 | defines `localizar_xml_por_chave` as `Locate` with extension ".xml" |
| Files.LocatePdf | src/rateio.py:226-234 | defines the src/rateio.py `localizar_pdf` as `Locate` with extension ".pdf" |
| Files.Locate | src/xml_utils.py:46-57 | the name returned is in the listing and matches; `None` iff the criterion is empty, the folder is missing or nothing matches |
| Files.LocateIsFirst | src/rateio.py:226-234 | the name returned is the first match in listing order |
| Files.LocateSplitPdf | src/pdf_utils.py:129-134 | the name found is exactly "<key>-procCTe.pdf", in the first directory of the walk holding it; `None` iff no directory does |
| Files.SplitExt | src/rateio.py:247 | `os.path.splitext`: base and extension put back together give the name |
| Files.ProbesDistinct | src/rateio.py:251-253 | the names `dst`, `base(1)ext`, `base(2)ext`, … are pairwise distinct |
| Files.FreeName | src/rateio.py:246-253 | the name chosen does not exist, and every earlier candidate does |
| Files.FirstProbeWhenFree | src/rateio.py:249-251 | a free `dst` is used unchanged |
| Files.RenameStep | src/rateio.py:262-278 | defines what one XML does to the PDF listing; `RenameStepCases` states its cases |
| Files.RenameAll | src/rateio.py:258-279 | defines the renaming pass, one XML after another in listing order |
| Files.RenameStepCases | src/rateio.py:262-278 | a name not ending in ".xml" changes nothing; otherwise one XML either changes nothing or renames the first PDF containing its key's number to "<key>-procCTe.pdf", the key being valid and its target absent |
| Files.RenameStepRenames | src/rateio.py:262-278 | conversely, a ".xml" name with a valid key whose target is absent renames the first ".pdf" containing the key's number to "<key>-procCTe.pdf" |
| Files.RenameStepNoPdf | src/rateio.py:274-277 | a valid key that no ".pdf" name contains leaves the listing unchanged |
| Files.RenameSkipsExistingTarget | src/rateio.py:270-272 | a key whose "<key>-procCTe.pdf" already exists is skipped |
| Files.RenameAllKeepsDistinct | src/rateio.py:258-279 | the renaming pass never makes two entries of the folder share a name |
| Files.PdfFolder.SafeRename | src/rateio.py:246-255 | renames one entry in place to a name that did not exist, the first free candidate; the listing stays duplicate-free |
| Files.PdfFolder.RenameToXmls | src/rateio.py:258-279 | the folder after the pass is `RenameAll` of the folder before; nothing happens without an XML folder |
| XmlIndex.IndexOfListing | src/.gui.py:170-181 | defines the index after the listing, name by name in order |
| XmlIndex.BuildIndex | src/.gui.py:170-181 | the loop over the XML listing builds exactly `IndexOfListing` of it |
| XmlIndex.IndexEntriesValid | src/.gui.py:171-181 | every entry is a valid key, filed under its own stripped number, and comes from a ".xml" name of the listing |
| XmlIndex.IndexComplete | src/.gui.py:171-181 | every ".xml" name with a valid key is indexed under its stripped number |
| XmlIndex.IndexLastWins | src/.gui.py:181 | with several names for one number, the entry holds the last one |
| XmlIndex.IndexKeyShape | src/.gui.py:179-181 | an index entry's name is digits without a leading zero |
| XmlIndex.LookupMatchesNumber | src/.gui.py:222-224 | `str(int(n))` finds a key iff `n` is positive and equals the key's nine-digit number |
| Splitter.PageIndex | src/pdf_utils.py:44-47 | a page index exists iff the 1-based number is within the page count |
| Splitter.DigitsOnly | src/pdf_utils.py:76 | `re.sub(r"\D", "", s)` leaves only digits |
| Splitter.ScanKey | src/pdf_utils.py:67-82 | defines `extrair_chave_barcode`: `None` without an image, otherwise the key of its payloads |
| Splitter.CodesKey | src/pdf_utils.py:74-79 | the payload returned is 44 digits |
| Splitter.BarcodeKey | src/pdf_utils.py:67-82 | the loop returns the first payload that cleans to 44 digits; `None` for no image or a payload that cannot be decoded |
| Splitter.BarcodeKeyNotValidated | src/pdf_utils.py:76-79 | the cleaned payload is not checked for the model code: 44 zeros are accepted |
| Splitter.UndecodablePayloadAborts | src/pdf_utils.py:71-81 | a payload that cannot be decoded ends the search with `None`, even if a later one is a key |
| Splitter.PagesRead | src/pdf_utils.py:101-104 | no more pages are read than the PDF has, and none from the cancel point on |
| Splitter.SplitSpec | src/pdf_utils.py:84-127 | defines the folder after `split_pdf_por_cte`: nothing for an unreadable PDF, otherwise the pages read up to the cancel point |
| Splitter.SplitFolder.SplitByKey | src/pdf_utils.py:84-127 | the folder after the loop is the specification `SplitSpec` of the folder before: nothing for a PDF that cannot be opened, pages read up to the cancel point |
| Splitter.SplitOnlyAdds | src/pdf_utils.py:118-127 | existing files are never touched; every new file is "<key>-procCTe.pdf" for a wanted key |
| Splitter.PageKeyWritten | src/pdf_utils.py:118-127 | every page read whose key is wanted has its file afterwards |
| Splitter.NotWrittenBefore | src/pdf_utils.py:118 | no file appears for a key that no page read carries |
| Splitter.SplitNameInjective | src/pdf_utils.py:119 | different keys give different file names |
| Splitter.FirstPageWins | src/pdf_utils.py:119-121 | a key's file holds the first page carrying it |
| Splitter.RereadChangesNothing | src/pdf_utils.py:119-121 | when every wanted key's file exists, the loop writes nothing |
| Splitter.SplitIdempotent | src/pdf_utils.py:84-127 | running the split again over the same inputs changes nothing |
| Splitter.CancelIgnoresLaterPages | src/pdf_utils.py:101-104 | cancelling before page `c` gives the same folder as splitting only the first `c` pages |
| Splitter.OverwriteSpec | src/rateio.py:187-219 | defines the folder after the older `split_pdf_por_cte`, which overwrites |
| Splitter.SplitFolder.SplitAll | src/rateio.py:187-219 | the folder after the older loop is `OverwriteSpec` of the folder before; nothing for an unreadable PDF |
| Splitter.LastPageWins | src/rateio.py:198-219 | a key's file holds the last page carrying it |
| Splitter.OverwriteNamesValid | src/rateio.py:204-217 | every file the older loop adds is named after a valid key |
| Overlay.SplitLines | src/rateio.py:290 | `split("\n")` gives at least one piece and no piece holds a line break |
| Overlay.SplitJoin | src/rateio.py:290 | splitting lines joined with "\n" gives the lines back |
| Overlay.DrawLines | src/rateio.py:286-294 | line `k` of the text is drawn at `(x, y - 12k)` |
| Overlay.DrawLabel | src/.gui.py:331 | each label line `k` is drawn at `(410, 120 - 12k)` |
| Duration.MinutesAndRest | src/rateio.py:320-322 | the rest is in [0, 60) and minutes·60 + rest is the whole seconds of the duration |
| Duration.WholeSeconds | src/rateio.py:320-322 | on whole seconds, minutes and rest are integer quotient and remainder by 60 |
| Duration.DurationExamples | src/rateio.py:320-326 | 125 s prints "2 min 5 s" and 59.9 s prints "59 s" |
| Text.IntToString | src/.gui.py:222 | `str(int(n))`: non-empty, the canonical numeral of a non-negative `n`, a leading `-` otherwise |
| Text.NatDigits | src/.gui.py:222 | the numeral is digits denoting `n`, with no leading zero unless `n` is 0 |
| Pipeline.RowLine | src/.gui.py:269-284 | a row gives at most one line, never negative |
| Pipeline.RowKept | src/.gui.py:270-282 | a row gives a line iff its amount parses to a positive value and its operation has a prefix; the line is that prefix and the amount rounded half-up |
| Pipeline.LinesOf | src/.gui.py:269-284 | no more lines than rows, none negative |
| Pipeline.LinesOfConcat | src/.gui.py:269-284 | lines keep row order |
| Pipeline.CollectLines | src/.gui.py:261-284 | the row loop collects exactly `LinesOf(rows)` |
| Pipeline.Reconcile | src/.gui.py:286-313 | defines the one-cent check; `ReconcileSumsToTotal` and `ReconcileKeepsLines` state what it guarantees |
| Pipeline.ReconcileSumsToTotal | src/.gui.py:286-313 | after the check the lines add up exactly to the total; the group is skipped iff the difference exceeds one cent, and the difference is total minus sum |
| Pipeline.ReconcileKeepsLines | src/.gui.py:294-299 | the check never adds, drops or reorders lines or prefixes, and changes at most one value |
| Pipeline.ReconcileLines | src/.gui.py:286-313 | the check with the in-place adjustment computes exactly `Reconcile` |
| Pipeline.OneCentAdjusted | src/.gui.py:294-307 | 150.00 and 0.01 against 150.02: the 0.01 line becomes 0.02 |
| Pipeline.TwoCentsDiverge | src/.gui.py:308-313 | 150.00 alone against 150.02 is a divergence of two cents |
| Pipeline.LabelLine | src/.gui.py:315-320 | defines one label line, "<prefix>: R$ <amount>" |
| Pipeline.LabelText | src/.gui.py:315-320 | one label line per kept line, in order, each "<prefix>: R$ <amount>" |
| Pipeline.LabelLineSingle | src/.gui.py:315-320 | a label line never holds a line break |
| Pipeline.OutputName | src/.gui.py:326-329 | defines `basename(pdf).replace(".pdf", "_rateado.pdf")` |
| Pipeline.OutputNameOfPlainPdf | src/.gui.py:326-329 | "<base>.pdf" with no other `.` becomes "<base>_rateado.pdf" |
| Pipeline.TotalOf | src/.gui.py:265-267 | defines the group total: the XML's `vTPrest` in cents, `None` when it cannot be read |
| Pipeline.GroupSpec | src/.gui.py:217-352 | defines one pass of the group loop, case by case |
| Pipeline.ProcessGroup | src/.gui.py:217-352 | one group's outcome is exactly `GroupSpec`: key missing, PDF missing, divergence, no lines, fault or a written label |
| Pipeline.NonPositiveNumberIsKeyMissing | src/.gui.py:222-233 | a CT-e number of zero or below is always a key error |
| Pipeline.IndexedKeyFindsXml | src/.gui.py:265-267 | a key taken from the index always finds its XML in the same listing |
| Pipeline.FaultCauses | src/.gui.py:248-290 | a group faults only when its PDF's first page cannot be read, or when its XML is found with a non-zero total and no line is kept (`sum([])`) |
| Pipeline.WrittenLabel | src/.gui.py:286-331 | a written label has at least one line, one text per line, each drawable alone, the output name derived from the PDF; with a non-zero total its lines add up to it |
| Pipeline.Record | src/.gui.py:226-352 | a group raises the success, key-error and PDF-error counters by at most one in total, each together with its list |
| Pipeline.RunUpTo | src/.gui.py:151-352 | success, key-error and PDF-error counters equal their lists' lengths and together never exceed the groups processed |
| Pipeline.CrashIsFinal | src/.gui.py:217-352 | once a group faults, no later group changes the report |
| Pipeline.RunSpec | src/.gui.py:149-352 | defines the whole run: a crash before any group when the XML listing fails, otherwise the groups in order |
| Pipeline.MissingXmlFolderCrashes | src/.gui.py:170-171 | a configured XML folder that cannot be listed ends the run with an exception before any group |
| Pipeline.NoXmlFolderIsKeyMissing | src/.gui.py:168-233 | without an XML folder the index is empty, so every group is a key error |
| Pipeline.Process | src/.gui.py:149-352 | the run builds the index (none without an XML folder, a crash when the configured one cannot be listed) and processes the groups in order, giving exactly `RunSpec` |

## Left out

- Directory listings, file existence, page texts, decoded barcodes and XML totals are inputs. No file system, PDF, image, barcode or XML library is modelled.
- Files are identified by name; `os.path.join` paths are not modelled.
- `sobrepor_pdf`, `converter_pdf_em_imagens`, page rendering and the unified output PDF (src/.gui.py:333-347) are not modelled: they only copy pages.
- Logging, status callbacks, the progress bar, message boxes and the summary printed at src/.gui.py:356-370 are not modelled.
- The field checks (src/.gui.py:160-164) and the PDF preparation before the group loop (src/.gui.py:188-210) are not chained into `Pipeline.Process`. The renaming and splitting are modelled on their own (`Files.PdfFolder.RenameToXmls`, `Splitter.SplitFolder.SplitAll`). `Process` receives the listing of the folder the PDFs are then looked up in.
- `pd.read_excel` and `groupby` are not modelled: groups come in as a number and its rows, and a cell is missing, an integer, a decimal or a text.
- The float branch of the parser (`Decimal(str(float))`, including pandas' NaN) is not modelled, and neither are the `Decimal` context's precision, exponent notation, signed zero and special values. After cleaning, only digits, `.`, `,` and `-` remain.
- Unicode `isdigit`, `\d`, `\w`, `strip` and `upper` are modelled on ASCII digits, letters and white space.
- `extrair_valor_total_cte` (src/xml_utils.py:64-88, src/rateio.py:345-361) is not modelled: XML parsing is out of scope. Its result comes in as a map from XML name to decimal, and the model rounds it half-up to cents as the code does.
- The difference at src/.gui.py:292 is quantised with the default rounding. Both of its terms are already whole cents, so the model takes the difference exactly.
- Durations are exact reals; the float `time.time()` and `calculo_tempo` are not modelled.
- Duration.FormatDuration: carries no contract of its own; its output is pinned by `Duration.DurationExamples`, and its arithmetic by `Duration.MinutesAndRest`.
- Files.RenameStep, Files.RenameAll, Files.PdfFolder.RenameToXmls: a renamed PDF keeps its old position in the listing. The source lists the folder again for every XML, and after `os.rename` the order is whatever the operating system returns. The model does not capture that order, so which PDF a later XML matches first may differ.
- Rounding.Adjusted, Rounding.AdjustByRounding: line values and the difference are whole cents. `ajustar_por_arredondamento` (src/generalsutils.py:99-109) accepts any `Decimal`, and a value or difference with more than two decimals is not modelled. No file of the repository calls it; the same step inline in `processar` (src/.gui.py:286-307) works on amounts quantised to 0.01.
- Barcode payloads come in already decoded; a payload whose bytes are not valid UTF-8 comes in as `None`.
- The cancel event is modelled as the first page whose check finds it set (`cancelAt`); threads are not modelled.
- src/gui.py, main.py and src/config.py (windows, threads, JSON settings) are not part of this model.
