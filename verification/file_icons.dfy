/** `getFileIcon`: the Font Awesome class shown next to an attachment,
    chosen from its MIME type by the first rule that matches. */
module FileIcons {
  import opened JsText

  /** How a rule inspects the MIME type: a prefix test (`startsWith`) or
      a substring test on either of two words (`includes`). */
  datatype Matcher = Prefix(p: string) | Contains(a: string, b: string)

  datatype Rule = Rule(matcher: Matcher, icon: string)

  const ImageIcon: string := "fas fa-image"
  const VideoIcon: string := "fas fa-video"
  const AudioIcon: string := "fas fa-music"
  const PdfIcon: string := "fas fa-file-pdf"
  const WordIcon: string := "fas fa-file-word"
  const ExcelIcon: string := "fas fa-file-excel"
  const ArchiveIcon: string := "fas fa-file-archive"
  const DefaultIcon: string := "fas fa-file"

  /** The rule table, in the order the handler tests it (a single-word
      test repeats its word). */
  const Rules: seq<Rule> := [
    Rule(Prefix("image/"), ImageIcon),
    Rule(Prefix("video/"), VideoIcon),
    Rule(Prefix("audio/"), AudioIcon),
    Rule(Contains("pdf", "pdf"), PdfIcon),
    Rule(Contains("word", "document"), WordIcon),
    Rule(Contains("excel", "sheet"), ExcelIcon),
    Rule(Contains("zip", "compressed"), ArchiveIcon)
  ]

  predicate Matches(m: Matcher, mime: string) {
    match m
    case Prefix(p) => StartsWith(mime, p)
    case Contains(a, b) => Includes(mime, a) || Includes(mime, b)
  }

  /** Reference semantics of a rule table, scanned from position `k`: the
      icon of the first rule that matches, or the default when none does. */
  function FirstMatchFrom(rules: seq<Rule>, k: nat, mime: string): (icon: string)
    requires k <= |rules|
    ensures forall i :: k <= i < |rules| && Matches(rules[i].matcher, mime)
              && (forall j :: k <= j < i ==> !Matches(rules[j].matcher, mime))
              ==> icon == rules[i].icon
    ensures (forall i :: k <= i < |rules| ==> !Matches(rules[i].matcher, mime))
              ==> icon == DefaultIcon
    decreases |rules| - k
  {
    if k == |rules| then DefaultIcon
    else if Matches(rules[k].matcher, mime) then rules[k].icon
    else FirstMatchFrom(rules, k + 1, mime)
  }

  function FirstMatch(rules: seq<Rule>, mime: string): string {
    FirstMatchFrom(rules, 0, mime)
  }

  /** `getFileIcon`, written as the handler's chain of tests. */
  function FileIcon(mime: string): string {
    if StartsWith(mime, "image/") then ImageIcon
    else if StartsWith(mime, "video/") then VideoIcon
    else if StartsWith(mime, "audio/") then AudioIcon
    else if Includes(mime, "pdf") then PdfIcon
    else if Includes(mime, "word") || Includes(mime, "document") then WordIcon
    else if Includes(mime, "excel") || Includes(mime, "sheet") then ExcelIcon
    else if Includes(mime, "zip") || Includes(mime, "compressed") then ArchiveIcon
    else DefaultIcon
  }

  /** The chain of tests is exactly first-match over the rule table. */
  lemma FileIconIsFirstMatch(mime: string)
    ensures FileIcon(mime) == FirstMatch(Rules, mime)
  {
    RuleTests(mime);
    FirstMatchStep(Rules, 0, mime);
    FirstMatchStep(Rules, 1, mime);
    FirstMatchStep(Rules, 2, mime);
    FirstMatchStep(Rules, 3, mime);
    FirstMatchStep(Rules, 4, mime);
    FirstMatchStep(Rules, 5, mime);
    FirstMatchStep(Rules, 6, mime);
    assert FirstMatchFrom(Rules, 7, mime) == DefaultIcon;
  }

  /** Each entry of the table performs the handler's test and yields its icon. */
  lemma RuleTests(mime: string)
    ensures |Rules| == 7
    ensures Matches(Rules[0].matcher, mime) == StartsWith(mime, "image/") && Rules[0].icon == ImageIcon
    ensures Matches(Rules[1].matcher, mime) == StartsWith(mime, "video/") && Rules[1].icon == VideoIcon
    ensures Matches(Rules[2].matcher, mime) == StartsWith(mime, "audio/") && Rules[2].icon == AudioIcon
    ensures Matches(Rules[3].matcher, mime) == Includes(mime, "pdf") && Rules[3].icon == PdfIcon
    ensures Matches(Rules[4].matcher, mime) == (Includes(mime, "word") || Includes(mime, "document"))
            && Rules[4].icon == WordIcon
    ensures Matches(Rules[5].matcher, mime) == (Includes(mime, "excel") || Includes(mime, "sheet"))
            && Rules[5].icon == ExcelIcon
    ensures Matches(Rules[6].matcher, mime) == (Includes(mime, "zip") || Includes(mime, "compressed"))
            && Rules[6].icon == ArchiveIcon
  {
    var R := Rules;
    assert R[0] == Rule(Prefix("image/"), ImageIcon) && R[1] == Rule(Prefix("video/"), VideoIcon);
    assert R[2] == Rule(Prefix("audio/"), AudioIcon) && R[3] == Rule(Contains("pdf", "pdf"), PdfIcon);
    assert R[4] == Rule(Contains("word", "document"), WordIcon);
    assert R[5] == Rule(Contains("excel", "sheet"), ExcelIcon);
    assert R[6] == Rule(Contains("zip", "compressed"), ArchiveIcon);
  }

  /** One step of the scan: rule `k` decides if it matches, otherwise the
      scan goes on. */
  lemma FirstMatchStep(rules: seq<Rule>, k: nat, mime: string)
    requires k < |rules|
    ensures FirstMatchFrom(rules, k, mime)
            == if Matches(rules[k].matcher, mime) then rules[k].icon else FirstMatchFrom(rules, k + 1, mime)
  {
  }

  /** Because the Word rule is tested first, any type that mentions
      `document` and is not an image, video, audio or PDF gets the Word
      icon, even when it also names a spreadsheet. */
  lemma DocumentShadowsSheet(mime: string)
    requires !StartsWith(mime, "image/") && !StartsWith(mime, "video/") && !StartsWith(mime, "audio/")
    requires !Includes(mime, "pdf") && Includes(mime, "document")
    ensures FileIcon(mime) == WordIcon
  {
  }

  /** The MIME type browsers report for a `.xlsx` workbook, split at seams
      whose last character is not in `pdf`. */
  const XlsxMime: string :=
    "application/vnd." + "openxmlformats-" + "office" + "document" + ".spreadsheetml." + "sheet"

  predicate NoPdfAt(s: string) {
    forall i :: 0 <= i && i + 3 <= |s| ==> s[i] != 'p' || s[i + 1] != 'd' || s[i + 2] != 'f'
  }

  lemma NoPdfInShort(s: string)
    requires NoPdfAt(s)
    ensures !Includes(s, "pdf")
  {
    forall i | 0 <= i && i + 3 <= |s| ensures !OccursAt(s, "pdf", i) {
      assert s[i..i + 3][0] == s[i] && s[i..i + 3][1] == s[i + 1] && s[i..i + 3][2] == s[i + 2];
    }
  }

  /** `x + y` has no `pdf` when neither piece has one and `x` ends in a
      character outside `pdf`. */
  lemma NoPdfJoin(x: string, y: string)
    requires |x| > 0 && x[|x| - 1] != 'p' && x[|x| - 1] != 'd' && x[|x| - 1] != 'f'
    requires !Includes(x, "pdf") && !Includes(y, "pdf")
    ensures !Includes(x + y, "pdf")
  {
    IncludesConcat(x, y, "pdf");
  }

  lemma XlsxNotMedia()
    ensures !StartsWith(XlsxMime, "image/") && !StartsWith(XlsxMime, "video/") && !StartsWith(XlsxMime, "audio/")
  {
    var a := "application/vnd.";
    var rest := "openxmlformats-" + "office" + "document" + ".spreadsheetml." + "sheet";
    assert XlsxMime == a + rest;
    assert XlsxMime[..6] == a[..6] == "applic";
  }

  lemma XlsxHeadPieces()
    ensures NoPdfAt("application/vnd.") && NoPdfAt("openxmlformats-") && NoPdfAt("office")
  {
    var a, b, c := "application/vnd.", "openxmlformats-", "office";
    assert NoPdfAt(a);
    assert NoPdfAt(b);
    assert NoPdfAt(c);
  }

  lemma XlsxTailPieces()
    ensures NoPdfAt("document") && NoPdfAt(".spreadsheetml.") && NoPdfAt("sheet")
  {
    var d, e, f := "document", ".spreadsheetml.", "sheet";
    assert NoPdfAt(d);
    assert NoPdfAt(e);
    assert NoPdfAt(f);
  }

  lemma XlsxNoPdf()
    ensures !Includes(XlsxMime, "pdf")
  {
    var a, b, c, d, e, f := "application/vnd.", "openxmlformats-", "office", "document", ".spreadsheetml.", "sheet";
    XlsxHeadPieces();
    XlsxTailPieces();
    NoPdfInShort(a); NoPdfInShort(b); NoPdfInShort(c);
    NoPdfInShort(d); NoPdfInShort(e); NoPdfInShort(f);
    assert a[|a| - 1] == '.' && b[|b| - 1] == '-' && c[|c| - 1] == 'e';
    assert d[|d| - 1] == 't' && e[|e| - 1] == '.';
    XlsxNoPdfJoined(a, b, c, d, e, f);
  }

  lemma XlsxNoPdfJoined(a: string, b: string, c: string, d: string, e: string, f: string)
    requires |a| > 0 && a[|a| - 1] == '.' && |b| > 0 && b[|b| - 1] == '-'
    requires |c| > 0 && c[|c| - 1] == 'e' && |d| > 0 && d[|d| - 1] == 't'
    requires |e| > 0 && e[|e| - 1] == '.'
    requires !Includes(a, "pdf") && !Includes(b, "pdf") && !Includes(c, "pdf")
    requires !Includes(d, "pdf") && !Includes(e, "pdf") && !Includes(f, "pdf")
    ensures !Includes(a + b + c + d + e + f, "pdf")
  {
    NoPdfJoin(a, b);
    assert (a + b)[|a + b| - 1] == b[|b| - 1];
    NoPdfJoin(a + b, c);
    assert (a + b + c)[|a + b + c| - 1] == c[|c| - 1];
    NoPdfJoin(a + b + c, d);
    assert (a + b + c + d)[|a + b + c + d| - 1] == d[|d| - 1];
    NoPdfJoin(a + b + c + d, e);
    assert (a + b + c + d + e)[|a + b + c + d + e| - 1] == e[|e| - 1];
    NoPdfJoin(a + b + c + d + e, f);
  }

  lemma XlsxNamesDocumentAndSheet()
    ensures Includes(XlsxMime, "document") && Includes(XlsxMime, "sheet")
  {
    var abc := "application/vnd." + "openxmlformats-" + "office";
    var ef := ".spreadsheetml." + "sheet";
    IncludesMiddle(abc, "document", ef);
    assert XlsxMime == abc + "document" + ef;
    var abcde := abc + "document" + ".spreadsheetml.";
    IncludesMiddle(abcde, "sheet", "");
    assert XlsxMime == abcde + "sheet" + "";
  }

  /** As written, a spreadsheet workbook gets the Word icon. */
  lemma XlsxGetsWordIcon()
    ensures Includes(XlsxMime, "sheet") && FileIcon(XlsxMime) == WordIcon
  {
    XlsxNotMedia(); XlsxNoPdf(); XlsxNamesDocumentAndSheet();
    DocumentShadowsSheet(XlsxMime);
  }

  /** The evidently intended order: the spreadsheet rule is tested before
      the Word rule, whose word `document` also occurs in the Office Open
      XML spreadsheet and presentation types. */
  function FileIconCorrected(mime: string): string {
    if StartsWith(mime, "image/") then ImageIcon
    else if StartsWith(mime, "video/") then VideoIcon
    else if StartsWith(mime, "audio/") then AudioIcon
    else if Includes(mime, "pdf") then PdfIcon
    else if Includes(mime, "excel") || Includes(mime, "sheet") then ExcelIcon
    else if Includes(mime, "word") || Includes(mime, "document") then WordIcon
    else if Includes(mime, "zip") || Includes(mime, "compressed") then ArchiveIcon
    else DefaultIcon
  }

  /** With the corrected order every spreadsheet type that is not an image,
      video, audio or PDF gets the spreadsheet icon, and a type that names
      no spreadsheet, or no Word document, gets the same icon as before. */
  lemma CorrectedIconForSheets(mime: string)
    ensures !StartsWith(mime, "image/") && !StartsWith(mime, "video/") && !StartsWith(mime, "audio/")
            && !Includes(mime, "pdf") && (Includes(mime, "excel") || Includes(mime, "sheet"))
            ==> FileIconCorrected(mime) == ExcelIcon
    ensures !Includes(mime, "excel") && !Includes(mime, "sheet")
            ==> FileIconCorrected(mime) == FileIcon(mime)
    ensures !Includes(mime, "word") && !Includes(mime, "document")
            ==> FileIconCorrected(mime) == FileIcon(mime)
  {
  }

  lemma XlsxGetsExcelIconCorrected()
    ensures FileIconCorrected(XlsxMime) == ExcelIcon
  {
    XlsxNotMedia(); XlsxNoPdf(); XlsxNamesDocumentAndSheet();
    CorrectedIconForSheets(XlsxMime);
  }
}
