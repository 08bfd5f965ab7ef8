/**
 * The rules of cleanup_pdf_vectors.py that recognise text extracted from a
 * PDF or another binary file, and its deletion step. The URL is checked
 * first, extension by extension; then the text, rule by rule. The first rule
 * that fires gives the reason.
 */
module CleanupPdf {
  import opened PyStr
  import TextValidation
  import Batching

  /** File extensions that have no place in a text vector store, in the order
      they are tried. */
  const InvalidExtensions: seq<string> := [
    ".pdf", ".doc", ".docx", ".xls", ".xlsx", ".ppt", ".pptx",
    ".zip", ".tar", ".gz", ".rar", ".7z",
    ".jpg", ".jpeg", ".png", ".gif", ".svg", ".bmp", ".webp",
    ".mp4", ".mp3", ".avi", ".mov", ".wmv", ".flv", ".wav",
    ".exe", ".dmg", ".pkg", ".deb", ".rpm",
    ".csv", ".xml", ".json"
  ]

  /** Fragments of PDF syntax that survive text extraction, in the order they
      are tried. */
  const PdfIndicators: seq<string> := [
    "application/pdf",
    "%PDF-",
    "stream\nendstream",
    "/Type /Page",
    "/Contents ",
    "obj\nendobj"
  ]

  const ShortWordsReason := "Too many short words (likely binary)"
  const ReplacementReason := "High replacement character ratio"

  /** The (lower-cased) URL ends with `ext`, or has `ext` right before a
      query string or a fragment. */
  predicate ExtensionMatches(url: string, ext: string) {
    EndsWith(url, ext) || Contains(url, ext + "?") || Contains(url, ext + "#")
  }

  /** The reason the extension rule gives for `ext` alone. */
  function ExtensionReason(url: string, ext: string): string {
    if EndsWith(url, ext) then "URL ends with " + ext else "URL contains " + ext
  }

  /** The URL loop: the reason of the first extension that matches, or the
      empty string when none does. */
  function UrlReason(url: string, exts: seq<string>): string {
    if exts == [] then ""
    else if ExtensionMatches(url, exts[0]) then ExtensionReason(url, exts[0])
    else UrlReason(url, exts[1..])
  }

  /** The indicator loop: the reason of the first indicator the text holds,
      or the empty string. */
  function IndicatorReason(text: string, indicators: seq<string>): string {
    if indicators == [] then ""
    else if Contains(text, indicators[0]) then "Contains PDF indicator: " + Take(indicators[0], 20)
    else IndicatorReason(text, indicators[1..])
  }

  /** The number of words of length at most two. */
  function ShortWordCount(words: seq<string>): (n: nat)
    ensures n <= |words|
  {
    if words == [] then 0 else (if |words[0]| <= 2 then 1 else 0) + ShortWordCount(words[1..])
  }

  /** More than 50 words, and more than 40 of the first 100 of length one
      or two. */
  predicate TooManyShortWords(text: string) {
    var words := Words(text);
    |words| > 50 && ShortWordCount(words[..if |words| < 100 then |words| else 100]) > 40
  }

  /** More replacement characters than 2% of the length. */
  predicate HighReplacementRatio(text: string) {
    TextValidation.ReplacementCount(text) as real > |text| as real * 0.02
  }

  /** `is_pdf_or_binary_content`: whether the page is to be removed, and
      why. Every removal carries a reason and every kept page the empty one. */
  function IsPdfOrBinaryContent(text: string, url: string): (r: (bool, string))
    ensures r.0 <==> r.1 != ""
  {
    var urlReason := UrlReason(Lower(url), InvalidExtensions);
    if urlReason != "" then (true, urlReason)
    else if text == "" then (false, "")
    else
      var indicatorReason := IndicatorReason(text, PdfIndicators);
      if indicatorReason != "" then (true, indicatorReason)
      else if TooManyShortWords(text) then (true, ShortWordsReason)
      else if HighReplacementRatio(text) then (true, ReplacementReason)
      else (false, "")
  }

  /** The extension loop finds the first matching extension and names it. */
  lemma {:induction false} UrlReasonFirstMatch(url: string, exts: seq<string>, k: nat)
    requires k < |exts| && ExtensionMatches(url, exts[k])
    requires forall j :: 0 <= j < k ==> !ExtensionMatches(url, exts[j])
    ensures UrlReason(url, exts) == ExtensionReason(url, exts[k])
  {
    if k > 0 {
      assert !ExtensionMatches(url, exts[0]);
      UrlReasonFirstMatch(url, exts[1..], k - 1);
    }
  }

  /** The extension loop gives the empty reason exactly when no extension
      matches. */
  lemma {:induction false} UrlReasonNone(url: string, exts: seq<string>)
    ensures UrlReason(url, exts) == "" <==> forall k :: 0 <= k < |exts| ==> !ExtensionMatches(url, exts[k])
  {
    if exts != [] {
      UrlReasonNone(url, exts[1..]);
      assert forall k :: 1 <= k < |exts| ==> exts[k] == exts[1..][k - 1];
    }
  }

  /** The indicator loop gives the empty reason exactly when the text holds
      none of the indicators. */
  lemma {:induction false} IndicatorReasonNone(text: string, indicators: seq<string>)
    ensures IndicatorReason(text, indicators) == "" <==>
              forall k :: 0 <= k < |indicators| ==> !Contains(text, indicators[k])
  {
    if indicators != [] {
      IndicatorReasonNone(text, indicators[1..]);
      assert forall k :: 1 <= k < |indicators| ==> indicators[k] == indicators[1..][k - 1];
    }
  }

  /** The indicator loop names the first indicator the text holds, cut to 20
      characters. */
  lemma {:induction false} IndicatorReasonFirstMatch(text: string, indicators: seq<string>, k: nat)
    requires k < |indicators| && Contains(text, indicators[k])
    requires forall j :: 0 <= j < k ==> !Contains(text, indicators[j])
    ensures IndicatorReason(text, indicators) == "Contains PDF indicator: " + Take(indicators[k], 20)
  {
    if k > 0 {
      assert !Contains(text, indicators[0]);
      IndicatorReasonFirstMatch(text, indicators[1..], k - 1);
    }
  }

  /** An invalid extension decides the verdict whatever the text: the first
      extension in list order that matches the lower-cased URL is named. */
  lemma UrlRulesFirst(text: string, url: string, k: nat)
    requires k < |InvalidExtensions| && ExtensionMatches(Lower(url), InvalidExtensions[k])
    requires forall j :: 0 <= j < k ==> !ExtensionMatches(Lower(url), InvalidExtensions[j])
    ensures IsPdfOrBinaryContent(text, url) == (true, ExtensionReason(Lower(url), InvalidExtensions[k]))
  {
    UrlReasonFirstMatch(Lower(url), InvalidExtensions, k);
  }

  /** Empty text under an acceptable URL is kept. */
  lemma EmptyTextKept(url: string)
    requires forall k :: 0 <= k < |InvalidExtensions| ==> !ExtensionMatches(Lower(url), InvalidExtensions[k])
    ensures IsPdfOrBinaryContent("", url) == (false, "")
  {
    UrlReasonNone(Lower(url), InvalidExtensions);
  }

  /** No non-empty string occurs in the empty one. */
  lemma NothingInEmpty(sub: string)
    requires sub != []
    ensures !Contains([], sub)
  {
  }

  /** The replacement rule, cross-multiplied: more than one character in 50. */
  lemma HighReplacementRatioExactly(text: string)
    ensures HighReplacementRatio(text) <==> 50 * TextValidation.ReplacementCount(text) > |text|
  {
  }

  /** The page is removed exactly when some rule fires: an extension matches
      the lower-cased URL, the text holds an indicator, too many of its first
      words are short, or more than one character in 50 is a replacement
      character. */
  lemma IsPdfOrBinaryContentExactly(text: string, url: string)
    ensures IsPdfOrBinaryContent(text, url).0 <==>
              || (exists k :: 0 <= k < |InvalidExtensions| && ExtensionMatches(Lower(url), InvalidExtensions[k]))
              || (exists k :: 0 <= k < |PdfIndicators| && Contains(text, PdfIndicators[k]))
              || TooManyShortWords(text)
              || 50 * TextValidation.ReplacementCount(text) > |text|
  {
    UrlReasonNone(Lower(url), InvalidExtensions);
    IndicatorReasonNone(text, PdfIndicators);
    HighReplacementRatioExactly(text);
    if text == [] {
      EmptyTextFiresNoRule();
    }
  }

  /** None of the text rules fires on empty text. */
  lemma EmptyTextFiresNoRule()
    ensures forall k :: 0 <= k < |PdfIndicators| ==> !Contains([], PdfIndicators[k])
    ensures !TooManyShortWords([])
    ensures TextValidation.ReplacementCount([]) == 0
  {
    forall k | 0 <= k < |PdfIndicators| ensures !Contains([], PdfIndicators[k]) {
      NothingInEmpty(PdfIndicators[k]);
    }
    assert Words([]) == [];
  }

  /** One entry of the scan's result. */
  datatype InvalidVector<Id> = InvalidVector(id: Id, url: string, reason: string)

  function IdsOf<Id>(vectors: seq<InvalidVector<Id>>): (ids: seq<Id>)
    ensures |ids| == |vectors| && forall i :: 0 <= i < |vectors| ==> ids[i] == vectors[i].id
  {
    seq(|vectors|, i requires 0 <= i < |vectors| => vectors[i].id)
  }

  /** `delete_pdf_vectors`: nothing for an empty list or a dry run, otherwise
      the ids of the invalid vectors in consecutive batches, until the store
      fails. */
  method DeletePdfVectors<Id(==,!new)>(store: Batching.PointStore<Id>, invalidVectors: seq<InvalidVector<Id>>,
                                        batchSize: int := 100, dryRun: bool := true)
      returns (outcome: Batching.Deletion<Id>)
    modifies store
    ensures invalidVectors == [] ==> outcome == Batching.NothingToDelete
    ensures invalidVectors != [] && dryRun ==> outcome == Batching.DryRun(|invalidVectors|)
    ensures invalidVectors != [] && !dryRun && batchSize == 0 ==> outcome == Batching.Raised("ValueError")
    ensures invalidVectors != [] && !dryRun && batchSize < 0 ==> outcome == Batching.Deleted([])
    ensures invalidVectors != [] && !dryRun && batchSize > 0 ==>
              var all := Batching.Batches(IdsOf(invalidVectors), batchSize);
              var left := old(store.answersLeft);
              outcome == if left.None? || |all| <= left.value then Batching.Deleted(all)
                         else Batching.Interrupted(all[..left.value])
    ensures store.points == old(store.points) - Batching.Members(Batching.Flatten(outcome.Sent()))
    ensures store.answersLeft == Batching.Spend(old(store.answersLeft), |outcome.Sent()|)
  {
    if invalidVectors == [] {
      return Batching.NothingToDelete;
    }
    var invalidIds := IdsOf(invalidVectors);
    outcome := Batching.DeleteInBatches(store, invalidIds, batchSize, dryRun);
  }
}
