/**
 * The text checks of prevent_corrupted_data.py: whether scraped text is fit
 * to embed, the normaliser that tries to salvage it, the item check a Scrapy
 * pipeline applies, that pipeline's counters, and the filter run over a batch
 * of documents before embedding.
 */
module TextValidation {
  import opened Wrappers
  import opened PyStr

  function ReplacementCount(text: string): nat {
    CountIf(text, c => c == Replacement)
  }

  function AsciiCount(text: string): nat {
    CountIf(text, c => IsAscii(c))
  }

  function AlnumOrSpaceCount(text: string): nat {
    CountIf(text, c => IsAsciiAlnum(c) || IsSpace(c))
  }

  /** `is_valid_text`: long enough, few replacement characters, mostly ASCII,
      and mostly letters, digits and whitespace. The ratios are exact. */
  predicate IsValidText(text: string, minLength: int := 50, maxReplacementRatio: real := 0.05) {
    CountsAcceptable(|text|, ReplacementCount(text), AsciiCount(text), AlnumOrSpaceCount(text),
                     minLength, maxReplacementRatio)
  }

  /** The checks of `is_valid_text` in their order, on the length and the
      three counts of the text. */
  predicate CountsAcceptable(len: nat, replacements: nat, ascii: nat, alnumOrSpace: nat,
                             minLength: int, maxReplacementRatio: real)
  {
    if len == 0 || len < minLength then false
    else
      var n := len as real;
      if (replacements as real) / n > maxReplacementRatio then false
      else if (ascii as real) / n < 0.7 then false
      else if (alnumOrSpace as real) / n < 0.8 then false
      else true
  }

  /** The four rejections, with each ratio cross-multiplied: the checks pass
      exactly when none of them fires. */
  lemma CountsAcceptableExactly(len: nat, replacements: nat, ascii: nat, alnumOrSpace: nat,
                                minLength: int, maxReplacementRatio: real)
    ensures CountsAcceptable(len, replacements, ascii, alnumOrSpace, minLength, maxReplacementRatio) <==>
              && len > 0 && len >= minLength
              && replacements as real <= maxReplacementRatio * len as real
              && 10 * ascii >= 7 * len
              && 5 * alnumOrSpace >= 4 * len
  {
    if len > 0 {
      RatioAbove(replacements, len, maxReplacementRatio);
      RatioAbove(ascii, len, 0.7);
      RatioAbove(alnumOrSpace, len, 0.8);
    }
  }

  /** `is_valid_text` rejects empty or short text, more replacement characters
      than the ratio allows, less than 70% ASCII and less than 80% letters,
      digits and whitespace, and accepts everything else. */
  lemma ValidTextExactly(text: string, minLength: int, maxReplacementRatio: real)
    ensures IsValidText(text, minLength, maxReplacementRatio) <==>
              && |text| > 0 && |text| >= minLength
              && ReplacementCount(text) as real <= maxReplacementRatio * |text| as real
              && 10 * AsciiCount(text) >= 7 * |text|
              && 5 * AlnumOrSpaceCount(text) >= 4 * |text|
  {
    CountsAcceptableExactly(|text|, ReplacementCount(text), AsciiCount(text), AlnumOrSpaceCount(text),
                            minLength, maxReplacementRatio);
  }

  /** With the default arguments: at least 50 characters, at most one in 20
      a replacement character, at least 70% ASCII and at least 80% letters,
      digits and whitespace. */
  lemma DefaultValidTextExactly(text: string)
    ensures IsValidText(text) <==>
              && |text| >= 50
              && 20 * ReplacementCount(text) <= |text|
              && 10 * AsciiCount(text) >= 7 * |text|
              && 5 * AlnumOrSpaceCount(text) >= 4 * |text|
  {
    ValidTextExactly(text, 50, 0.05);
  }

  lemma RatioAbove(count: nat, len: nat, ratio: real)
    requires len > 0
    ensures (count as real) / (len as real) > ratio <==> count as real > ratio * len as real
    ensures (count as real) / (len as real) < ratio <==> count as real < ratio * len as real
  {
    var q := (count as real) / (len as real);
    assert q * len as real == count as real;
    if q > ratio {
      assert q * len as real > ratio * len as real;
    }
    if q < ratio {
      assert q * len as real < ratio * len as real;
    }
    if count as real > ratio * len as real {
      assert q * len as real > ratio * len as real;
    }
    if count as real < ratio * len as real {
      assert q * len as real < ratio * len as real;
    }
  }

  /** What `text.replace('\uFFFD', '')` keeps. */
  predicate NotReplacement(c: char) {
    c != Replacement
  }

  /** `ord(c) >= 32 or c in '\n\r\t'` */
  predicate KeptByControlFilter(c: char) {
    c as int >= 32 || c == '\n' || c == '\r' || c == '\t'
  }

  /** `re.sub(r'\s+', ' ', s)`: every maximal run of whitespace becomes one
      space. */
  function Collapse(s: string): (r: string)
    ensures |r| <= |s|
    ensures s != [] ==> r != [] && r[0] == (if IsSpace(s[0]) then ' ' else s[0])
    ensures forall c :: c in r ==> if IsSpace(c) then c == ' ' else c in s
    ensures SingleSpaced(r)
    decreases |s|
  {
    if s == [] then []
    else if IsSpace(s[0]) then
      var t := LStrip(s);
      var rest := Collapse(t);
      assert forall c :: c in t ==> c in s;
      [' '] + rest
    else
      var rest := Collapse(s[1..]);
      assert forall c :: c in s[1..] ==> c in s;
      [s[0]] + rest
  }

  /** The steps of `clean_text` before its final validity check. */
  function Normalize(text: string): string {
    Strip(Collapse(Filter(Filter(text, NotReplacement), KeptByControlFilter)))
  }

  /** No two whitespace characters in a row. */
  predicate SingleSpaced(s: string) {
    forall i :: 0 <= i < |s| - 1 ==> !(IsSpace(s[i]) && IsSpace(s[i + 1]))
  }

  /** What `clean_text` promises of the text it returns: no replacement
      character, no control character, a single space as the only
      whitespace, never two whitespace characters in a row, and nothing to
      strip at either end. */
  predicate IsClean(s: string) {
    && (forall c :: c in s ==> c != Replacement && c as int >= 32 && (IsSpace(c) ==> c == ' '))
    && SingleSpaced(s)
    && (s != [] ==> !IsSpace(s[0]) && !IsSpace(s[|s| - 1]))
  }

  /** The characters that survive the two filters and the collapse. */
  lemma CollapsedChars(text: string)
    ensures var c := Collapse(Filter(Filter(text, NotReplacement), KeptByControlFilter));
            forall x :: x in c ==> x != Replacement && x as int >= 32 && (IsSpace(x) ==> x == ' ')
  {
  }

  lemma StripSingleSpaced(s: string)
    requires SingleSpaced(s)
    ensures SingleSpaced(Strip(s))
  {
    StripShape(s);
    var lo := |s| - |LStrip(s)|;
    SingleSpacedSlice(s, lo, lo + |Strip(s)|);
  }

  /** A slice of a single-spaced string is single-spaced. */
  lemma SingleSpacedSlice(s: string, lo: nat, hi: nat)
    requires lo <= hi <= |s| && SingleSpaced(s)
    ensures SingleSpaced(s[lo..hi])
  {
    var r := s[lo..hi];
    forall i | 0 <= i < |r| - 1 ensures !(IsSpace(r[i]) && IsSpace(r[i + 1])) {
      assert r[i] == s[lo + i] && r[i + 1] == s[lo + i + 1];
    }
  }

  lemma NormalizeIsClean(text: string)
    ensures IsClean(Normalize(text))
  {
    var c := Collapse(Filter(Filter(text, NotReplacement), KeptByControlFilter));
    CollapsedChars(text);
    StripKeepsChars(c);
    StripSingleSpaced(c);
    StripShape(c);
  }

  /** `clean_text`: `None` for empty text; otherwise the normalised text when
      it is valid, and `None` when it is not worth salvaging. */
  function CleanText(text: string): (cleaned: Option<string>)
    ensures text == [] ==> cleaned == None
    ensures cleaned.Some? ==> IsClean(cleaned.value) && IsValidText(cleaned.value)
  {
    if text == [] then None
    else
      var t := Normalize(text);
      NormalizeIsClean(text);
      if IsValidText(t) then Some(t) else None
  }

  lemma SingleSpacedTail(s: string)
    requires s != [] && SingleSpaced(s)
    ensures SingleSpaced(s[1..])
  {
    var t := s[1..];
    forall i | 0 <= i < |t| - 1 ensures !(IsSpace(t[i]) && IsSpace(t[i + 1])) {
      assert t[i] == s[i + 1] && t[i + 1] == s[i + 2];
    }
  }

  lemma HeadTail<T>(s: seq<T>)
    requires s != []
    ensures [s[0]] + s[1..] == s
  {
  }

  /** A single leading whitespace character is all that `lstrip` removes. */
  lemma LStripSingle(s: string)
    requires s != [] && IsSpace(s[0]) && (|s| > 1 ==> !IsSpace(s[1]))
    ensures LStrip(s) == s[1..]
  {
    assert LStrip(s) == LStrip(s[1..]);
  }

  /** Collapsing a string whose only whitespace is single spaces changes
      nothing. */
  lemma {:induction false} CollapseSingleSpaces(s: string)
    requires forall c :: c in s ==> IsSpace(c) ==> c == ' '
    requires SingleSpaced(s)
    ensures Collapse(s) == s
    decreases |s|
  {
    if s != [] {
      var tail := s[1..];
      assert forall c :: c in tail ==> c in s;
      SingleSpacedTail(s);
      CollapseSingleSpaces(tail);
      if IsSpace(s[0]) {
        assert s[0] in s;
        LStripSingle(s);
        assert Collapse(s) == [' '] + Collapse(tail);
      }
      assert Collapse(s) == [s[0]] + tail;
      HeadTail(s);
    }
  }

  /** Text that is already clean normalises to itself. */
  lemma NormalizeFixesClean(s: string)
    requires IsClean(s)
    ensures Normalize(s) == s
  {
    assert forall i :: 0 <= i < |s| ==> s[i] in s;
    assert Filter(s, NotReplacement) == s;
    assert Filter(s, KeptByControlFilter) == s;
    CollapseSingleSpaces(s);
    StripTrimmed(s);
  }

  /** Cleaning is idempotent: cleaned text comes back unchanged. */
  lemma CleanTextIdempotent(text: string)
    requires CleanText(text).Some?
    ensures CleanText(CleanText(text).value) == CleanText(text)
  {
    var s := CleanText(text).value;
    NormalizeFixesClean(s);
  }

  // ---------------------------------------------------------------------
  // Scraped items

  const PageContentKey: string := "page_content"

  /** A scraped item: a dictionary the pipeline updates in place. */
  class Item {
    var fields: map<string, string>

    constructor(fields: map<string, string>)
      ensures this.fields == fields
    {
      this.fields := fields;
    }
  }

  /** `item.get('page_content', '')` */
  function PageContent(fields: map<string, string>): string {
    if PageContentKey in fields then fields[PageContentKey] else ""
  }

  /** Whether `validate_scraped_item` accepts an item with these fields. */
  predicate Accepted(fields: map<string, string>) {
    PageContent(fields) != [] && CleanText(PageContent(fields)).Some?
  }

  /** The fields after `validate_scraped_item`: the cleaned page content on
      acceptance, nothing changed otherwise. */
  function Cleaned(fields: map<string, string>): map<string, string> {
    if Accepted(fields) then fields[PageContentKey := CleanText(PageContent(fields)).value]
    else fields
  }

  /** Validation touches only the page content. */
  lemma CleanedKeys(fields: map<string, string>)
    ensures Cleaned(fields).Keys == fields.Keys + (if Accepted(fields) then {PageContentKey} else {})
    ensures forall k :: k in fields && k != PageContentKey ==> Cleaned(fields)[k] == fields[k]
  {
  }

  /** Accepted content is replaced by clean, valid text. */
  lemma CleanedContent(fields: map<string, string>)
    requires Accepted(fields)
    ensures IsClean(PageContent(Cleaned(fields))) && IsValidText(PageContent(Cleaned(fields)))
  {
    assert PageContent(Cleaned(fields)) == CleanText(PageContent(fields)).value;
  }

  /** A second pass of validation neither changes the item nor changes the
      verdict. */
  lemma CleanedStable(fields: map<string, string>)
    ensures Accepted(Cleaned(fields)) == Accepted(fields)
    ensures Cleaned(Cleaned(fields)) == Cleaned(fields)
  {
    if Accepted(fields) {
      var content := PageContent(fields);
      CleanTextIdempotent(content);
      CleanContentAccepted(fields, CleanText(content).value);
    }
  }

  /** Fields whose page content is its own cleaning are accepted and left
      as they are. */
  lemma CleanContentAccepted(fields: map<string, string>, cleaned: string)
    requires CleanText(cleaned) == Some(cleaned)
    ensures var after := fields[PageContentKey := cleaned];
            Accepted(after) && Cleaned(after) == after
  {
    var after := fields[PageContentKey := cleaned];
    assert PageContent(after) == cleaned;
    assert after[PageContentKey := cleaned] == after;
  }

  /** `validate_scraped_item` */
  method ValidateScrapedItem(item: Item) returns (valid: bool)
    modifies item
    ensures valid == Accepted(old(item.fields))
    ensures item.fields == Cleaned(old(item.fields))
  {
    var pageContent := PageContent(item.fields);
    if pageContent == [] {
      return false;
    }
    var cleaned := CleanText(pageContent);
    if cleaned.Some? && cleaned.value != [] && IsValidText(cleaned.value) {
      item.fields := item.fields[PageContentKey := cleaned.value];
      return true;
    }
    return false;
  }

  /** The result of `process_item`: the item passes on, or `DropItem` is
      raised. */
  datatype Verdict = Passed | Dropped(reason: string)

  /** `TextValidationPipeline` */
  class TextValidationPipeline {
    var droppedCount: nat
    var processedCount: nat

    predicate Valid()
      reads this
    {
      droppedCount <= processedCount
    }

    constructor()
      ensures droppedCount == 0 && processedCount == 0 && Valid()
    {
      droppedCount := 0;
      processedCount := 0;
    }

    /** `process_item`: every call is counted, and every drop is counted
        once more. */
    method ProcessItem(item: Item) returns (verdict: Verdict)
      requires Valid()
      modifies this, item
      ensures Valid()
      ensures processedCount == old(processedCount) + 1
      ensures verdict.Dropped? <==> !Accepted(old(item.fields))
      ensures droppedCount == old(droppedCount) + (if verdict.Dropped? then 1 else 0)
      ensures item.fields == Cleaned(old(item.fields))
    {
      processedCount := processedCount + 1;
      var valid := ValidateScrapedItem(item);
      if !valid {
        droppedCount := droppedCount + 1;
        return Dropped("Invalid or corrupted text content");
      }
      return Passed;
    }
  }

  // ---------------------------------------------------------------------
  // Filtering a batch of documents

  function FieldsOf(docs: seq<Item>): (fs: seq<map<string, string>>)
    reads docs
    ensures |fs| == |docs| && forall i :: 0 <= i < |docs| ==> fs[i] == docs[i].fields
  {
    if docs == [] then [] else FieldsOf(docs[..|docs| - 1]) + [docs[|docs| - 1].fields]
  }

  /** The documents whose fields (given alongside) are accepted, in input
      order. */
  function Select(docs: seq<Item>, fs: seq<map<string, string>>): (r: seq<Item>)
    requires |fs| == |docs|
    ensures |r| <= |docs|
    ensures forall d :: d in r ==> d in docs
  {
    if docs == [] then []
    else
      var n := |docs| - 1;
      Select(docs[..n], fs[..n]) + (if Accepted(fs[n]) then [docs[n]] else [])
  }

  /** `filter_documents_before_embedding`: the accepted documents, in input
      order and with their page content cleaned, and how many were not. A
      document listed twice is judged the same way both times, because a
      second cleaning changes nothing. */
  method FilterDocumentsBeforeEmbedding(documents: seq<Item>) returns (validDocs: seq<Item>, invalidCount: nat)
    modifies set i | 0 <= i < |documents| :: documents[i]
    ensures validDocs == Select(documents, old(FieldsOf(documents)))
    ensures |validDocs| + invalidCount == |documents|
    ensures forall j :: 0 <= j < |documents| ==> documents[j].fields == Cleaned(old(documents[j].fields))
    ensures forall d :: d in validDocs ==> IsClean(PageContent(d.fields)) && IsValidText(PageContent(d.fields))
  {
    ghost var initial := FieldsOf(documents);
    validDocs := [];
    invalidCount := 0;
    var i := 0;
    while i < |documents|
      invariant 0 <= i <= |documents|
      invariant forall j :: 0 <= j < |documents| ==> initial[j] == old(documents[j].fields)
      invariant validDocs == Select(documents[..i], initial[..i])
      invariant |validDocs| + invalidCount == i
      invariant ValidatedUpTo(documents, FieldsOf(documents), initial, i, Cleaned)
    {
      var doc := documents[i];
      CleanedStable(initial[i]);
      ghost var before := FieldsOf(documents);
      var valid := ValidateScrapedItem(doc);
      ValidatedStep(documents, before, FieldsOf(documents), initial, i, Cleaned);
      SelectStep(documents, initial, i);
      if valid {
        validDocs := validDocs + [doc];
      } else {
        invalidCount := invalidCount + 1;
      }
      i := i + 1;
    }
    assert documents[..i] == documents && initial[..i] == initial;
    forall d | d in validDocs
      ensures IsClean(PageContent(d.fields)) && IsValidText(PageContent(d.fields))
    {
      var j := SelectedIndex(documents, initial, d);
      CleanedContent(initial[j]);
    }
  }

  /** After validating the first `i` documents, each document holds `clean`
      of its initial fields if its object occurs among them, and its initial
      fields otherwise. */
  predicate ValidatedUpTo(documents: seq<Item>, current: seq<map<string, string>>,
                          initial: seq<map<string, string>>, i: nat,
                          clean: map<string, string> -> map<string, string>)
    requires |current| == |initial| == |documents| && i <= |documents|
  {
    forall j :: 0 <= j < |documents| ==>
      current[j] == if documents[j] in documents[..i] then clean(initial[j]) else initial[j]
  }

  /** Validating document `i` extends `ValidatedUpTo` by one, also when the
      same object occurs earlier or later in the list. */
  lemma ValidatedStep(documents: seq<Item>, before: seq<map<string, string>>, after: seq<map<string, string>>,
                      initial: seq<map<string, string>>, i: nat,
                      clean: map<string, string> -> map<string, string>)
    requires |before| == |after| == |initial| == |documents| && i < |documents|
    requires forall j, k :: 0 <= j < |documents| && 0 <= k < |documents| && documents[j] == documents[k] ==>
               initial[j] == initial[k] && before[j] == before[k] && after[j] == after[k]
    requires ValidatedUpTo(documents, before, initial, i, clean)
    requires after[i] == clean(initial[i])
    requires forall j :: 0 <= j < |documents| && documents[j] != documents[i] ==> after[j] == before[j]
    ensures ValidatedUpTo(documents, after, initial, i + 1, clean)
  {
    assert documents[..i + 1] == documents[..i] + [documents[i]];
  }

  lemma SelectStep(docs: seq<Item>, fs: seq<map<string, string>>, i: nat)
    requires |fs| == |docs| && i < |docs|
    ensures Select(docs[..i + 1], fs[..i + 1])
            == Select(docs[..i], fs[..i]) + (if Accepted(fs[i]) then [docs[i]] else [])
  {
    assert docs[..i + 1][..i] == docs[..i] && fs[..i + 1][..i] == fs[..i];
  }

  /** Where a selected document sits in the input. */
  lemma {:induction false} SelectedIndex(docs: seq<Item>, fs: seq<map<string, string>>, d: Item) returns (j: nat)
    requires |fs| == |docs| && d in Select(docs, fs)
    ensures j < |docs| && docs[j] == d && Accepted(fs[j])
  {
    var n := |docs| - 1;
    if d in Select(docs[..n], fs[..n]) {
      j := SelectedIndex(docs[..n], fs[..n], d);
    } else {
      j := n;
    }
  }
}
