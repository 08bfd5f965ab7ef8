/**
 * The two helpers of src/llm/enhanced_search.py that turn retrieved
 * documents into what the language model and the user see: the context
 * string packed under a character budget, and the list of distinct sources.
 */
module EnhancedSearch {
  import opened PyStr

  /** A retrieved document: its metadata (string values only) and its text. */
  datatype Document = Document(metadata: map<string, string>, pageContent: string)

  /** `metadata.get('url', 'Unknown URL')` */
  function UrlOf(doc: Document): string {
    if "url" in doc.metadata then doc.metadata["url"] else "Unknown URL"
  }

  /** The header of the document at index `i`: `[Source {i+1}: {url}]`. */
  function SourceInfo(i: nat, doc: Document): string {
    "[Source " + NatToString(i + 1) + ": " + UrlOf(doc) + "]"
  }

  /** What the document at index `i` costs against the budget: its header
      and its text. The separators are not counted. */
  function DocCost(i: nat, doc: Document): nat {
    |SourceInfo(i, doc)| + |doc.pageContent|
  }

  /** The cost of the first `n` documents. */
  function Cost(docs: seq<Document>, n: nat): nat
    requires n <= |docs|
  {
    if n == 0 then 0 else Cost(docs, n - 1) + DocCost(n - 1, docs[n - 1])
  }

  /** A document included whole: its header, a newline, its text. */
  function FullPart(i: nat, doc: Document): string {
    SourceInfo(i, doc) + "\n" + doc.pageContent
  }

  /** The document that overflows the budget, cut to `room` characters. */
  function TruncatedPart(i: nat, doc: Document, room: int): string {
    SourceInfo(i, doc) + "\n" + Take(doc.pageContent, room) + "..."
  }

  /** The loop of `prepare_context` from document `i` on, with `current`
      characters of the budget already spent. */
  function PartsFrom(docs: seq<Document>, i: nat, current: int, maxLength: int): seq<string>
    requires i <= |docs|
    decreases |docs| - i
  {
    if i == |docs| then []
    else if current + DocCost(i, docs[i]) > maxLength then
      var remaining := Remaining(docs[i], i, current, maxLength);
      if remaining > 200 then [TruncatedPart(i, docs[i], remaining)] else []
    else [FullPart(i, docs[i])] + PartsFrom(docs, i + 1, current + DocCost(i, docs[i]), maxLength)
  }

  /** `remaining_space`: the budget left for the text of document `i` once
      its header and a margin of 100 characters are taken off. */
  function Remaining(doc: Document, i: nat, current: int, maxLength: int): int {
    maxLength - current - |SourceInfo(i, doc)| - 100
  }

  /** The parts `prepare_context` joins. */
  function ContextParts(docs: seq<Document>, maxLength: int): seq<string> {
    PartsFrom(docs, 0, 0, maxLength)
  }

  /** `prepare_context`: the parts, separated by blank lines. */
  method PrepareContext(docs: seq<Document>, maxLength: int := 4000) returns (context: string)
    ensures context == Join(ContextParts(docs, maxLength), "\n\n")
    ensures docs == [] ==> context == ""
  {
    var contextParts: seq<string> := [];
    var currentLength := 0;
    var i := 0;
    while i < |docs|
      invariant 0 <= i <= |docs|
      invariant contextParts + PartsFrom(docs, i, currentLength, maxLength) == ContextParts(docs, maxLength)
    {
      var sourceInfo := SourceInfo(i, docs[i]);
      var content := docs[i].pageContent;
      var docLength := |sourceInfo| + |content|;
      if currentLength + docLength > maxLength {
        var remainingSpace := maxLength - currentLength - |sourceInfo| - 100;
        PartsFromOverflow(docs, i, currentLength, maxLength);
        if remainingSpace > 200 {
          contextParts := contextParts + [TruncatedPart(i, docs[i], remainingSpace)];
        }
        break;
      }
      assert docLength == DocCost(i, docs[i]);
      PartsFromFits(docs, i, currentLength, maxLength, contextParts);
      contextParts := contextParts + [FullPart(i, docs[i])];
      currentLength := currentLength + docLength;
      i := i + 1;
    }
    assert contextParts == ContextParts(docs, maxLength);
    context := Join(contextParts, "\n\n");
  }

  /** One step of the loop on a document that overflows the budget. */
  lemma PartsFromOverflow(docs: seq<Document>, i: nat, current: int, maxLength: int)
    requires i < |docs| && current + DocCost(i, docs[i]) > maxLength
    ensures var remaining := Remaining(docs[i], i, current, maxLength);
            PartsFrom(docs, i, current, maxLength) ==
              if remaining > 200 then [TruncatedPart(i, docs[i], remaining)] else []
  {
  }

  /** One step of the loop on a document that fits: it joins the parts
      built so far, and the rest of the loop starts after it. */
  lemma PartsFromFits(docs: seq<Document>, i: nat, current: int, maxLength: int, parts: seq<string>)
    requires i < |docs| && current + DocCost(i, docs[i]) <= maxLength
    requires parts + PartsFrom(docs, i, current, maxLength) == ContextParts(docs, maxLength)
    ensures (parts + [FullPart(i, docs[i])]) + PartsFrom(docs, i + 1, current + DocCost(i, docs[i]), maxLength)
            == ContextParts(docs, maxLength)
  {
    var rest := PartsFrom(docs, i + 1, current + DocCost(i, docs[i]), maxLength);
    assert PartsFrom(docs, i, current, maxLength) == [FullPart(i, docs[i])] + rest;
    assert (parts + [FullPart(i, docs[i])]) + rest == parts + ([FullPart(i, docs[i])] + rest);
  }

  lemma {:induction false} CostMonotone(docs: seq<Document>, m: nat, n: nat)
    requires m <= n <= |docs|
    ensures Cost(docs, m) <= Cost(docs, n)
  {
    if m < n {
      CostMonotone(docs, m, n - 1);
    }
  }

  /** The number of documents that fit whole: the first `n` fit, and the
      next one, if any, does not. */
  function Fitting(docs: seq<Document>, maxLength: int): (n: nat)
    ensures n <= |docs|
    ensures n > 0 ==> Cost(docs, n) <= maxLength
    ensures n < |docs| ==> Cost(docs, n + 1) > maxLength
  {
    FittingFrom(docs, maxLength, 0)
  }

  function FittingFrom(docs: seq<Document>, maxLength: int, i: nat): (n: nat)
    requires i <= |docs|
    requires i > 0 ==> Cost(docs, i) <= maxLength
    ensures i <= n <= |docs|
    ensures n > 0 ==> Cost(docs, n) <= maxLength
    ensures n < |docs| ==> Cost(docs, n + 1) > maxLength
    decreases |docs| - i
  {
    if i == |docs| || Cost(docs, i + 1) > maxLength then i else FittingFrom(docs, maxLength, i + 1)
  }

  /** The first `n` documents, each whole behind its header. */
  function FullParts(docs: seq<Document>, n: nat): (parts: seq<string>)
    requires n <= |docs|
  {
    seq(n, j requires 0 <= j < n => FullPart(j, docs[j]))
  }

  /** What is left for the text of the overflowing document `n`. */
  function Room(docs: seq<Document>, n: nat, maxLength: int): int
    requires n < |docs|
  {
    Remaining(docs[n], n, Cost(docs, n), maxLength)
  }

  /** What follows the whole documents: the first document that does not
      fit, cut short, when more than 200 characters are left for its text. */
  function Tail(docs: seq<Document>, n: nat, maxLength: int): seq<string>
    requires n <= |docs|
  {
    if n < |docs| && Room(docs, n, maxLength) > 200
    then [TruncatedPart(n, docs[n], Room(docs, n, maxLength))] else []
  }

  lemma PartsFromEnd(docs: seq<Document>, maxLength: int, n: nat)
    requires n <= |docs|
    requires n < |docs| ==> Cost(docs, n + 1) > maxLength
    ensures PartsFrom(docs, n, Cost(docs, n), maxLength) == Tail(docs, n, maxLength)
  {
  }

  /** A document that fits is included whole. */
  lemma PartsFromStep(docs: seq<Document>, maxLength: int, i: nat)
    requires i < |docs| && Cost(docs, i + 1) <= maxLength
    ensures PartsFrom(docs, i, Cost(docs, i), maxLength) ==
              [FullPart(i, docs[i])] + PartsFrom(docs, i + 1, Cost(docs, i + 1), maxLength)
  {
    assert Cost(docs, i) + DocCost(i, docs[i]) == Cost(docs, i + 1);
  }

  lemma SliceCons<T>(xs: seq<T>, i: nat, tail: seq<T>)
    requires i < |xs|
    ensures [xs[i]] + (xs[i + 1..] + tail) == xs[i..] + tail
  {
    assert xs[i..] == [xs[i]] + xs[i + 1..];
  }

  lemma {:induction false} PartsFromShape(docs: seq<Document>, maxLength: int, n: nat, i: nat)
    requires i <= n <= |docs|
    requires n > 0 ==> Cost(docs, n) <= maxLength
    requires n < |docs| ==> Cost(docs, n + 1) > maxLength
    ensures PartsFrom(docs, i, Cost(docs, i), maxLength) == FullParts(docs, n)[i..] + Tail(docs, n, maxLength)
    decreases n - i
  {
    if i < n {
      CostMonotone(docs, i + 1, n);
      PartsFromStep(docs, maxLength, i);
      PartsFromShape(docs, maxLength, n, i + 1);
      SliceCons(FullParts(docs, n), i, Tail(docs, n, maxLength));
    } else {
      PartsFromEnd(docs, maxLength, n);
    }
  }

  /** The context is made of the documents that fit whole, in input order
      and each behind its header, followed by the first document that does
      not fit, cut short, when more than 200 characters are left for its
      text after a margin of 100; nothing after it is included. */
  lemma ContextPartsShape(docs: seq<Document>, maxLength: int)
    ensures var n := Fitting(docs, maxLength);
            ContextParts(docs, maxLength) == FullParts(docs, n) + Tail(docs, n, maxLength)
  {
    var n := Fitting(docs, maxLength);
    PartsFromShape(docs, maxLength, n, 0);
    assert FullParts(docs, n)[0..] == FullParts(docs, n);
  }

  /** A document cut short keeps exactly `Room` characters of its text,
      more than 200, and its header and text together still stay 97
      characters inside the budget. */
  lemma TruncationWithinBudget(docs: seq<Document>, maxLength: int)
    requires Fitting(docs, maxLength) < |docs|
    requires Room(docs, Fitting(docs, maxLength), maxLength) > 200
    ensures var n := Fitting(docs, maxLength);
            var room := Room(docs, n, maxLength);
            var cut := Take(docs[n].pageContent, room);
            && |cut| == room > 200
            && Cost(docs, n) + |SourceInfo(n, docs[n])| + |cut + "..."| == maxLength - 97
  {
  }

  /** Whenever the first `k` documents together fit the budget, exactly
      filling it included, all `k` open the context whole. */
  lemma FitIncluded(docs: seq<Document>, maxLength: int, k: nat)
    requires k <= |docs| && Cost(docs, k) <= maxLength
    ensures k <= Fitting(docs, maxLength)
    ensures FullParts(docs, k) <= ContextParts(docs, maxLength)
  {
    var n := Fitting(docs, maxLength);
    if k > n {
      CostMonotone(docs, n + 1, k);
    }
    ContextPartsShape(docs, maxLength);
    assert FullParts(docs, k) == FullParts(docs, n)[..k];
  }

  /** One entry of `format_sources`. */
  datatype SourceEntry = SourceEntry(id: nat, url: string, title: string, snippet: string)

  /** `metadata.get('title', metadata.get('source', 'Untitled'))` */
  function Title(doc: Document): string {
    if "title" in doc.metadata then doc.metadata["title"]
    else if "source" in doc.metadata then doc.metadata["source"]
    else "Untitled"
  }

  /** The first 150 characters, with "..." when there were more, stripped:
      at most 153 characters and nothing to strip at either end. */
  function Snippet(content: string): (s: string)
    ensures |s| <= 153
    ensures s != [] ==> !IsSpace(s[0]) && !IsSpace(s[|s| - 1])
    ensures |content| <= 150 ==> forall c :: c in s ==> c in content
  {
    var cut := if |content| > 150 then content[..150] + "..." else content;
    StripShape(cut);
    StripKeepsChars(cut);
    Strip(cut)
  }

  /** The entry the document at index `i` gives when it is listed. */
  function Entry(i: nat, doc: Document): SourceEntry {
    SourceEntry(i + 1, UrlOf(doc), Title(doc), Snippet(doc.pageContent))
  }

  /** No earlier document has the same URL. */
  predicate FirstOccurrence(docs: seq<Document>, j: nat)
    requires j < |docs|
  {
    forall k :: 0 <= k < j ==> UrlOf(docs[k]) != UrlOf(docs[j])
  }

  /** The URLs of the first `n` documents. */
  function UrlsBefore(docs: seq<Document>, n: nat): set<string>
    requires n <= |docs|
  {
    if n == 0 then {} else UrlsBefore(docs, n - 1) + {UrlOf(docs[n - 1])}
  }

  lemma {:induction false} UrlsBeforeFirst(docs: seq<Document>, n: nat)
    requires n < |docs|
    ensures UrlOf(docs[n]) !in UrlsBefore(docs, n) <==> FirstOccurrence(docs, n)
  {
    if n > 0 {
      var m := n - 1;
      UrlsBeforeSpec(docs, m, UrlOf(docs[n]));
    }
  }

  lemma {:induction false} UrlsBeforeSpec(docs: seq<Document>, m: nat, u: string)
    requires m < |docs|
    ensures u in UrlsBefore(docs, m + 1) <==> exists j :: 0 <= j <= m && UrlOf(docs[j]) == u
  {
    if m > 0 {
      UrlsBeforeSpec(docs, m - 1, u);
    }
  }

  /** The loop of `format_sources` over the first `n` documents: an entry
      for each document whose URL has not come before. */
  function SourcesUpTo(docs: seq<Document>, n: nat): seq<SourceEntry>
    requires n <= |docs|
  {
    if n == 0 then []
    else SourcesUpTo(docs, n - 1) + (if FirstOccurrence(docs, n - 1) then [Entry(n - 1, docs[n - 1])] else [])
  }

  /** `format_sources` */
  method FormatSources(docs: seq<Document>) returns (sources: seq<SourceEntry>)
    ensures sources == SourcesUpTo(docs, |docs|)
  {
    sources := [];
    var seenUrls: set<string> := {};
    for i := 0 to |docs|
      invariant seenUrls == UrlsBefore(docs, i)
      invariant sources == SourcesUpTo(docs, i)
    {
      var url := UrlOf(docs[i]);
      UrlsBeforeFirst(docs, i);
      if url in seenUrls {
        continue;
      }
      seenUrls := seenUrls + {url};
      var title := Title(docs[i]);
      var content := docs[i].pageContent;
      var snippet := if |content| > 150 then content[..150] + "..." else content;
      sources := sources + [SourceEntry(i + 1, url, title, Strip(snippet))];
    }
  }

  /** Every entry is the entry of a document whose URL has not come before,
      with that document's position plus one as its id. */
  predicate EntryOfFirstOccurrence(docs: seq<Document>, n: nat, e: SourceEntry)
    requires n <= |docs|
  {
    1 <= e.id <= n && FirstOccurrence(docs, e.id - 1) && e == Entry(e.id - 1, docs[e.id - 1])
  }

  lemma {:induction false} SourcesAreFirstOccurrences(docs: seq<Document>, n: nat)
    requires n <= |docs|
    ensures forall k :: 0 <= k < |SourcesUpTo(docs, n)| ==> EntryOfFirstOccurrence(docs, n, SourcesUpTo(docs, n)[k])
  {
    if n > 0 {
      SourcesAreFirstOccurrences(docs, n - 1);
      var before := SourcesUpTo(docs, n - 1);
      var sources := SourcesUpTo(docs, n);
      forall k | 0 <= k < |sources| ensures EntryOfFirstOccurrence(docs, n, sources[k]) {
        if k < |before| {
          assert sources[k] == before[k];
          assert EntryOfFirstOccurrence(docs, n - 1, before[k]);
        } else {
          assert sources[k] == Entry(n - 1, docs[n - 1]);
        }
      }
    }
  }

  lemma {:induction false} SourcesIdsBelow(docs: seq<Document>, n: nat)
    requires n <= |docs|
    ensures forall k :: 0 <= k < |SourcesUpTo(docs, n)| ==> SourcesUpTo(docs, n)[k].id <= n
  {
    if n > 0 {
      SourcesIdsBelow(docs, n - 1);
      var before := SourcesUpTo(docs, n - 1);
      assert forall k :: 0 <= k < |before| ==> SourcesUpTo(docs, n)[k] == before[k];
    }
  }

  /** Ids strictly increase: the entries keep input order. */
  lemma {:induction false} SourcesInOrder(docs: seq<Document>, n: nat)
    requires n <= |docs|
    ensures forall k, l :: 0 <= k < l < |SourcesUpTo(docs, n)| ==> SourcesUpTo(docs, n)[k].id < SourcesUpTo(docs, n)[l].id
  {
    if n > 0 {
      SourcesInOrder(docs, n - 1);
      SourcesIdsBelow(docs, n - 1);
      var before := SourcesUpTo(docs, n - 1);
      var sources := SourcesUpTo(docs, n);
      forall k, l | 0 <= k < l < |sources| ensures sources[k].id < sources[l].id {
        assert sources[k] == before[k];
        assert before[k].id <= n - 1;
        if l < |before| {
          assert sources[l] == before[l];
        } else {
          assert sources[l] == Entry(n - 1, docs[n - 1]);
        }
      }
    }
  }

  /** Every document whose URL has not come before has its entry. */
  lemma {:induction false} SourcesComplete(docs: seq<Document>, n: nat, j: nat)
    requires j < n <= |docs| && FirstOccurrence(docs, j)
    ensures exists k :: 0 <= k < |SourcesUpTo(docs, n)| && SourcesUpTo(docs, n)[k].id == j + 1
  {
    var before := SourcesUpTo(docs, n - 1);
    if j == n - 1 {
      assert SourcesUpTo(docs, n)[|before|].id == j + 1;
    } else {
      SourcesComplete(docs, n - 1, j);
      var k :| 0 <= k < |before| && before[k].id == j + 1;
      assert SourcesUpTo(docs, n)[k].id == j + 1;
    }
  }

  /** No two entries share a URL. */
  lemma SourcesDistinctUrls(docs: seq<Document>)
    ensures var sources := SourcesUpTo(docs, |docs|);
            forall k, l :: 0 <= k < l < |sources| ==> sources[k].url != sources[l].url
  {
    var sources := SourcesUpTo(docs, |docs|);
    SourcesAreFirstOccurrences(docs, |docs|);
    SourcesInOrder(docs, |docs|);
    forall k, l | 0 <= k < l < |sources| ensures sources[k].url != sources[l].url {
      assert EntryOfFirstOccurrence(docs, |docs|, sources[k]);
      assert EntryOfFirstOccurrence(docs, |docs|, sources[l]);
    }
  }
}
