/**
 * The tests of cleanup_corrupted_vectors.py that find stored text damaged by
 * decoding errors, and its deletion step. Both tests treat empty text as
 * damaged and compare a ratio of counted characters with a threshold,
 * strictly.
 */
module CleanupCorrupted {
  import opened PyStr
  import TextValidation
  import Batching

  /** A control character other than newline, carriage return and tab. */
  predicate IsBadControl(c: char) {
    c as int < 32 && c != '\n' && c != '\r' && c != '\t'
  }

  /** `ord(c) > 127` */
  predicate IsNonAscii(c: char) {
    c as int > 127
  }

  /** Replacement characters plus stray control characters. */
  function BadCount(text: string): nat {
    TextValidation.ReplacementCount(text) + CountIf(text, IsBadControl)
  }

  function NonAsciiCount(text: string): nat {
    CountIf(text, IsNonAscii)
  }

  /** `is_corrupted_text` */
  predicate IsCorruptedText(text: string, threshold: real := 0.05) {
    if text == [] then true
    else (BadCount(text) as real) / (|text| as real) > threshold
  }

  /** `is_mostly_garbled` */
  predicate IsMostlyGarbled(text: string, threshold: real := 0.3) {
    if text == [] then true
    else (NonAsciiCount(text) as real) / (|text| as real) > threshold
  }

  /** Text is corrupted exactly when it is empty or its bad characters
      exceed the threshold's share of its length. */
  lemma CorruptedExactly(text: string, threshold: real)
    ensures IsCorruptedText(text, threshold) <==>
              text == [] || BadCount(text) as real > threshold * |text| as real
  {
    if text != [] {
      TextValidation.RatioAbove(BadCount(text), |text|, threshold);
    }
  }

  /** With the default threshold: more than one bad character in 20. */
  lemma DefaultCorruptedExactly(text: string)
    ensures IsCorruptedText(text) <==> text == [] || 20 * BadCount(text) > |text|
  {
    CorruptedExactly(text, 0.05);
  }

  /** Text is garbled exactly when it is empty or its characters above 127
      exceed the threshold's share of its length. */
  lemma GarbledExactly(text: string, threshold: real)
    ensures IsMostlyGarbled(text, threshold) <==>
              text == [] || NonAsciiCount(text) as real > threshold * |text| as real
  {
    if text != [] {
      TextValidation.RatioAbove(NonAsciiCount(text), |text|, threshold);
    }
  }

  /** With the default threshold: more than three characters in ten above
      127. */
  lemma DefaultGarbledExactly(text: string)
    ensures IsMostlyGarbled(text) <==> text == [] || 10 * NonAsciiCount(text) > 3 * |text|
  {
    GarbledExactly(text, 0.3);
  }

  /** Non-empty ASCII text without stray control characters passes both
      tests, whatever non-negative thresholds are used. */
  lemma PlainAsciiPasses(text: string, corruptThreshold: real, garbleThreshold: real)
    requires text != []
    requires forall i :: 0 <= i < |text| ==> IsAscii(text[i]) && !IsBadControl(text[i])
    requires corruptThreshold >= 0.0 && garbleThreshold >= 0.0
    ensures !IsCorruptedText(text, corruptThreshold)
    ensures !IsMostlyGarbled(text, garbleThreshold)
  {
    CountIfNone(text, c => c == Replacement);
    CountIfNone(text, IsBadControl);
    CountIfNone(text, IsNonAscii);
    CorruptedExactly(text, corruptThreshold);
    GarbledExactly(text, garbleThreshold);
  }

  /** What the ingestion normaliser lets through passes the clean-up tests
      with their default thresholds: it holds no bad character at all, and
      at least 70% ASCII leaves at most 30% above 127. */
  lemma CleanedTextPasses(text: string)
    requires TextValidation.CleanText(text).Some?
    ensures !IsCorruptedText(TextValidation.CleanText(text).value)
    ensures !IsMostlyGarbled(TextValidation.CleanText(text).value)
  {
    var t := TextValidation.CleanText(text).value;
    assert TextValidation.IsClean(t) && TextValidation.IsValidText(t);
    assert forall i :: 0 <= i < |t| ==> t[i] in t;
    CountIfNone(t, c => c == Replacement);
    CountIfNone(t, IsBadControl);
    DefaultCorruptedExactly(t);
    TextValidation.DefaultValidTextExactly(t);
    CountIfComplement(t, c => IsAscii(c), IsNonAscii);
    DefaultGarbledExactly(t);
  }

  /** `delete_corrupted_vectors`: nothing for an empty list or a dry run,
      otherwise the ids in consecutive batches, until the store fails. */
  method DeleteCorruptedVectors<Id(==,!new)>(store: Batching.PointStore<Id>, corruptedIds: seq<Id>,
                                              batchSize: int := 100, dryRun: bool := true)
      returns (outcome: Batching.Deletion<Id>)
    modifies store
    ensures corruptedIds == [] ==> outcome == Batching.NothingToDelete
    ensures corruptedIds != [] && dryRun ==> outcome == Batching.DryRun(|corruptedIds|)
    ensures corruptedIds != [] && !dryRun && batchSize == 0 ==> outcome == Batching.Raised("ValueError")
    ensures corruptedIds != [] && !dryRun && batchSize < 0 ==> outcome == Batching.Deleted([])
    ensures corruptedIds != [] && !dryRun && batchSize > 0 ==>
              var all := Batching.Batches(corruptedIds, batchSize);
              var left := old(store.answersLeft);
              outcome == if left.None? || |all| <= left.value then Batching.Deleted(all)
                         else Batching.Interrupted(all[..left.value])
    ensures store.points == old(store.points) - Batching.Members(Batching.Flatten(outcome.Sent()))
    ensures store.answersLeft == Batching.Spend(old(store.answersLeft), |outcome.Sent()|)
  {
    outcome := Batching.DeleteInBatches(store, corruptedIds, batchSize, dryRun);
  }
}
