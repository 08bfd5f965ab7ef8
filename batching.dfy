/**
 * The deletion step shared by cleanup_pdf_vectors.py and
 * cleanup_corrupted_vectors.py: nothing happens for an empty id list or in
 * dry-run mode; otherwise the ids are sent to the vector store in slices
 * `ids[i:i + batch_size]` for `i in range(0, len(ids), batch_size)`. A delete
 * call that raises ends the loop, and the batches sent before it stay deleted.
 */
module Batching {
  import opened Wrappers

  /** The elements of `xs` as a set. */
  function Members<T>(xs: seq<T>): set<T> {
    if xs == [] then {} else Members(xs[..|xs| - 1]) + {xs[|xs| - 1]}
  }

  lemma {:induction false} MembersExactly<T>(xs: seq<T>, x: T)
    ensures x in Members(xs) <==> x in xs
  {
    if xs != [] {
      MembersExactly(xs[..|xs| - 1], x);
      assert xs == xs[..|xs| - 1] + [xs[|xs| - 1]];
    }
  }

  lemma {:induction false} MembersAppend<T>(xs: seq<T>, ys: seq<T>)
    ensures Members(xs + ys) == Members(xs) + Members(ys)
  {
    if ys != [] {
      var init := ys[..|ys| - 1];
      MembersAppend(xs, init);
      assert (xs + ys)[..|xs + ys| - 1] == xs + init;
      assert Members(xs + ys) == Members(xs + init) + {ys[|ys| - 1]};
    } else {
      assert xs + ys == xs;
    }
  }

  /** The batches one after the other. */
  function Flatten<T>(batches: seq<seq<T>>): seq<T> {
    if batches == [] then [] else batches[0] + Flatten(batches[1..])
  }

  lemma {:induction false} FlattenSnoc<T>(batches: seq<seq<T>>, batch: seq<T>)
    ensures Flatten(batches + [batch]) == Flatten(batches) + batch
  {
    if batches == [] {
      assert [] + [batch] == [batch];
      assert Flatten([batch]) == batch + Flatten([batch][1..]);
    } else {
      assert (batches + [batch])[1..] == batches[1..] + [batch];
      FlattenSnoc(batches[1..], batch);
    }
  }

  /** `batches` cut `ids` into consecutive slices, in order, each holding at
      least one and at most `size` ids, and all but the last exactly `size`. */
  predicate IsBatching<T(==)>(batches: seq<seq<T>>, ids: seq<T>, size: nat) {
    && Flatten(batches) == ids
    && (forall k :: 0 <= k < |batches| ==> 0 < |batches[k]| <= size)
    && (forall k :: 0 <= k < |batches| - 1 ==> |batches[k]| == size)
  }

  /** `[ids[i:i + size] for i in range(0, len(ids), size)]` */
  function Batches<T>(ids: seq<T>, size: nat): seq<seq<T>>
    requires size > 0
    decreases |ids|
  {
    if ids == [] then []
    else if |ids| <= size then [ids]
    else [ids[..size]] + Batches(ids[size..], size)
  }

  /** The slices of `range(0, len(ids), size)` are a batching of the ids. */
  lemma {:induction false} BatchesIsBatching<T>(ids: seq<T>, size: nat)
    requires size > 0
    ensures IsBatching(Batches(ids, size), ids, size)
  {
    var bs := Batches(ids, size);
    if ids == [] {
    } else if |ids| <= size {
      assert Flatten(bs) == ids + Flatten(bs[1..]);
    } else {
      var rest := Batches(ids[size..], size);
      BatchesIsBatching(ids[size..], size);
      assert bs[1..] == rest;
      assert Flatten(bs) == ids[..size] + Flatten(rest);
      assert ids[..size] + ids[size..] == ids;
      assert forall k :: 1 <= k < |bs| ==> bs[k] == rest[k - 1];
    }
  }

  /** Every batch but the last is full, so the first `k` batches, when more
      follow, hold exactly the first `k * size` ids. */
  lemma {:induction false} BatchesPrefix<T>(ids: seq<T>, size: nat, k: nat)
    requires size > 0 && k < |Batches(ids, size)|
    ensures k * size < |ids|
    ensures Flatten(Batches(ids, size)[..k]) == ids[..k * size]
  {
    if k > 0 {
      var bs := Batches(ids, size);
      var rest := Batches(ids[size..], size);
      assert |ids| > size;
      BatchesPrefix(ids[size..], size, k - 1);
      assert bs[..k][1..] == rest[..k - 1];
      assert Flatten(bs[..k]) == ids[..size] + Flatten(rest[..k - 1]);
      assert (k - 1) * size + size == k * size;
      assert ids[..size] + ids[size..][..(k - 1) * size] == ids[..k * size];
    }
  }

  /** One turn of the loop: the batch starting at `i` comes first among the
      batches of what is left. */
  lemma BatchesStep<T>(ids: seq<T>, size: nat, i: nat, end: nat)
    requires size > 0 && i < |ids|
    requires end == if i + size < |ids| then i + size else |ids|
    ensures Batches(ids[i..], size) == [ids[i..end]] + Batches(ids[end..], size)
  {
    var t := ids[i..];
    if |t| > size {
      assert t[..size] == ids[i..end] && t[size..] == ids[end..];
    } else {
      assert ids[i..end] == t && ids[end..] == [];
      assert Batches(ids[end..], size) == [];
    }
  }

  /** The loop's account of the batches sent so far stays true after one
      more batch. */
  lemma SentStep<T>(ids: seq<T>, size: nat, all: seq<seq<T>>, sent: seq<seq<T>>, i: nat, end: nat)
    requires size > 0 && i < |ids|
    requires end == if i + size < |ids| then i + size else |ids|
    requires sent + Batches(ids[i..], size) == all
    ensures (sent + [ids[i..end]]) + Batches(ids[end..], size) == all
    ensures Members(Flatten(sent + [ids[i..end]])) == Members(Flatten(sent)) + Members(ids[i..end])
  {
    var batch := ids[i..end];
    BatchesStep(ids, size, i, end);
    assert (sent + [batch]) + Batches(ids[end..], size) == sent + ([batch] + Batches(ids[end..], size));
    FlattenSnoc(sent, batch);
    MembersAppend(Flatten(sent), batch);
  }

  /** What the server still answers before its next delete call fails:
      `None` for a server that does not fail. */
  function Spend(left: Option<nat>, calls: nat): Option<nat> {
    if left.None? then None else Some(if calls <= left.value then left.value - calls else 0)
  }

  /** One more answered call. */
  lemma SpendStep(left: Option<nat>, calls: nat)
    requires left.Some? ==> calls <= left.value
    requires Spend(left, calls) != Some(0)
    ensures left.Some? ==> calls + 1 <= left.value
    ensures Spend(Spend(left, calls), 1) == Spend(left, calls + 1)
  {
  }

  /** The vector store, reduced to the ids of its points and to how many more
      delete calls it answers. */
  class PointStore<T(==,!new)> {
    var points: set<T>
    var answersLeft: Option<nat>

    constructor(points: set<T>, answersLeft: Option<nat>)
      ensures this.points == points && this.answersLeft == answersLeft
    {
      this.points := points;
      this.answersLeft := answersLeft;
    }

    /** `client.delete(points_selector=batch)`: removes the batch, or raises
        and changes nothing. */
    method Delete(batch: seq<T>) returns (ok: bool)
      modifies this
      ensures ok == (old(answersLeft) != Some(0))
      ensures ok ==> points == old(points) - Members(batch) && answersLeft == Spend(old(answersLeft), 1)
      ensures !ok ==> points == old(points) && answersLeft == old(answersLeft)
    {
      if answersLeft == Some(0) {
        return false;
      }
      points := points - Members(batch);
      answersLeft := Spend(answersLeft, 1);
      return true;
    }
  }

  /** How a deletion run ends. `Interrupted` is a delete call that raised
      after the batches `sent` had been deleted. */
  datatype Deletion<T> =
    | NothingToDelete
    | DryRun(wouldDelete: nat)
    | Deleted(batches: seq<seq<T>>)
    | Interrupted(sent: seq<seq<T>>)
    | Raised(exception: string)
  {
    /** The batches that reached the server and were deleted. */
    function Sent(): seq<seq<T>> {
      if Deleted? then batches else if Interrupted? then sent else []
    }
  }

  /** The batch loop of `delete_pdf_vectors` and `delete_corrupted_vectors`.
      A zero batch size makes `range` raise; a negative one makes it empty. */
  method DeleteInBatches<T(==,!new)>(store: PointStore<T>, ids: seq<T>, batchSize: int, dryRun: bool)
      returns (outcome: Deletion<T>)
    modifies store
    ensures ids == [] ==> outcome == NothingToDelete
    ensures ids != [] && dryRun ==> outcome == DryRun(|ids|)
    ensures ids != [] && !dryRun && batchSize == 0 ==> outcome == Raised("ValueError")
    ensures ids != [] && !dryRun && batchSize < 0 ==> outcome == Deleted([])
    ensures ids != [] && !dryRun && batchSize > 0 ==>
              var all := Batches(ids, batchSize);
              var left := old(store.answersLeft);
              outcome == if left.None? || |all| <= left.value then Deleted(all) else Interrupted(all[..left.value])
    ensures store.points == old(store.points) - Members(Flatten(outcome.Sent()))
    ensures store.answersLeft == Spend(old(store.answersLeft), |outcome.Sent()|)
  {
    if ids == [] {
      return NothingToDelete;
    }
    if dryRun {
      return DryRun(|ids|);
    }
    if batchSize == 0 {
      return Raised("ValueError");
    }
    if batchSize < 0 {
      return Deleted([]);
    }
    var sent, completed := SendBatches(store, ids, batchSize);
    if completed {
      return Deleted(sent);
    }
    return Interrupted(sent);
  }

  /** The loop itself, for a positive batch size: the batches go out in
      order until the server fails or none is left. */
  method SendBatches<T(==,!new)>(store: PointStore<T>, ids: seq<T>, batchSize: nat)
      returns (sent: seq<seq<T>>, completed: bool)
    requires batchSize > 0
    modifies store
    ensures var all := Batches(ids, batchSize);
            var left := old(store.answersLeft);
            && completed == (left.None? || |all| <= left.value)
            && sent == if completed then all else all[..left.value]
    ensures store.points == old(store.points) - Members(Flatten(sent))
    ensures store.answersLeft == Spend(old(store.answersLeft), |sent|)
  {
    ghost var all := Batches(ids, batchSize);
    ghost var left := store.answersLeft;
    sent := [];
    var i := 0;
    while i < |ids|
      invariant 0 <= i <= |ids|
      invariant sent + Batches(ids[i..], batchSize) == all
      invariant store.points == old(store.points) - Members(Flatten(sent))
      invariant left.Some? ==> |sent| <= left.value
      invariant store.answersLeft == Spend(left, |sent|)
      decreases |ids| - i
    {
      // The slice `ids[i:i + batch_size]` stops at the end of the list; once
      // it does, the next start lies past the end and the loop is over.
      var end := if i + batchSize < |ids| then i + batchSize else |ids|;
      var batch := ids[i..end];
      var ok := store.Delete(batch);
      if !ok {
        assert Batches(ids[i..], batchSize) != [];
        assert all[..|sent|] == sent;
        return sent, false;
      }
      SpendStep(left, |sent|);
      SentStep(ids, batchSize, all, sent, i, end);
      sent := sent + [batch];
      i := end;
    }
    assert Batches(ids[i..], batchSize) == [];
    assert sent == all;
    return sent, true;
  }
}
