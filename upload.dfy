/**
 The batching of `upsert_records`: the records are inserted `BatchSize` at a time, in
 order. The insert calls themselves, and the one-by-one retry after a failed batch,
 are outside the model; what is modelled is the sequence of batches sent.
 */
module Upload {
  const BatchSize := 50

  /** The batches joined back together, in order. */
  function Concat<T>(batches: seq<seq<T>>): seq<T> {
    if |batches| == 0 then [] else Concat(batches[..|batches| - 1]) + batches[|batches| - 1]
  }

  /** Python's `records[lo:hi]` for `0 <= lo`: the end is clamped to the length. */
  function Slice<T>(records: seq<T>, lo: nat, hi: nat): (s: seq<T>)
    requires lo <= |records| && lo <= hi
    ensures |s| == (if hi <= |records| then hi else |records|) - lo
  {
    if hi <= |records| then records[lo..hi] else records[lo..]
  }

  /**
   Batch `b`: `records[i:i + BATCH_SIZE]` for `i = b * BatchSize`. It is full unless
   it reaches the end of the records, and empty only when it starts there.
   */
  function BatchAt<T>(records: seq<T>, b: nat): (batch: seq<T>)
    requires b * BatchSize <= |records|
    ensures |batch| <= BatchSize
    ensures b * BatchSize + BatchSize <= |records| ==> |batch| == BatchSize
    ensures |batch| == 0 <==> b * BatchSize == |records|
  {
    Slice(records, b * BatchSize, b * BatchSize + BatchSize)
  }

  /**
   `for i in range(0, len(records), BATCH_SIZE): batch = records[i:i + BATCH_SIZE]`,
   after the early return on an empty list. Batch `b` is the slice starting at
   `b * BatchSize`; joined in order the batches give back the records; every batch
   is non-empty and at most `BatchSize` long, and only the last may be shorter.
   */
  method Batches<T>(records: seq<T>) returns (batches: seq<seq<T>>)
    ensures |records| == 0 ==> |batches| == 0
    ensures Concat(batches) == records
    ensures |batches| == (|records| + BatchSize - 1) / BatchSize
    ensures forall b :: 0 <= b < |batches| ==>
              && b * BatchSize < |records|
              && batches[b] == BatchAt(records, b)
    ensures forall b :: 0 <= b < |batches| ==> 0 < |batches[b]| <= BatchSize
    ensures forall b :: 0 <= b < |batches| - 1 ==> |batches[b]| == BatchSize
  {
    batches := [];
    if |records| == 0 {
      return;
    }
    var i := 0;
    while i < |records|
      invariant i == |batches| * BatchSize
      invariant |batches| > 0 ==> i - BatchSize < |records|
      invariant Concat(batches) == records[..if i <= |records| then i else |records|]
      invariant forall b :: 0 <= b < |batches| ==>
                  && b * BatchSize < |records|
                  && batches[b] == BatchAt(records, b)
      decreases |records| - i
    {
      var batch := Slice(records, i, i + BatchSize);
      var hi := if i + BatchSize <= |records| then i + BatchSize else |records|;
      assert Concat(batches) == records[..i];
      ConcatSnoc(batches, batch);
      assert records[..i] + batch == records[..hi];
      BatchesGrow(records, batches);
      batches := batches + [batch];
      i := i + BatchSize;
    }
    BatchCount(|records|, |batches|);
  }

  /** `n` records need `ceil(n / BatchSize)` batches. */
  lemma BatchCount(n: nat, count: nat)
    requires count * BatchSize - BatchSize < n <= count * BatchSize
    ensures count == (n + BatchSize - 1) / BatchSize
  {
  }

  /** The slices of the first `|batches|` batches, followed by the next slice, are the slices of one more. */
  lemma BatchesGrow<T>(records: seq<T>, batches: seq<seq<T>>)
    requires |batches| * BatchSize < |records|
    requires forall b :: 0 <= b < |batches| ==> b * BatchSize < |records| && batches[b] == BatchAt(records, b)
    ensures var more := batches + [BatchAt(records, |batches|)];
            forall b :: 0 <= b < |more| ==> b * BatchSize < |records| && more[b] == BatchAt(records, b)
  {
  }

  /** Appending a batch appends its records. */
  lemma ConcatSnoc<T>(batches: seq<seq<T>>, batch: seq<T>)
    ensures Concat(batches + [batch]) == Concat(batches) + batch
  {
    assert (batches + [batch])[..|batches|] == batches;
  }

  /** Batches of `BatchSize` records each hold `|batches| * BatchSize` records in all. */
  lemma {:induction false} FullConcatLength<T>(batches: seq<seq<T>>)
    requires forall b :: 0 <= b < |batches| ==> |batches[b]| == BatchSize
    ensures |Concat(batches)| == |batches| * BatchSize
  {
    if |batches| > 0 {
      FullConcatLength(batches[..|batches| - 1]);
    }
  }

  /**
   The batching is determined by its shape: any list of non-empty batches of at most
   `BatchSize` records, all full but the last, that joins back to `records` is the
   list of slices `Batches` produces.
   */
  lemma {:induction false} BatchingUnique<T>(records: seq<T>, batches: seq<seq<T>>)
    requires Concat(batches) == records
    requires forall b :: 0 <= b < |batches| ==> 0 < |batches[b]| <= BatchSize
    requires forall b :: 0 <= b < |batches| - 1 ==> |batches[b]| == BatchSize
    ensures forall b :: 0 <= b < |batches| ==>
              && b * BatchSize < |records|
              && batches[b] == BatchAt(records, b)
    decreases |batches|
  {
    if |batches| > 0 {
      var n := |batches| - 1;
      var init, last := batches[..n], batches[n];
      var front := Concat(init);
      FullConcatLength(init);
      assert records == front + last;
      BatchingUnique(front, init);
      forall b | 0 <= b < |batches|
        ensures && b * BatchSize < |records|
                && batches[b] == BatchAt(records, b)
      {
        if b < n {
          assert batches[b] == init[b];
          assert BatchAt(front, b) == BatchAt(records, b);
        } else {
          assert records[n * BatchSize..] == last;
        }
      }
    }
  }
}
