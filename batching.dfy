/**
 * Sending the payload to the backend in slices of at most 500 records,
 * counting what was imported and stopping at the first error.
 *
 * The backend's upsert is a parameter: it answers each request, given the
 * requests sent before it and the slice being sent, with an error or an
 * optional row count. Deduplication by `(org_id, email)` happens on its side.
 */
module Batching {
  import opened Wrappers

  const ChunkSize: nat := 500

  /** The upsert's answer: an error, or success with the `count` it may report. */
  datatype Reply = Failed(message: string) | Done(count: Option<nat>)

  /** The backend: its answer to a slice, given the slices it received before. */
  type Backend<-T> = (seq<seq<T>>, seq<T>) -> Reply

  /** How the loop ended: every slice accepted with this many rows counted, or the first error. */
  datatype Delivery = Delivered(inserted: nat) | Aborted(error: string)

  function Min(a: int, b: int): int { if a <= b then a else b }

  /** All slices, end to end. */
  function Flatten<T>(slices: seq<seq<T>>): seq<T> {
    if slices == [] then [] else slices[0] + Flatten(slices[1..])
  }

  /**
   * The slices the loop cuts: `payload.slice(i, i + 500)` for i = 0, 500, 1000, ...
   * There are ceil(n / 500) of them, each non-empty and at most 500 long.
   */
  function Batches<T>(payload: seq<T>): (slices: seq<seq<T>>)
    ensures |slices| == (|payload| + ChunkSize - 1) / ChunkSize
    ensures forall k :: 0 <= k < |slices| ==> 0 < |slices[k]| <= ChunkSize
    decreases |payload|
  {
    if |payload| == 0 then []
    else if |payload| <= ChunkSize then [payload]
    else [payload[..ChunkSize]] + Batches(payload[ChunkSize..])
  }

  /** The `k`-th slice is the contiguous stretch starting at `k * 500`, cut at the payload's end. */
  lemma {:induction false} BatchAt<T>(payload: seq<T>, k: nat)
    requires k < |Batches(payload)|
    ensures Batches(payload)[k] == payload[k * ChunkSize .. Min(k * ChunkSize + ChunkSize, |payload|)]
    decreases |payload|
  {
    if k > 0 {
      var rest := payload[ChunkSize..];
      assert Batches(payload)[k] == Batches(rest)[k - 1];
      BatchAt(rest, k - 1);
      var lo := (k - 1) * ChunkSize;
      var hi := Min(lo + ChunkSize, |rest|);
      ShiftOffsets(k, |payload|);
      ShiftSlice(payload, ChunkSize, lo, hi);
    }
  }

  /** Slice `k - 1` of the rest, moved back by one chunk, is where slice `k` lies. */
  lemma ShiftOffsets(k: nat, n: nat)
    requires k > 0 && n >= ChunkSize
    ensures (k - 1) * ChunkSize + ChunkSize == k * ChunkSize
    ensures Min((k - 1) * ChunkSize + ChunkSize, n - ChunkSize) + ChunkSize == Min(k * ChunkSize + ChunkSize, n)
  {
  }

  /** A slice of a suffix is a slice of the whole, moved by the suffix's offset. */
  lemma ShiftSlice<T>(s: seq<T>, d: nat, lo: nat, hi: nat)
    requires d <= |s| && lo <= hi <= |s| - d
    ensures s[d..][lo..hi] == s[lo + d .. hi + d]
  {
    assert forall j :: 0 <= j < hi - lo ==> s[d..][lo..hi][j] == s[lo + d + j];
  }

  /** The slices, end to end, are the payload: nothing is lost, repeated or reordered. */
  lemma {:induction false} BatchesCover<T>(payload: seq<T>)
    ensures Flatten(Batches(payload)) == payload
    decreases |payload|
  {
    if |payload| > ChunkSize {
      var rest := payload[ChunkSize..];
      BatchesCover(rest);
      assert Batches(payload)[1..] == Batches(rest);
      assert payload == payload[..ChunkSize] + rest;
    } else if |payload| > 0 {
      assert Flatten([payload]) == payload + Flatten([]);
    }
  }

  /** What one accepted slice adds to `inserted`: `count ?? slice.length`. */
  function Credit(reply: Reply, size: nat): (credit: nat)
    ensures reply == Done(None) ==> credit == size
    ensures reply.Done? && reply.count.Some? ==> credit == reply.count.value
  {
    match reply
    case Failed(_) => 0
    case Done(count) => if count.Some? then count.value else size
  }

  /** The backend's answer to the `k`-th slice, after the slices before it. */
  function ReplyAt<T>(backend: Backend<T>, slices: seq<seq<T>>, k: nat): Reply
    requires k < |slices|
  {
    backend(slices[..k], slices[k])
  }

  /** `inserted` after the first `n` slices were accepted. */
  function Credited<T>(backend: Backend<T>, slices: seq<seq<T>>, n: nat): nat
    requires n <= |slices|
  {
    if n == 0 then 0 else Credited(backend, slices, n - 1) + Credit(ReplyAt(backend, slices, n - 1), |slices[n - 1]|)
  }

  /**
   * A run of the loop over `payload`: `sent` are the first slices, in order;
   * every one but the last was accepted; the run either accepted all slices
   * and summed their credits, or stopped at the first error, sending nothing after it.
   */
  ghost predicate IsRun<T>(payload: seq<T>, backend: Backend<T>, outcome: Delivery, sent: seq<seq<T>>) {
    var slices := Batches(payload);
    && |sent| <= |slices| && sent == slices[..|sent|]
    && (forall k :: 0 <= k < |sent| - 1 ==> ReplyAt(backend, slices, k).Done?)
    && match outcome
       case Delivered(inserted) =>
         && |sent| == |slices|
         && (|sent| > 0 ==> ReplyAt(backend, slices, |sent| - 1).Done?)
         && inserted == Credited(backend, slices, |slices|)
       case Aborted(error) =>
         |sent| > 0 && ReplyAt(backend, slices, |sent| - 1) == Failed(error)
  }

  /** Slice `k` exists exactly when it starts before the payload's end. */
  lemma SliceExists(n: nat, k: nat)
    ensures k * ChunkSize < n <==> k < (n + ChunkSize - 1) / ChunkSize
  {
  }

  /** The loop's state after `n` accepted slices: the first `n` slices were sent and all accepted. */
  ghost predicate AcceptedPrefix<T>(payload: seq<T>, backend: Backend<T>, sent: seq<seq<T>>) {
    var slices := Batches(payload);
    && |sent| <= |slices| && sent == slices[..|sent|]
    && (forall k :: 0 <= k < |sent| ==> ReplyAt(backend, slices, k).Done?)
  }

  /** Stopping at an error after an accepted prefix is a run. */
  lemma AbortIsRun<T>(payload: seq<T>, backend: Backend<T>, accepted: seq<seq<T>>, error: string)
    requires AcceptedPrefix(payload, backend, accepted) && |accepted| < |Batches(payload)|
    requires ReplyAt(backend, Batches(payload), |accepted|) == Failed(error)
    ensures IsRun(payload, backend, Aborted(error), accepted + [Batches(payload)[|accepted|]])
  {
    var slices := Batches(payload);
    assert accepted + [slices[|accepted|]] == slices[..|accepted| + 1];
  }

  /** Sending the next slice and having it accepted extends the accepted prefix. */
  lemma AcceptNext<T>(payload: seq<T>, backend: Backend<T>, accepted: seq<seq<T>>)
    requires AcceptedPrefix(payload, backend, accepted) && |accepted| < |Batches(payload)|
    requires ReplyAt(backend, Batches(payload), |accepted|).Done?
    ensures AcceptedPrefix(payload, backend, accepted + [Batches(payload)[|accepted|]])
  {
    var slices := Batches(payload);
    assert accepted + [slices[|accepted|]] == slices[..|accepted| + 1];
  }

  /** Accepting every slice is a run, with `inserted` the sum of the credits. */
  lemma DeliverIsRun<T>(payload: seq<T>, backend: Backend<T>, sent: seq<seq<T>>)
    requires AcceptedPrefix(payload, backend, sent) && |sent| == |Batches(payload)|
    ensures IsRun(payload, backend, Delivered(Credited(backend, Batches(payload), |sent|)), sent)
  {
  }

  /**
   * The loop's state before each iteration: `i` is where the next slice
   * starts, the slices sent so far were all accepted, and `inserted` is the sum of their credits.
   */
  ghost predicate Progress<T>(payload: seq<T>, backend: Backend<T>, sent: seq<seq<T>>, i: int, inserted: int) {
    && i == |sent| * ChunkSize
    && AcceptedPrefix(payload, backend, sent)
    && (i < |payload| <==> |sent| < |Batches(payload)|)
    && inserted == Credited(backend, Batches(payload), |sent|)
  }

  /** The next slice the loop cuts at `i`, `payload.slice(i, i + 500)`. */
  function NextSlice<T>(payload: seq<T>, i: nat): seq<T>
    requires i < |payload|
  {
    payload[i .. Min(i + ChunkSize, |payload|)]
  }

  /** Nothing sent, nothing counted: the state the loop starts in. */
  lemma ProgressStart<T>(payload: seq<T>, backend: Backend<T>)
    ensures Progress(payload, backend, [], 0, 0)
  {
    SliceExists(|payload|, 0);
  }

  /** An accepted slice moves `i` on by 500 and adds its credit. */
  lemma ProgressStep<T>(payload: seq<T>, backend: Backend<T>, sent: seq<seq<T>>, i: nat, inserted: nat)
    requires Progress(payload, backend, sent, i, inserted) && i < |payload|
    requires backend(sent, NextSlice(payload, i)).Done?
    ensures var slice := NextSlice(payload, i);
      Progress(payload, backend, sent + [slice], i + ChunkSize,
               inserted + Credit(backend(sent, slice), |slice|))
  {
    var slices := Batches(payload);
    BatchAt(payload, |sent|);
    assert NextSlice(payload, i) == slices[|sent|];
    assert sent == slices[..|sent|];
    AcceptNext(payload, backend, sent);
    SliceExists(|payload|, |sent| + 1);
  }

  /** A rejected slice ends the loop in a run that stops at that error. */
  lemma ProgressAbort<T>(payload: seq<T>, backend: Backend<T>, sent: seq<seq<T>>, i: nat, inserted: nat)
    requires Progress(payload, backend, sent, i, inserted) && i < |payload|
    requires backend(sent, NextSlice(payload, i)).Failed?
    ensures IsRun(payload, backend, Aborted(backend(sent, NextSlice(payload, i)).message),
                  sent + [NextSlice(payload, i)])
  {
    var slices := Batches(payload);
    BatchAt(payload, |sent|);
    assert NextSlice(payload, i) == slices[|sent|];
    assert sent == slices[..|sent|];
    AbortIsRun(payload, backend, sent, backend(sent, NextSlice(payload, i)).message);
  }

  /** Leaving the loop at the payload's end is a completed run. */
  lemma ProgressDone<T>(payload: seq<T>, backend: Backend<T>, sent: seq<seq<T>>, i: nat, inserted: nat)
    requires Progress(payload, backend, sent, i, inserted) && i >= |payload|
    ensures IsRun(payload, backend, Delivered(inserted), sent)
  {
    DeliverIsRun(payload, backend, sent);
  }

  /** The batching loop of `upload`: one request per slice, `inserted += count ?? slice.length`, throw on error. */
  method SendBatches<T>(payload: seq<T>, backend: Backend<T>) returns (outcome: Delivery, sent: seq<seq<T>>)
    ensures IsRun(payload, backend, outcome, sent)
  {
    var inserted := 0;
    var i := 0;
    sent := [];
    ProgressStart(payload, backend);
    while i < |payload|
      invariant Progress(payload, backend, sent, i, inserted)
      decreases |payload| - i
    {
      var slice := payload[i .. Min(i + ChunkSize, |payload|)];
      var reply := backend(sent, slice);
      if reply.Failed? {
        ProgressAbort(payload, backend, sent, i, inserted);
        return Aborted(reply.message), sent + [slice];
      }
      ProgressStep(payload, backend, sent, i, inserted);
      sent := sent + [slice];
      inserted := inserted + (if reply.count.Some? then reply.count.value else |slice|);
      i := i + ChunkSize;
    }
    ProgressDone(payload, backend, sent, i, inserted);
    outcome := Delivered(inserted);
  }

  /** When the backend never reports a count, the credits of the first `n` slices are their total length. */
  lemma {:induction false} CreditedUncounted<T>(backend: Backend<T>, slices: seq<seq<T>>, n: nat)
    requires n <= |slices|
    requires forall k :: 0 <= k < n ==> ReplyAt(backend, slices, k) == Done(None)
    ensures Credited(backend, slices, n) == |Flatten(slices[..n])|
  {
    if n > 0 {
      CreditedUncounted(backend, slices, n - 1);
      FlattenSnoc(slices[..n - 1], slices[n - 1]);
      assert slices[..n] == slices[..n - 1] + [slices[n - 1]];
    }
  }

  lemma {:induction false} FlattenSnoc<T>(slices: seq<seq<T>>, last: seq<T>)
    ensures Flatten(slices + [last]) == Flatten(slices) + last
  {
    if slices == [] {
      assert [] + [last] == [last];
    } else {
      assert (slices + [last])[1..] == slices[1..] + [last];
      FlattenSnoc(slices[1..], last);
    }
  }

  /** With no count ever reported, a completed run imports exactly the payload's length. */
  lemma UncountedImportsAll<T>(payload: seq<T>, backend: Backend<T>, outcome: Delivery, sent: seq<seq<T>>)
    requires IsRun(payload, backend, outcome, sent)
    requires forall k :: 0 <= k < |Batches(payload)| ==> ReplyAt(backend, Batches(payload), k) == Done(None)
    ensures outcome == Delivered(|payload|)
  {
    var slices := Batches(payload);
    CreditedUncounted(backend, slices, |slices|);
    assert slices[..|slices|] == slices;
    BatchesCover(payload);
  }

  /** A run is determined by the payload and the backend: the loop has exactly one possible transcript. */
  lemma RunIsUnique<T>(payload: seq<T>, backend: Backend<T>, o1: Delivery, s1: seq<seq<T>>, o2: Delivery, s2: seq<seq<T>>)
    requires IsRun(payload, backend, o1, s1) && IsRun(payload, backend, o2, s2)
    ensures o1 == o2 && s1 == s2
  {
  }
}
