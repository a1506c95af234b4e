/**
  The ReadSample loop of CaptureFrame. Each call produces one outcome: an
  empty sample is retried (after a 100 ms sleep), a failure of ReadSample,
  ConvertToContiguousBuffer or Lock leaves the loop without saving, and the
  first sample with data is converted and saved, which ends the loop.
*/
module SampleRead {
  import opened Common

  /** The step of one read that failed; each of them breaks out of the loop. */
  datatype FailedStep = ReadSampleFailed | ContiguousBufferFailed | LockFailed

  /** What one pass of the loop body meets. */
  datatype ReadOutcome = EmptySample | ReadFailure(step: FailedStep) | Sample(bytes: seq<Byte>)

  /**
    Where the loop ends for a given sequence of outcomes: with the sample at
    `index`, with the failure at `index`, or not at all within the outcomes
    given, when every one of them was an empty sample.
  */
  datatype ReadResult = Captured(index: nat, bytes: seq<Byte>) | Aborted(index: nat, step: FailedStep) | StillRetrying

  /** The loop from the i-th call of ReadSample on, every earlier call having returned no sample. */
  function ReadFrom(outcomes: seq<ReadOutcome>, i: nat): (r: ReadResult)
    requires i <= |outcomes|
    requires forall j :: 0 <= j < i ==> outcomes[j].EmptySample?
    decreases |outcomes| - i
    ensures r.Captured? ==> i <= r.index < |outcomes| && outcomes[r.index] == Sample(r.bytes)
    ensures r.Aborted? ==> i <= r.index < |outcomes| && outcomes[r.index] == ReadFailure(r.step)
    ensures r.Captured? || r.Aborted? ==> forall j :: 0 <= j < r.index ==> outcomes[j].EmptySample?
    ensures r.StillRetrying? ==> forall j :: 0 <= j < |outcomes| ==> outcomes[j].EmptySample?
  {
    if i == |outcomes| then StillRetrying
    else match outcomes[i]
      case EmptySample => ReadFrom(outcomes, i + 1)
      case ReadFailure(step) => Aborted(i, step)
      case Sample(bytes) => Captured(i, bytes)
  }

  /**
    The whole loop. Its result is decided by the first outcome that is not an
    empty sample: a sample is captured, a failure aborts; with none, the loop
    is still retrying.
  */
  function ReadLoop(outcomes: seq<ReadOutcome>): (r: ReadResult)
    ensures r.Captured? ==> r.index < |outcomes| && outcomes[r.index] == Sample(r.bytes)
    ensures r.Aborted? ==> r.index < |outcomes| && outcomes[r.index] == ReadFailure(r.step)
    ensures r.Captured? || r.Aborted? ==> forall j :: 0 <= j < r.index ==> outcomes[j].EmptySample?
    ensures r.StillRetrying? <==> forall j :: 0 <= j < |outcomes| ==> outcomes[j].EmptySample?
  {
    ReadFrom(outcomes, 0)
  }

  /** `count` empty samples in a row. */
  function EmptySamples(count: nat): (s: seq<ReadOutcome>)
    ensures |s| == count && forall j :: 0 <= j < count ==> s[j] == EmptySample
  {
    seq(count, _ => EmptySample)
  }

  /** The same loop result, seen `count` calls later. */
  function Delay(r: ReadResult, count: nat): ReadResult
  {
    match r
    case Captured(index, bytes) => Captured(index + count, bytes)
    case Aborted(index, step) => Aborted(index + count, step)
    case StillRetrying => StillRetrying
  }

  /** Empty samples never end the loop: any number of them only postpones the result. */
  lemma {:induction false} EmptySamplesAreRetried(count: nat, rest: seq<ReadOutcome>)
    ensures ReadLoop(EmptySamples(count) + rest) == Delay(ReadLoop(rest), count)
  {
    var outcomes := EmptySamples(count) + rest;
    ReadFromShift(outcomes, rest, count, 0);
  }

  /** Reading `outcomes` from count + i is reading `rest` from i, when `outcomes` is `count` empties then `rest`. */
  lemma {:induction false} ReadFromShift(outcomes: seq<ReadOutcome>, rest: seq<ReadOutcome>, count: nat, i: nat)
    requires outcomes == EmptySamples(count) + rest
    requires i <= |rest|
    requires forall j :: 0 <= j < i ==> rest[j].EmptySample?
    ensures ReadFrom(outcomes, 0) == Delay(ReadFrom(rest, i), count)
    decreases |rest| - i
  {
    assert forall j :: 0 <= j < count + i ==> outcomes[j].EmptySample?;
    ReadFromSkip(outcomes, 0, count + i);
    if i < |rest| && rest[i].EmptySample? {
      ReadFromShift(outcomes, rest, count, i + 1);
    }
  }

  /** A run of empty samples from i to k is skipped. */
  lemma {:induction false} ReadFromSkip(outcomes: seq<ReadOutcome>, i: nat, k: nat)
    requires i <= k <= |outcomes|
    requires forall j :: 0 <= j < k ==> outcomes[j].EmptySample?
    ensures ReadFrom(outcomes, i) == ReadFrom(outcomes, k)
    decreases k - i
  {
    if i < k {
      ReadFromSkip(outcomes, i + 1, k);
    }
  }

  /**
    Once the loop has ended, further outcomes are never requested: exactly
    one sample is saved, or none after a failure, whatever would come next.
  */
  lemma {:induction false} LaterReadsIgnored(outcomes: seq<ReadOutcome>, more: seq<ReadOutcome>)
    requires !ReadLoop(outcomes).StillRetrying?
    ensures ReadLoop(outcomes + more) == ReadLoop(outcomes)
  {
    var r := ReadLoop(outcomes);
    var all := outcomes + more;
    assert forall j :: 0 <= j <= r.index ==> all[j] == outcomes[j];
    ReadFromSkip(all, 0, r.index);
    ReadFromSkip(outcomes, 0, r.index);
  }
}
