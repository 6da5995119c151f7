/**
 * The audio FIFO shared by the emulator's sound output (the producer,
 * `systemOnWriteDataToSoundBuffer`) and the SDL audio callback (the
 * consumer, `audioCallback`), described on the logical queue of samples.
 * The in-place ring buffer that realises it is `Session.EmuSession`.
 */
module AudioFifo {
  import opened Basics

  /** `AUDIO_FIFO_CAP`: the number of `int16` cells in the ring. */
  const Cap: nat := 8192

  /** `n` samples of silence, what `memset(stream, 0, len)` leaves behind. */
  function Silence(n: nat): (r: seq<int16>)
    ensures |r| == n
    ensures forall i :: 0 <= i < n ==> r[i] == 0
  {
    seq(n, _ => 0)
  }

  /**
   * How many samples an accepted batch of `length` enqueues: the batch is cut
   * to an even count (`length = (length / 2) * 2`) so that stereo pairs stay
   * aligned; a negative length writes nothing.
   */
  function PairedCount(length: int): (n: nat)
    ensures n % 2 == 0
    ensures length <= 0 ==> n == 0
    ensures length > 0 ==> n <= length < n + 2
  {
    if length <= 0 then 0 else (length / 2) * 2
  }

  /**
   * Whether the producer takes a batch at all: never in turbo mode, and only
   * when the queued samples plus the whole, untruncated batch stay strictly
   * below the capacity.
   */
  predicate Accepts(queued: int, length: int, turbo: bool)
    ensures Accepts(queued, length, turbo) && length >= 0 ==> queued + PairedCount(length) < Cap
    ensures turbo || queued + length >= Cap ==> !Accepts(queued, length, turbo)
  {
    !turbo && queued + length < Cap
  }

  /** The samples one producer call appends to a queue holding `queued`. */
  function Enqueued(queued: int, wave: seq<int16>, length: int, turbo: bool): (r: seq<int16>)
    requires length <= |wave|
    ensures r <= wave
    ensures |r| % 2 == 0
    ensures !Accepts(queued, length, turbo) ==> r == []
    ensures Accepts(queued, length, turbo) ==> |r| == PairedCount(length)
    ensures queued < Cap ==> queued + |r| < Cap
  {
    if Accepts(queued, length, turbo) then wave[..PairedCount(length)] else []
  }

  /**
   * How many samples one callback asking for `samples` takes from a queue
   * holding `queued`: all of them, or none at all in turbo mode and on an
   * underrun.
   */
  function Dequeued(queued: nat, samples: nat, turbo: bool): (k: nat)
    ensures k == 0 || k == samples
    ensures k <= queued
    ensures k == samples <==> samples == 0 || (!turbo && samples <= queued)
  {
    if turbo || queued < samples then 0 else samples
  }

  /** What one callback asking for `samples` writes into its output. */
  function Output(q: seq<int16>, samples: nat, turbo: bool): (out: seq<int16>)
    ensures |out| == samples
    ensures Dequeued(|q|, samples, turbo) == samples ==> out == q[..samples]
    ensures Dequeued(|q|, samples, turbo) != samples ==> out == Silence(samples)
  {
    if turbo || |q| < samples then Silence(samples) else q[..samples]
  }

  /** One call on the FIFO, as the emulator and the audio device make them. */
  datatype AudioCall =
    | Produce(wave: seq<int16>, length: int, turbo: bool)
    | Consume(bytes: nat, turbo: bool)

  /** Every producer call hands over at least `length` samples. */
  predicate WellFormed(calls: seq<AudioCall>)
  {
    forall k :: 0 <= k < |calls| && calls[k].Produce? ==> calls[k].length <= |calls[k].wave|
  }

  /** Dropping the first call keeps a sequence well formed. */
  lemma WellFormedTail(calls: seq<AudioCall>)
    requires WellFormed(calls) && calls != []
    ensures WellFormed(calls[1..])
  {
    forall k | 0 <= k < |calls[1..]| && calls[1..][k].Produce?
      ensures calls[1..][k].length <= |calls[1..][k].wave|
    {
      assert calls[1..][k] == calls[k + 1];
    }
  }

  /**
   * The outcome of a sequence of calls: the queue left behind, every sample
   * accepted by a producer call and every sample handed to the device.
   */
  datatype Replayed = Replayed(queue: seq<int16>, accepted: seq<int16>, delivered: seq<int16>)

  function Replay(q: seq<int16>, calls: seq<AudioCall>): Replayed
    requires WellFormed(calls)
    decreases |calls|
  {
    if calls == [] then Replayed(q, [], [])
    else
      WellFormedTail(calls);
      match calls[0]
      case Produce(wave, length, turbo) =>
        var added := Enqueued(|q|, wave, length, turbo);
        var rest := Replay(q + added, calls[1..]);
        Replayed(rest.queue, added + rest.accepted, rest.delivered)
      case Consume(bytes, turbo) =>
        var k := Dequeued(|q|, bytes / 2, turbo);
        var rest := Replay(q[k..], calls[1..]);
        Replayed(rest.queue, rest.accepted, q[..k] + rest.delivered)
  }

  /**
   * Conservation over any sequence of calls: what was queued plus what was
   * accepted is exactly what was delivered, in order, followed by what is
   * still queued; and the queue never reaches the capacity.
   */
  lemma {:induction false} ReplayConserves(q: seq<int16>, calls: seq<AudioCall>)
    requires WellFormed(calls)
    ensures q + Replay(q, calls).accepted == Replay(q, calls).delivered + Replay(q, calls).queue
    ensures |q| < Cap ==> |Replay(q, calls).queue| < Cap
    decreases |calls|
  {
    if calls != [] {
      WellFormedTail(calls);
      match calls[0]
      case Produce(wave, length, turbo) =>
        var added := Enqueued(|q|, wave, length, turbo);
        ReplayConserves(q + added, calls[1..]);
        var rest := Replay(q + added, calls[1..]);
        calc {
          q + (added + rest.accepted);
          (q + added) + rest.accepted;
          rest.delivered + rest.queue;
        }
      case Consume(bytes, turbo) =>
        var k := Dequeued(|q|, bytes / 2, turbo);
        ReplayConserves(q[k..], calls[1..]);
        var rest := Replay(q[k..], calls[1..]);
        calc {
          q + rest.accepted;
          { assert q == q[..k] + q[k..]; }
          q[..k] + (q[k..] + rest.accepted);
          q[..k] + (rest.delivered + rest.queue);
          (q[..k] + rest.delivered) + rest.queue;
        }
    }
  }

  /**
   * Starting from an empty FIFO, the samples handed to the device are a prefix
   * of the accepted samples: nothing is reordered, duplicated or invented.
   */
  lemma DeliveredIsPrefixOfAccepted(calls: seq<AudioCall>)
    requires WellFormed(calls)
    ensures Replay([], calls).delivered <= Replay([], calls).accepted
    ensures |Replay([], calls).accepted| - |Replay([], calls).delivered| < Cap
  {
    ReplayConserves([], calls);
    assert [] + Replay([], calls).accepted == Replay([], calls).accepted;
  }
}
