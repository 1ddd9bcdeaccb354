/** Microphone capture and speaker playback (main/audio.c). FreeRTOS tasks are methods run to
    completion, the event group's done bit is a boolean field, and the I2S driver is an oracle
    of read and write results. */
module Audio {
  import opened Bytes

  type int16 = x: int | -0x8000 <= x < 0x8000

  /** The rate the microphone is clocked at. */
  const SAMPLE_RATE_HZ: nat := 48000
  /** AUDIO_SAMPLE_RATE_HZ, the rate uploads are tagged with (main/audio.h). */
  const UPLOAD_SAMPLE_RATE_HZ: nat := 16000
  const MAX_RECORD_SAMPLES: nat := 480000
  /** A stop request is honoured only once this many samples are captured. */
  const MIN_RECORD_SAMPLES: nat := 9600
  const CHUNK_SAMPLES: nat := 1024
  const CHUNK_BYTES: nat := 2048
  const RECORD_WAIT_MS: nat := 4000

  // ---------------------------------------------------------------------------------------
  // Capture

  /** One i2s_channel_read: whether it returned ESP_OK, the samples it delivered, and whether
      a stop was requested while it was blocked. */
  datatype MicRead = MicRead(ok: bool, samples: seq<int16>, stopDuring: bool)

  /** The driver as an oracle; once it runs out, reads fail. */
  function MicAt(mic: seq<MicRead>, k: nat): MicRead
  {
    if k < |mic| then mic[k] else MicRead(false, [], false)
  }

  /** The loop condition of the capture loop. */
  predicate KeepCapturing(total: nat, stop: bool)
  {
    (!stop || total < MIN_RECORD_SAMPLES) && total < MAX_RECORD_SAMPLES
  }

  /** Samples requested by the next read: a whole chunk, or what still fits. */
  function ReadRequest(total: nat): nat
    requires total <= MAX_RECORD_SAMPLES
  {
    if total + CHUNK_SAMPLES > MAX_RECORD_SAMPLES then MAX_RECORD_SAMPLES - total else CHUNK_SAMPLES
  }

  datatype Capture = Capture(samples: seq<int16>, stop: bool, readError: bool)

  /** The capture loop from read k on, with `got` captured and the stop flag as given. A
      driver that delivers more than requested is cut to the request. */
  function CaptureFrom(mic: seq<MicRead>, k: nat, got: seq<int16>, stop: bool): (c: Capture)
    requires |got| <= MAX_RECORD_SAMPLES
    ensures got <= c.samples && |c.samples| <= MAX_RECORD_SAMPLES
    decreases |mic| - k
  {
    if !KeepCapturing(|got|, stop) then Capture(got, stop, false)
    else
      var r := MicAt(mic, k);
      if !r.ok then Capture(got, stop, true)
      else
        var n := Min(|r.samples|, ReadRequest(|got|));
        CaptureFrom(mic, k + 1, got + r.samples[..n], stop || r.stopDuring)
  }

  /** Capture ends only on a read error, on a full buffer, or on a stop after the minimum. */
  lemma {:induction false} CaptureEndsOnlyAtCapOrHonouredStop(mic: seq<MicRead>, k: nat, got: seq<int16>, stop: bool)
    requires |got| <= MAX_RECORD_SAMPLES
    ensures var c := CaptureFrom(mic, k, got, stop);
      c.readError || |c.samples| == MAX_RECORD_SAMPLES || (c.stop && |c.samples| >= MIN_RECORD_SAMPLES)
    decreases |mic| - k
  {
    if KeepCapturing(|got|, stop) {
      var r := MicAt(mic, k);
      if r.ok {
        var n := Min(|r.samples|, ReadRequest(|got|));
        CaptureEndsOnlyAtCapOrHonouredStop(mic, k + 1, got + r.samples[..n], stop || r.stopDuring);
      }
    }
  }

  /** A stop requested before the minimum is not honoured: a capture that ends short of the
      minimum ended on a read error. */
  lemma EarlyStopIgnored(mic: seq<MicRead>, k: nat, got: seq<int16>, stop: bool)
    requires |got| <= MAX_RECORD_SAMPLES
    requires |CaptureFrom(mic, k, got, stop).samples| < MIN_RECORD_SAMPLES
    ensures CaptureFrom(mic, k, got, stop).readError
  {
    CaptureEndsOnlyAtCapOrHonouredStop(mic, k, got, stop);
  }

  /** Reads that each deliver at least a chunk fill the buffer when there are enough of them
      and nobody asks to stop; from empty, 469 reads suffice. */
  lemma {:induction false} FullReadsFillBuffer(mic: seq<MicRead>, k: nat, got: seq<int16>)
    requires |got| <= MAX_RECORD_SAMPLES && k <= |mic|
    requires forall j :: k <= j < |mic| ==>
      mic[j].ok && |mic[j].samples| >= CHUNK_SAMPLES && !mic[j].stopDuring
    requires (|mic| - k) * CHUNK_SAMPLES >= MAX_RECORD_SAMPLES - |got|
    ensures var c := CaptureFrom(mic, k, got, false);
      |c.samples| == MAX_RECORD_SAMPLES && !c.readError && !c.stop
    decreases |mic| - k
  {
    if |got| < MAX_RECORD_SAMPLES {
      var r := mic[k];
      var n := Min(|r.samples|, ReadRequest(|got|));
      assert n == ReadRequest(|got|);
      FullReadsFillBuffer(mic, k + 1, got + r.samples[..n]);
    }
  }

  // ---------------------------------------------------------------------------------------
  // Playback

  /** One i2s_channel_write: ESP_OK with the bytes accepted, or an error. */
  datatype WriteResult = Wrote(bytes: nat) | WriteFailed

  /** The driver as an oracle; once it runs out, writes fail. */
  function WriteAt(writes: seq<WriteResult>, k: nat): WriteResult
  {
    if k < |writes| then writes[k] else WriteFailed
  }

  /** One write request: `len` bytes starting `offset` bytes into the PCM. */
  datatype WriteRequest = WriteRequest(offset: nat, len: nat)

  datatype Playback = Playback(requests: seq<WriteRequest>, written: nat, failed: bool)

  /** The playback write loop from write k on, `total` of `toWrite` bytes written. A driver
      that accepts more than requested is cut to the request. */
  function PlayFrom(writes: seq<WriteResult>, k: nat, total: nat, toWrite: nat): (p: Playback)
    requires total <= toWrite
    ensures total <= p.written <= toWrite
    ensures !p.failed ==> p.written == toWrite
    ensures forall i :: 0 <= i < |p.requests| ==>
      0 < p.requests[i].len <= CHUNK_BYTES && total <= p.requests[i].offset
      && p.requests[i].offset + p.requests[i].len <= toWrite
    decreases |writes| - k
  {
    if total >= toWrite then Playback([], total, false)
    else
      var req := WriteRequest(total, Min(toWrite - total, CHUNK_BYTES));
      match WriteAt(writes, k)
      case WriteFailed => Playback([req], total, true)
      case Wrote(b) =>
        var rest := PlayFrom(writes, k + 1, total + Min(b, req.len), toWrite);
        Playback([req] + rest.requests, rest.written, rest.failed)
  }

  /** When every write accepts what it is asked for, the PCM goes out in consecutive whole
      chunks, the last one possibly shorter, and all of it is written. */
  lemma {:induction false} FullWritesPlayAll(writes: seq<WriteResult>, k: nat, total: nat, toWrite: nat)
    requires total <= toWrite && k <= |writes|
    requires forall j :: k <= j < |writes| ==> writes[j].Wrote? && writes[j].bytes >= CHUNK_BYTES
    requires (|writes| - k) * CHUNK_BYTES >= toWrite - total
    ensures var p := PlayFrom(writes, k, total, toWrite);
      && !p.failed && p.written == toWrite
      && |p.requests| == (toWrite - total + CHUNK_BYTES - 1) / CHUNK_BYTES
      && forall i :: 0 <= i < |p.requests| ==>
           p.requests[i] == WriteRequest(total + i * CHUNK_BYTES, Min(toWrite - total - i * CHUNK_BYTES, CHUNK_BYTES))
    decreases |writes| - k
  {
    if total < toWrite {
      var w := Min(toWrite - total, CHUNK_BYTES);
      assert WriteAt(writes, k) == Wrote(writes[k].bytes);
      FullWritesPlayAll(writes, k + 1, total + w, toWrite);
      var p := PlayFrom(writes, k, total, toWrite);
      var rest := PlayFrom(writes, k + 1, total + w, toWrite);
      assert p.requests == [WriteRequest(total, w)] + rest.requests;
      forall i | 1 <= i < |p.requests|
        ensures p.requests[i] == WriteRequest(total + i * CHUNK_BYTES, Min(toWrite - total - i * CHUNK_BYTES, CHUNK_BYTES))
      {
        assert p.requests[i] == rest.requests[i - 1];
        assert w == CHUNK_BYTES;
      }
    }
  }

  /** audio_play_pcm's argument block. */
  datatype PlayArg = PlayArg(pcm: Option<nat>, samples: nat, rateHz: nat)

  predicate PlayArgValid(a: PlayArg)
  {
    a.pcm.Some? && a.samples > 0 && a.rateHz > 0
  }

  // ---------------------------------------------------------------------------------------
  // Module state

  class Recorder {
    /** s_record_buf: allocated by the first audio_start_listening, then reused. */
    var recordBuf: array?<int16>
    var recordedSamples: nat
    var stopRequested: bool
    /** s_ev exists, and its RECORD_DONE_BIT. */
    var eventGroup: bool
    var doneBit: bool
    var playArg: PlayArg

    ghost predicate Valid()
      reads this
    {
      && (recordBuf != null ==> recordBuf.Length == MAX_RECORD_SAMPLES)
      && recordedSamples <= MAX_RECORD_SAMPLES
      && (recordBuf == null ==> recordedSamples == 0)
      && (!eventGroup ==> !doneBit)
    }

    constructor ()
      ensures Valid() && recordBuf == null && recordedSamples == 0 && !stopRequested
      ensures !eventGroup && !doneBit && playArg == PlayArg(None, 0, 0)
    {
      recordBuf := null;
      recordedSamples := 0;
      stopRequested := false;
      eventGroup := false;
      doneBit := false;
      playArg := PlayArg(None, 0, 0);
    }

    /** audio_start_listening: clear the stop flag, allocate the buffer and the event group
        once, then clear the done bit and the count and spawn the capture task. An allocation
        failure returns early with the count and the done bit untouched. */
    method StartListening(bufAllocOk: bool, eventGroupOk: bool, spawnOk: bool) returns (spawned: bool)
      requires Valid()
      modifies this
      ensures Valid() && !stopRequested && playArg == old(playArg)
      ensures old(recordBuf) != null ==> recordBuf == old(recordBuf)
      ensures old(recordBuf) == null ==> (recordBuf != null <==> bufAllocOk) && (recordBuf != null ==> fresh(recordBuf))
      ensures var ready := recordBuf != null && (old(eventGroup) || eventGroupOk);
        && eventGroup == (old(eventGroup) || (recordBuf != null && eventGroupOk))
        && (ready ==> !doneBit && recordedSamples == 0 && spawned == spawnOk)
        && (!ready ==> doneBit == old(doneBit) && recordedSamples == old(recordedSamples) && !spawned)
    {
      stopRequested := false;
      spawned := false;
      if recordBuf == null {
        if !bufAllocOk {
          return;
        }
        recordBuf := new int16[MAX_RECORD_SAMPLES];
      }
      if !eventGroup {
        if !eventGroupOk {
          return;
        }
        eventGroup := true;
        doneBit := false;
      }
      doneBit := false;
      recordedSamples := 0;
      spawned := spawnOk;
    }

    /** audio_stop_listening. */
    method StopListening()
      modifies this`stopRequested
      ensures stopRequested
    {
      stopRequested := true;
    }

    /** record_task: the done bit is set on every exit. A missing buffer or a channel that
        cannot be set up ends the task with nothing else changed; otherwise the capture loop
        fills the buffer and its length becomes the recorded count. */
    method RecordTask(channelOk: bool, mic: seq<MicRead>)
      requires Valid() && eventGroup
      modifies this`recordedSamples, this`stopRequested, this`doneBit, recordBuf
      ensures Valid() && doneBit
      ensures recordBuf == null || !channelOk ==>
        recordedSamples == old(recordedSamples) && stopRequested == old(stopRequested)
        && (recordBuf != null ==> recordBuf[..] == old(recordBuf[..]))
      ensures recordBuf != null && channelOk ==>
        var c := CaptureFrom(mic, 0, [], old(stopRequested));
        && recordedSamples == |c.samples|
        && recordBuf[..recordedSamples] == c.samples
        && (forall i :: recordedSamples <= i < recordBuf.Length ==> recordBuf[i] == old(recordBuf[i]))
        && stopRequested == c.stop
    {
      if recordBuf == null || !channelOk {
        doneBit := true;
        return;
      }
      var total: nat := 0;
      var k: nat := 0;
      while KeepCapturing(total, stopRequested)
        invariant total <= MAX_RECORD_SAMPLES && k <= |mic|
        invariant CaptureFrom(mic, k, recordBuf[..total], stopRequested) == CaptureFrom(mic, 0, [], old(stopRequested))
        invariant forall i :: total <= i < recordBuf.Length ==> recordBuf[i] == old(recordBuf[i])
        decreases |mic| - k
      {
        var r := MicAt(mic, k);
        if !r.ok {
          break;
        }
        var n := Min(|r.samples|, ReadRequest(total));
        assert CaptureFrom(mic, k, recordBuf[..total], stopRequested)
            == CaptureFrom(mic, k + 1, recordBuf[..total] + r.samples[..n], stopRequested || r.stopDuring);
        StoreSamples(total, r.samples[..n]);
        total := total + n;
        stopRequested := stopRequested || r.stopDuring;
        k := k + 1;
      }
      recordedSamples := total;
      doneBit := true;
    }

    /** One successful read: its samples copied into the buffer after the first `at`. */
    method StoreSamples(at: nat, data: seq<int16>)
      requires recordBuf != null && recordBuf.Length == MAX_RECORD_SAMPLES
      requires at + |data| <= MAX_RECORD_SAMPLES
      modifies recordBuf
      ensures recordBuf[..at + |data|] == old(recordBuf[..at]) + data
      ensures forall i :: at + |data| <= i < recordBuf.Length ==> recordBuf[i] == old(recordBuf[i])
    {
      ghost var before := recordBuf[..at];
      forall j | 0 <= j < |data| {
        recordBuf[at + j] := data[j];
      }
      assert recordBuf[..at + |data|] == before + data;
    }

    /** audio_wait_record_done: false without an event group; otherwise the done bit, which
        the wait consumes. */
    method WaitRecordDone(timeoutMs: nat) returns (done: bool)
      requires Valid()
      modifies this`doneBit
      ensures Valid()
      ensures done == (old(eventGroup) && old(doneBit)) && !doneBit
    {
      if !eventGroup {
        return false;
      }
      done := doneBit;
      doneBit := false;
    }

    /** audio_play_recorded: spawn the playback task once an event group exists. */
    method PlayRecorded(spawnOk: bool) returns (spawned: bool)
      ensures spawned == (eventGroup && spawnOk)
    {
      spawned := eventGroup && spawnOk;
    }

    /** play_task: it waits for the done bit without clearing it and plays nothing when the
        bit is not set, when nothing was recorded or when the channel fails; otherwise it
        writes the recording in chunks. */
    method PlayTask(channelOk: bool, writes: seq<WriteResult>) returns (played: Option<Playback>)
      requires Valid()
      ensures played.Some? <==> doneBit && recordedSamples > 0 && channelOk
      ensures played.Some? ==> played.value == PlayFrom(writes, 0, 0, 2 * recordedSamples)
    {
      if !doneBit || recordedSamples == 0 || !channelOk {
        return None;
      }
      var p := WriteChunks(2 * recordedSamples, writes);
      return Some(p);
    }

    /** audio_play_pcm: record the arguments and spawn the task, unless one is invalid. */
    method PlayPcm(pcm: Option<nat>, samples: nat, rateHz: nat, spawnOk: bool) returns (spawned: bool)
      modifies this`playArg
      ensures var a := PlayArg(pcm, samples, rateHz);
        && (PlayArgValid(a) ==> playArg == a && spawned == spawnOk)
        && (!PlayArgValid(a) ==> playArg == old(playArg) && !spawned)
    {
      var a := PlayArg(pcm, samples, rateHz);
      if !PlayArgValid(a) {
        return false;
      }
      playArg := a;
      spawned := spawnOk;
    }

    /** play_pcm_task: re-check the argument block, then write the PCM in chunks. */
    method PlayPcmTask(channelOk: bool, writes: seq<WriteResult>) returns (played: Option<Playback>)
      ensures played.Some? <==> PlayArgValid(playArg) && channelOk
      ensures played.Some? ==> played.value == PlayFrom(writes, 0, 0, 2 * playArg.samples)
    {
      if !PlayArgValid(playArg) || !channelOk {
        return None;
      }
      var p := WriteChunks(2 * playArg.samples, writes);
      return Some(p);
    }

    /** audio_get_recorded_pcm: only the outputs the caller asks for are written. */
    method GetRecordedPcm(wantPcm: bool, wantSamples: bool)
      returns (pcm: Option<array?<int16>>, samples: Option<nat>)
      ensures pcm == if wantPcm then Some(recordBuf) else None
      ensures samples == if wantSamples then Some(recordedSamples) else None
    {
      pcm := if wantPcm then Some(recordBuf) else None;
      samples := if wantSamples then Some(recordedSamples) else None;
    }
  }

  /** The write loop shared by play_task and play_pcm_task. */
  method WriteChunks(toWrite: nat, writes: seq<WriteResult>) returns (p: Playback)
    ensures p == PlayFrom(writes, 0, 0, toWrite)
  {
    var requests: seq<WriteRequest> := [];
    var total: nat := 0;
    var k: nat := 0;
    while total < toWrite
      invariant total <= toWrite
      invariant var rest := PlayFrom(writes, k, total, toWrite);
        PlayFrom(writes, 0, 0, toWrite) == Playback(requests + rest.requests, rest.written, rest.failed)
      decreases |writes| - k
    {
      var w := Min(toWrite - total, CHUNK_BYTES);
      var r := WriteAt(writes, k);
      ghost var here := PlayFrom(writes, k, total, toWrite);
      if r.WriteFailed? {
        assert here == Playback([WriteRequest(total, w)], total, true);
        requests := requests + [WriteRequest(total, w)];
        return Playback(requests, total, true);
      }
      ghost var rest := PlayFrom(writes, k + 1, total + Min(r.bytes, w), toWrite);
      assert here == Playback([WriteRequest(total, w)] + rest.requests, rest.written, rest.failed);
      AppendAssoc(requests, [WriteRequest(total, w)], rest.requests);
      requests := requests + [WriteRequest(total, w)];
      total := total + Min(r.bytes, w);
      k := k + 1;
    }
    assert requests + [] == requests;
    return Playback(requests, total, false);
  }
}
