/** The interaction state machine (main/state.c) together with the touch dispatch of
    main/ui.c. Calls into the audio, backend and task layers are recorded as effects in a log;
    clock readings, upload results and the backend's reply are inputs. */
module State {
  import opened Bytes
  import opened DeviceStates
  import Ui
  import Audio
  import Backend

  /** Size of last_user_text and last_reply_text, NUL included. */
  const TEXT_MAX: nat := 192
  const THINKING_MIN_DISPLAY_MS: nat := 300
  const DOUBLE_CLICK_THRESHOLD_MS: int := 500
  /** How long a tap in the listening state waits for the capture to finish. */
  const STOP_WAIT_MS: nat := 2000

  /** A call the state machine makes into another layer. */
  datatype Effect =
    | UiUpdated(state: DeviceState)
    | StartListening
    | SpawnThinking
    | PlayReply(pcm: nat, samples: nat, rateHz: nat)
    | StopListening
    | WaitRecordDone(timeoutMs: nat)
    | Upload(samples: nat, rateHz: nat)
    | Delay(ms: nat)

  /** What backend_get_reply_audio reports; the pcm is an offset, None the NULL pointer. */
  datatype ReplyAudio = ReplyAudio(pcm: Option<nat>, samples: nat, rateHz: nat)

  const NO_REPLY: ReplyAudio := ReplyAudio(None, 0, 0)

  predicate Playable(a: ReplyAudio)
  {
    a.pcm.Some? && a.samples > 0 && a.rateHz > 0
  }

  /** The side effect of entering a state. */
  function EntryEffects(target: DeviceState, reply: ReplyAudio): seq<Effect>
  {
    match target
    case Listening => [StartListening]
    case Thinking => [SpawnThinking]
    case Speaking => if Playable(reply) then [PlayReply(reply.pcm.value, reply.samples, reply.rateHz)] else []
    case _ => []
  }

  /** Everything set_state does besides storing the new state. */
  function SetStateEffects(current: DeviceState, target: DeviceState, reply: ReplyAudio): seq<Effect>
  {
    if current == target then [] else [UiUpdated(target)] + EntryEffects(target, reply)
  }

  function CountUiUpdates(log: seq<Effect>): nat
  {
    if log == [] then 0 else (if log[0].UiUpdated? then 1 else 0) + CountUiUpdates(log[1..])
  }

  function CountSpawns(log: seq<Effect>): nat
  {
    if log == [] then 0 else (if log[0].SpawnThinking? then 1 else 0) + CountSpawns(log[1..])
  }

  predicate HasPlayback(log: seq<Effect>)
  {
    exists i :: 0 <= i < |log| && log[i].PlayReply?
  }

  /** set_state: a no-op for the current state; otherwise one UI update, then capture on
      entering listening, exactly one upload task on entering thinking, and playback on
      entering speaking only for a playable reply. */
  lemma SetStateEffectsSpec(current: DeviceState, target: DeviceState, reply: ReplyAudio)
    ensures var e := SetStateEffects(current, target, reply);
      && (e == [] <==> current == target)
      && (current != target ==> e[0] == UiUpdated(target) && CountUiUpdates(e) == 1)
      && (StartListening in e <==> current != target && target == Listening)
      && CountSpawns(e) == (if current != target && target == Thinking then 1 else 0)
      && (HasPlayback(e) <==> current != target && target == Speaking && Playable(reply))
      && (HasPlayback(e) ==> e == [UiUpdated(Speaking), PlayReply(reply.pcm.value, reply.samples, reply.rateHz)])
  {
    var e := SetStateEffects(current, target, reply);
    if current != target {
      var tail := EntryEffects(target, reply);
      assert e[1..] == tail;
      assert CountUiUpdates(tail) == 0 && CountSpawns(tail) == (if target == Thinking then 1 else 0) by {
        if tail != [] {
          assert tail[1..] == [];
        }
      }
      if HasPlayback(e) {
        var i :| 0 <= i < |e| && e[i].PlayReply?;
      }
    }
  }

  /** The pause that keeps the thinking screen up: whole milliseconds left of the 300 ms. */
  function DwellEffects(elapsedUs: nat): seq<Effect>
  {
    var minDisplayUs := THINKING_MIN_DISPLAY_MS * 1000;
    if elapsedUs < minDisplayUs then [Delay((minDisplayUs - elapsedUs) / 1000)] else []
  }

  /** The upload time plus the pause reaches 300 ms up to the dropped sub-millisecond part,
      and never exceeds it. */
  lemma DwellBounds(elapsedUs: nat)
    ensures var d := DwellEffects(elapsedUs);
      && (elapsedUs >= THINKING_MIN_DISPLAY_MS * 1000 <==> d == [])
      && (d != [] ==> 299000 < elapsedUs + 1000 * d[0].ms <= 300000)
  {
  }

  /** C's `/` on int64, which truncates toward zero. */
  function CDiv(a: int, b: int): (q: int)
    requires b > 0
    ensures a >= 0 ==> 0 <= q * b <= a < q * b + b
    ensures a < 0 ==> q * b - b < a <= q * b <= 0
  {
    var m := if a >= 0 then a else -a;
    assert m == (m / b) * b + m % b && 0 <= m % b < b;
    if a >= 0 then m / b else -(m / b)
  }

  /** Milliseconds since the previous tap, as screen_clicked_cb computes them. */
  function ClickDeltaMs(nowUs: int, lastUs: int): int
  {
    CDiv(nowUs - lastUs, 1000)
  }

  predicate IsDoubleClick(nowUs: int, lastUs: int)
  {
    var delta := ClickDeltaMs(nowUs, lastUs);
    0 < delta < DOUBLE_CLICK_THRESHOLD_MS
  }

  /** In microseconds: a second tap counts when it comes at least 1 ms and less than 500 ms
      after the previous one. */
  lemma DoubleClickWindow(nowUs: int, lastUs: int)
    ensures IsDoubleClick(nowUs, lastUs) <==> 1000 <= nowUs - lastUs < 500000
  {
    var d := nowUs - lastUs;
    if d >= 0 {
      assert d / 1000 >= 1 <==> d >= 1000;
      assert d / 1000 < 500 <==> d < 500000;
    } else {
      assert -((-d) / 1000) <= 0;
    }
  }

  /** A touch event on the screen. */
  datatype TouchEvent = Pressing(x: int, y: int) | Released | Clicked | OtherTouch

  class Device {
    var current: DeviceState
    /** last_user_text and last_reply_text, as the C strings they hold. */
    var lastUserText: seq<byte>
    var lastReplyText: seq<byte>
    var lastClickUs: int
    var screen: Ui.Screen
    var log: seq<Effect>

    ghost predicate Valid()
      reads this
    {
      && |lastUserText| < TEXT_MAX && |lastReplyText| < TEXT_MAX
      && NoNul(lastUserText) && NoNul(lastReplyText)
      && Ui.OverlaysOnlyWhenIdle(screen, current)
    }

    /** The static initial state: idle, empty texts, no tap seen yet. */
    constructor (screen0: Ui.Screen)
      requires Ui.OverlaysOnlyWhenIdle(screen0, Idle)
      ensures Valid()
      ensures current == Idle && lastUserText == [] && lastReplyText == [] && lastClickUs == 0
      ensures screen == screen0 && log == []
    {
      current := Idle;
      lastUserText := [];
      lastReplyText := [];
      lastClickUs := 0;
      screen := screen0;
      log := [];
    }

    /** state_init: idle, without a UI update. */
    method Init()
      requires Valid()
      modifies this`current
      ensures Valid() && current == Idle
    {
      current := Idle;
    }

    /** set_state. */
    method SetState(target: DeviceState, reply: ReplyAudio)
      requires Valid()
      modifies this`current, this`screen, this`log
      ensures Valid() && current == target
      ensures log == old(log) + SetStateEffects(old(current), target, reply)
      ensures screen == if old(current) == target then old(screen) else Ui.UiUpdate(old(screen), target, lastReplyText)
    {
      if current == target {
        return;
      }
      current := target;
      screen := Ui.UiUpdate(screen, target, lastReplyText);
      log := log + [UiUpdated(target)];
      if target == Listening {
        log := log + [StartListening];
      }
      if target == Thinking {
        log := log + [SpawnThinking];
      }
      if target == Speaking && Playable(reply) {
        log := log + [PlayReply(reply.pcm.value, reply.samples, reply.rateHz)];
      }
    }

    /** The playback-done event: back to idle whatever was played. */
    method PlayDone(samples: nat, rateHz: nat)
      requires Valid()
      modifies this`current, this`screen, this`log
      ensures Valid() && current == Idle
      ensures log == old(log) + SetStateEffects(old(current), Idle, NO_REPLY)
      ensures screen == if old(current) == Idle then old(screen) else Ui.UiUpdate(old(screen), Idle, lastReplyText)
    {
      SetState(Idle, NO_REPLY);
    }

    /** thinking_task. Without a recording it goes idle without uploading. Otherwise it
        uploads tagged at 16 kHz, pauses out the rest of 300 ms, and then either copies both
        reply texts and speaks, or clears both texts and goes idle. `userText` and `replyText`
        are the backend's reply slots, `reply` its reply audio. */
    method ThinkingTask(pcmPresent: bool, samples: nat, uploadOk: bool, startUs: int, endUs: int,
                        userText: seq<byte>, replyText: seq<byte>, reply: ReplyAudio)
      requires Valid() && startUs <= endUs
      requires NoNul(userText) && NoNul(replyText)
      modifies this`current, this`screen, this`log, this`lastUserText, this`lastReplyText
      ensures Valid()
      ensures !pcmPresent || samples == 0 ==>
        && current == Idle && lastUserText == old(lastUserText) && lastReplyText == old(lastReplyText)
        && log == old(log) + SetStateEffects(old(current), Idle, reply)
        && screen == (if old(current) == Idle then old(screen) else Ui.UiUpdate(old(screen), Idle, lastReplyText))
      ensures pcmPresent && samples > 0 ==>
        var pre := old(log) + [Upload(samples, Audio.UPLOAD_SAMPLE_RATE_HZ)] + DwellEffects(endUs - startUs);
        && (uploadOk ==>
              && lastUserText == Backend.Bounded(userText, TEXT_MAX)
              && lastReplyText == Backend.Bounded(replyText, TEXT_MAX)
              && current == Speaking && log == pre + SetStateEffects(old(current), Speaking, reply)
              && screen == (if old(current) == Speaking then old(screen) else Ui.UiUpdate(old(screen), Speaking, lastReplyText)))
        && (!uploadOk ==>
              && lastUserText == [] && lastReplyText == []
              && current == Idle && log == pre + SetStateEffects(old(current), Idle, reply)
              && screen == (if old(current) == Idle then old(screen) else Ui.UiUpdate(old(screen), Idle, [])))
    {
      if !pcmPresent || samples == 0 {
        SetState(Idle, reply);
        return;
      }
      log := log + [Upload(samples, Audio.UPLOAD_SAMPLE_RATE_HZ)];
      var elapsedUs := endUs - startUs;
      var minDisplayUs := THINKING_MIN_DISPLAY_MS * 1000;
      if elapsedUs < minDisplayUs {
        log := log + [Delay((minDisplayUs - elapsedUs) / 1000)];
      }
      if uploadOk {
        lastUserText := Backend.Bounded(userText, TEXT_MAX);
        lastReplyText := Backend.Bounded(replyText, TEXT_MAX);
        SetState(Speaking, reply);
      } else {
        lastUserText := [];
        lastReplyText := [];
        SetState(Idle, reply);
      }
    }

    /** screen_clicked_cb. On the idle screen stroking shows the petting overlays and a
        double tap starts listening; elsewhere only taps matter: listening stops the capture,
        waits for it and moves on to thinking, the deprecated recorded state moves on to
        thinking, speaking returns to idle and thinking ignores the tap. */
    method ScreenClicked(ev: TouchEvent, nowUs: int)
      requires Valid()
      modifies this`current, this`screen, this`log, this`lastClickUs
      ensures Valid()
      ensures old(current) == Idle && ev.Pressing? ==>
        current == Idle && log == old(log) && lastClickUs == old(lastClickUs)
        && screen == Ui.PettingPress(old(screen), ev.x, ev.y)
      ensures old(current) == Idle && ev.Released? ==>
        current == Idle && log == old(log) && lastClickUs == old(lastClickUs)
        && screen == Ui.PettingRelease(old(screen))
      ensures old(current) == Idle && ev.Clicked? ==>
        && lastClickUs == nowUs
        && (IsDoubleClick(nowUs, old(lastClickUs)) ==>
              && current == Listening && log == old(log) + SetStateEffects(Idle, Listening, NO_REPLY)
              && screen == Ui.UiUpdate(old(screen), Listening, lastReplyText))
        && (!IsDoubleClick(nowUs, old(lastClickUs)) ==>
              current == Idle && log == old(log) && screen == old(screen))
      ensures old(current) == Idle && ev.OtherTouch? ==>
        current == Idle && log == old(log) && screen == old(screen) && lastClickUs == old(lastClickUs)
      ensures old(current) != Idle ==> lastClickUs == old(lastClickUs)
      ensures old(current) != Idle && !ev.Clicked? ==>
        current == old(current) && log == old(log) && screen == old(screen)
      ensures old(current) == Listening && ev.Clicked? ==>
        current == Thinking
        && log == old(log) + [StopListening, WaitRecordDone(STOP_WAIT_MS)] + SetStateEffects(Listening, Thinking, NO_REPLY)
        && screen == Ui.UiUpdate(old(screen), Thinking, lastReplyText)
      ensures old(current) == Recorded && ev.Clicked? ==>
        current == Thinking && log == old(log) + SetStateEffects(Recorded, Thinking, NO_REPLY)
        && screen == Ui.UiUpdate(old(screen), Thinking, lastReplyText)
      ensures old(current) == Thinking && ev.Clicked? ==>
        current == Thinking && log == old(log) && screen == old(screen)
      ensures old(current) == Speaking && ev.Clicked? ==>
        current == Idle && log == old(log) + SetStateEffects(Speaking, Idle, NO_REPLY)
        && screen == Ui.UiUpdate(old(screen), Idle, lastReplyText)
    {
      var cur := current;
      if cur == Idle && ev.Pressing? {
        screen := Ui.PettingPress(screen, ev.x, ev.y);
        return;
      }
      if cur == Idle && ev.Released? {
        screen := Ui.PettingRelease(screen);
        return;
      }
      if cur == Idle && ev.Clicked? {
        var deltaMs := CDiv(nowUs - lastClickUs, 1000);
        lastClickUs := nowUs;
        if deltaMs > 0 && deltaMs < DOUBLE_CLICK_THRESHOLD_MS {
          SetState(Listening, NO_REPLY);
        }
        return;
      }
      if ev.Clicked? {
        match cur
        case Listening =>
          log := log + [StopListening, WaitRecordDone(STOP_WAIT_MS)];
          SetState(Thinking, NO_REPLY);
        case Recorded =>
          SetState(Thinking, NO_REPLY);
        case Thinking =>
        case Speaking =>
          SetState(Idle, NO_REPLY);
        case Idle =>
      }
    }

    /** petting_smile_timer_cb. */
    method PettingTimerFired()
      requires Valid()
      modifies this`screen
      ensures Valid()
      ensures screen == Ui.PettingTimeout(old(screen), current)
    {
      screen := Ui.PettingTimeout(screen, current);
    }

    /** get_state. */
    method GetState() returns (s: DeviceState)
      ensures s == current
    {
      return current;
    }

    /** state_get_last_user_text: the transcript, at most 191 bytes. */
    method GetLastUserText() returns (t: seq<byte>)
      requires Valid()
      ensures t == lastUserText && |t| < TEXT_MAX && NoNul(t)
    {
      return lastUserText;
    }

    /** state_get_last_reply_text: the reply, at most 191 bytes. */
    method GetLastReplyText() returns (t: seq<byte>)
      requires Valid()
      ensures t == lastReplyText && |t| < TEXT_MAX && NoNul(t)
    {
      return lastReplyText;
    }
  }
}
