/** What main/ui.c shows for each device state, and the petting overlays of the idle screen.
    The LVGL objects are reduced to their visibility, the two labels to their text and colour,
    and the petting timer to whether it is pending. */
module Ui {
  import opened Bytes
  import opened DeviceStates

  /** The screen. `ready` says ui_init created the screen and its objects; before that every
      update is ignored. */
  datatype Screen = Screen(
    ready: bool,
    stateName: string,
    stateColor: nat,
    idleVisible: bool,
    smileVisible: bool,
    handVisible: bool,
    handX: int,
    handY: int,
    heartVisible: bool,
    replyVisible: bool,
    replyLabel: seq<byte>,
    pettingTimer: bool)

  /** The screen as ui_init leaves it: every image hidden, "IDLE" in white, no reply. */
  function InitialScreen(ready: bool): (s: Screen)
    ensures !s.idleVisible && !s.smileVisible && !s.handVisible && !s.heartVisible
    ensures !s.replyVisible && !s.pettingTimer
  {
    Screen(ready, "IDLE", 0xFFFFFF, false, false, false, 0, 0, false, false, [], false)
  }

  function StateName(state: DeviceState): string
  {
    match state
    case Idle => "IDLE"
    case Listening => "LISTENING"
    case Recorded => "RECORDED"
    case Thinking => "THINKING"
    case Speaking => "SPEAKING"
  }

  /** The label colour as 0xRRGGBB. */
  function StateColor(state: DeviceState): (c: nat)
    ensures c <= 0xFFFFFF
  {
    match state
    case Idle => 0xFFFFFF
    case Listening => 0x00CCFF
    case Recorded => 0x00FF88
    case Thinking => 0xFFDD00
    case Speaking => 0xFF88FF
  }

  /** The reply label's text in the speaking state. */
  function ReplyLabelText(lastReply: seq<byte>): (t: seq<byte>)
    ensures t != []
    ensures lastReply != [] ==> t == lastReply
  {
    if lastReply != [] then lastReply else Ascii("(no reply)")
  }

  /** ui_update: label, face images, petting overlays, petting timer and reply label. */
  function UiUpdate(s: Screen, state: DeviceState, lastReply: seq<byte>): (r: Screen)
    ensures !s.ready ==> r == s
    ensures s.ready ==>
      && r.ready
      && r.stateName == StateName(state) && r.stateColor == StateColor(state)
      && (r.idleVisible <==> state == Idle || state == Thinking)
      && (r.smileVisible <==> state == Speaking || state == Listening)
      && (state != Idle ==> !r.handVisible && !r.heartVisible && !r.pettingTimer)
      && (state == Idle ==> r.handVisible == s.handVisible && r.heartVisible == s.heartVisible
                            && r.pettingTimer == s.pettingTimer)
      && (r.replyVisible <==> state == Speaking)
      && r.replyLabel == (if state == Speaking then ReplyLabelText(lastReply) else [])
      && r.handX == s.handX && r.handY == s.handY
  {
    if !s.ready then s
    else
      var leaving := state != Idle;
      s.(stateName := StateName(state),
         stateColor := StateColor(state),
         idleVisible := state == Idle || state == Thinking,
         smileVisible := state == Speaking || state == Listening,
         handVisible := s.handVisible && !leaving,
         heartVisible := s.heartVisible && !leaving,
         pettingTimer := s.pettingTimer && !leaving,
         replyVisible := state == Speaking,
         replyLabel := if state == Speaking then ReplyLabelText(lastReply) else [])
  }

  /** Stroking the idle screen: the hand icon follows the finger (centred on the 120-pixel
      icon), the heart shows and the smiling face replaces the idle face. */
  function PettingPress(s: Screen, x: int, y: int): (r: Screen)
    ensures !s.ready ==> r == s
    ensures s.ready ==>
      && r.handVisible && r.heartVisible && r.smileVisible && !r.idleVisible
      && r.handX == x - 60 && r.handY == y - 60
      && r.pettingTimer == s.pettingTimer && r.replyVisible == s.replyVisible
  {
    if !s.ready then s
    else s.(handVisible := true, handX := x - 60, handY := y - 60, heartVisible := true,
            idleVisible := false, smileVisible := true)
  }

  /** Lifting the finger: hand and heart hide, and a fresh one-second timer replaces any
      pending one; the smiling face stays until it fires. */
  function PettingRelease(s: Screen): (r: Screen)
    ensures r.pettingTimer
    ensures s.ready ==> !r.handVisible && !r.heartVisible
    ensures r.idleVisible == s.idleVisible && r.smileVisible == s.smileVisible
  {
    if !s.ready then s.(pettingTimer := true)
    else s.(handVisible := false, heartVisible := false, pettingTimer := true)
  }

  /** petting_smile_timer_cb: the idle face comes back only if the device is still idle; the
      timer is gone either way. */
  function PettingTimeout(s: Screen, state: DeviceState): (r: Screen)
    ensures !r.pettingTimer
    ensures s.ready && state == Idle ==> r.idleVisible && !r.smileVisible
    ensures !(s.ready && state == Idle) ==> r.idleVisible == s.idleVisible && r.smileVisible == s.smileVisible
    ensures r.handVisible == s.handVisible && r.heartVisible == s.heartVisible
  {
    if s.ready && state == Idle then s.(idleVisible := true, smileVisible := false, pettingTimer := false)
    else s.(pettingTimer := false)
  }

  /** The petting overlays and timer exist only on the idle screen. */
  predicate OverlaysOnlyWhenIdle(s: Screen, state: DeviceState)
  {
    s.ready && state != Idle ==> !s.handVisible && !s.heartVisible && !s.pettingTimer
  }

  /** Every operation on the screen keeps the overlays confined to the idle state: an update
      to a new state establishes it, the petting gestures happen only when idle, and the timer
      only removes. */
  lemma OverlaysInvariant(s: Screen, state: DeviceState, target: DeviceState, lastReply: seq<byte>, x: int, y: int)
    requires OverlaysOnlyWhenIdle(s, state)
    ensures OverlaysOnlyWhenIdle(UiUpdate(s, target, lastReply), target)
    ensures state == Idle ==> OverlaysOnlyWhenIdle(PettingPress(s, x, y), state)
    ensures state == Idle ==> OverlaysOnlyWhenIdle(PettingRelease(s), state)
    ensures OverlaysOnlyWhenIdle(PettingTimeout(s, state), state)
  {
  }
}
