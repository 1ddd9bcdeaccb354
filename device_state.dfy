/** The interaction states of the device (main/state.h), in declaration order. */
module DeviceStates {

  /** Recorded is kept for compatibility; listening now leads straight to thinking. */
  datatype DeviceState = Idle | Listening | Recorded | Thinking | Speaking

  /** The enumerator values of device_state_t. */
  function Code(s: DeviceState): (c: nat)
    ensures c < 5
  {
    match s
    case Idle => 0
    case Listening => 1
    case Recorded => 2
    case Thinking => 3
    case Speaking => 4
  }

  /** Distinct states have distinct codes. */
  lemma CodeInjective(s: DeviceState, t: DeviceState)
    ensures Code(s) == Code(t) <==> s == t
  {
  }
}
