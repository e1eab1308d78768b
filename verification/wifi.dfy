/** The provisioning state machine of host/src/firmware/networking/wifi.ts.
    Every transition overwrites the state, whatever the state was. */
module Wifi {

  datatype WifiProvisioningState =
    | Idle
    | Provisioning(ssid: string)
    | Connected(ssid: string, ip: string)
    | Error(reason: string)

  /** The calls that change the state. */
  datatype WifiEvent =
    | StartProvisioning(ssid: string)
    | CompleteProvisioning(ssid: string, ip: string)
    | FailProvisioning(reason: string)

  /** The `status` tag of a state. */
  function Status(s: WifiProvisioningState): string {
    match s
    case Idle => "idle"
    case Provisioning(_) => "provisioning"
    case Connected(_, _) => "connected"
    case Error(_) => "error"
  }

  /** A new manager starts idle. */
  function Initial(): (s: WifiProvisioningState)
    ensures Status(s) == "idle"
  {
    Idle
  }

  function Apply(s: WifiProvisioningState, e: WifiEvent): (t: WifiProvisioningState)
    ensures Status(t) != "idle"
    ensures e.StartProvisioning? ==> Status(t) == "provisioning" && t.ssid == e.ssid
    ensures e.CompleteProvisioning? ==> Status(t) == "connected" && t.ssid == e.ssid && t.ip == e.ip
    ensures e.FailProvisioning? ==> Status(t) == "error" && t.reason == e.reason
  {
    match e
    case StartProvisioning(ssid) => Provisioning(ssid)
    case CompleteProvisioning(ssid, ip) => Connected(ssid, ip)
    case FailProvisioning(reason) => Error(reason)
  }

  /** The state after a sequence of calls on a new manager. */
  function Run(events: seq<WifiEvent>): WifiProvisioningState
    decreases |events|
  {
    if |events| == 0 then Initial() else Apply(Run(events[..|events| - 1]), events[|events| - 1])
  }

  /** No transition is guarded: the prior state never matters. */
  lemma ApplyIgnoresPriorState(s1: WifiProvisioningState, s2: WifiProvisioningState, e: WifiEvent)
    ensures Apply(s1, e) == Apply(s2, e)
  {
  }

  /** After any calls, the state is idle if there were none and otherwise
      set by the last call alone. */
  lemma {:induction false} RunIsLastEvent(events: seq<WifiEvent>)
    ensures |events| == 0 ==> Run(events) == Idle
    ensures |events| > 0 ==> Run(events) == Apply(Idle, events[|events| - 1])
  {
    if |events| > 0 {
      var last := events[|events| - 1];
      assert Run(events) == Apply(Run(events[..|events| - 1]), last);
      ApplyIgnoresPriorState(Run(events[..|events| - 1]), Idle, last);
    }
  }

  /** Reaching `connected` after a failure: a retry needs no reset. */
  lemma RecoverAfterFailure(reason: string, ssid: string, ip: string)
    ensures Run([StartProvisioning(ssid), FailProvisioning(reason), CompleteProvisioning(ssid, ip)]) == Connected(ssid, ip)
  {
    RunIsLastEvent([StartProvisioning(ssid), FailProvisioning(reason), CompleteProvisioning(ssid, ip)]);
  }
}
