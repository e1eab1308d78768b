/** The relay flag of `AwairDevice` in host/src/firmware/device.ts. */
module Device {

  datatype Relay = Relay(enabled: bool)

  /** A new device has its relay off. */
  function NewRelay(): (r: Relay)
    ensures !GetRelayState(r)
  {
    Relay(false)
  }

  function ToggleRelay(r: Relay): (r': Relay)
    ensures GetRelayState(r') != GetRelayState(r)
  {
    Relay(!r.enabled)
  }

  function GetRelayState(r: Relay): bool {
    r.enabled
  }

  /** The getter reports the whole relay state: two relays read the same
      exactly when they are the same, and a relay reads on exactly when it is
      a new device's relay toggled once. */
  lemma RelayStateObservable(r1: Relay, r2: Relay)
    ensures GetRelayState(r1) == GetRelayState(r2) <==> r1 == r2
    ensures GetRelayState(r1) <==> r1 == ToggleRelay(NewRelay())
  {
  }

  /** Two toggles restore the relay. */
  lemma ToggleTwice(r: Relay)
    ensures ToggleRelay(ToggleRelay(r)) == r
  {
  }

  /** The relay after `n` toggles. */
  function ToggleTimes(r: Relay, n: nat): Relay
    decreases n
  {
    if n == 0 then r else ToggleRelay(ToggleTimes(r, n - 1))
  }

  /** After `n` toggles the relay is flipped exactly when `n` is odd; in
      particular a new device is on after an odd number of toggles only. */
  lemma {:induction false} ToggleParity(r: Relay, n: nat)
    ensures GetRelayState(ToggleTimes(r, n)) == (GetRelayState(r) != (n % 2 == 1))
    decreases n
  {
    if n > 0 {
      ToggleParity(r, n - 1);
    }
  }
}
