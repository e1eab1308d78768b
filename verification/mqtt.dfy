/** The topic and payload builders of host/src/firmware/networking/mqtt.ts.

    JSON serialisation is library behaviour: the telemetry payload is
    whatever the given serialiser makes of the metrics. */
module Mqtt {
  import opened Wrappers
  import Sensor

  datatype MqttMessage = MqttMessage(topic: string, payload: string)

  datatype DeviceModel = AwairGlowC | AwairElement

  datatype DeviceMetrics = DeviceMetrics(
    deviceId: string,
    model: DeviceModel,
    sensors: Sensor.SensorReading,
    motionDetected: Option<bool>,
    ambientLightLux: Option<real>)

  /** The two per-device topics the publisher uses. */
  datatype Channel = Telemetry | Availability

  const TopicRoot: string := "openawair/"

  function ChannelSuffix(c: Channel): string {
    match c
    case Telemetry => "/telemetry"
    case Availability => "/availability"
  }

  function DeviceTopic(deviceId: string, c: Channel): string {
    TopicRoot + deviceId + ChannelSuffix(c)
  }

  predicate HasSuffix(t: string, suffix: string) {
    |suffix| <= |t| && t[|t| - |suffix|..] == suffix
  }

  /** Recovers the device id and channel from a topic, the inverse of
      `DeviceTopic`. */
  function ParseDeviceTopic(t: string): Option<(string, Channel)> {
    if |t| < |TopicRoot| || t[..|TopicRoot|] != TopicRoot then None
    else if |TopicRoot| + |ChannelSuffix(Telemetry)| <= |t| && HasSuffix(t, ChannelSuffix(Telemetry)) then
      Some((t[|TopicRoot|..|t| - |ChannelSuffix(Telemetry)|], Telemetry))
    else if |TopicRoot| + |ChannelSuffix(Availability)| <= |t| && HasSuffix(t, ChannelSuffix(Availability)) then
      Some((t[|TopicRoot|..|t| - |ChannelSuffix(Availability)|], Availability))
    else None
  }

  /** No availability topic ends like a telemetry topic. */
  lemma AvailabilityIsNotTelemetry(deviceId: string)
    ensures !HasSuffix(DeviceTopic(deviceId, Availability), ChannelSuffix(Telemetry))
  {
    var t := DeviceTopic(deviceId, Availability);
    assert t[|t| - 10] == 'a';
  }

  /** Every device topic parses back to its device id and channel, so
      distinct devices or channels never share a topic. */
  lemma ParseDeviceTopicRoundTrip(deviceId: string, c: Channel)
    ensures ParseDeviceTopic(DeviceTopic(deviceId, c)) == Some((deviceId, c))
  {
    var t := DeviceTopic(deviceId, c);
    var s := ChannelSuffix(c);
    assert t[..|TopicRoot|] == TopicRoot;
    assert t[|t| - |s|..] == s;
    assert t[|TopicRoot|..|t| - |s|] == deviceId;
    if c == Availability {
      AvailabilityIsNotTelemetry(deviceId);
    }
  }

  /** Different devices or channels give different topics. */
  lemma DeviceTopicInjective(id1: string, c1: Channel, id2: string, c2: Channel)
    requires DeviceTopic(id1, c1) == DeviceTopic(id2, c2)
    ensures id1 == id2 && c1 == c2
  {
    ParseDeviceTopicRoundTrip(id1, c1);
    ParseDeviceTopicRoundTrip(id2, c2);
  }

  /** The telemetry message of a device: its telemetry topic and the
      serialised metrics. */
  function BuildTelemetryMessage(metrics: DeviceMetrics, serialise: DeviceMetrics -> string): (m: MqttMessage)
    ensures ParseDeviceTopic(m.topic) == Some((metrics.deviceId, Telemetry))
    ensures m.payload == serialise(metrics)
  {
    ParseDeviceTopicRoundTrip(metrics.deviceId, Telemetry);
    MqttMessage(DeviceTopic(metrics.deviceId, Telemetry), serialise(metrics))
  }

  /** The availability message: `online` exactly when available, `offline`
      otherwise. */
  function BuildAvailabilityMessage(deviceId: string, available: bool): (m: MqttMessage)
    ensures ParseDeviceTopic(m.topic) == Some((deviceId, Availability))
    ensures m.payload == "online" || m.payload == "offline"
    ensures m.payload == "online" <==> available
  {
    ParseDeviceTopicRoundTrip(deviceId, Availability);
    MqttMessage(DeviceTopic(deviceId, Availability), if available then "online" else "offline")
  }

  /** The telemetry topic of the device `awair-01`. */
  lemma TelemetryTopicExample()
    ensures DeviceTopic("awair-01", Telemetry) == "openawair/awair-01/telemetry"
  {
  }
}
