/** `buildDiscoveryMessages` of host/src/firmware/networking/mqttDiscovery.ts:
    one Home Assistant discovery message per sensor, addressed under the
    device's first identifier.

    The payload is the JSON serialisation of the sensor and device fields;
    that serialisation is a parameter here. */
module MqttDiscovery {
  import opened Wrappers
  import Mqtt

  datatype DiscoveryDevice = DiscoveryDevice(
    identifiers: seq<string>,
    name: string,
    model: string,
    manufacturer: string)

  datatype DiscoverySensor = DiscoverySensor(
    name: string,
    uniqueId: string,
    stateTopic: string,
    unitOfMeasurement: Option<string>,
    deviceClass: Option<string>,
    valueTemplate: Option<string>)

  /** The error the source throws for a device without identifiers. */
  datatype DiscoveryError = MissingIdentifiers

  const DiscoveryPrefix: string := "homeassistant/sensor/"
  const ConfigSuffix: string := "/config"

  function ConfigTopic(baseId: string, uniqueId: string): string {
    DiscoveryPrefix + baseId + "/" + uniqueId + ConfigSuffix
  }

  /** Under one base id, the topic determines the sensor's unique id. */
  lemma ConfigTopicInjective(baseId: string, u1: string, u2: string)
    requires ConfigTopic(baseId, u1) == ConfigTopic(baseId, u2)
    ensures u1 == u2
  {
    var start := |DiscoveryPrefix| + |baseId| + 1;
    assert |u1| == |u2|;
    assert ConfigTopic(baseId, u1)[start..start + |u1|] == u1;
    assert ConfigTopic(baseId, u2)[start..start + |u2|] == u2;
  }

  function BuildDiscoveryMessages(
    device: DiscoveryDevice,
    sensors: seq<DiscoverySensor>,
    serialise: (DiscoveryDevice, DiscoverySensor) -> string
  ): (r: Result<seq<Mqtt.MqttMessage>, DiscoveryError>)
    ensures r.Failure? <==> |device.identifiers| == 0
    ensures r.Success? ==> |r.value| == |sensors|
    ensures r.Success? ==> forall i :: 0 <= i < |sensors| ==>
      && r.value[i].topic == ConfigTopic(device.identifiers[0], sensors[i].uniqueId)
      && r.value[i].payload == serialise(device, sensors[i])
  {
    if |device.identifiers| == 0 then Failure(MissingIdentifiers)
    else
      var baseId := device.identifiers[0];
      Success(seq(|sensors|, i requires 0 <= i < |sensors| =>
        Mqtt.MqttMessage(ConfigTopic(baseId, sensors[i].uniqueId), serialise(device, sensors[i]))))
  }

  /** Sensors with pairwise distinct unique ids get pairwise distinct topics. */
  lemma DistinctSensorsDistinctTopics(
    device: DiscoveryDevice,
    sensors: seq<DiscoverySensor>,
    serialise: (DiscoveryDevice, DiscoverySensor) -> string)
    requires |device.identifiers| > 0
    requires forall i, j :: 0 <= i < j < |sensors| ==> sensors[i].uniqueId != sensors[j].uniqueId
    ensures var r := BuildDiscoveryMessages(device, sensors, serialise);
            r.Success? && forall i, j :: 0 <= i < j < |r.value| ==> r.value[i].topic != r.value[j].topic
  {
    var r := BuildDiscoveryMessages(device, sensors, serialise);
    forall i, j | 0 <= i < j < |r.value| ensures r.value[i].topic != r.value[j].topic {
      if r.value[i].topic == r.value[j].topic {
        ConfigTopicInjective(device.identifiers[0], sensors[i].uniqueId, sensors[j].uniqueId);
      }
    }
  }

  /** The topic of the `awair-01-temp` sensor of device `awair-01`. */
  lemma ConfigTopicExample()
    ensures ConfigTopic("awair-01", "awair-01-temp") == "homeassistant/sensor/awair-01/awair-01-temp/config"
  {
  }

  /** A device with one identifier and one temperature sensor gives one
      message on `homeassistant/sensor/awair-01/awair-01-temp/config`. */
  lemma GlowTemperatureExample(serialise: (DiscoveryDevice, DiscoverySensor) -> string)
    ensures var device := DiscoveryDevice(["awair-01"], "Awair Glow C", "Glow C", "Awair");
            var sensor := DiscoverySensor("Temperature", "awair-01-temp", "openawair/awair-01/telemetry",
                                          Some("°C"), Some("temperature"), Some("{{ value_json.sensors.temperatureC }}"));
            var r := BuildDiscoveryMessages(device, [sensor], serialise);
            && r.Success?
            && |r.value| == 1
            && r.value[0].topic == "homeassistant/sensor/awair-01/awair-01-temp/config"
  {
    ConfigTopicExample();
  }
}
