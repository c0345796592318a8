/**
 * The application-message interceptor the broker engine calls once per
 * PUBLISH packet, before the message is routed or retained (`OnNewMessage`),
 * together with the process-wide message counter it bumps.
 *
 * In order, one interception
 *   1. increments the counter (an unsigned 32-bit integer that wraps),
 *   2. replaces the payload of a message on topic "wsm/sensor" by the UTF-8
 *      bytes of "DateTime: " followed by the current time, and
 *   3. vetoes the publish when the client id is "anonymous".
 * The clock is a parameter: `now` is the text of the current date and time.
 */
module PublishInterceptor {
  import opened Wrappers
  import opened Utf8

  newtype uint32 = x: int | 0 <= x < 0x1_0000_0000

  const SensorTopic: string := "wsm/sensor"
  const AnonymousClientId: string := "anonymous"
  const TimestampPrefix: string := "DateTime: "

  /** The UTF-8 bytes of TimestampPrefix: "DateTime: ". */
  const TimestampPrefixBytes: seq<byte> := [0x44, 0x61, 0x74, 0x65, 0x54, 0x69, 0x6D, 0x65, 0x3A, 0x20]

  datatype MqttQualityOfServiceLevel = AtMostOnce | AtLeastOnce | ExactlyOnce

  /** The unsigned increment `++` of an unchecked C# `uint`. */
  function Inc(c: uint32): (r: uint32)
    ensures r as int == (c as int + 1) % 0x1_0000_0000
    ensures c < 0xFFFF_FFFF ==> r > c
  {
    if c == 0xFFFF_FFFF then 0 else c + 1
  }

  /** "DateTime: " is ASCII, so its UTF-8 bytes are its character codes. */
  lemma TimestampPrefixEncoding()
    ensures Utf8Bytes(TimestampPrefix) == TimestampPrefixBytes
  {
    AsciiEncoding(TimestampPrefix, TimestampPrefixBytes);
  }

  /** The payload written into a sensor message at time `now`. */
  function TimestampPayload(now: string): (r: seq<byte>)
    ensures r == TimestampPrefixBytes + Utf8Bytes(now)
  {
    Utf8BytesAppend(TimestampPrefix, now);
    TimestampPrefixEncoding();
    Utf8Bytes(TimestampPrefix + now)
  }

  /** Everything an interception reads or may change about one publish, as a value. */
  datatype Publish = Publish(
    clientId: string,
    topic: string,
    payload: Option<seq<byte>>,
    qos: MqttQualityOfServiceLevel,
    retain: bool,
    acceptPublish: bool)

  /** The publish as the interceptor leaves it, given the time `now`. */
  function Intercept(p: Publish, now: string): (r: Publish)
    ensures r.clientId == p.clientId && r.topic == p.topic
    ensures r.qos == p.qos && r.retain == p.retain
    ensures p.topic == SensorTopic ==> r.payload == Some(TimestampPrefixBytes + Utf8Bytes(now))
    ensures p.topic != SensorTopic ==> r.payload == p.payload
    ensures r.acceptPublish <==> p.acceptPublish && p.clientId != AnonymousClientId
  {
    var rewritten := if p.topic == SensorTopic then p.(payload := Some(TimestampPayload(now))) else p;
    if rewritten.clientId == AnonymousClientId then rewritten.(acceptPublish := false) else rewritten
  }

  /** An anonymous publish to the sensor topic is both rewritten and vetoed. */
  lemma AnonymousSensorPublish(p: Publish, now: string)
    requires p.clientId == AnonymousClientId && p.topic == SensorTopic
    ensures Intercept(p, now).payload == Some(TimestampPrefixBytes + Utf8Bytes(now))
    ensures !Intercept(p, now).acceptPublish
  {
  }

  /** Intercepting again at the same time changes nothing more. */
  lemma InterceptIdempotent(p: Publish, now: string)
    ensures Intercept(Intercept(p, now), now) == Intercept(p, now)
  {
  }

  /** One moment of the broker: a publish and the time it is intercepted at. */
  datatype Event = Event(publish: Publish, now: string)

  /**
   * A run of interceptions, one per event in order, from the counter value
   * `counter`: the final counter and the publishes as left by the interceptor.
   */
  function InterceptAll(counter: uint32, events: seq<Event>): (uint32, seq<Publish>)
    decreases |events|
  {
    if events == [] then (counter, [])
    else
      var (last, rest) := InterceptAll(Inc(counter), events[1..]);
      (last, [Intercept(events[0].publish, events[0].now)] + rest)
  }

  /** `k` increments from `c`: `c + k` modulo 2^32. */
  lemma IncMod(c: uint32, k: nat)
    ensures (Inc(c) as int + k) % 0x1_0000_0000 == (c as int + 1 + k) % 0x1_0000_0000
  {
  }

  /**
   * Every interception bumps the counter exactly once, whatever the publish
   * and whether it is rewritten or vetoed: after n events the counter has
   * advanced by n modulo 2^32.
   */
  lemma {:induction false} CounterCountsEveryPublish(counter: uint32, events: seq<Event>)
    ensures InterceptAll(counter, events).0 as int == (counter as int + |events|) % 0x1_0000_0000
    decreases |events|
  {
    if events != [] {
      CounterCountsEveryPublish(Inc(counter), events[1..]);
      IncMod(counter, |events| - 1);
    }
  }

  /**
   * One more interception after a run is what `Interceptor.OnNewMessage`
   * does: the run's counter bumped once and the new publish intercepted.
   */
  lemma {:induction false} InterceptAllExtend(counter: uint32, events: seq<Event>, e: Event)
    ensures InterceptAll(counter, events + [e]).0 == Inc(InterceptAll(counter, events).0)
    ensures InterceptAll(counter, events + [e]).1 == InterceptAll(counter, events).1 + [Intercept(e.publish, e.now)]
    decreases |events|
  {
    if events == [] {
      assert events + [e] == [e];
    } else {
      assert (events + [e])[1..] == events[1..] + [e];
      InterceptAllExtend(Inc(counter), events[1..], e);
    }
  }

  /** The i-th publish of a run is left exactly as one interception leaves it. */
  lemma {:induction false} InterceptAllPointwise(counter: uint32, events: seq<Event>)
    ensures |InterceptAll(counter, events).1| == |events|
    ensures forall i :: 0 <= i < |events| ==>
      InterceptAll(counter, events).1[i] == Intercept(events[i].publish, events[i].now)
    decreases |events|
  {
    if events != [] {
      InterceptAllPointwise(Inc(counter), events[1..]);
      var rest := InterceptAll(Inc(counter), events[1..]).1;
      forall i | 0 <= i < |events|
        ensures InterceptAll(counter, events).1[i] == Intercept(events[i].publish, events[i].now)
      {
        if i > 0 {
          assert InterceptAll(counter, events).1[i] == rest[i - 1];
          assert events[1..][i - 1] == events[i];
        }
      }
    }
  }

  /** From a fresh process, fewer than 2^32 publishes leave the counter equal to their number. */
  lemma {:induction false} CounterFromStart(events: seq<Event>)
    requires |events| < 0x1_0000_0000
    ensures InterceptAll(0, events).0 as int == |events|
  {
    CounterCountsEveryPublish(0, events);
  }

  /** The message part of a publish, which the interceptor may rewrite. */
  class MqttApplicationMessage {
    var Topic: string
    var Payload: Option<seq<byte>>
    var QualityOfServiceLevel: MqttQualityOfServiceLevel
    var Retain: bool

    constructor (topic: string, payload: Option<seq<byte>>, qos: MqttQualityOfServiceLevel, retain: bool)
      ensures Topic == topic && Payload == payload
      ensures QualityOfServiceLevel == qos && Retain == retain
    {
      Topic, Payload := topic, payload;
      QualityOfServiceLevel, Retain := qos, retain;
    }
  }

  /** What the engine hands the interceptor for one publish. */
  class MqttApplicationMessageInterceptorContext {
    var ClientId: string
    var ApplicationMessage: MqttApplicationMessage
    var AcceptPublish: bool

    constructor (clientId: string, message: MqttApplicationMessage)
      ensures ClientId == clientId && ApplicationMessage == message
      ensures AcceptPublish
    {
      ClientId, ApplicationMessage := clientId, message;
      AcceptPublish := true;
    }

    /** The publish this context describes, as a value. */
    function View(): Publish
      reads this, ApplicationMessage
    {
      Publish(ClientId, ApplicationMessage.Topic, ApplicationMessage.Payload,
              ApplicationMessage.QualityOfServiceLevel, ApplicationMessage.Retain, AcceptPublish)
    }
  }

  /** The interceptor and its message counter, which starts at zero with the process. */
  class Interceptor {
    var MessageCounter: uint32

    constructor ()
      ensures MessageCounter == 0
    {
      MessageCounter := 0;
    }

    /**
     * One interception: the counter goes up by one (modulo 2^32) before
     * anything else, then the sensor rewrite, then the anonymous veto.
     */
    method OnNewMessage(context: MqttApplicationMessageInterceptorContext, now: string)
      modifies this, context, context.ApplicationMessage
      ensures MessageCounter == Inc(old(MessageCounter))
      ensures context.ApplicationMessage == old(context.ApplicationMessage)
      ensures context.View() == Intercept(old(context.View()), now)
    {
      MessageCounter := Inc(MessageCounter);

      if context.ApplicationMessage.Topic == SensorTopic {
        context.ApplicationMessage.Payload := Some(TimestampPayload(now));
      }

      if context.ClientId == AnonymousClientId {
        context.AcceptPublish := false;
        return;
      }
    }
  }

  /** An anonymous sensor publish: counted, rewritten and vetoed, in that order. */
  method AnonymousSensorScenario(raw: seq<byte>, now: string)
  {
    var interceptor := new Interceptor();
    var message := new MqttApplicationMessage(SensorTopic, Some(raw), AtLeastOnce, true);
    var context := new MqttApplicationMessageInterceptorContext(AnonymousClientId, message);
    interceptor.OnNewMessage(context, now);
    assert interceptor.MessageCounter == 1;
    assert message.Payload == Some(TimestampPrefixBytes + Utf8Bytes(now));
    assert !context.AcceptPublish;
    assert message.Topic == SensorTopic && message.Retain;
  }
}
