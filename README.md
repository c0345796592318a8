# MQTT broker policy callbacks

This project models the two policy callbacks of a small MQTT broker built on
MQTTnet (`Program.cs`). The broker engine calls them synchronously:

- the **connection validator** `OnNewConnection`, once per CONNECT. It
  accepts exactly one hard-coded user name and password pair
  ("anousone" / "qwertyanousone"). It decides on the user name first and
  returns at once on a mismatch. Everyone else gets the reason code
  `BadUserNameOrPassword`.
- the **application-message interceptor** `OnNewMessage`, once per PUBLISH,
  before the message is routed or retained. It increments the process-wide
  `uint` counter `MessageCounter`. On topic "wsm/sensor" it replaces the
  payload with the UTF-8 bytes of `"DateTime: " + now`. It vetoes the
  publish (`AcceptPublish := false`) when the client id is "anonymous".

Layout:

- `wrappers.dfy`: `Option`, the model of a C# reference that may be null.
- `utf8.dfy`: UTF-8 encoding of text (RFC 3629), used for the timestamp
  payload, with a decoder that serves as its inverse.
- `connection_gate.dfy`: the reason-code decision `ConnectReasonCode`, and
  `OnNewConnection`, which writes it into the validator context.
- `publish_interceptor.dfy`: the value-level specification `Intercept`, the
  wrapping counter increment `Inc`, and runs of interceptions
  (`InterceptAll`). It also holds the mutable context classes and the
  `Interceptor` class, whose `OnNewMessage` is proved against `Intercept`.

The C# static field `MessageCounter` is the field of one `Interceptor`
object, which the process creates at start-up with the counter at zero.
`DateTime.Now` is the string parameter `now`. The C# `uint ++` runs in an
unchecked context, so it wraps from 2^32 - 1 to 0. `Inc` writes that
wrap out explicitly.

## Model

| member | source | states |
|---|---|---|
| `ConnectionGate.ConnectReasonCode` | Program.cs:61-72 | the reason code is `Success` iff the user name is "anousone" and the password is "qwertyanousone"; in every other case, a missing user name or password included, it is `BadUserNameOrPassword` |
| `ConnectionGate.WrongUsernameIgnoresPassword` | Program.cs:61-65 | a wrong or missing user name is refused whatever the password, and the decision does not depend on the password |
| `ConnectionGate.WrongPasswordRejected` | Program.cs:67-71 | the right user name with a wrong or missing password is refused |
| `ConnectionGate.OnNewConnection` | Program.cs:52-73 | the validator sets the context's reason code to the decision above and changes no other field |
| `PublishInterceptor.Inc` | Program.cs:84 | the counter increment is `+1` modulo 2^32, and it is strictly increasing below the maximum |
| `PublishInterceptor.TimestampPrefixEncoding` | Program.cs:100 | the UTF-8 bytes of "DateTime: " are the ten bytes 44 61 74 65 54 69 6D 65 3A 20 |
| `PublishInterceptor.TimestampPayload` | Program.cs:99-101 | the sensor payload is the ten bytes of "DateTime: " followed by the UTF-8 bytes of the current time |
| `PublishInterceptor.Intercept` | Program.cs:97-109 | client id, topic, QoS and retain are unchanged; on "wsm/sensor" the payload becomes the timestamp bytes, whatever it was before, a null payload included; on any other topic it is unchanged; the publish stays accepted iff it was accepted and the client is not "anonymous" |
| `PublishInterceptor.AnonymousSensorPublish` | Program.cs:97-108 | the rewrite runs before the veto, so an "anonymous" publish to "wsm/sensor" ends both rewritten and vetoed |
| `PublishInterceptor.InterceptIdempotent` | Program.cs:97-109 | intercepting an already intercepted publish again at the same time changes nothing |
| `PublishInterceptor.CounterCountsEveryPublish` | Program.cs:84 | after a run of n interceptions the counter has advanced by exactly n modulo 2^32, whatever the publishes and whether they were rewritten or vetoed |
| `PublishInterceptor.InterceptAllExtend` | Program.cs:77-112 | one more call after a run is what `Interceptor.OnNewMessage` does to the run: its counter bumped once, and the new publish intercepted and appended |
| `PublishInterceptor.InterceptAllPointwise` | Program.cs:77-112 | in a run of interceptions each publish is left exactly as a single interception leaves it |
| `PublishInterceptor.CounterFromStart` | Program.cs:75 | from the initial zero, fewer than 2^32 publishes leave the counter equal to their number |
| `PublishInterceptor.Interceptor.constructor` | Program.cs:75 | the counter starts at zero |
| `PublishInterceptor.Interceptor.OnNewMessage` | Program.cs:77-112 | one call bumps the counter by one modulo 2^32 and leaves the context as `Intercept` describes; the context keeps the same message object |
| `Utf8.EncodeChar` | Program.cs:99-101 | a character takes one byte below U+0080, two below U+0800, three below U+10000 and four above; the lead byte lies in the range that announces that length; every later byte is a continuation byte; the lead byte's payload bits followed by six bits from each continuation byte spell the character's code point, so the bytes are its shortest-form UTF-8 encoding |
| `Utf8.Utf8Bytes` | Program.cs:99-101 | a text of n characters encodes to between n and 4n bytes, and only the empty text encodes to no bytes |
| `Utf8.DecodeEncodeChar` | Program.cs:99-101 | decoding the bytes of a character, whatever bytes follow them, gives back that character and the number of bytes it took |
| `Utf8.Utf8RoundTrip` | Program.cs:99-101 | decoding the UTF-8 bytes of any text gives back exactly that text, so the encoding loses nothing |
| `Utf8.Utf8BytesAppend` | Program.cs:99-101 | encoding a concatenation gives the concatenation of the encodings |
| `Utf8.AsciiBytes` | Program.cs:99-101 | an ASCII text encodes to one byte per character, each byte the character's code |
| `Utf8.AsciiEncoding` | Program.cs:99-101 | an ASCII text encodes to exactly the byte sequence that lists its character codes in order |

## Left out

- `Main` (process set-up, Serilog configuration, server options, start and stop, console input): process plumbing around the MQTTnet library.
- `RetainedMessageHandler` (saving and loading retained messages): file I/O through a JSON library whose format is not part of this model, so no save/load round trip can be stated. The code also has no atomic replace and no per-topic de-duplication.
- `OnNewSubscriptions`: its body is entirely commented out, so it changes nothing and the engine's defaults decide.
- Logging in both callbacks. This includes the UTF-8 decoding of the payload, which exists only to be logged, and the logging of the password in cleartext. `Utf8.Utf8Decode` is the inverse of the encoder, not a model of that logging decode: it rejects malformed bytes, where .NET substitutes U+FFFD.
- `DateTime.Now` and its culture-dependent formatting: the current time is the opaque text `now`. The source reads the clock separately for the log line and for the payload. Only the payload's reading is modelled.
- A null `ApplicationMessage`: the logging code guards it with `?.`, but the topic test dereferences it unguarded. The model's context always holds a message, so the exception the source would throw after bumping the counter is not modelled.
- Concurrent publishes: `MessageCounter++` is not atomic in the source. The model covers sequential calls only, so no lost updates are modelled.
- Strings that are not valid Unicode: a Dafny `char` is a Unicode scalar value. The replacement bytes .NET writes for a lone UTF-16 surrogate have no counterpart here.
- Engine-side behaviour: routing, topic matching, QoS handling and merging accepted retained messages into the store.
