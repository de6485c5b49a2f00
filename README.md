# Projection stage body encoder (Morphia aggregation codecs)

This project models the codec that writes the body of a `$project` stage in
Morphia's experimental aggregation API, and proves what that body looks like.

The codec opens one document, then goes through the projection's fields in
declaration order. For each field it writes the field's name. It then asks the
codec registry for the codec registered for the runtime class of the field's
value, and lets that codec write the value into the same writer under a child
encoder context. Finally it closes the document.

How the model is built:

- `BsonWriter` — the writer the codecs drive. `TraceWriter` is a class whose
  one field, `events`, records every call in order: start or end of a document
  or array, a name, or a scalar value. The concrete BSON serialization is not
  modelled. The scalar alphabet (`Int32`, `Int64`, `Boolean`, `Str`, `Null`)
  is a representative subset; no property depends on it.
- `Codecs` — a value is its runtime class plus an arbitrary state. A codec is
  an arbitrary function giving the writer calls it makes for a value. The registry is an arbitrary partial function from class
  name to codec. `None` stands for "no codec registered", where the registry
  throws `CodecConfigurationException`.
- `ProjectionCodecs` — the fields, the specification functions (`Body`, the
  body written when every lookup succeeds; `PartialBody`, what is left in the
  writer when a lookup throws), and the class `ProjectionCodec`. The loop in
  `EncodeStage` is proved against these functions.
- `BsonStructure` — a reference reading of writer traces. It is written for
  this model and is independent of any codec: where one bracket-balanced value
  ends (containers must close in the order they were opened, and with their
  own kind; names are skipped), and how a document's top-level name/value
  members are read back.
- `ProjectionCodecProperties` — the lemmas that connect the body to that
  reading, to its length and layout, and to the registry.

When the registry has no codec for some field's value class, the writer
already holds `PartialBody`: the opening event, the events of every earlier
field, and the failing field's name. The exception then propagates, so
nothing is returned. `PartialBodyIsNotDocument` proves that this leftover is
never a complete document. What a caller does with the writer afterwards is
up to the stage wrapper and pipeline assembly, which are not part of this
model.

## Model

| member | source | states |
|---|---|---|
| `BsonWriter.TraceWriter.WriteStartDocument` | morphia/src/main/java/dev/morphia/aggregation/experimental/codecs/stages/ProjectionCodec.java:19 | The writer gains exactly one start-of-document event at its end; everything written before is kept. |
| `BsonWriter.TraceWriter.WriteName` | morphia/src/main/java/dev/morphia/aggregation/experimental/codecs/stages/ProjectionCodec.java:27 | The writer gains exactly the name event for the given key, verbatim. |
| `BsonWriter.TraceWriter.WriteEndDocument` | morphia/src/main/java/dev/morphia/aggregation/experimental/codecs/stages/ProjectionCodec.java:23 | The writer gains exactly one end-of-document event at its end. |
| `BsonWriter.TraceWriter.WriteEvents` | morphia/src/main/java/dev/morphia/aggregation/experimental/codecs/stages/ProjectionCodec.java:30 | The calls a nested codec makes go to the same writer, after everything already written. |
| `Codecs.EncodeWithChildContext` | morphia/src/main/java/dev/morphia/aggregation/experimental/codecs/stages/ProjectionCodec.java:30 | Encoding under a child context appends exactly what the given codec writes for the given value. |
| `ProjectionCodecs.ProjectionCodec.constructor` | morphia/src/main/java/dev/morphia/aggregation/experimental/codecs/stages/ProjectionCodec.java:13-15 | The codec keeps the registry its mapper provides; every later lookup goes to that registry. |
| `ProjectionCodecs.ProjectionCodec.EncodeStage` | morphia/src/main/java/dev/morphia/aggregation/experimental/codecs/stages/ProjectionCodec.java:18-24 | Succeeds exactly when every field's value class has a codec. It then appends exactly `Body` to what the writer held. Otherwise it throws for the first field without a codec, naming that field's value class, and leaves exactly `PartialBody` appended. |
| `ProjectionCodecs.ProjectionCodec.Write` | morphia/src/main/java/dev/morphia/aggregation/experimental/codecs/stages/ProjectionCodec.java:26-31 | Writes the field's name, then looks up the codec for its value's runtime class. With a codec it appends that codec's output for the value. Without one it throws a configuration error naming that class, after the name has been written. |
| `ProjectionCodecs.ProjectionCodec.GetEncoderClass` | morphia/src/main/java/dev/morphia/aggregation/experimental/codecs/stages/ProjectionCodec.java:33-36 | The codec declares `dev.morphia.aggregation.experimental.stages.Projection` as the class it encodes. |
| `ProjectionCodecs.Body` | morphia/src/main/java/dev/morphia/aggregation/experimental/codecs/stages/ProjectionCodec.java:19-23 | The body starts with start-document and ends with end-document. A projection with no fields gives exactly those two events. |
| `ProjectionCodecs.FirstUnsupported` | morphia/src/main/java/dev/morphia/aggregation/experimental/codecs/stages/ProjectionCodec.java:20-21 | When some field's class has no codec, the field where encoding stops is one without a codec, and every field before it has one. |
| `ProjectionCodecs.FirstUnsupportedAt` | morphia/src/main/java/dev/morphia/aggregation/experimental/codecs/stages/ProjectionCodec.java:20-29 | A run of supported fields followed by an unsupported one identifies the field where encoding stops. What is then left is the opened document, the run's events and that field's name. |
| `ProjectionCodecs.FieldsEventsSnoc` | morphia/src/main/java/dev/morphia/aggregation/experimental/codecs/stages/ProjectionCodec.java:20-21 | Each loop iteration appends exactly the current field's name and encoded value to what the earlier fields wrote. |
| `ProjectionCodecProperties.BodyLength` | morphia/src/main/java/dev/morphia/aggregation/experimental/codecs/stages/ProjectionCodec.java:19-30 | The body has 2 + (number of fields) + (total length of the encoded values) events, so nothing is added beyond the brackets, one name per field and the values. |
| `ProjectionCodecProperties.FieldLayout` | morphia/src/main/java/dev/morphia/aggregation/experimental/codecs/stages/ProjectionCodec.java:19-30 | Field i's name stands at its offset in the body. Right after it come exactly the calls of the codec the registry holds for field i's own value class. Right after those, the next field's name begins, or the document ends after the last field. The first name follows the opening event directly. |
| `ProjectionCodecProperties.BodyIsOneDocument` | morphia/src/main/java/dev/morphia/aggregation/experimental/codecs/stages/ProjectionCodec.java:19-23 | When each codec writes one bracket-balanced value, the body is one bracket-balanced document: its last event closes the document its first event opens, and nothing closes it earlier. Names are not checked by this reading; the name/value structure is what `ReadBackBody` states. |
| `ProjectionCodecProperties.ReadBackBody` | morphia/src/main/java/dev/morphia/aggregation/experimental/codecs/stages/ProjectionCodec.java:19-30 | When each codec writes one bracket-balanced value, reading the body back yields one member per field, in declaration order. Each member carries the field's name verbatim and exactly what the codec for its value's class wrote. No key is added, dropped, merged or reordered. |
| `ProjectionCodecProperties.BodyDependsOnFieldClassesOnly` | morphia/src/main/java/dev/morphia/aggregation/experimental/codecs/stages/ProjectionCodec.java:28-29 | Two registries that hold the same codecs for the classes of the fields' values give the same body. The classes of the fields' own values are the only ones looked up. |
| `ProjectionCodecProperties.PartialBodyIsNotDocument` | morphia/src/main/java/dev/morphia/aggregation/experimental/codecs/stages/ProjectionCodec.java:26-29 | When a lookup throws, the writer's new events end with the failing field's name, so they never form a bracket-balanced value. |

## Left out

- The `StageCodec` base class, which writes the `$project` key around this body. It is not part of this model: `EncodeStage` works on a writer that may already hold events, and keeps them.
- The `Projection` builder and its field kinds (include, exclude, id suppression, computed expressions). They are not part of this model. A field here is a name and an arbitrary object.
- The `Mapper`. The registry it provides is passed to the constructor directly.
- The internals of `EncoderContext.encodeWithChildContext`, beyond delegating to the given codec. Whether the child context is isolated cannot be stated from the code modelled.
- The writer's own state checks (for example, a BSON writer refusing a name outside a document). The trace writer records calls and does not validate them.
- A codec that throws while writing a value. A codec here always returns its events.
- `null` field values. In Java, `getClass()` on a null value throws `NullPointerException`. Values here always have a class.
- The aggregation and geospatial integration tests. They run queries against a live server, so they check the server's query semantics and not this encoder.
