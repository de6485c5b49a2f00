/**
 * Values, codecs and the codec registry, as the projection codec uses them.
 * What a codec writes for a value is an arbitrary function supplied with the
 * codec; the registry is an arbitrary partial function from runtime class to codec.
 */
module Codecs {
  import opened Wrappers
  import opened BsonWriter

  /** A fully qualified Java class name. */
  type ClassName = string

  /** An application object: its runtime class (what getClass returns) and its state. */
  datatype Value<D> = Value(runtimeClass: ClassName, state: D)

  /** A codec, as far as the projection codec uses it: the writer calls it makes for a value. */
  datatype Codec<!D> = Codec(encode: Value<D> -> seq<Event>)

  /** The registry consulted by runtime class; None where no codec is registered for a class. */
  datatype CodecRegistry<!D> = CodecRegistry(lookup: ClassName -> Option<Codec<D>>)

  /** The exception a registry throws when it holds no codec for the class asked about. */
  datatype CodecError = CodecConfigurationError(missingClass: ClassName)

  /**
   * Encodes `value` with `codec` into `writer` under a child encoder context:
   * the codec's own calls go to the same writer, after everything already written.
   */
  method EncodeWithChildContext<D>(codec: Codec<D>, writer: TraceWriter, value: Value<D>)
    modifies writer
    ensures writer.events == old(writer.events) + codec.encode(value)
  {
    writer.WriteEvents(codec.encode(value));
  }

}
