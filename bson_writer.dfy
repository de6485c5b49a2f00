/**
 * The BSON writer that codecs drive, seen as the sequence of calls it receives.
 * The concrete serialization is the writer's concern and is not modelled: a
 * writer here only records, in order, every event written to it.
 */
module BsonWriter {

  newtype int32 = x: int | -0x8000_0000 <= x < 0x8000_0000
  newtype int64 = x: int | -0x8000_0000_0000_0000 <= x < 0x8000_0000_0000_0000

  /** The scalar values a codec may write (a representative subset of BSON's types). */
  datatype Scalar = Int32(i: int32) | Int64(l: int64) | Boolean(b: bool) | Str(s: string) | Null

  /** The two kinds of nested structure a writer can open. */
  datatype Container = Document | Array

  /** One call on the writer: writeStartDocument/writeStartArray, the matching end, writeName, or a scalar write. */
  datatype Event =
    | Start(kind: Container)
    | End(kind: Container)
    | Name(name: string)
    | ScalarValue(value: Scalar)

  /** A writer that appends every call it receives to `events`. */
  class TraceWriter {
    var events: seq<Event>

    constructor ()
      ensures events == []
    {
      events := [];
    }

    method WriteStartDocument()
      modifies this
      ensures events == old(events) + [Start(Document)]
    {
      events := events + [Start(Document)];
    }

    method WriteEndDocument()
      modifies this
      ensures events == old(events) + [End(Document)]
    {
      events := events + [End(Document)];
    }

    method WriteName(name: string)
      modifies this
      ensures events == old(events) + [Name(name)]
    {
      events := events + [Name(name)];
    }

    /** The calls a nested codec makes on this same writer while it encodes one value. */
    method WriteEvents(block: seq<Event>)
      modifies this
      ensures events == old(events) + block
    {
      events := events + block;
    }
  }

}
