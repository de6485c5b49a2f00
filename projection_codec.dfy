/**
 * The body encoder of the $project stage: it writes one document holding, in
 * order, each projection field's name followed by that field's value, encoded
 * by the codec the registry holds for the value's runtime class.
 */
module ProjectionCodecs {
  import opened Wrappers
  import opened BsonWriter
  import opened Codecs

  /** The class this codec declares it encodes. */
  const ProjectionClass: ClassName := "dev.morphia.aggregation.experimental.stages.Projection"

  /** One projection field: its key and the object to write as its value. */
  datatype ProjectionField<D> = ProjectionField(name: string, value: Value<D>)

  /** A projection stage, as far as its codec sees it: its fields, in declaration order. */
  datatype Projection<D> = Projection(fields: seq<ProjectionField<D>>)

  /** The registry holds a codec for the runtime class of the field's value. */
  predicate Supported<D>(registry: CodecRegistry<D>, field: ProjectionField<D>)
  {
    registry.lookup(field.value.runtimeClass).Some?
  }

  predicate AllSupported<D>(registry: CodecRegistry<D>, fields: seq<ProjectionField<D>>)
  {
    forall i :: 0 <= i < |fields| ==> Supported(registry, fields[i])
  }

  /** The codec used for a field: the registry's codec for its own value's runtime class. */
  function CodecFor<D>(registry: CodecRegistry<D>, field: ProjectionField<D>): Codec<D>
    requires Supported(registry, field)
  {
    registry.lookup(field.value.runtimeClass).value
  }

  /** What that codec writes for the field's value. */
  function Encoded<D>(registry: CodecRegistry<D>, field: ProjectionField<D>): seq<Event>
    requires Supported(registry, field)
  {
    CodecFor(registry, field).encode(field.value)
  }

  /** The writer calls for one field: its name, then its encoded value. */
  function FieldEvents<D>(registry: CodecRegistry<D>, field: ProjectionField<D>): seq<Event>
    requires Supported(registry, field)
  {
    [Name(field.name)] + Encoded(registry, field)
  }

  /** The writer calls for a run of fields, one after the other in their order. */
  function FieldsEvents<D>(registry: CodecRegistry<D>, fields: seq<ProjectionField<D>>): seq<Event>
    requires AllSupported(registry, fields)
    decreases |fields|
  {
    if fields == [] then []
    else FieldsEvents(registry, fields[..|fields| - 1]) + FieldEvents(registry, fields[|fields| - 1])
  }

  /** The stage body written when every field's class has a codec. */
  function Body<D>(registry: CodecRegistry<D>, fields: seq<ProjectionField<D>>): (r: seq<Event>)
    requires AllSupported(registry, fields)
    ensures |r| >= 2 && r[0] == Start(Document) && r[|r| - 1] == End(Document)
    ensures fields == [] ==> r == [Start(Document), End(Document)]
  {
    [Start(Document)] + FieldsEvents(registry, fields) + [End(Document)]
  }

  /** The position of the first field whose value's class has no codec. */
  function FirstUnsupported<D>(registry: CodecRegistry<D>, fields: seq<ProjectionField<D>>): (k: nat)
    requires !AllSupported(registry, fields)
    ensures k < |fields| && !Supported(registry, fields[k])
    ensures forall j :: 0 <= j < k ==> Supported(registry, fields[j])
    decreases |fields|
  {
    if !Supported(registry, fields[0]) then 0
    else
      assert !AllSupported(registry, fields[1..]) by {
        var i :| 0 <= i < |fields| && !Supported(registry, fields[i]);
        assert fields[1..][i - 1] == fields[i];
      }
      1 + FirstUnsupported(registry, fields[1..])
  }

  /**
   * What is left in the writer when the registry throws for `fields[k]`, the
   * first unsupported field: the opened document, every earlier field, and the
   * failing field's name (which is written before the lookup).
   */
  function PartialBody<D>(registry: CodecRegistry<D>, fields: seq<ProjectionField<D>>): seq<Event>
    requires !AllSupported(registry, fields)
  {
    var k := FirstUnsupported(registry, fields);
    assert AllSupported(registry, fields[..k]);
    [Start(Document)] + FieldsEvents(registry, fields[..k]) + [Name(fields[k].name)]
  }

  /** The first unsupported field is the one after a run of supported fields, and the partial body stops at its name. */
  lemma FirstUnsupportedAt<D>(registry: CodecRegistry<D>, fields: seq<ProjectionField<D>>, k: nat)
    requires k < |fields| && AllSupported(registry, fields[..k]) && !Supported(registry, fields[k])
    ensures !AllSupported(registry, fields) && FirstUnsupported(registry, fields) == k
    ensures PartialBody(registry, fields) == [Start(Document)] + FieldsEvents(registry, fields[..k]) + [Name(fields[k].name)]
  {
  }

  /** Extending a run of supported fields by one more supported field appends that field's events. */
  lemma FieldsEventsSnoc<D>(registry: CodecRegistry<D>, fields: seq<ProjectionField<D>>, i: nat)
    requires i < |fields| && AllSupported(registry, fields[..i]) && Supported(registry, fields[i])
    ensures AllSupported(registry, fields[..i + 1])
    ensures FieldsEvents(registry, fields[..i + 1]) == FieldsEvents(registry, fields[..i]) + FieldEvents(registry, fields[i])
  {
    assert fields[..i + 1][..i] == fields[..i];
  }

  /**
   * Regrouping a concatenation. Dafny knows this unaided; naming the instance
   * the loop below needs keeps that proof cheap.
   */
  lemma AppendAssoc<T>(a: seq<T>, b: seq<T>, c: seq<T>)
    ensures (a + b) + c == a + (b + c)
  {
  }

  /** The codec for projection stages; the registry is the one its mapper provides. */
  class ProjectionCodec<D> {
    const registry: CodecRegistry<D>

    constructor (registry: CodecRegistry<D>)
      ensures this.registry == registry
    {
      this.registry := registry;
    }

    /**
     * Writes the stage body for `value`. When the registry has no codec for
     * some field's value, the lookup throws and writing stops there.
     */
    method EncodeStage(writer: TraceWriter, value: Projection<D>) returns (outcome: Outcome<CodecError>)
      modifies writer
      ensures outcome.Pass? <==> AllSupported(registry, value.fields)
      ensures outcome.Pass? ==> writer.events == old(writer.events) + Body(registry, value.fields)
      ensures outcome.Fail? ==>
        && outcome.error == CodecConfigurationError(value.fields[FirstUnsupported(registry, value.fields)].value.runtimeClass)
        && writer.events == old(writer.events) + PartialBody(registry, value.fields)
    {
      var fields := value.fields;
      ghost var before := writer.events;
      writer.WriteStartDocument();
      var i := 0;
      while i < |fields|
        invariant 0 <= i <= |fields|
        invariant AllSupported(registry, fields[..i])
        invariant writer.events == before + ([Start(Document)] + FieldsEvents(registry, fields[..i]))
      {
        ghost var done := [Start(Document)] + FieldsEvents(registry, fields[..i]);
        var written := Write(writer, fields[i]);
        if written.Fail? {
          FirstUnsupportedAt(registry, fields, i);
          AppendAssoc(before, done, [Name(fields[i].name)]);
          return written;
        }
        FieldsEventsSnoc(registry, fields, i);
        AppendAssoc(before, done, FieldEvents(registry, fields[i]));
        AppendAssoc([Start(Document)], FieldsEvents(registry, fields[..i]), FieldEvents(registry, fields[i]));
        i := i + 1;
      }
      assert fields[..i] == fields;
      writer.WriteEndDocument();
      AppendAssoc(before, [Start(Document)] + FieldsEvents(registry, fields), [End(Document)]);
      return Pass;
    }

    /** Writes one field: its name, then its value with the codec for the value's runtime class. */
    method Write(writer: TraceWriter, field: ProjectionField<D>) returns (outcome: Outcome<CodecError>)
      modifies writer
      ensures outcome.Pass? <==> Supported(registry, field)
      ensures outcome.Pass? ==> writer.events == old(writer.events) + FieldEvents(registry, field)
      ensures outcome.Fail? ==>
        && outcome.error == CodecConfigurationError(field.value.runtimeClass)
        && writer.events == old(writer.events) + [Name(field.name)]
    {
      writer.WriteName(field.name);
      var aClass := field.value.runtimeClass;
      var codec := registry.lookup(aClass);
      if codec.None? {
        return Fail(CodecConfigurationError(aClass));
      }
      EncodeWithChildContext(codec.value, writer, field.value);
      return Pass;
    }

    /** The class of the values this codec encodes. */
    method GetEncoderClass() returns (c: ClassName)
      ensures c == ProjectionClass
    {
      c := ProjectionClass;
    }
  }

}
