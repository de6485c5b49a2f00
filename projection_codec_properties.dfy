/**
 * What the projection codec's stage body guarantees: its layout, its length,
 * that it reads back as exactly the projection's fields, that each field's
 * value depends only on the codec for that value's own class, and that a
 * failed encode never leaves a complete document behind.
 */
module ProjectionCodecProperties {
  import opened Wrappers
  import opened BsonWriter
  import opened BsonStructure
  import opened Codecs
  import opened ProjectionCodecs

  /** The events of two consecutive runs of fields are those of each run, one after the other. */
  lemma {:induction false} FieldsEventsAppend<D>(registry: CodecRegistry<D>, a: seq<ProjectionField<D>>, b: seq<ProjectionField<D>>)
    requires AllSupported(registry, a + b)
    ensures AllSupported(registry, a) && AllSupported(registry, b)
    ensures FieldsEvents(registry, a + b) == FieldsEvents(registry, a) + FieldsEvents(registry, b)
    decreases |b|
  {
    assert forall i :: 0 <= i < |a| ==> a[i] == (a + b)[i];
    assert forall i :: 0 <= i < |b| ==> b[i] == (a + b)[|a| + i];
    if b == [] {
      assert a + b == a;
    } else {
      var init := b[..|b| - 1];
      assert (a + b)[..|a + b| - 1] == a + init;
      assert (a + b)[|a + b| - 1] == b[|b| - 1];
      FieldsEventsAppend(registry, a, init);
    }
  }

  /** The first field's events come first, followed by those of the rest. */
  lemma FieldsEventsCons<D>(registry: CodecRegistry<D>, fields: seq<ProjectionField<D>>)
    requires fields != [] && AllSupported(registry, fields)
    ensures AllSupported(registry, fields[1..])
    ensures FieldsEvents(registry, fields) == FieldEvents(registry, fields[0]) + FieldsEvents(registry, fields[1..])
  {
    assert fields == [fields[0]] + fields[1..];
    FieldsEventsAppend(registry, [fields[0]], fields[1..]);
    assert [fields[0]][..0] == [];
  }

  /** The total number of events the field values' codecs write. */
  function EncodedLength<D>(registry: CodecRegistry<D>, fields: seq<ProjectionField<D>>): nat
    requires AllSupported(registry, fields)
    decreases |fields|
  {
    if fields == [] then 0
    else EncodedLength(registry, fields[..|fields| - 1]) + |Encoded(registry, fields[|fields| - 1])|
  }

  lemma {:induction false} FieldsEventsLength<D>(registry: CodecRegistry<D>, fields: seq<ProjectionField<D>>)
    requires AllSupported(registry, fields)
    ensures |FieldsEvents(registry, fields)| == |fields| + EncodedLength(registry, fields)
    decreases |fields|
  {
    if fields != [] {
      FieldsEventsLength(registry, fields[..|fields| - 1]);
    }
  }

  /**
   * The body holds the opening and closing of the document, one name per
   * field, and every event the fields' codecs write: nothing more.
   */
  lemma {:induction false} BodyLength<D>(registry: CodecRegistry<D>, fields: seq<ProjectionField<D>>)
    requires AllSupported(registry, fields)
    ensures |Body(registry, fields)| == 2 + |fields| + EncodedLength(registry, fields)
  {
    FieldsEventsLength(registry, fields);
  }

  /** Where field `i`'s name stands in the body: after the opening event and every earlier field. */
  function FieldOffset<D>(registry: CodecRegistry<D>, fields: seq<ProjectionField<D>>, i: nat): nat
    requires AllSupported(registry, fields) && i <= |fields|
  {
    1 + |FieldsEvents(registry, fields[..i])|
  }

  /**
   * Field `i`'s name, verbatim, stands at its offset; right after it come
   * exactly the events of the codec the registry holds for the class of
   * field `i`'s own value; and right after those the next field's name
   * begins, or, after the last field, the document ends.
   */
  lemma FieldLayout<D>(registry: CodecRegistry<D>, fields: seq<ProjectionField<D>>, i: nat)
    requires AllSupported(registry, fields) && i < |fields|
    ensures var body, off := Body(registry, fields), FieldOffset(registry, fields, i);
      && FieldOffset(registry, fields, 0) == 1
      && FieldOffset(registry, fields, |fields|) == |body| - 1
      && off + 1 + |Encoded(registry, fields[i])| == FieldOffset(registry, fields, i + 1)
      && FieldOffset(registry, fields, i + 1) < |body|
      && body[off] == Name(fields[i].name)
      && body[off + 1..FieldOffset(registry, fields, i + 1)] == CodecFor(registry, fields[i]).encode(fields[i].value)
  {
    var before, after := fields[..i], fields[i + 1..];
    BodySplit(registry, fields, i);
    assert fields[..|fields|] == fields;
    assert fields[..0] == [];
    FieldsEventsLength(registry, fields);
    var evBefore, block, evAfter := FieldsEvents(registry, before), Encoded(registry, fields[i]), FieldsEvents(registry, after);
    EventLayout(evBefore, Name(fields[i].name), block, evAfter);
  }

  /** The body split around field `i`: the fields before it, its own events, and those after it. */
  lemma BodySplit<D>(registry: CodecRegistry<D>, fields: seq<ProjectionField<D>>, i: nat)
    requires AllSupported(registry, fields) && i < |fields|
    ensures AllSupported(registry, fields[..i]) && AllSupported(registry, fields[i + 1..])
    ensures FieldsEvents(registry, fields[..i + 1]) == FieldsEvents(registry, fields[..i]) + FieldEvents(registry, fields[i])
    ensures Body(registry, fields)
      == [Start(Document)] + FieldsEvents(registry, fields[..i]) + FieldEvents(registry, fields[i])
         + FieldsEvents(registry, fields[i + 1..]) + [End(Document)]
  {
    assert fields == fields[..i + 1] + fields[i + 1..];
    FieldsEventsAppend(registry, fields[..i + 1], fields[i + 1..]);
    FieldsEventsSnoc(registry, fields, i);
  }

  /** Positions in a trace that opens, holds `p`, a name and its value, `q`, and closes. */
  lemma EventLayout(p: seq<Event>, n: Event, block: seq<Event>, q: seq<Event>)
    ensures var w := [Start(Document)] + p + ([n] + block) + q + [End(Document)];
      && |w| == 3 + |p| + |block| + |q|
      && w[1 + |p|] == n
      && w[2 + |p|..2 + |p| + |block|] == block
  {
  }

  /** Every field's codec writes exactly one complete value for that field's value. */
  predicate ValuesWellFormed<D>(registry: CodecRegistry<D>, fields: seq<ProjectionField<D>>)
    requires AllSupported(registry, fields)
    decreases |fields|
  {
    fields == [] || (WellFormedValue(Encoded(registry, fields[0])) && ValuesWellFormed(registry, fields[1..]))
  }

  lemma {:induction false} ValuesWellFormedFromEach<D>(registry: CodecRegistry<D>, fields: seq<ProjectionField<D>>)
    requires AllSupported(registry, fields)
    requires forall i :: 0 <= i < |fields| ==> WellFormedValue(Encoded(registry, fields[i]))
    ensures ValuesWellFormed(registry, fields)
    decreases |fields|
  {
    if fields != [] {
      var rest := fields[1..];
      assert forall i :: 0 <= i < |rest| ==> rest[i] == fields[i + 1];
      ValuesWellFormedFromEach(registry, rest);
    }
  }

  /** A field's events are one name followed by one complete value, when its codec writes one. */
  lemma {:induction false} FieldsInsideDocument<D>(registry: CodecRegistry<D>, fields: seq<ProjectionField<D>>)
    requires AllSupported(registry, fields)
    requires ValuesWellFormed(registry, fields)
    ensures CloseSpan(FieldsEvents(registry, fields) + [End(Document)], [Document]) == Some(|FieldsEvents(registry, fields)| + 1)
    decreases |fields|
  {
    if fields != [] {
      var first, rest := fields[0], fields[1..];
      FieldsEventsCons(registry, fields);
      var block := Encoded(registry, first);
      var tail := FieldsEvents(registry, rest) + [End(Document)];
      FieldsInsideDocument(registry, rest);
      MemberInside(first.name, block, tail);
      assert FieldsEvents(registry, fields) + [End(Document)] == [Name(first.name)] + block + tail;
    }
  }

  /**
   * When every field's codec writes one bracket-balanced value, the body is
   * one bracket-balanced document: the document it opens is closed by its last
   * event and not before. `ReadBackBody` gives the name/value structure inside.
   */
  lemma BodyIsOneDocument<D>(registry: CodecRegistry<D>, fields: seq<ProjectionField<D>>)
    requires AllSupported(registry, fields)
    requires forall i :: 0 <= i < |fields| ==> WellFormedValue(Encoded(registry, fields[i]))
    ensures WellFormedValue(Body(registry, fields))
  {
    var body := Body(registry, fields);
    assert body[1..] == FieldsEvents(registry, fields) + [End(Document)];
    ValuesWellFormedFromEach(registry, fields);
    FieldsInsideDocument(registry, fields);
  }

  /** Reading back a run of fields followed by the document's end yields exactly those fields. */
  lemma {:induction false} ReadBackFields<D>(registry: CodecRegistry<D>, fields: seq<ProjectionField<D>>)
    requires AllSupported(registry, fields)
    requires ValuesWellFormed(registry, fields)
    ensures var r := ReadMembers(FieldsEvents(registry, fields) + [End(Document)]);
      && r.Some? && |r.value| == |fields|
      && forall i :: 0 <= i < |fields| ==> r.value[i] == Member(fields[i].name, Encoded(registry, fields[i]))
    decreases |fields|
  {
    if fields == [] {
      assert FieldsEvents(registry, fields) + [End(Document)] == [End(Document)];
    } else {
      var first, rest := fields[0], fields[1..];
      FieldsEventsCons(registry, fields);
      var block := Encoded(registry, first);
      var tail := FieldsEvents(registry, rest) + [End(Document)];
      ReadBackFields(registry, rest);
      var ms := ReadMembers(tail).value;
      ReadMembersCons(first.name, block, tail);
      assert FieldsEvents(registry, fields) + [End(Document)] == [Name(first.name)] + block + tail;
      ConsMembers(registry, fields, Member(first.name, block), ms);
    }
  }

  lemma ConsMembers<D>(registry: CodecRegistry<D>, fields: seq<ProjectionField<D>>, m: Member, ms: seq<Member>)
    requires AllSupported(registry, fields) && fields != []
    requires m == Member(fields[0].name, Encoded(registry, fields[0])) && |ms| == |fields| - 1
    requires forall i :: 0 <= i < |ms| ==> ms[i] == Member(fields[1..][i].name, Encoded(registry, fields[1..][i]))
    ensures forall i :: 0 <= i < |fields| ==> ([m] + ms)[i] == Member(fields[i].name, Encoded(registry, fields[i]))
  {
    forall i | 0 <= i < |fields|
      ensures ([m] + ms)[i] == Member(fields[i].name, Encoded(registry, fields[i]))
    {
      if i > 0 {
        assert fields[1..][i - 1] == fields[i];
      }
    }
  }

  /**
   * The body reads back as a document whose keys are the projection's field
   * names, verbatim and in declaration order, one per field with nothing added
   * or dropped, each holding exactly what the codec for its own value's class
   * wrote for that value.
   */
  lemma ReadBackBody<D>(registry: CodecRegistry<D>, fields: seq<ProjectionField<D>>)
    requires AllSupported(registry, fields)
    requires forall i :: 0 <= i < |fields| ==> WellFormedValue(Encoded(registry, fields[i]))
    ensures var r := ReadDocument(Body(registry, fields));
      && r.Some? && |r.value| == |fields|
      && forall i :: 0 <= i < |fields| ==>
           r.value[i].name == fields[i].name
           && r.value[i].value == CodecFor(registry, fields[i]).encode(fields[i].value)
  {
    var body := Body(registry, fields);
    assert body[1..] == FieldsEvents(registry, fields) + [End(Document)];
    ValuesWellFormedFromEach(registry, fields);
    ReadBackFields(registry, fields);
  }

  lemma {:induction false} FieldsEventsDependOnFieldClassesOnly<D>(r1: CodecRegistry<D>, r2: CodecRegistry<D>, fields: seq<ProjectionField<D>>)
    requires AllSupported(r1, fields)
    requires forall i :: 0 <= i < |fields| ==> r1.lookup(fields[i].value.runtimeClass) == r2.lookup(fields[i].value.runtimeClass)
    ensures AllSupported(r2, fields) && FieldsEvents(r1, fields) == FieldsEvents(r2, fields)
    decreases |fields|
  {
    assert AllSupported(r2, fields) by {
      forall i | 0 <= i < |fields| ensures Supported(r2, fields[i]) {
        assert Supported(r1, fields[i]);
      }
    }
    if fields != [] {
      var init, last := fields[..|fields| - 1], fields[|fields| - 1];
      assert forall i :: 0 <= i < |init| ==> init[i] == fields[i];
      FieldsEventsDependOnFieldClassesOnly(r1, r2, init);
      assert Encoded(r1, last) == Encoded(r2, last);
    }
  }

  /**
   * Registries that hold the same codecs for the classes of the fields' values
   * give the same body: no other class is ever looked up.
   */
  lemma BodyDependsOnFieldClassesOnly<D>(r1: CodecRegistry<D>, r2: CodecRegistry<D>, fields: seq<ProjectionField<D>>)
    requires AllSupported(r1, fields)
    requires forall i :: 0 <= i < |fields| ==> r1.lookup(fields[i].value.runtimeClass) == r2.lookup(fields[i].value.runtimeClass)
    ensures AllSupported(r2, fields) && Body(r1, fields) == Body(r2, fields)
  {
    FieldsEventsDependOnFieldClassesOnly(r1, r2, fields);
  }

  /**
   * When the registry throws, what has been written is not a complete
   * document: its last event is the name of the field whose class has no codec.
   */
  lemma PartialBodyIsNotDocument<D>(registry: CodecRegistry<D>, fields: seq<ProjectionField<D>>)
    requires !AllSupported(registry, fields)
    ensures var partial := PartialBody(registry, fields);
      && partial[|partial| - 1] == Name(fields[FirstUnsupported(registry, fields)].name)
      && !WellFormedValue(partial)
  {
    var partial := PartialBody(registry, fields);
    if WellFormedValue(partial) {
      ValueSpanLast(partial);
      assert false;
    }
  }

}
