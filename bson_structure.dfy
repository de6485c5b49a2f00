/**
 * A reference reading of writer traces, independent of any codec: where one
 * complete value ends, and how a document's top-level members are read back.
 * Containers must close in the order they were opened and with their own kind.
 * That reading is bracket balance only: names are skipped, so it does not check
 * that names and values alternate inside a document (`ReadMembers` does that).
 */
module BsonStructure {
  import opened Wrappers
  import opened BsonWriter

  function Add(n: nat, o: Option<nat>): Option<nat>
  {
    match o
    case None => None
    case Some(m) => Some(n + m)
  }

  /**
   * With the containers `open` still open (innermost last), the number of
   * events up to and including the one that closes the outermost of them,
   * or None if the trace ends first or closes a container of the wrong kind.
   */
  function CloseSpan(es: seq<Event>, open: seq<Container>): (r: Option<nat>)
    requires |open| > 0
    ensures r.Some? ==> 1 <= r.value <= |es|
    decreases |es|
  {
    if es == [] then None
    else match es[0]
      case Start(k) => Add(1, CloseSpan(es[1..], open + [k]))
      case End(k) =>
        if k != open[|open| - 1] then None
        else if |open| == 1 then Some(1)
        else Add(1, CloseSpan(es[1..], open[..|open| - 1]))
      case _ => Add(1, CloseSpan(es[1..], open))
  }

  /** The length of the one complete value at the front of `es`, if there is one. */
  function ValueSpan(es: seq<Event>): (r: Option<nat>)
    ensures r.Some? ==> 1 <= r.value <= |es|
  {
    if es == [] then None
    else match es[0]
      case ScalarValue(_) => Some(1)
      case Start(k) => Add(1, CloseSpan(es[1..], [k]))
      case _ => None
  }

  /**
   * `es` is exactly one bracket-balanced value: a scalar, or a container with
   * all it opens closed in order and by kind. Names inside are not checked.
   */
  predicate WellFormedValue(es: seq<Event>)
  {
    ValueSpan(es) == Some(|es|)
  }

  /** One top-level member of a document: its key and the events of its value. */
  datatype Member = Member(name: string, value: seq<Event>)

  /** Reads name/value pairs up to the document's closing event, which must be the last event. */
  function ReadMembers(es: seq<Event>): Option<seq<Member>>
    decreases |es|
  {
    if es == [] then None
    else match es[0]
      case End(Document) => if |es| == 1 then Some([]) else None
      case Name(n) =>
        (match ValueSpan(es[1..])
         case None => None
         case Some(len) =>
           match ReadMembers(es[1 + len..])
           case None => None
           case Some(ms) => Some([Member(n, es[1..1 + len])] + ms))
      case _ => None
  }

  /** Reads a trace that must consist of exactly one document, returning its members in order. */
  function ReadDocument(es: seq<Event>): Option<seq<Member>>
  {
    if es != [] && es[0] == Start(Document) then ReadMembers(es[1..]) else None
  }

  /** Events after the point where the outermost open container closes do not change that point. */
  lemma {:induction false} CloseSpanPrefix(a: seq<Event>, b: seq<Event>, open: seq<Container>)
    requires |open| > 0 && CloseSpan(a, open) == Some(|a|)
    ensures CloseSpan(a + b, open) == Some(|a|)
    decreases |a|
  {
    assert (a + b)[0] == a[0];
    assert (a + b)[1..] == a[1..] + b;
    match a[0]
    case Start(k) =>
      CloseSpanPrefix(a[1..], b, open + [k]);
    case End(k) =>
      if |open| > 1 {
        CloseSpanPrefix(a[1..], b, open[..|open| - 1]);
      }
    case _ =>
      CloseSpanPrefix(a[1..], b, open);
  }

  /**
   * Events that exactly close the containers `inner`, read with more containers
   * `outer` open around them, leave the reader where it started.
   */
  lemma {:induction false} CloseSpanNested(a: seq<Event>, rest: seq<Event>, outer: seq<Container>, inner: seq<Container>)
    requires |outer| > 0 && |inner| > 0 && CloseSpan(a, inner) == Some(|a|)
    ensures CloseSpan(a + rest, outer + inner) == Add(|a|, CloseSpan(rest, outer))
    decreases |a|
  {
    assert (a + rest)[0] == a[0];
    assert (a + rest)[1..] == a[1..] + rest;
    var all := outer + inner;
    match a[0]
    case Start(k) =>
      assert all + [k] == outer + (inner + [k]);
      CloseSpanNested(a[1..], rest, outer, inner + [k]);
    case End(k) =>
      assert all[|all| - 1] == inner[|inner| - 1];
      if |inner| == 1 {
        assert |a| == 1 && a + rest == [a[0]] + rest;
        assert all[..|all| - 1] == outer;
      } else {
        assert all[..|all| - 1] == outer + inner[..|inner| - 1];
        CloseSpanNested(a[1..], rest, outer, inner[..|inner| - 1]);
      }
    case _ =>
      CloseSpanNested(a[1..], rest, outer, inner);
  }

  /** A complete value at the front is still found when more events follow it. */
  lemma ValueSpanPrefix(v: seq<Event>, rest: seq<Event>)
    requires WellFormedValue(v)
    ensures ValueSpan(v + rest) == Some(|v|)
  {
    assert (v + rest)[0] == v[0];
    if v[0].Start? {
      assert (v + rest)[1..] == v[1..] + rest;
      CloseSpanPrefix(v[1..], rest, [v[0].kind]);
    }
  }

  /** Inside open containers, a complete value is skipped over as a whole. */
  lemma ValueInside(v: seq<Event>, rest: seq<Event>, open: seq<Container>)
    requires WellFormedValue(v) && |open| > 0
    ensures CloseSpan(v + rest, open) == Add(|v|, CloseSpan(rest, open))
  {
    if v[0].Start? {
      ContainerInside(v[0].kind, v[1..], rest, open);
      assert v == [Start(v[0].kind)] + v[1..];
    } else {
      assert v == [v[0]];
      assert (v + rest)[1..] == rest;
    }
  }

  lemma ContainerInside(k: Container, body: seq<Event>, rest: seq<Event>, open: seq<Container>)
    requires |open| > 0 && CloseSpan(body, [k]) == Some(|body|)
    ensures CloseSpan([Start(k)] + body + rest, open) == Add(1 + |body|, CloseSpan(rest, open))
  {
    var es := [Start(k)] + body + rest;
    assert es[0] == Start(k);
    assert es[1..] == body + rest;
    CloseSpanNested(body, rest, open, [k]);
  }

  /** Inside a document, a name and the complete value after it are skipped over together. */
  lemma MemberInside(n: string, v: seq<Event>, rest: seq<Event>)
    requires WellFormedValue(v)
    ensures CloseSpan([Name(n)] + v + rest, [Document]) == Add(1 + |v|, CloseSpan(rest, [Document]))
  {
    var es := [Name(n)] + v + rest;
    assert es[0] == Name(n);
    assert es[1..] == v + rest;
    ValueInside(v, rest, [Document]);
  }

  /** A name followed by a complete value is read as one member, ahead of the members that follow. */
  lemma ReadMembersCons(n: string, v: seq<Event>, rest: seq<Event>)
    requires WellFormedValue(v) && ReadMembers(rest).Some?
    ensures ReadMembers([Name(n)] + v + rest) == Some([Member(n, v)] + ReadMembers(rest).value)
  {
    var es := [Name(n)] + v + rest;
    assert es[0] == Name(n);
    assert es[1..] == v + rest;
    ValueSpanPrefix(v, rest);
    assert es[1..1 + |v|] == v;
    assert es[1 + |v|..] == rest;
  }

  /** The event that ends a span is the end of a container. */
  lemma {:induction false} CloseSpanLast(es: seq<Event>, open: seq<Container>)
    requires |open| > 0 && CloseSpan(es, open).Some?
    ensures es[CloseSpan(es, open).value - 1].End?
    decreases |es|
  {
    match es[0]
    case Start(k) =>
      CloseSpanLast(es[1..], open + [k]);
    case End(k) =>
      if |open| > 1 {
        CloseSpanLast(es[1..], open[..|open| - 1]);
      }
    case _ =>
      CloseSpanLast(es[1..], open);
  }

  /** A complete value ends with a scalar or with the end of a container, never with a name. */
  lemma ValueSpanLast(es: seq<Event>)
    requires ValueSpan(es).Some?
    ensures var last := es[ValueSpan(es).value - 1]; last.End? || last.ScalarValue?
  {
    if es[0].Start? {
      CloseSpanLast(es[1..], [es[0].kind]);
    }
  }

}
