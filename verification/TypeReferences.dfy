/**
 Type references: parsed without a depth limit, and exactly the written forms of
 the types without a non-null directly inside a non-null.
 */
module TypeReferences {
  import opened Values
  import opened Schema
  import opened ParseTree
  import VariableTypes

  function Reference(ts: Stream): (r: Parsed<TypeRef>)
    ensures r.Parsed? ==> Length(r.rest) < Length(ts)
    decreases Length(ts)
  {
    if StartsWithName(ts) then AfterBang(Named(ts.token.name), ts.rest)
    else if !Starts(ts, LBracket) then Failed
    else
      var of := Reference(ts.rest);
      if of.Failed? || !Starts(of.rest, RBracket) then Failed else AfterBang(ListOf(of.value), of.rest.rest)
  }

  /** A type, made non-null by an exclamation mark. */
  function AfterBang(t: TypeRef, ts: Stream): (r: Parsed<TypeRef>)
    ensures r.Parsed? && Length(r.rest) <= Length(ts)
  {
    if Starts(ts, Bang) then Parsed(NonNull(t), ts.rest) else Parsed(t, ts)
  }

  function WriteType(t: TypeRef, rest: Stream): Stream
    requires Nameable(t)
  {
    match t
    case Named(name) => Next(NameToken(name), rest)
    case ListOf(of) => Next(LBracket, WriteType(of, Next(RBracket, rest)))
    case NonNull(of) => WriteType(of, Next(Bang, rest))
  }

  predicate Nameable(t: TypeRef) {
    match t
    case Named(name) => name != ""
    case ListOf(of) => Nameable(of)
    case NonNull(of) => Nameable(of)
  }

  /** Whatever is accepted is the writing of a well-formed type. */
  lemma {:induction false} ReferenceWasWritten(ts: Stream)
    ensures var r := Reference(ts);
            r.Parsed? ==> Nameable(r.value) && VariableTypes.WellFormed(r.value) && ts == WriteType(r.value, r.rest)
    decreases Length(ts)
  {
    if Starts(ts, LBracket) {
      ReferenceWasWritten(ts.rest);
    }
  }

  /** A well-formed type written out, and not followed by a stray exclamation mark,
      is parsed back. */
  lemma {:induction false} ReferenceReads(t: TypeRef, rest: Stream)
    requires Nameable(t) && VariableTypes.WellFormed(t) && (t.NonNull? || !Starts(rest, Bang))
    ensures Reference(WriteType(t, rest)) == Parsed(t, rest)
    decreases t
  {
    match t
    case Named(_) =>
    case ListOf(of) => ReferenceReads(of, Next(RBracket, rest));
    case NonNull(of) =>
      match of
      case Named(_) =>
      case ListOf(inner) => ReferenceReads(inner, Next(RBracket, Next(Bang, rest)));
  }

  /** A non-null directly inside a non-null cannot be read back. */
  lemma DoubledBangIsNotRead(t: TypeRef, rest: Stream)
    requires Nameable(t) && VariableTypes.WellFormed(t) && t.NonNull?
    ensures Reference(WriteType(NonNull(t), rest)) == Parsed(t, Next(Bang, rest))
  {
    ReferenceReads(t, Next(Bang, rest));
  }

  /** A cursor over the tokens of a type reference. */
  class TypeParser {
    var stream: Stream

    constructor (stream: Stream)
      ensures this.stream == stream
    {
      this.stream := stream;
    }

    method ParseTypeReference() returns (r: Option<TypeRef>)
      modifies this
      ensures (if r.Some? then Parsed(r.value, stream) else Failed) == Reference(old(stream))
      decreases Length(stream)
    {
      if stream.Next? && stream.token == LBracket {
        stream := stream.rest;
        r := ParseTypeReference();
        if r.None? || stream.End? || stream.token != RBracket {
          return None;
        }
        stream := stream.rest;
        r := Some(ListOf(r.value));
      } else if stream.Next? && stream.token.NameToken? {
        r := Some(Named(stream.token.name));
        stream := stream.rest;
      } else {
        return None;
      }
      if stream.Next? && stream.token == Bang {
        stream := stream.rest;
        r := Some(NonNull(r.value));
      }
    }
  }
}
