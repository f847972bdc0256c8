/**
 The parser itself: one cursor over the tokens and a nesting counter, driven by
 either route.
 */
module ParserCursor {
  import opened Values
  import opened Document
  import opened ParseTree
  import opened CanonicalForm
  import IrParser
  import D = DirectParser
  import opened ParserRoutes

  /** A method's result as an outcome; None stands for a thrown error. */
  function Outcome<T>(r: Option<T>, rest: Stream): Parsed<T> {
    if r.Some? then Parsed(r.value, rest) else Failed
  }

  /** More elements in front of an outcome. */
  function Ahead<T>(xs: seq<T>, p: Parsed<seq<T>>): Parsed<seq<T>> {
    if p.Failed? then Failed else Parsed(xs + p.value, p.rest)
  }

  /** Entries stored before those of an outcome. */
  function Before<T>(m: map<string, T>, p: Parsed<map<string, T>>): Parsed<map<string, T>> {
    if p.Failed? then Failed else Parsed(m + p.value, p.rest)
  }

  lemma AheadNone<T>(p: Parsed<seq<T>>)
    ensures Ahead([], p) == p
  {
    if p.Parsed? {
      assert [] + p.value == p.value;
    }
  }

  lemma BeforeNone<T>(p: Parsed<map<string, T>>)
    ensures Before(map[], p) == p
  {
    if p.Parsed? {
      assert map[] + p.value == p.value;
    }
  }

  lemma AheadEnd<T>(xs: seq<T>, ts: Stream)
    ensures Ahead(xs, Parsed([], ts)) == Parsed(xs, ts)
  {
    assert xs + [] == xs;
  }

  lemma BeforeEnd<T>(m: map<string, T>, ts: Stream)
    ensures Before(m, Parsed(map[], ts)) == Parsed(m, ts)
  {
    assert m + map[] == m;
  }

  lemma AheadAgain<T>(xs: seq<T>, x: T, p: Parsed<seq<T>>)
    ensures Ahead(xs, Ahead([x], p)) == Ahead(xs + [x], p)
  {
    if p.Parsed? {
      assert xs + ([x] + p.value) == (xs + [x]) + p.value;
    }
  }

  lemma BeforeAgain<T>(m: map<string, T>, name: string, x: T, p: Parsed<map<string, T>>)
    ensures Before(m, Before(map[name := x], p)) == Before(m[name := x], p)
  {
    if p.Parsed? {
      assert m + (map[name := x] + p.value) == m[name := x] + p.value;
    }
  }

  class Parser {
    const reading: Reading
    var stream: Stream
    var depth: nat

    constructor (stream: Stream, reading: Reading)
      ensures this.stream == stream && this.reading == reading && depth == 0
    {
      this.stream, this.reading, depth := stream, reading, 0;
    }

    /** Consumes the current token if it is `t`. */
    method Expect(t: Token) returns (ok: bool)
      modifies this`stream
      ensures ok == Starts(old(stream), t)
      ensures stream == if ok then old(stream).rest else old(stream)
    {
      ok := stream.Next? && stream.token == t;
      if ok {
        stream := stream.rest;
      }
    }

    method ParseName() returns (r: Option<Ident>)
      modifies this`stream
      ensures r.Some? == StartsWithName(old(stream))
      ensures r.Some? ==> r.value == old(stream).token.name && stream == old(stream).rest
    {
      if stream.End? || !stream.token.NameToken? {
        return None;
      }
      r := Some(stream.token.name);
      stream := stream.rest;
    }

    /** Enters one more level, unless that is too many. */
    method Deepen() returns (ok: bool)
      requires depth <= D.MAX_DEPTH
      modifies this`depth
      ensures ok == (old(depth) + 1 <= D.MAX_DEPTH) && depth == old(depth) + 1
    {
      depth := depth + 1;
      ok := depth <= D.MAX_DEPTH;
    }

    // ----- The direct route -----

    method ParseValue(isConst: bool) returns (r: Option<Value>)
      requires depth <= D.MAX_DEPTH
      modifies this
      ensures Outcome(r, stream) == D.Literal(old(stream), isConst, old(depth), reading)
      ensures r.Some? ==> depth == old(depth)
      decreases Length(stream), 1
    {
      if stream.End? {
        return None;
      }
      match stream.token {
        case Dollar =>
          if isConst {
            return None;
          }
          stream := stream.rest;
          var name := ParseName();
          r := if name.Some? then Some(Variable(name.value)) else None;
        case IntToken(text) =>
          stream := stream.rest;
          r := Some(Int(reading.integer(text)));
        case FloatToken(text) =>
          stream := stream.rest;
          r := Some(Float(reading.number(text)));
        case StringToken(raw, block) =>
          stream := stream.rest;
          r := Some(Str(reading.text(raw, block)));
        case NameToken(name) =>
          stream := stream.rest;
          r := Some(D.NameLiteral(name));
        case LBracket =>
          r := ParseListValue(isConst);
        case LBrace =>
          r := ParseObjectValue(isConst);
        case _ =>
          return None;
      }
    }

    method ParseListValue(isConst: bool) returns (r: Option<Value>)
      requires depth <= D.MAX_DEPTH && Starts(stream, LBracket)
      modifies this
      ensures Outcome(r, stream) == D.Literal(old(stream), isConst, old(depth), reading)
      ensures r.Some? ==> depth == old(depth)
      decreases Length(stream), 0
    {
      var ok := Deepen();
      if !ok {
        return None;
      }
      ok := Expect(LBracket);
      var items := ParseItems(isConst);
      if items.None? {
        return None;
      }
      ok := Expect(RBracket);
      depth := depth - 1;
      r := Some(List(items.value));
    }

    /** Values up to a closing bracket. */
    method ParseItems(isConst: bool) returns (r: Option<seq<Value>>)
      requires depth <= D.MAX_DEPTH
      modifies this
      ensures Outcome(r, stream) == D.Items(old(stream), isConst, old(depth), reading)
      ensures r.Some? ==> depth == old(depth)
      decreases Length(stream), 2
    {
      ghost var start := stream;
      var items: seq<Value> := [];
      AheadNone(D.Items(start, isConst, depth, reading));
      while !(stream.Next? && stream.token == RBracket)
        invariant depth == old(depth) && Length(stream) <= Length(start)
        invariant D.Items(start, isConst, depth, reading) == Ahead(items, D.Items(stream, isConst, depth, reading))
        decreases Length(stream)
      {
        var item := ParseValue(isConst);
        if item.None? {
          return None;
        }
        AheadAgain(items, item.value, D.Items(stream, isConst, depth, reading));
        items := items + [item.value];
      }
      AheadEnd(items, stream);
      r := Some(items);
    }

    method ParseObjectValue(isConst: bool) returns (r: Option<Value>)
      requires depth <= D.MAX_DEPTH && Starts(stream, LBrace)
      modifies this
      ensures Outcome(r, stream) == D.Literal(old(stream), isConst, old(depth), reading)
      ensures r.Some? ==> depth == old(depth)
      decreases Length(stream), 0
    {
      var ok := Deepen();
      if !ok {
        return None;
      }
      ok := Expect(LBrace);
      var fields := ParseEntries(RBrace, isConst);
      if fields.None? {
        return None;
      }
      ok := Expect(RBrace);
      depth := depth - 1;
      r := Some(Object(fields.value));
    }

    /** Named values up to a closing token, stored in a hash as they come. */
    method ParseEntries(close: Token, isConst: bool) returns (r: Option<map<string, Value>>)
      requires depth <= D.MAX_DEPTH
      modifies this
      ensures Outcome(r, stream) == D.Entries(old(stream), isConst, close, old(depth), reading)
      ensures r.Some? ==> depth == old(depth)
      decreases Length(stream), 2
    {
      ghost var start := stream;
      var m: map<string, Value> := map[];
      BeforeNone(D.Entries(start, isConst, close, depth, reading));
      while !(stream.Next? && stream.token == close)
        invariant depth == old(depth) && Length(stream) <= Length(start)
        invariant D.Entries(start, isConst, close, depth, reading)
                  == Before(m, D.Entries(stream, isConst, close, depth, reading))
        decreases Length(stream)
      {
        var entry := ParseEntry(isConst, close);
        if entry.None? {
          return None;
        }
        BeforeAgain(m, entry.value.0, entry.value.1, D.Entries(stream, isConst, close, depth, reading));
        m := m[entry.value.0 := entry.value.1];
      }
      BeforeEnd(m, stream);
      r := Some(m);
    }

    method ParseEntry(isConst: bool, ghost close: Token) returns (r: Option<(string, Value)>)
      requires depth <= D.MAX_DEPTH && !Starts(stream, close)
      modifies this
      ensures r.Some? ==> depth == old(depth) && Length(stream) < Length(old(stream))
      ensures D.Entries(old(stream), isConst, close, old(depth), reading)
              == if r.None? then Failed
                 else Before(map[r.value.0 := r.value.1], D.Entries(stream, isConst, close, old(depth), reading))
      decreases Length(stream), 1
    {
      var name := ParseName();
      if name.None? {
        return None;
      }
      var ok := Expect(Colon);
      if !ok {
        return None;
      }
      assert Length(old(stream).rest) == 1 + Length(stream);
      var value := ParseValue(isConst);
      if value.None? {
        return None;
      }
      r := Some((name.value, value.value));
    }

    method ParseArguments(isConst: bool) returns (r: Option<map<string, Value>>)
      requires depth <= D.MAX_DEPTH
      modifies this
      ensures Outcome(r, stream) == D.Arguments(old(stream), isConst, old(depth), reading)
      ensures r.Some? ==> depth == old(depth)
    {
      var ok := Expect(LParen);
      if !ok || (stream.Next? && stream.token == RParen) {
        return None;
      }
      r := ParseEntries(RParen, isConst);
      if r.Some? {
        ok := Expect(RParen);
      }
    }

    method ParseOptionalArguments() returns (ok: bool, r: Option<map<string, Value>>)
      requires depth <= D.MAX_DEPTH
      modifies this
      ensures (if ok then Parsed(r, stream) else Failed) == D.OptionalArguments(old(stream), old(depth), reading)
      ensures ok ==> depth == old(depth)
    {
      if stream.Next? && stream.token == LParen {
        r := ParseArguments(false);
        ok := r.Some?;
      } else {
        ok, r := true, None;
      }
    }

    method ParseDirective() returns (r: Option<Directive>)
      requires depth <= D.MAX_DEPTH && Starts(stream, At)
      modifies this
      ensures r.Some? ==> depth == old(depth) && Length(stream) < Length(old(stream))
      ensures D.Directives(old(stream), old(depth), reading)
              == if r.None? then Failed else Ahead([r.value], D.Directives(stream, old(depth), reading))
    {
      var ok := Expect(At);
      var name := ParseName();
      if name.None? {
        return None;
      }
      assert Length(old(stream).rest) == 1 + Length(old(stream).rest.rest);
      var arguments;
      ok, arguments := ParseOptionalArguments();
      if !ok {
        return None;
      }
      r := Some(Directive(name.value, arguments));
    }

    method ParseDirectives() returns (r: Option<seq<Directive>>)
      requires depth <= D.MAX_DEPTH
      modifies this
      ensures Outcome(r, stream) == D.Directives(old(stream), old(depth), reading)
      ensures r.Some? ==> depth == old(depth)
    {
      ghost var start := stream;
      var directives: seq<Directive> := [];
      AheadNone(D.Directives(start, depth, reading));
      while stream.Next? && stream.token == At
        invariant depth == old(depth)
        invariant D.Directives(start, depth, reading) == Ahead(directives, D.Directives(stream, depth, reading))
        decreases Length(stream)
      {
        var directive := ParseDirective();
        if directive.None? {
          return None;
        }
        AheadAgain(directives, directive.value, D.Directives(stream, depth, reading));
        directives := directives + [directive.value];
      }
      AheadEnd(directives, stream);
      r := Some(directives);
    }

    method ParseSelectionSet() returns (r: Option<seq<Selection>>)
      requires depth <= D.MAX_DEPTH
      modifies this
      ensures Outcome(r, stream) == D.SelectionSet(old(stream), old(depth), reading)
      ensures r.Some? ==> depth == old(depth)
      decreases Length(stream), 0
    {
      var ok := Deepen();
      if !ok {
        return None;
      }
      ok := Expect(LBrace);
      if !ok || (stream.Next? && stream.token == RBrace) {
        return None;
      }
      ghost var start := stream;
      var selections: seq<Selection> := [];
      AheadNone(D.Selections(start, depth, reading));
      while !(stream.Next? && stream.token == RBrace)
        invariant depth == old(depth) + 1 && Length(stream) <= Length(start) < Length(old(stream))
        invariant D.Selections(start, depth, reading) == Ahead(selections, D.Selections(stream, depth, reading))
        decreases Length(stream)
      {
        var selection := ParseSelection();
        if selection.None? {
          return None;
        }
        AheadAgain(selections, selection.value, D.Selections(stream, depth, reading));
        selections := selections + [selection.value];
      }
      AheadEnd(selections, stream);
      ok := Expect(RBrace);
      depth := depth - 1;
      r := Some(selections);
    }

    method ParseSelection() returns (r: Option<Selection>)
      requires depth <= D.MAX_DEPTH
      modifies this
      ensures Outcome(r, stream) == D.Select(old(stream), old(depth), reading)
      ensures r.Some? ==> depth == old(depth)
      decreases Length(stream), 2
    {
      if stream.End? || stream.token != Spread {
        r := ParseField();
        return;
      }
      stream := stream.rest;
      if stream.Next? && stream.token == NameToken("on") {
        if stream.rest.End? || !stream.rest.token.NameToken? {
          return None;
        }
        assert Length(stream) == 2 + Length(stream.rest.rest);
        stream := stream.rest;
        var on := ParseName();
        r := ParseInline(Some(on.value));
      } else if stream.Next? && (stream.token == LBrace || stream.token == At) {
        r := ParseInline(None);
      } else {
        var name := ParseName();
        if name.None? {
          return None;
        }
        var directives := ParseDirectives();
        r := if directives.Some? then Some(FragmentSpread(name.value, directives.value)) else None;
      }
    }

    method ParseInline(on: Option<string>) returns (r: Option<Selection>)
      requires depth <= D.MAX_DEPTH
      modifies this
      ensures Outcome(r, stream) == D.Inline(on, old(stream), old(depth), reading)
      ensures r.Some? ==> depth == old(depth)
      decreases Length(stream), 1
    {
      var directives := ParseDirectives();
      if directives.None? {
        return None;
      }
      var sub := ParseSelectionSet();
      r := if sub.Some? then Some(InlineFragment(on, directives.value, sub.value)) else None;
    }

    method ParseField() returns (r: Option<Selection>)
      requires depth <= D.MAX_DEPTH
      modifies this
      ensures Outcome(r, stream) == D.FieldOf(old(stream), old(depth), reading)
      ensures r.Some? ==> depth == old(depth)
      decreases Length(stream), 1, 1
    {
      var first := ParseName();
      if first.None? {
        return None;
      }
      if stream.Next? && stream.token == Colon {
        stream := stream.rest;
        var name := ParseName();
        if name.None? {
          return None;
        }
        assert Length(old(stream).rest) == 2 + Length(stream);
        r := ParseFieldBody(Some(first.value), name.value);
      } else {
        r := ParseFieldBody(None, first.value);
      }
    }

    method ParseFieldBody(alias: Option<string>, name: string) returns (r: Option<Selection>)
      requires depth <= D.MAX_DEPTH
      modifies this
      ensures Outcome(r, stream) == D.FieldBody(alias, name, old(stream), old(depth), reading)
      ensures r.Some? ==> depth == old(depth)
      decreases Length(stream), 1, 0
    {
      var ok, arguments := ParseOptionalArguments();
      if !ok {
        return None;
      }
      var directives := ParseDirectives();
      if directives.None? {
        return None;
      }
      if stream.End? || stream.token != LBrace {
        return Some(Field(alias, name, arguments, directives.value, Absent));
      }
      var sub := ParseSelectionSet();
      r := if sub.Some? then Some(Field(alias, name, arguments, directives.value, Present(sub.value))) else None;
    }

    // ----- The intermediate route -----

    method IrParseValue(isConst: bool) returns (r: Option<IrValue>)
      modifies this`stream
      ensures Outcome(r, stream) == IrParser.Value(old(stream), isConst)
      decreases Length(stream), 1
    {
      if stream.End? {
        return None;
      }
      match stream.token {
        case Dollar =>
          if isConst {
            return None;
          }
          stream := stream.rest;
          var name := ParseName();
          r := if name.Some? then Some(IrVariable(name.value)) else None;
        case IntToken(text) =>
          stream := stream.rest;
          r := Some(IrInt(text));
        case FloatToken(text) =>
          stream := stream.rest;
          r := Some(IrFloat(text));
        case StringToken(raw, block) =>
          stream := stream.rest;
          r := Some(IrString(raw, block));
        case NameToken(name) =>
          stream := stream.rest;
          r := Some(IrParser.NameValue(name));
        case LBracket =>
          r := IrParseListValue(isConst);
        case LBrace =>
          stream := stream.rest;
          var fields := IrParseEntries(RBrace, isConst);
          if fields.None? {
            return None;
          }
          var ok := Expect(RBrace);
          r := Some(IrObject(fields.value));
        case _ =>
          return None;
      }
    }

    method IrParseListValue(isConst: bool) returns (r: Option<IrValue>)
      requires Starts(stream, LBracket)
      modifies this`stream
      ensures Outcome(r, stream) == IrParser.Value(old(stream), isConst)
      decreases Length(stream), 0
    {
      var ok := Expect(LBracket);
      ghost var start := stream;
      var items: seq<IrValue> := [];
      AheadNone(IrParser.Items(start, isConst));
      while !(stream.Next? && stream.token == RBracket)
        invariant Length(stream) <= Length(start) < Length(old(stream))
        invariant IrParser.Items(start, isConst) == Ahead(items, IrParser.Items(stream, isConst))
        decreases Length(stream)
      {
        var item := IrParseValue(isConst);
        if item.None? {
          return None;
        }
        AheadAgain(items, item.value, IrParser.Items(stream, isConst));
        items := items + [item.value];
      }
      AheadEnd(items, stream);
      ok := Expect(RBracket);
      r := Some(IrList(items));
    }

    method IrParseEntries(close: Token, isConst: bool) returns (r: Option<seq<IrEntry>>)
      modifies this`stream
      ensures Outcome(r, stream) == IrParser.Entries(old(stream), isConst, close)
      decreases Length(stream), 2
    {
      ghost var start := stream;
      var entries: seq<IrEntry> := [];
      AheadNone(IrParser.Entries(start, isConst, close));
      while !(stream.Next? && stream.token == close)
        invariant Length(stream) <= Length(start)
        invariant IrParser.Entries(start, isConst, close) == Ahead(entries, IrParser.Entries(stream, isConst, close))
        decreases Length(stream)
      {
        var entry := IrParseEntry(isConst, close);
        if entry.None? {
          return None;
        }
        AheadAgain(entries, entry.value, IrParser.Entries(stream, isConst, close));
        entries := entries + [entry.value];
      }
      AheadEnd(entries, stream);
      r := Some(entries);
    }

    method IrParseEntry(isConst: bool, ghost close: Token) returns (r: Option<IrEntry>)
      requires !Starts(stream, close)
      modifies this`stream
      ensures r.Some? ==> Length(stream) < Length(old(stream))
      ensures IrParser.Entries(old(stream), isConst, close)
              == if r.None? then Failed else Ahead([r.value], IrParser.Entries(stream, isConst, close))
      decreases Length(stream), 1
    {
      var name := ParseName();
      if name.None? {
        return None;
      }
      var ok := Expect(Colon);
      if !ok {
        return None;
      }
      assert Length(old(stream).rest) == 1 + Length(stream);
      var value := IrParseValue(isConst);
      if value.None? {
        return None;
      }
      r := Some(IrEntry(name.value, value.value));
    }

    method IrParseArguments(isConst: bool) returns (r: Option<seq<IrEntry>>)
      modifies this`stream
      ensures Outcome(r, stream) == IrParser.Arguments(old(stream), isConst)
    {
      var ok := Expect(LParen);
      if !ok || (stream.Next? && stream.token == RParen) {
        return None;
      }
      r := IrParseEntries(RParen, isConst);
      if r.Some? {
        ok := Expect(RParen);
      }
    }

    method IrParseOptionalArguments() returns (r: Option<seq<IrEntry>>)
      modifies this`stream
      ensures Outcome(r, stream) == IrParser.OptionalArguments(old(stream))
    {
      if stream.Next? && stream.token == LParen {
        r := IrParseArguments(false);
      } else {
        r := Some([]);
      }
    }

    method IrParseDirective() returns (r: Option<IrDirective>)
      requires Starts(stream, At)
      modifies this`stream
      ensures r.Some? ==> Length(stream) < Length(old(stream))
      ensures IrParser.Directives(old(stream))
              == if r.None? then Failed else Ahead([r.value], IrParser.Directives(stream))
    {
      var ok := Expect(At);
      var name := ParseName();
      if name.None? {
        return None;
      }
      assert Length(old(stream).rest) == 1 + Length(old(stream).rest.rest);
      var arguments := IrParseOptionalArguments();
      if arguments.None? {
        return None;
      }
      r := Some(IrDirective(name.value, arguments.value));
    }

    method IrParseDirectives() returns (r: Option<seq<IrDirective>>)
      modifies this`stream
      ensures Outcome(r, stream) == IrParser.Directives(old(stream))
    {
      ghost var start := stream;
      var directives: seq<IrDirective> := [];
      AheadNone(IrParser.Directives(start));
      while stream.Next? && stream.token == At
        invariant IrParser.Directives(start) == Ahead(directives, IrParser.Directives(stream))
        decreases Length(stream)
      {
        var directive := IrParseDirective();
        if directive.None? {
          return None;
        }
        AheadAgain(directives, directive.value, IrParser.Directives(stream));
        directives := directives + [directive.value];
      }
      AheadEnd(directives, stream);
      r := Some(directives);
    }

    method IrParseSelectionSet() returns (r: Option<IrSelectionSet>)
      modifies this`stream
      ensures Outcome(r, stream) == IrParser.SelectionSet(old(stream))
      decreases Length(stream), 0
    {
      var ok := Expect(LBrace);
      if !ok || (stream.Next? && stream.token == RBrace) {
        return None;
      }
      ghost var start := stream;
      var selections: seq<IrSelection> := [];
      AheadNone(IrParser.Selections(start));
      while !(stream.Next? && stream.token == RBrace)
        invariant Length(stream) <= Length(start) < Length(old(stream))
        invariant IrParser.Selections(start) == Ahead(selections, IrParser.Selections(stream))
        decreases Length(stream)
      {
        var selection := IrParseSelection();
        if selection.None? {
          return None;
        }
        AheadAgain(selections, selection.value, IrParser.Selections(stream));
        selections := selections + [selection.value];
      }
      AheadEnd(selections, stream);
      ok := Expect(RBrace);
      r := Some(SetOf(selections));
    }

    method IrParseSelection() returns (r: Option<IrSelection>)
      modifies this`stream
      ensures Outcome(r, stream) == IrParser.Selection(old(stream))
      decreases Length(stream), 2
    {
      if stream.End? || stream.token != Spread {
        r := IrParseField();
        return;
      }
      stream := stream.rest;
      if stream.Next? && stream.token == NameToken("on") {
        if stream.rest.End? || !stream.rest.token.NameToken? {
          return None;
        }
        assert Length(stream) == 2 + Length(stream.rest.rest);
        stream := stream.rest;
        var on := ParseName();
        r := IrParseInline(on.value);
      } else if stream.Next? && (stream.token == LBrace || stream.token == At) {
        r := IrParseInline("");
      } else {
        var name := ParseName();
        if name.None? {
          return None;
        }
        var directives := IrParseDirectives();
        r := if directives.Some? then Some(IrSpread(name.value, directives.value)) else None;
      }
    }

    method IrParseInline(on: string) returns (r: Option<IrSelection>)
      modifies this`stream
      ensures Outcome(r, stream) == IrParser.Inline(on, old(stream))
      decreases Length(stream), 1
    {
      var directives := IrParseDirectives();
      if directives.None? {
        return None;
      }
      var sub := IrParseSelectionSet();
      r := if sub.Some? then Some(IrInline(on, directives.value, sub.value)) else None;
    }

    method IrParseField() returns (r: Option<IrSelection>)
      modifies this`stream
      ensures Outcome(r, stream) == IrParser.Field(old(stream))
      decreases Length(stream), 1, 1
    {
      var first := ParseName();
      if first.None? {
        return None;
      }
      if stream.Next? && stream.token == Colon {
        stream := stream.rest;
        var name := ParseName();
        if name.None? {
          return None;
        }
        assert Length(old(stream).rest) == 2 + Length(stream);
        r := IrParseFieldBody(first.value, name.value);
      } else {
        r := IrParseFieldBody("", first.value);
      }
    }

    method IrParseFieldBody(alias: string, name: Ident) returns (r: Option<IrSelection>)
      modifies this`stream
      ensures Outcome(r, stream) == IrParser.FieldBody(alias, name, old(stream))
      decreases Length(stream), 1, 0
    {
      var arguments := IrParseOptionalArguments();
      if arguments.None? {
        return None;
      }
      var directives := IrParseDirectives();
      if directives.None? {
        return None;
      }
      if stream.End? || stream.token != LBrace {
        return Some(IrField(alias, name, arguments.value, directives.value, NoSet));
      }
      var sub := IrParseSelectionSet();
      r := if sub.Some? then Some(IrField(alias, name, arguments.value, directives.value, sub.value)) else None;
    }

    /** A selection by the intermediate route, converted. Where the nesting stays within
        the limit this is what the direct route yields. */
    method SelectionThroughIr() returns (r: Option<Selection>)
      requires depth <= D.MAX_DEPTH
      modifies this`stream
      ensures var ir := IrParser.Selection(old(stream));
              if ir.Parsed? && depth + SelectionNesting(ir.value) > D.MAX_DEPTH
              then r == Some(CanonicalSelection(ir.value, reading)) && D.Select(old(stream), depth, reading).Failed?
              else Outcome(r, stream) == D.Select(old(stream), depth, reading)
    {
      SelectionRoutesAgree(stream, depth, reading);
      var ir := IrParseSelection();
      r := if ir.Some? then Some(ConvertSelection(BuildSelection(ir.value, reading), reading)) else None;
    }
  }
}
