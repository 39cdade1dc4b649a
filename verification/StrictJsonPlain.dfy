/** Which error the strict decoder gives: the first fault of a document in reading order, or what trails it. */
module StrictJsonPlain {
  import opened StrictJson

  datatype Fault = Sound | TooNested | Repeats(key: string)

  /** The first fault in reading order: a value more than 1000 deep, or a key its object already has. */
  function FaultOf(d: Doc, depth: nat): Fault {
    if depth > 1000 then TooNested
    else
      match d
      case ArrayDoc(items) => FaultIn(items, depth)
      case ObjectDoc(fields) => FaultAmong(fields, depth, {})
      case _ => Sound
  }

  function FaultIn(ds: Docs, depth: nat): Fault {
    match ds
    case NoDocs => Sound
    case OneDoc(d, tail) => if FaultOf(d, depth + 1) != Sound then FaultOf(d, depth + 1) else FaultIn(tail, depth)
  }

  function FaultAmong(fs: Fields, depth: nat, seen: set<string>): Fault {
    match fs
    case NoFields => Sound
    case OneField(k, d, tail) =>
      if k in seen then Repeats(k)
      else if FaultOf(d, depth + 1) != Sound then FaultOf(d, depth + 1)
      else FaultAmong(tail, depth, seen + {k})
  }

  function ErrorOf(f: Fault): Error
    requires f != Sound
  {
    if f.TooNested? then TooDeep else Duplicate(f.key)
  }

  /** No fault means admissible, and the other way round. */
  lemma {:induction false} SoundExactly(d: Doc, depth: nat)
    ensures FaultOf(d, depth) == Sound <==> depth + Depth(d) <= 1001 && Distinct(d)
  {
    match d
    case ArrayDoc(items) => if depth <= 1000 { SoundItems(items, depth); }
    case ObjectDoc(fields) => if depth <= 1000 { SoundFields(fields, depth, {}); }
    case _ =>
  }

  lemma {:induction false} SoundItems(ds: Docs, depth: nat)
    requires depth <= 1000
    ensures FaultIn(ds, depth) == Sound <==> depth + 1 + DepthItems(ds) <= 1001 && DistinctItems(ds)
  {
    match ds
    case NoDocs =>
    case OneDoc(d, tail) =>
      SoundExactly(d, depth + 1);
      SoundItems(tail, depth);
  }

  lemma {:induction false} SoundFields(fs: Fields, depth: nat, seen: set<string>)
    requires depth <= 1000
    ensures FaultAmong(fs, depth, seen) == Sound <==> depth + 1 + DepthFields(fs) <= 1001 && DistinctFields(fs, seen)
  {
    match fs
    case NoFields =>
    case OneField(k, d, tail) =>
      SoundExactly(d, depth + 1);
      SoundFields(tail, depth, seen + {k});
  }

  lemma {:induction false} ValueFails(d: Doc, c: Cursor, depth: nat, tail: seq<Lexeme>)
    requires CanStart(c.state) && c.rest == Lead(c.state) + (Print(d) + tail)
    requires FaultOf(d, depth) != Sound
    ensures DecodeValue(c, depth) == Err(ErrorOf(FaultOf(d, depth)))
    decreases d
  {
    hide Token, DecodeItems, DecodeFields, PrintItems, PrintFields, ValueEnd, Entry, Lead, CanStart;
    match d
    case ArrayDoc(items) =>
      var more := PrintItems(items, true) + tail;
      assert Print(d) + tail == [OpenArray] + more;
      FirstToken(OpenArray, more, c);
      if depth <= 1000 { ItemsFail(items, true, Cursor(more, ArrayStart, c.stack + [Entry(c.state)]), depth, [], tail); }
    case ObjectDoc(fields) =>
      var more := PrintFields(fields, true) + tail;
      assert Print(d) + tail == [OpenObject] + more;
      FirstToken(OpenObject, more, c);
      var none: map<string, Value> := map[];
      assert none.Keys == {};
      if depth <= 1000 { FieldsFail(fields, true, Cursor(more, ObjectStart, c.stack + [Entry(c.state)]), depth, none, tail); }
    case _ =>
  }

  lemma {:induction false} ItemsFail(ds: Docs, first: bool, c: Cursor, depth: nat, got: seq<Value>, tail: seq<Lexeme>)
    requires c.state == (if first then ArrayStart else ArrayComma) && c.stack != []
    requires c.rest == PrintItems(ds, first) + tail
    requires depth <= 1000 && FaultIn(ds, depth) != Sound
    ensures DecodeItems(c, depth, got) == Err(ErrorOf(FaultIn(ds, depth)))
    decreases ds
  {
    hide Token, DecodeValue, Print, Denote, Distinct, Depth, FaultOf;
    match ds
    case NoDocs =>
    case OneDoc(d, rest) =>
      var after := PrintItems(rest, false) + tail;
      PrintItemsThen(d, rest, first, tail);
      PrintStarts(d);
      if FaultOf(d, depth + 1) != Sound {
        ValueFails(d, c, depth + 1, after);
      } else {
        SoundExactly(d, depth + 1);
        ValueReads(d, c, depth + 1, after);
        ItemsFail(rest, false, Cursor(after, ArrayComma, c.stack), depth, got + [Denote(d)], tail);
      }
  }

  lemma {:induction false} FieldsFail(fs: Fields, first: bool, c: Cursor, depth: nat, got: map<string, Value>,
                                      tail: seq<Lexeme>)
    requires c.state == (if first then ObjectStart else ObjectComma) && c.stack != []
    requires c.rest == PrintFields(fs, first) + tail
    requires depth <= 1000 && FaultAmong(fs, depth, got.Keys) != Sound
    ensures DecodeFields(c, depth, got) == Err(ErrorOf(FaultAmong(fs, depth, got.Keys)))
    decreases fs
  {
    hide Token, DecodeValue, Print, More, Denote, Distinct, Depth, FaultOf;
    match fs
    case NoFields =>
    case OneField(k, d, rest) =>
      var after := PrintFields(rest, false) + tail;
      var more := [Colon] + (Print(d) + after);
      PrintFieldsThen(k, d, rest, first, tail);
      KeyReads(k, more, first, c);
      if k !in got {
        var inner := Cursor(more, ObjectColon, c.stack);
        if FaultOf(d, depth + 1) != Sound {
          ValueFails(d, inner, depth + 1, after);
        } else {
          SoundExactly(d, depth + 1);
          ValueReads(d, inner, depth + 1, after);
          assert got[k := Denote(d)].Keys == got.Keys + {k};
          FieldsFail(rest, false, Cursor(after, ObjectComma, c.stack), depth, got[k := Denote(d)], tail);
        }
      }
  }

  /** A lexeme a value begins with. */
  predicate BeginsValue(x: Lexeme) {
    x.OpenArray? || x.OpenObject? || x.Text? || x.Number? || x.Bool? || x.Null?
  }

  /** A document followed by anything: its first fault if it has one, then what trails it, then its value. */
  lemma ErrorsPlainly(d: Doc, tail: seq<Lexeme>)
    ensures DecodeStrict(Print(d) + tail) ==
      if FaultOf(d, 1) != Sound then Err(ErrorOf(FaultOf(d, 1)))
      else if tail == [] then Ok(Denote(d), Cursor([], TopValue, []))
      else if BeginsValue(tail[0]) then Err(TrailingValue)
      else Err(TrailingData)
    ensures DecodeStrict([]) == Err(Eof)
  {
    hide DecodeValue, Print, FaultOf;
    assert [] + (Print(d) + tail) == Print(d) + tail;
    if FaultOf(d, 1) != Sound {
      ValueFails(d, Start(Print(d) + tail), 1, tail);
    } else {
      SoundExactly(d, 1);
      ValueReads(d, Start(Print(d) + tail), 1, tail);
      TopToken(tail);
    }
    NothingToRead();
  }

  lemma NothingToRead()
    ensures DecodeValue(Start([]), 1) == Err(Eof)
  {}

  lemma TopToken(tail: seq<Lexeme>)
    ensures tail == [] ==> Token(Cursor(tail, TopValue, [])) == Err(Eof)
    ensures tail != [] && BeginsValue(tail[0]) ==> Token(Cursor(tail, TopValue, [])).Ok?
    ensures tail != [] && !BeginsValue(tail[0]) ==> Token(Cursor(tail, TopValue, [])) == Err(Syntax)
  {}
}
