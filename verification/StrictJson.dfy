/** The strict JSON decoder over the token reader of Go's `encoding/json`: lexemes in, one value out, with a depth
    bound, no duplicate keys and nothing trailing. */
module StrictJson {
  const MAX_DEPTH := 1000

  /** What the reader sees once characters are grouped; `Bad` is text no lexeme starts with. Strings are decoded. */
  datatype Lexeme =
    | OpenArray | CloseArray | OpenObject | CloseObject | Comma | Colon
    | Text(text: string) | Number(digits: string) | Bool(b: bool) | Null | Bad

  datatype TokenState =
    | TopValue | ArrayStart | ArrayValue | ArrayComma
    | ObjectStart | ObjectKey | ObjectColon | ObjectValue | ObjectComma

  datatype Cursor = Cursor(rest: seq<Lexeme>, state: TokenState, stack: seq<TokenState>)

  datatype Error =
    | Eof | Syntax | TooDeep | KeyNotString | UnexpectedDelimiter | Duplicate(key: string)
    | TrailingValue | TrailingData

  datatype Result<+T> = Ok(value: T, next: Cursor) | Err(error: Error)

  datatype Value =
    | NullValue | BoolValue(b: bool) | NumberValue(digits: string) | TextValue(text: string)
    | ArrayValueOf(items: seq<Value>) | ObjectValueOf(fields: map<string, Value>)

  // ---------------------------------------------------------------- the token reader

  predicate ValueAllowed(s: TokenState) {
    s.TopValue? || s.ArrayStart? || s.ArrayValue? || s.ObjectValue?
  }

  function ValueEnd(s: TokenState): TokenState {
    match s
    case ArrayStart => ArrayComma
    case ArrayValue => ArrayComma
    case ObjectValue => ObjectComma
    case other => other
  }

  predicate More(c: Cursor) {
    c.rest != [] && !c.rest[0].CloseArray? && !c.rest[0].CloseObject?
  }

  /** One reader step: a token, an error, or a separator swallowed (`None` and the state behind it). A closing
      bracket always finds its opener on the stack. */
  function Token(c: Cursor): Result<Lexeme>
    decreases |c.rest|
  {
    if c.rest == [] then Err(Eof)
    else
      var x, tail := c.rest[0], c.rest[1..];
      match x
      case OpenArray =>
        if ValueAllowed(c.state) then Ok(x, Cursor(tail, ArrayStart, c.stack + [c.state])) else Err(Syntax)
      case OpenObject =>
        if ValueAllowed(c.state) then Ok(x, Cursor(tail, ObjectStart, c.stack + [c.state])) else Err(Syntax)
      case CloseArray =>
        if (c.state.ArrayStart? || c.state.ArrayComma?) && c.stack != [] then
          Ok(x, Cursor(tail, ValueEnd(c.stack[|c.stack| - 1]), c.stack[..|c.stack| - 1]))
        else Err(Syntax)
      case CloseObject =>
        if (c.state.ObjectStart? || c.state.ObjectComma?) && c.stack != [] then
          Ok(x, Cursor(tail, ValueEnd(c.stack[|c.stack| - 1]), c.stack[..|c.stack| - 1]))
        else Err(Syntax)
      case Colon =>
        if c.state.ObjectColon? then Token(Cursor(tail, ObjectValue, c.stack)) else Err(Syntax)
      case Comma =>
        if c.state.ArrayComma? then Token(Cursor(tail, ArrayValue, c.stack))
        else if c.state.ObjectComma? then Token(Cursor(tail, ObjectKey, c.stack))
        else Err(Syntax)
      case Bad => Err(Syntax)
      case _ =>
        if x.Text? && (c.state.ObjectStart? || c.state.ObjectKey?) then Ok(x, Cursor(tail, ObjectColon, c.stack))
        else if ValueAllowed(c.state) then Ok(x, Cursor(tail, ValueEnd(c.state), c.stack))
        else Err(Syntax)
  }

  lemma {:induction false} TokenConsumes(c: Cursor)
    requires Token(c).Ok?
    ensures |Token(c).next.rest| < |c.rest|
    decreases |c.rest|
  {
    if c.rest[0].Colon? { TokenConsumes(Cursor(c.rest[1..], ObjectValue, c.stack)); }
    if c.rest[0].Comma? {
      TokenConsumes(Cursor(c.rest[1..], if c.state.ArrayComma? then ArrayValue else ObjectKey, c.stack));
    }
  }

  // ---------------------------------------------------------------- the decoder

  function Scalar(x: Lexeme): Value {
    match x
    case Text(s) => TextValue(s)
    case Number(digits) => NumberValue(if digits == "-0" then "0" else digits)
    case Bool(b) => BoolValue(b)
    case _ => NullValue
  }

  /** `decodeJSONValue`. */
  function DecodeValue(c: Cursor, depth: nat): (r: Result<Value>)
    ensures r.Ok? ==> |r.next.rest| < |c.rest|
    decreases |c.rest|, 0
  {
    if depth > MAX_DEPTH then Err(TooDeep)
    else
      var t := Token(c);
      if t.Err? then Err(t.error)
      else
        TokenConsumes(c);
        match t.value
        case OpenObject => DecodeFields(t.next, depth, map[])
        case OpenArray => DecodeItems(t.next, depth, [])
        case CloseArray => Err(UnexpectedDelimiter)
        case CloseObject => Err(UnexpectedDelimiter)
        case _ => Ok(Scalar(t.value), t.next)
  }

  function DecodeItems(c: Cursor, depth: nat, got: seq<Value>): (r: Result<Value>)
    ensures r.Ok? ==> |r.next.rest| < |c.rest|
    decreases |c.rest|, 1
  {
    if !More(c) then
      var t := Token(c);
      if t.Err? then Err(t.error) else TokenConsumes(c); Ok(ArrayValueOf(got), t.next)
    else
      var v := DecodeValue(c, depth + 1);
      if v.Err? then Err(v.error) else DecodeItems(v.next, depth, got + [v.value])
  }

  function DecodeFields(c: Cursor, depth: nat, got: map<string, Value>): (r: Result<Value>)
    ensures r.Ok? ==> |r.next.rest| < |c.rest|
    decreases |c.rest|, 1
  {
    if !More(c) then
      var t := Token(c);
      if t.Err? then Err(t.error) else TokenConsumes(c); Ok(ObjectValueOf(got), t.next)
    else
      var k := Token(c);
      if k.Err? then Err(k.error)
      else if !k.value.Text? then Err(KeyNotString)
      else if k.value.text in got then Err(Duplicate(k.value.text))
      else
        TokenConsumes(c);
        var v := DecodeValue(k.next, depth + 1);
        if v.Err? then Err(v.error) else DecodeFields(v.next, depth, got[k.value.text := v.value])
  }

  function Start(ls: seq<Lexeme>): Cursor {
    Cursor(ls, TopValue, [])
  }

  /** `decodeStrictJSON`. */
  function DecodeStrict(ls: seq<Lexeme>): Result<Value> {
    var v := DecodeValue(Start(ls), 1);
    if v.Err? then v
    else
      var t := Token(v.next);
      if t == Err(Eof) then v else if t.Ok? then Err(TrailingValue) else Err(TrailingData)
  }

  // ---------------------------------------------------------------- the grammar, independently

  datatype Doc = NullDoc | BoolDoc(b: bool) | NumberDoc(digits: string) | TextDoc(text: string)
    | ArrayDoc(items: Docs) | ObjectDoc(fields: Fields)
  datatype Docs = NoDocs | OneDoc(head: Doc, tail: Docs)
  datatype Fields = NoFields | OneField(key: string, value: Doc, tail: Fields)

  function Print(d: Doc): seq<Lexeme> {
    match d
    case NullDoc => [Null]
    case BoolDoc(b) => [Bool(b)]
    case NumberDoc(digits) => [Number(digits)]
    case TextDoc(s) => [Text(s)]
    case ArrayDoc(items) => [OpenArray] + PrintItems(items, true)
    case ObjectDoc(fields) => [OpenObject] + PrintFields(fields, true)
  }

  function PrintItems(ds: Docs, first: bool): seq<Lexeme> {
    match ds
    case NoDocs => [CloseArray]
    case OneDoc(d, tail) => (if first then [] else [Comma]) + (Print(d) + PrintItems(tail, false))
  }

  function PrintFields(fs: Fields, first: bool): seq<Lexeme> {
    match fs
    case NoFields => [CloseObject]
    case OneField(k, d, tail) =>
      (if first then [] else [Comma]) + ([Text(k), Colon] + (Print(d) + PrintFields(tail, false)))
  }

  function Depth(d: Doc): nat {
    match d
    case ArrayDoc(items) => 1 + DepthItems(items)
    case ObjectDoc(fields) => 1 + DepthFields(fields)
    case _ => 1
  }

  function Max(a: nat, b: nat): nat { if a < b then b else a }

  function DepthItems(ds: Docs): nat {
    match ds
    case NoDocs => 0
    case OneDoc(d, tail) => Max(Depth(d), DepthItems(tail))
  }

  function DepthFields(fs: Fields): nat {
    match fs
    case NoFields => 0
    case OneField(_, d, tail) => Max(Depth(d), DepthFields(tail))
  }

  /** Keys are distinct within every object. */
  predicate Distinct(d: Doc) {
    match d
    case ArrayDoc(items) => DistinctItems(items)
    case ObjectDoc(fields) => DistinctFields(fields, {})
    case _ => true
  }

  predicate DistinctItems(ds: Docs) {
    match ds
    case NoDocs => true
    case OneDoc(d, tail) => Distinct(d) && DistinctItems(tail)
  }

  predicate DistinctFields(fs: Fields, seen: set<string>) {
    match fs
    case NoFields => true
    case OneField(k, d, tail) => k !in seen && Distinct(d) && DistinctFields(tail, seen + {k})
  }

  /** The value a document denotes, negative zero written "0". */
  function Denote(d: Doc): Value {
    match d
    case NullDoc => NullValue
    case BoolDoc(b) => BoolValue(b)
    case NumberDoc(digits) => NumberValue(if digits == "-0" then "0" else digits)
    case TextDoc(s) => TextValue(s)
    case ArrayDoc(items) => ArrayValueOf(DenoteItems(items))
    case ObjectDoc(fields) => ObjectValueOf(DenoteFields(fields, map[]))
  }

  function DenoteItems(ds: Docs): seq<Value> {
    match ds
    case NoDocs => []
    case OneDoc(d, tail) => [Denote(d)] + DenoteItems(tail)
  }

  function DenoteFields(fs: Fields, got: map<string, Value>): map<string, Value> {
    match fs
    case NoFields => got
    case OneField(k, d, tail) => DenoteFields(tail, got[k := Denote(d)])
  }

  // ---------------------------------------------------------------- completeness

  /** The states a value is read from, the separator due before it, and the state once that is past. */
  predicate CanStart(s: TokenState) {
    s.TopValue? || s.ArrayStart? || s.ArrayComma? || s.ObjectColon?
  }

  function Lead(s: TokenState): seq<Lexeme> {
    match s
    case ArrayComma => [Comma]
    case ObjectColon => [Colon]
    case _ => []
  }

  function Entry(s: TokenState): TokenState {
    match s
    case ArrayComma => ArrayValue
    case ObjectColon => ObjectValue
    case other => other
  }

  /** Reading past the separator a state waits for. */
  lemma SkipLead(c: Cursor)
    requires CanStart(c.state) && Lead(c.state) <= c.rest
    ensures Token(c) == Token(Cursor(c.rest[|Lead(c.state)|..], Entry(c.state), c.stack))
  {
    if Lead(c.state) == [] { assert c.rest[0..] == c.rest; }
  }

  /** A value's first token read in a state that allows it. */
  lemma EntryToken(x: Lexeme, more: seq<Lexeme>, state: TokenState, stack: seq<TokenState>)
    requires ValueAllowed(state)
    requires x.OpenArray? || x.OpenObject? || x.Text? || x.Number? || x.Bool? || x.Null?
    ensures Token(Cursor([x] + more, state, stack)) == Ok(x,
      if x.OpenArray? then Cursor(more, ArrayStart, stack + [state])
      else if x.OpenObject? then Cursor(more, ObjectStart, stack + [state])
      else Cursor(more, ValueEnd(state), stack))
  {
    hide ValueEnd;
    assert ([x] + more)[1..] == more;
  }

  lemma EntryAllowed(s: TokenState)
    requires CanStart(s)
    ensures ValueAllowed(Entry(s))
  {}

  lemma FirstToken(x: Lexeme, more: seq<Lexeme>, c: Cursor)
    requires CanStart(c.state) && c.rest == Lead(c.state) + ([x] + more)
    requires x.OpenArray? || x.OpenObject? || x.Text? || x.Number? || x.Bool? || x.Null?
    ensures Token(c) == Ok(x,
      if x.OpenArray? then Cursor(more, ArrayStart, c.stack + [Entry(c.state)])
      else if x.OpenObject? then Cursor(more, ObjectStart, c.stack + [Entry(c.state)])
      else Cursor(more, ValueEnd(Entry(c.state)), c.stack))
  {
    hide Token, Lead, Entry, CanStart, ValueEnd;
    assert c.rest[|Lead(c.state)|..] == [x] + more;
    SkipLead(c);
    EntryAllowed(c.state);
    EntryToken(x, more, Entry(c.state), c.stack);
  }

  lemma PopPushed(stack: seq<TokenState>, s: TokenState)
    ensures (stack + [s])[..|stack + [s]| - 1] == stack && (stack + [s])[|stack + [s]| - 1] == s
  {}

  lemma {:induction false} ValueReads(d: Doc, c: Cursor, depth: nat, tail: seq<Lexeme>)
    requires CanStart(c.state) && c.rest == Lead(c.state) + (Print(d) + tail)
    requires depth + Depth(d) <= MAX_DEPTH + 1 && Distinct(d)
    ensures DecodeValue(c, depth) == Ok(Denote(d), Cursor(tail, ValueEnd(Entry(c.state)), c.stack))
    decreases d
  {
    hide Token, DecodeItems, DecodeFields, PrintItems, PrintFields, ValueEnd, Entry, Lead, CanStart;
    PopPushed(c.stack, Entry(c.state));
    match d
    case ArrayDoc(items) =>
      var more := PrintItems(items, true) + tail;
      assert Print(d) + tail == [OpenArray] + more;
      FirstToken(OpenArray, more, c);
      var stack := c.stack + [Entry(c.state)];
      ItemsRead(items, true, Cursor(more, ArrayStart, stack), depth, [], tail);
      assert [] + DenoteItems(items) == DenoteItems(items);
    case ObjectDoc(fields) =>
      var more := PrintFields(fields, true) + tail;
      assert Print(d) + tail == [OpenObject] + more;
      FirstToken(OpenObject, more, c);
      var stack := c.stack + [Entry(c.state)];
      var none: map<string, Value> := map[];
      assert none.Keys == {};
      FieldsRead(fields, true, Cursor(more, ObjectStart, stack), depth, none, tail);
    case _ => FirstToken(Print(d)[0], tail, c);
  }

  lemma CloseReads(x: Lexeme, tail: seq<Lexeme>, c: Cursor)
    requires c.stack != [] && c.rest == [x] + tail
    requires (x.CloseArray? && (c.state.ArrayStart? || c.state.ArrayComma?))
             || (x.CloseObject? && (c.state.ObjectStart? || c.state.ObjectComma?))
    ensures !More(c)
    ensures Token(c) == Ok(x, Cursor(tail, ValueEnd(c.stack[|c.stack| - 1]), c.stack[..|c.stack| - 1]))
  {
    assert c.rest[1..] == tail;
  }

  lemma PrintStarts(d: Doc)
    ensures |Print(d)| > 0 && !Print(d)[0].CloseArray? && !Print(d)[0].CloseObject?
  {}

  lemma PrintItemsThen(d: Doc, rest: Docs, first: bool, tail: seq<Lexeme>)
    ensures PrintItems(OneDoc(d, rest), first) + tail
            == (if first then [] else [Comma]) + (Print(d) + (PrintItems(rest, false) + tail))
  {
    hide Print;
  }

  lemma PrintFieldsThen(k: string, d: Doc, rest: Fields, first: bool, tail: seq<Lexeme>)
    ensures PrintFields(OneField(k, d, rest), first) + tail
            == (if first then [] else [Comma])
               + ([Text(k)] + ([Colon] + (Print(d) + (PrintFields(rest, false) + tail))))
  {
    hide Print;
  }

  lemma {:induction false} ItemsRead(ds: Docs, first: bool, c: Cursor, depth: nat, got: seq<Value>, tail: seq<Lexeme>)
    requires c.state == (if first then ArrayStart else ArrayComma) && c.stack != []
    requires c.rest == PrintItems(ds, first) + tail
    requires depth + 1 + DepthItems(ds) <= MAX_DEPTH + 1 && DistinctItems(ds)
    ensures DecodeItems(c, depth, got)
            == Ok(ArrayValueOf(got + DenoteItems(ds)),
                  Cursor(tail, ValueEnd(c.stack[|c.stack| - 1]), c.stack[..|c.stack| - 1]))
    decreases ds
  {
    hide Token, DecodeValue, Print, Denote, Distinct, Depth;
    match ds
    case NoDocs =>
      CloseReads(CloseArray, tail, c);
      assert got + [] == got;
    case OneDoc(d, rest) =>
      var after := PrintItems(rest, false) + tail;
      PrintItemsThen(d, rest, first, tail);
      PrintStarts(d);
      ValueReads(d, c, depth + 1, after);
      ItemsRead(rest, false, Cursor(after, ArrayComma, c.stack), depth, got + [Denote(d)], tail);
      assert got + [Denote(d)] + DenoteItems(rest) == got + DenoteItems(ds);
  }

  lemma KeyReads(k: string, more: seq<Lexeme>, first: bool, c: Cursor)
    requires c.state == (if first then ObjectStart else ObjectComma)
    requires c.rest == (if first then [] else [Comma]) + ([Text(k)] + more)
    ensures More(c) && Token(c) == Ok(Text(k), Cursor(more, ObjectColon, c.stack))
  {
    if first {
      assert c.rest[1..] == more;
    } else {
      var d := Cursor(c.rest[1..], ObjectKey, c.stack);
      assert d.rest == [Text(k)] + more;
      assert d.rest[1..] == more;
    }
  }

  lemma {:induction false} FieldsRead(fs: Fields, first: bool, c: Cursor, depth: nat, got: map<string, Value>,
                                      tail: seq<Lexeme>)
    requires c.state == (if first then ObjectStart else ObjectComma) && c.stack != []
    requires c.rest == PrintFields(fs, first) + tail
    requires depth + 1 + DepthFields(fs) <= MAX_DEPTH + 1 && DistinctFields(fs, got.Keys)
    ensures DecodeFields(c, depth, got)
            == Ok(ObjectValueOf(DenoteFields(fs, got)),
                  Cursor(tail, ValueEnd(c.stack[|c.stack| - 1]), c.stack[..|c.stack| - 1]))
    decreases fs
  {
    hide Token, DecodeValue, Print, More, Denote, Distinct, Depth;
    match fs
    case NoFields => CloseReads(CloseObject, tail, c);
    case OneField(k, d, rest) =>
      var after := PrintFields(rest, false) + tail;
      var more := [Colon] + (Print(d) + after);
      PrintFieldsThen(k, d, rest, first, tail);
      KeyReads(k, more, first, c);
      ValueReads(d, Cursor(more, ObjectColon, c.stack), depth + 1, after);
      assert got[k := Denote(d)].Keys == got.Keys + {k};
      FieldsRead(rest, false, Cursor(after, ObjectComma, c.stack), depth, got[k := Denote(d)], tail);
  }

  // ---------------------------------------------------------------- soundness

  lemma EntryParsed(c: Cursor)
    requires ValueAllowed(c.state) && Token(c).Ok? && !Token(c).value.CloseArray? && !Token(c).value.CloseObject?
    ensures c.rest != [] && Token(c).value == c.rest[0] && Token(c).next.rest == c.rest[1..]
    ensures !c.rest[0].Comma? && !c.rest[0].Colon? && !c.rest[0].Bad?
    ensures Token(c).next.state == (if c.rest[0].OpenArray? then ArrayStart
                                    else if c.rest[0].OpenObject? then ObjectStart else ValueEnd(c.state))
    ensures Token(c).next.stack == (if c.rest[0].OpenArray? || c.rest[0].OpenObject? then c.stack + [c.state]
                                    else c.stack)
  {}

  lemma LeadFound(c: Cursor)
    requires CanStart(c.state) && Token(c).Ok? && !Token(c).value.CloseArray? && !Token(c).value.CloseObject?
    ensures Lead(c.state) <= c.rest
  {
    hide ValueEnd;
  }

  lemma TokenParsed(c: Cursor)
    requires CanStart(c.state) && Token(c).Ok? && !Token(c).value.CloseArray? && !Token(c).value.CloseObject?
    ensures
      var x, n := Token(c).value, Token(c).next;
      && c.rest == Lead(c.state) + ([x] + n.rest)
      && !x.Comma? && !x.Colon? && !x.Bad?
      && n.state == (if x.OpenArray? then ArrayStart else if x.OpenObject? then ObjectStart
                     else ValueEnd(Entry(c.state)))
      && n.stack == (if x.OpenArray? || x.OpenObject? then c.stack + [Entry(c.state)] else c.stack)
  {
    hide Token, ValueEnd;
    LeadFound(c);
    SkipLead(c);
    var e := Cursor(c.rest[|Lead(c.state)|..], Entry(c.state), c.stack);
    EntryParsed(e);
    assert c.rest == Lead(c.state) + e.rest && e.rest == [e.rest[0]] + e.rest[1..];
  }

  lemma {:induction false} ValueParsed(c: Cursor, depth: nat) returns (d: Doc)
    requires CanStart(c.state) && DecodeValue(c, depth).Ok?
    ensures
      var r := DecodeValue(c, depth);
      && c.rest == Lead(c.state) + (Print(d) + r.next.rest)
      && r.next.state == ValueEnd(Entry(c.state)) && r.next.stack == c.stack
      && r.value == Denote(d) && Distinct(d) && depth + Depth(d) <= MAX_DEPTH + 1
    decreases |c.rest|, 0
  {
    hide Token, DecodeItems, DecodeFields;
    var t, r := Token(c), DecodeValue(c, depth);
    TokenParsed(c);
    TokenConsumes(c);
    match t.value
    case OpenArray =>
      var items := ItemsParsed(t.next, depth, true, []);
      d := ArrayDoc(items);
      assert t.next.stack[..|t.next.stack| - 1] == c.stack && [] + DenoteItems(items) == DenoteItems(items);
      assert [OpenArray] + (PrintItems(items, true) + r.next.rest) == Print(d) + r.next.rest;
    case OpenObject =>
      var none: map<string, Value> := map[];
      assert none.Keys == {};
      var fields := FieldsParsed(t.next, depth, true, none);
      d := ObjectDoc(fields);
      assert t.next.stack[..|t.next.stack| - 1] == c.stack;
      assert [OpenObject] + (PrintFields(fields, true) + r.next.rest) == Print(d) + r.next.rest;
    case Text(s) => d := TextDoc(s);
    case Number(digits) => d := NumberDoc(digits);
    case Bool(b) => d := BoolDoc(b);
    case _ => d := NullDoc;
  }

  lemma CloseParsed(c: Cursor)
    requires !More(c) && Token(c).Ok?
    ensures c.stack != [] && c.rest == [Token(c).value] + Token(c).next.rest
    ensures Token(c).value == (if c.state.ArrayStart? || c.state.ArrayComma? then CloseArray else CloseObject)
    ensures Token(c).next.state == ValueEnd(c.stack[|c.stack| - 1]) && Token(c).next.stack == c.stack[..|c.stack| - 1]
  {}

  lemma {:induction false} ItemsParsed(c: Cursor, depth: nat, first: bool, got: seq<Value>) returns (ds: Docs)
    requires c.state == (if first then ArrayStart else ArrayComma)
    requires DecodeItems(c, depth, got).Ok? && depth <= MAX_DEPTH
    ensures c.stack != []
    ensures
      var r := DecodeItems(c, depth, got);
      && c.rest == PrintItems(ds, first) + r.next.rest
      && r.next.state == ValueEnd(c.stack[|c.stack| - 1]) && r.next.stack == c.stack[..|c.stack| - 1]
      && r.value == ArrayValueOf(got + DenoteItems(ds)) && DistinctItems(ds)
      && depth + 1 + DepthItems(ds) <= MAX_DEPTH + 1
    decreases |c.rest|, 1
  {
    hide Token, DecodeValue, Print, Denote, Distinct, Depth;
    var r := DecodeItems(c, depth, got);
    if !More(c) {
      CloseParsed(c);
      ds := NoDocs;
      assert got + [] == got;
    } else {
      var v := DecodeValue(c, depth + 1);
      var d := ValueParsed(c, depth + 1);
      var rest := ItemsParsed(v.next, depth, false, got + [v.value]);
      ds := OneDoc(d, rest);
      assert got + [v.value] + DenoteItems(rest) == got + DenoteItems(ds);
      PrintItemsThen(d, rest, first, r.next.rest);
    }
  }

  lemma KeyParsed(c: Cursor, first: bool)
    requires c.state == (if first then ObjectStart else ObjectComma)
    requires More(c) && Token(c).Ok?
    ensures Token(c).value.Text?
    ensures c.rest == (if first then [] else [Comma]) + ([Token(c).value] + Token(c).next.rest)
    ensures Token(c).next.state == ObjectColon && Token(c).next.stack == c.stack
  {
    if !first { assert c.rest == [Comma] + c.rest[1..]; }
  }

  lemma {:induction false} FieldsParsed(c: Cursor, depth: nat, first: bool, got: map<string, Value>)
    returns (fs: Fields)
    requires c.state == (if first then ObjectStart else ObjectComma)
    requires DecodeFields(c, depth, got).Ok? && depth <= MAX_DEPTH
    ensures c.stack != []
    ensures
      var r := DecodeFields(c, depth, got);
      && c.rest == PrintFields(fs, first) + r.next.rest
      && r.next.state == ValueEnd(c.stack[|c.stack| - 1]) && r.next.stack == c.stack[..|c.stack| - 1]
      && r.value == ObjectValueOf(DenoteFields(fs, got)) && DistinctFields(fs, got.Keys)
      && depth + 1 + DepthFields(fs) <= MAX_DEPTH + 1
    decreases |c.rest|, 1
  {
    hide Token, DecodeValue, Print, Denote, Distinct, Depth;
    var r := DecodeFields(c, depth, got);
    if !More(c) {
      CloseParsed(c);
      fs := NoFields;
    } else {
      var k := Token(c);
      KeyParsed(c, first);
      TokenConsumes(c);
      var v := DecodeValue(k.next, depth + 1);
      var d := ValueParsed(k.next, depth + 1);
      var rest := FieldsParsed(v.next, depth, false, got[k.value.text := v.value]);
      fs := OneField(k.value.text, d, rest);
      assert got[k.value.text := v.value].Keys == got.Keys + {k.value.text};
      PrintFieldsThen(k.value.text, d, rest, first, r.next.rest);
    }
  }

  // ---------------------------------------------------------------- the acceptance set

  predicate Admissible(d: Doc) {
    Depth(d) <= 1000 && Distinct(d)
  }

  /** Decoding inverts printing: every admissible document comes back as its value, with nothing left over. */
  lemma DecodePrint(d: Doc)
    requires Admissible(d)
    ensures DecodeStrict(Print(d)) == Ok(Denote(d), Cursor([], TopValue, []))
  {
    hide DecodeValue;
    assert [] + (Print(d) + []) == Print(d);
    ValueReads(d, Start(Print(d)), 1, []);
  }

  /** The decoder accepts exactly the printed forms of documents nested at most 1000 deep whose keys are distinct
      within each object, and returns what they denote. */
  lemma AcceptsExactly(ls: seq<Lexeme>, v: Value)
    ensures DecodeStrict(ls).Ok? && DecodeStrict(ls).value == v <==>
            exists d :: ls == Print(d) && Admissible(d) && v == Denote(d)
  {
    hide DecodeValue, Print, Denote;
    if DecodeStrict(ls).Ok? && DecodeStrict(ls).value == v {
      var r := DecodeValue(Start(ls), 1);
      var d := ValueParsed(Start(ls), 1);
      assert r.next.rest == [];
      assert [] + (Print(d) + []) == Print(d);
      assert Admissible(d);
    }
    if d :| ls == Print(d) && Admissible(d) && v == Denote(d) {
      DecodePrint(d);
    }
  }

  /** Two of the decoder's branches never run: the reader itself rejects a key that is not a string and a closing
      bracket where a value is due. */
  lemma DeadBranches(ls: seq<Lexeme>)
    ensures DecodeStrict(ls) != Err(KeyNotString) && DecodeStrict(ls) != Err(UnexpectedDelimiter)
  {
    hide DecodeValue;
    ValueErrors(Start(ls), 1);
  }

  predicate Live<T>(r: Result<T>) {
    r != Err(KeyNotString) && r != Err(UnexpectedDelimiter)
  }

  lemma {:induction false} TokenErrors(c: Cursor)
    ensures Live(Token(c))
    decreases |c.rest|
  {
    if c.rest != [] && c.rest[0].Colon? { TokenErrors(Cursor(c.rest[1..], ObjectValue, c.stack)); }
    if c.rest != [] && c.rest[0].Comma? {
      TokenErrors(Cursor(c.rest[1..], if c.state.ArrayComma? then ArrayValue else ObjectKey, c.stack));
    }
  }

  /** Where a value is due the reader hands out no closing bracket, because `More` was asked first or because a
      key or the start of input came before. */
  lemma NoStrayClose(c: Cursor)
    requires CanStart(c.state) && (c.state.ArrayStart? || c.state.ArrayComma? ==> More(c)) && Token(c).Ok?
    ensures !Token(c).value.CloseArray? && !Token(c).value.CloseObject?
  {
    hide ValueEnd;
  }

  lemma {:induction false} ValueErrors(c: Cursor, depth: nat)
    requires CanStart(c.state) && (c.state.ArrayStart? || c.state.ArrayComma? ==> More(c))
    ensures Live(DecodeValue(c, depth))
    decreases |c.rest|, 0
  {
    hide Token, DecodeItems, DecodeFields, More;
    TokenErrors(c);
    if depth <= MAX_DEPTH && Token(c).Ok? {
      NoStrayClose(c);
      TokenParsed(c);
      TokenConsumes(c);
      if Token(c).value.OpenArray? { ItemErrors(Token(c).next, depth, []); }
      if Token(c).value.OpenObject? { FieldErrors(Token(c).next, depth, map[]); }
    }
  }

  lemma {:induction false} ItemErrors(c: Cursor, depth: nat, got: seq<Value>)
    requires c.state.ArrayStart? || c.state.ArrayComma?
    ensures Live(DecodeItems(c, depth, got))
    decreases |c.rest|, 1
  {
    hide Token, DecodeValue, More;
    TokenErrors(c);
    if More(c) {
      ValueErrors(c, depth + 1);
      var v := DecodeValue(c, depth + 1);
      if v.Ok? {
        var d := ValueParsed(c, depth + 1);
        ItemErrors(v.next, depth, got + [v.value]);
      }
    }
  }

  lemma {:induction false} FieldErrors(c: Cursor, depth: nat, got: map<string, Value>)
    requires c.state.ObjectStart? || c.state.ObjectComma?
    ensures Live(DecodeFields(c, depth, got))
    decreases |c.rest|, 1
  {
    hide Token, DecodeValue, More;
    TokenErrors(c);
    if More(c) && Token(c).Ok? {
      var k := Token(c);
      KeyParsed(c, c.state.ObjectStart?);
      TokenConsumes(c);
      ValueErrors(k.next, depth + 1);
      var v := DecodeValue(k.next, depth + 1);
      if v.Ok? {
        var d := ValueParsed(k.next, depth + 1);
        FieldErrors(v.next, depth, got[k.value.text := v.value]);
      }
    }
  }

  // ---------------------------------------------------------------- the code as written

  /** The token reader as an object; after an error it is abandoned, so only its shrinking input is promised. */
  class Decoder {
    var input: seq<Lexeme>
    var state: TokenState
    var stack: seq<TokenState>

    constructor (ls: seq<Lexeme>)
      ensures At() == Start(ls)
    {
      input, state, stack := ls, TopValue, [];
    }

    function At(): Cursor
      reads this
    {
      Cursor(input, state, stack)
    }

    method HasMore() returns (b: bool)
      ensures b == More(At())
    {
      b := input != [] && !input[0].CloseArray? && !input[0].CloseObject?;
    }

    method Next() returns (r: Result<Lexeme>)
      modifies this
      ensures r == Token(old(At()))
      ensures r.Ok? ==> At() == r.next && |input| < |old(input)|
    {
      TokenConsumesIfOk(At());
      r := Token(At());
      if r.Ok? {
        input, state, stack := r.next.rest, r.next.state, r.next.stack;
      }
    }
  }

  lemma TokenConsumesIfOk(c: Cursor)
    ensures Token(c).Ok? ==> |Token(c).next.rest| < |c.rest|
  {
    if Token(c).Ok? { TokenConsumes(c); }
  }

  method DecodeJsonValue(decoder: Decoder, depth: nat) returns (r: Result<Value>)
    modifies decoder
    ensures r == DecodeValue(old(decoder.At()), depth)
    ensures r.Ok? ==> decoder.At() == r.next && |decoder.input| < |old(decoder.input)|
    decreases |decoder.input|
  {
    hide Token;
    if depth > MAX_DEPTH {
      return Err(TooDeep);
    }
    var token := decoder.Next();
    if token.Err? {
      return Err(token.error);
    }
    match token.value
    case OpenObject =>
      var result: map<string, Value> := map[];
      while true
        invariant |decoder.input| < |old(decoder.input)|
        invariant DecodeFields(decoder.At(), depth, result) == DecodeValue(old(decoder.At()), depth)
        decreases |decoder.input|
      {
        var more := decoder.HasMore();
        if !more { break; }
        var key := decoder.Next();
        if key.Err? { return Err(key.error); }
        if !key.value.Text? { return Err(KeyNotString); }
        if key.value.text in result { return Err(Duplicate(key.value.text)); }
        var value := DecodeJsonValue(decoder, depth + 1);
        if value.Err? { return value; }
        result := result[key.value.text := value.value];
      }
      var close := decoder.Next();
      if close.Err? { return Err(close.error); }
      return Ok(ObjectValueOf(result), decoder.At());
    case OpenArray =>
      var result: seq<Value> := [];
      while true
        invariant |decoder.input| < |old(decoder.input)|
        invariant DecodeItems(decoder.At(), depth, result) == DecodeValue(old(decoder.At()), depth)
        decreases |decoder.input|
      {
        var more := decoder.HasMore();
        if !more { break; }
        var value := DecodeJsonValue(decoder, depth + 1);
        if value.Err? { return value; }
        result := result + [value.value];
      }
      var close := decoder.Next();
      if close.Err? { return Err(close.error); }
      return Ok(ArrayValueOf(result), decoder.At());
    case CloseArray => return Err(UnexpectedDelimiter);
    case CloseObject => return Err(UnexpectedDelimiter);
    case _ => return Ok(Scalar(token.value), decoder.At());
  }

  method DecodeStrictJson(ls: seq<Lexeme>) returns (r: Result<Value>)
    ensures r == DecodeStrict(ls)
    ensures r.Ok? <==> exists d :: ls == Print(d) && Admissible(d)
  {
    hide DecodeValue, Print, Admissible, Token;
    ghost var spec := DecodeStrict(ls);
    if spec.Ok? {
      AcceptsExactly(ls, spec.value);
    }
    forall d | ls == Print(d) && Admissible(d) ensures spec.Ok? {
      AcceptsExactly(ls, Denote(d));
    }
    var decoder := new Decoder(ls);
    var v := DecodeJsonValue(decoder, 1);
    if v.Err? {
      return v;
    }
    var last := decoder.Next();
    if last == Err(Eof) {
      return v;
    }
    return if last.Ok? then Err(TrailingValue) else Err(TrailingData);
  }
}
