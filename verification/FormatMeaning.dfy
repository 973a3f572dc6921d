/** What a format string prints, said of the texts and fields that it was written from. */
module FormatMeaning {
  import opened Options
  import opened FormatStrings
  import opened FormatFields
  import opened FormatPrint
  import opened FormatCompile

  /** A replacement field, and a format string as literal text with fields in between. */
  datatype Field = Field(id: ArgId, specs: Option<Syntax>)
  datatype Piece = Piece(field: Field, text: string)
  datatype Template = Template(head: string, pieces: seq<Piece>)

  predicate ValidField(f: Field) { ValidId(f.id) && (f.specs.Some? ==> ValidSyntax(f.specs.value)) }

  predicate ValidTemplate(t: Template) { forall i :: 0 <= i < |t.pieces| ==> ValidField(t.pieces[i].field) }

  function ShowField(f: Field): string {
    "{" + (ShowId(f.id) + if f.specs.None? then "}" else ":" + ShowSyntax(f.specs.value))
  }

  function ShowPieces(pieces: seq<Piece>): string {
    if pieces == [] then ""
    else ShowField(pieces[0].field) + (Escape(pieces[0].text) + ShowPieces(pieces[1..]))
  }

  /** Braces in the texts are doubled. */
  function Written(t: Template): string { Escape(t.head) + ShowPieces(t.pieces) }

  /** The argument ids of a field in the order in which they are read: its own, the width's and the precision's. */
  function CountIds(c: Count): seq<ArgId> { if c.Dynamic? then [c.id] else [] }

  function FieldIds(f: Field): seq<ArgId> {
    [f.id] + if f.specs.None? then [] else CountIds(f.specs.value.width) + CountIds(f.specs.value.precision)
  }

  function Ids(pieces: seq<Piece>): seq<ArgId> {
    if pieces == [] then [] else FieldIds(pieces[0].field) + Ids(pieces[1..])
  }

  /** Automatic ids and indexes in one string. */
  ghost predicate Mixes(ids: seq<ArgId>) { Auto in ids && exists n: nat :: Index(n) in ids }

  function Autos(ids: seq<ArgId>): (n: nat)
    ensures n > 0 <==> Auto in ids
  {
    if ids == [] then 0 else
      var last := |ids| - 1;
      assert ids == ids[..last] + [ids[last]];
      Autos(ids[..last]) + if ids[last] == Auto then 1 else 0
  }

  lemma AutosAppend(ids: seq<ArgId>, id: ArgId)
    ensures Autos(ids + [id]) == Autos(ids) + if id == Auto then 1 else 0
  {
    assert (ids + [id])[..|ids|] == ids;
  }

  /** The argument that an id refers to behind these: automatic ids take the arguments in turn, an index and a name say
      which. */
  function Value(id: ArgId, before: seq<ArgId>, args: Args): Option<Arg> {
    var position := match id
      case Auto => Autos(before)
      case Index(n) => n
      case Name(x) => if x in args.names then args.names[x] else |args.positional|;
    if position < |args.positional| then Some(args.positional[position]) else None
  }

  /** The automatic counter after these ids. */
  ghost function Counter(ids: seq<ArgId>): int {
    if exists n: nat :: Index(n) in ids then -1 else Autos(ids)
  }

  /** One more id is resolved to its argument, unless it mixes the two ways of counting. */
  lemma ResolvedInTurn(id: ArgId, before: seq<ArgId>, args: Args)
    requires !Mixes(before)
    ensures var r := Resolve(id, Counter(before));
      if Mixes(before + [id]) then r.None?
      else r.Some? && r.value.1 == Counter(before + [id]) && Lookup(args, r.value.0) == Value(id, before, args)
  {
    AutosAppend(before, id);
    assert id in before + [id];
    assert forall x :: x in before ==> x in before + [id];
    assert forall x :: x in before + [id] ==> x in before || x == id;
    if (exists n: nat :: Index(n) in before) {
      var n: nat :| Index(n) in before;
      assert Index(n) in before + [id];
    }
  }

  const LONGEST := 0x7FFF_FFFF

  /** The width or precision that an argument gives: only a whole number can, and it must fit an int. */
  function Measure(arg: Option<Arg>): Option<nat> {
    if arg.Some? && arg.value.typ in {IntType, UintType, LongLongType, UlongLongType, Int128Type, Uint128Type}
       && arg.value.number >= 0 && arg.value.number % 0x1_0000_0000_0000_0000 <= LONGEST
    then Some(arg.value.number % 0x1_0000_0000_0000_0000)
    else None
  }

  /** A width or a precision: what is written, what the argument says, or the value for none. */
  function CountValue(c: Count, absent: int, before: seq<ArgId>, args: Args): Option<int> {
    match c
    case Absent => Some(absent)
    case Literal(n) => Some(n)
    case Dynamic(id) => var m := Measure(Value(id, before, args)); if m.None? then None else Some(m.value)
  }

  const NUMERIC: set<ArgType> := {IntType, UintType, LongLongType, UlongLongType, Int128Type, Uint128Type, BoolType, CharType,
                                  FloatType, DoubleType, LongDoubleType}
  const SIGNED: set<ArgType> := {IntType, LongLongType, CharType, FloatType, DoubleType, LongDoubleType}
  const CUTTABLE: set<ArgType> := {FloatType, DoubleType, LongDoubleType, CstringType, StringType}

  /** Which specifiers an argument of this type can have. */
  predicate Allowed(x: Syntax, t: ArgType) {
    && (x.flags.sign != NoSign ==> t in SIGNED) && (x.flags.alt || x.flags.zero ==> t in NUMERIC)
    && (x.precision != Absent ==> t in CUTTABLE)
  }

  /** The specifiers are those that were written. */
  predicate AsWritten(x: Syntax, width: int, precision: int, specs: Specs) {
    && specs.width == width && specs.precision == precision
    && specs.typ == x.typ && specs.sign == x.flags.sign && specs.alt == x.flags.alt
    && (if x.flags.zero then specs.align == Numeric else specs.align == x.flags.align)
    && (!x.flags.zero && x.flags.fill != "" ==> specs.fill == x.flags.fill)
    && (!x.flags.zero && x.flags.fill == "" ==> specs.fill == " ")
    && (x.flags.zero && x.flags.fill == "" ==> specs.fill == "0")
    && (x.flags.zero && x.flags.fill != "" ==>
          |specs.fill| == |x.flags.fill| && specs.fill[0] == '0' && specs.fill[1..] == x.flags.fill[1..])
  }

  /** The specifiers that a field gives the formatter of an argument of this type; None is an error. */
  function Given(x: Syntax, t: ArgType, before: seq<ArgId>, args: Args): (r: Option<Specs>)
    ensures var width := CountValue(x.width, 0, before, args);
      var precision := CountValue(x.precision, -1, before + CountIds(x.width), args);
      if r.None? then !Allowed(x, t) || width.None? || precision.None?
      else Allowed(x, t) && width.Some? && precision.Some? && AsWritten(x, width.value, precision.value, r.value)
  {
    var width := CountValue(x.width, 0, before, args);
    var precision := CountValue(x.precision, -1, before + CountIds(x.width), args);
    if !Allowed(x, t) || width.None? || precision.None? then None else
      var f := x.flags;
      var align := if f.zero then Numeric else f.align;
      var fill := if f.zero then "0" + (if f.fill == "" then "" else f.fill[1..]) else if f.fill == "" then " " else f.fill;
      Some(Specs(width.value, precision.value, x.typ, align, f.sign, f.alt, fill))
  }

  /** What a field prints; None is an error. */
  function FieldText(f: Field, before: seq<ArgId>, args: Args, w: Writers): Option<string> {
    var arg := Value(f.id, before, args);
    if arg.None? then None
    else if f.specs.None? then w.plain(arg.value)
    else
      var specs := Given(f.specs.value, arg.value.typ, before + [f.id], args);
      if specs.None? then None else w.formatted(arg.value, specs.value)
  }

  function Fill(pieces: seq<Piece>, before: seq<ArgId>, args: Args, w: Writers): Option<string> {
    if pieces == [] then Some("") else
      var text := FieldText(pieces[0].field, before, args, w);
      var rest := Fill(pieces[1..], before + FieldIds(pieces[0].field), args, w);
      if text.None? || rest.None? then None else Some(text.value + (pieces[0].text + rest.value))
  }

  /** The texts with what the fields print in between. */
  ghost function Meaning(t: Template, args: Args, w: Writers): Option<string> {
    var rest := Fill(t.pieces, [], args, w);
    if Mixes(Ids(t.pieces)) || rest.None? then None else Some(t.head + rest.value)
  }

  lemma MeasureIsDynamic(arg: Option<Arg>)
    ensures DynamicValue(arg) == Measure(arg)
  {
  }

  /** Mixing is not undone by more ids. */
  lemma MixesOn(a: seq<ArgId>, b: seq<ArgId>)
    requires Mixes(a)
    ensures Mixes(a + b)
  {
    var n: nat :| Index(n) in a;
    assert Auto in a + b && Index(n) in a + b;
  }

  lemma CountInTurn(c: Count, before: seq<ArgId>, args: Args)
    requires !Mixes(before)
    ensures var value := CountValue(c, 0, before, args);
      CountNow(c, args, Counter(before)) == if Mixes(before + CountIds(c)) || value.None? then None
                                            else Some((if c.Dynamic? then value.value else 0, Counter(before + CountIds(c))))
  {
    hide Resolve, Lookup, Value, Mixes, Counter;
    if c.Dynamic? {
      ResolvedInTurn(c.id, before, args);
      MeasureIsDynamic(Value(c.id, before, args));
    } else {
      assert before + [] == before;
    }
  }

  predicate MayHave(x: Syntax, t: ArgType) {
    && (x.flags.sign != NoSign ==> SignAllowed(t)) && (x.flags.alt ==> IsArithmetic(t)) && (x.flags.zero ==> IsArithmetic(t))
    && (x.precision != Absent ==> PrecisionAllowed(t))
  }

  lemma AllowedIsChecked(x: Syntax, t: ArgType)
    ensures Allowed(x, t) == MayHave(x, t)
  {
    match t case IntType => case UintType => case LongLongType => case UlongLongType => case Int128Type =>
    case Uint128Type => case BoolType => case CharType => case FloatType => case DoubleType => case LongDoubleType =>
    case CstringType => case StringType => case PointerType =>
  }

  /** The specifiers that interpreting hands to the formatter. */
  lemma SpecsInTurn(x: Syntax, t: ArgType, before: seq<ArgId>, args: Args)
    requires !Mixes(before)
    ensures var after := before + (CountIds(x.width) + CountIds(x.precision));
      var given := Given(x, t, before, args);
      SpecsNow(x, t, args, Counter(before)) == if Mixes(after) || given.None? then None else Some((given.value, Counter(after)))
  {
    hide Mixes, Counter, CountNow, IsArithmetic, SignAllowed, PrecisionAllowed, Allowed, Value, Measure;
    var a, b := CountIds(x.width), CountIds(x.precision);
    AllowedIsChecked(x, t);
    CountInTurn(x.width, before, args);
    assert (before + a) + b == before + (a + b) && " "[1..] == "";
    if Mixes(before + a) { MixesOn(before + a, b); } else { CountInTurn(x.precision, before + a, args); }
  }

  /** What is compiled comes to the same specifiers when it is run. */
  lemma SpecsInRun(x: Syntax, t: ArgType, before: seq<ArgId>, args: Args)
    requires !Mixes(before) && x.flags.align != Numeric
    ensures var after := before + (CountIds(x.width) + CountIds(x.precision));
      var later, given := SpecsLater(x, Counter(before)), Given(x, t, before, args);
      if Mixes(after) || given.None? then later.None? || Settle(later.value.0, t, args).None?
      else later.Some? && later.value.1 == Counter(after) && Settle(later.value.0, t, args) == given
  {
    hide SpecsNow, SpecsLater, Settle, Given, Mixes, Counter;
    SpecsInTurn(x, t, before, args);
    EarlyIsLate(x, t, args, Counter(before));
  }

  /** Where a written field stands, its parts stand. */
  lemma FieldRead(s: string, k: nat, f: Field)
    requires ValidField(f) && At(s, k, ShowField(f))
    ensures k < |s| && s[k] == '{' && k + |ShowField(f)| <= |s|
    ensures f.specs.None? ==> HeadAt(s, k) == Simple(f.id, k + |ShowField(f)| - 1)
    ensures f.specs.Some? ==>
      var p := k + 2 + |ShowId(f.id)|;
      HeadAt(s, k) == WithSpecs(f.id, p) && SyntaxAt(s, p) == Some((f.specs.value, k + |ShowField(f)| - 1))
  {
    hide HeadAt, SyntaxAt, ShowSyntax, ShowId, ValidId, ValidSyntax;
    var id := ShowId(f.id);
    if f.specs.None? {
      StandsBehind(s, k, id, "}");
      CharAt(s, k + 1 + |id|, "}", 0);
      HeadRoundTrip(s, k, f.id);
    } else {
      StandsBehind(s, k, id, ":" + ShowSyntax(f.specs.value));
      SpecsRead(s, k, f.id, f.specs.value);
    }
  }

  lemma SpecsRead(s: string, k: nat, id: ArgId, x: Syntax)
    requires ValidId(id) && ValidSyntax(x) && At(s, k + 1, ShowId(id)) && At(s, k + 1 + |ShowId(id)|, ":" + ShowSyntax(x))
    ensures var p := k + 2 + |ShowId(id)|;
      HeadAt(s, k) == WithSpecs(id, p) && SyntaxAt(s, p) == Some((x, p + |ShowSyntax(x)| - 1))
  {
    hide HeadAt, SyntaxAt, ShowSyntax, ShowId, ValidId, ValidSyntax, At;
    var end := k + 1 + |ShowId(id)|;
    CharAt(s, end, ":" + ShowSyntax(x), 0);
    AtSplit(s, end, ":", ShowSyntax(x));
    SyntaxRoundTrip(s, end + 1, x);
    HeadRoundTrip(s, k, id);
  }

  lemma StandsBehind(s: string, k: nat, id: string, rest: string)
    requires At(s, k, "{" + (id + rest)) && rest != ""
    ensures k < |s| && s[k] == '{' && At(s, k + 1, id) && At(s, k + 1 + |id|, rest) && k + 1 + |id| < |s|
  {
    AtSplit(s, k, "{", id + rest);
    CharAt(s, k, "{", 0);
    AtSplit(s, k + 1, id, rest);
  }

  /** One field, behind others: its text and the counter after it. */
  lemma FieldInTurn(s: string, k: nat, f: Field, before: seq<ArgId>, args: Args, w: Writers)
    requires ValidField(f) && At(s, k, ShowField(f)) && !Mixes(before)
    ensures k < |s| && s[k] == '{'
    ensures var text := FieldText(f, before, args, w);
      InterpretText(s, args, w, Counter(before), k)
        == if Mixes(before + FieldIds(f)) || text.None? then None
           else Some((text.value, Counter(before + FieldIds(f)), k + |ShowField(f)|))
  {
    hide HeadAt, SyntaxAt, SpecsNow, Given, Resolve, Lookup, Value, Mixes, Counter, ShowField;
    FieldRead(s, k, f);
    ResolvedInTurn(f.id, before, args);
    if f.specs.None? {
      assert FieldIds(f) == [f.id];
    } else {
      SpecsFieldInTurn(f, f.specs.value, before);
      if Mixes(before + [f.id]) {
        MixesOn(before + [f.id], CountIds(f.specs.value.width) + CountIds(f.specs.value.precision));
      } else if Value(f.id, before, args).Some? {
        SpecsInTurn(f.specs.value, Value(f.id, before, args).value.typ, before + [f.id], args);
      }
    }
  }

  lemma SpecsFieldInTurn(f: Field, x: Syntax, before: seq<ArgId>)
    requires f.specs == Some(x)
    ensures (before + [f.id]) + (CountIds(x.width) + CountIds(x.precision)) == before + FieldIds(f)
  {
  }

  /** Doubled braces anywhere in a string print the text. */
  lemma {:induction false} EscapedAt<H(!new)>(s: string, p: nat, t: string, h: Handler<H>, st: H)
    requires At(s, p, Escape(t)) && PrintsBraces(h, s) && Joins(h)
    ensures Scan(s, h, st, p) == Scan(s, h, h.text(st, t), p + |Escape(t)|)
    decreases |t|
  {
    hide Scan, At, Doubled;
    if t != "" {
      AtSplit(s, p, Doubled(t[0]), Escape(t[1..]));
      CharStep(s, p, t[0], h, st);
      EscapedAt(s, p + |Doubled(t[0])|, t[1..], h, h.text(st, [t[0]]));
      TextJoined(t, h, st);
    }
  }

  lemma TextJoined<H(!new)>(t: string, h: Handler<H>, st: H)
    requires Joins(h) && t != ""
    ensures h.text(h.text(st, [t[0]]), t[1..]) == h.text(st, t)
  {
    assert JoinsAt(h, st, [t[0]]) && [t[0]] + t[1..] == t;
  }

  lemma CharStep<H(!new)>(s: string, p: nat, c: char, h: Handler<H>, st: H)
    requires At(s, p, Doubled(c)) && PrintsBraces(h, s) && Joins(h)
    ensures Scan(s, h, st, p) == Scan(s, h, h.text(st, [c]), p + |Doubled(c)|)
  {
    hide Scan;
    CharAt(s, p, Doubled(c), 0);
    assert JoinsAt(h, st, [c]);
    if c == '{' || c == '}' {
      CharAt(s, p, Doubled(c), 1);
      BraceStep(s, h, st, p);
    } else {
      PlainStep(s, h, st, p);
    }
  }

  /** One field and the text behind it. */
  lemma PieceInTurn(s: string, p: nat, f: Field, t: string, before: seq<ArgId>, st: Output, args: Args, w: Writers)
    requires ValidField(f) && At(s, p, ShowField(f)) && At(s, p + |ShowField(f)|, Escape(t))
    requires !Mixes(before) && st.nextArgId == Counter(before)
    ensures var h, text, now := Interpreter(s, args, w), FieldText(f, before, args, w), before + FieldIds(f);
      Scan(s, h, st, p) == if Mixes(now) || text.None? then None
                           else Scan(s, h, Output((st.out + text.value) + t, Counter(now)), p + |ShowField(f)| + |Escape(t)|)
  {
    hide FieldText, FieldIds, ShowField, Mixes, Counter, InterpretText, Scan, Interpreter, At, Escape, ValidField;
    FieldInTurn(s, p, f, before, args, w);
    FieldStep(s, p, st, args, w);
    var text := FieldText(f, before, args, w);
    if !Mixes(before + FieldIds(f)) && text.Some? {
      TextStep(s, p + |ShowField(f)|, t, Output(st.out + text.value, Counter(before + FieldIds(f))), args, w);
    }
  }

  lemma TextStep(s: string, q: nat, t: string, st: Output, args: Args, w: Writers)
    requires At(s, q, Escape(t))
    ensures var h := Interpreter(s, args, w);
      Scan(s, h, st, q) == Scan(s, h, Output(st.out + t, st.nextArgId), q + |Escape(t)|)
  {
    InterpreterPrintsBraces(s, args, w);
    EscapedAt(s, q, t, Interpreter(s, args, w), st);
  }

  lemma NothingLeft(s: string, st: Output, args: Args, w: Writers)
    ensures Scan(s, Interpreter(s, args, w), st, |s|) == Some(st)
  {
    FirstBraceFrom(s, |s|, |s|);
    assert s[|s|..] == "" && st.out + "" == st.out;
  }

  /** The fields and texts from p on, behind the ids before them. */
  lemma {:induction false} PiecesInTurn(s: string, p: nat, pieces: seq<Piece>, before: seq<ArgId>, st: Output, args: Args,
                                        w: Writers)
    requires At(s, p, ShowPieces(pieces)) && p + |ShowPieces(pieces)| == |s|
    requires (forall i :: 0 <= i < |pieces| ==> ValidField(pieces[i].field)) && !Mixes(before) && st.nextArgId == Counter(before)
    ensures var fill, after := Fill(pieces, before, args, w), before + Ids(pieces);
      Scan(s, Interpreter(s, args, w), st, p) == if Mixes(after) || fill.None? then None
                                                 else Some(Output(st.out + fill.value, Counter(after)))
    decreases |pieces|
  {
    hide FieldText, FieldIds, ShowField, Mixes, Counter, Scan, Interpreter, ValidField, At, Escape;
    if pieces == [] {
      assert before + [] == before && st.out + "" == st.out;
      NothingLeft(s, st, args, w);
    } else {
      var f, t, rest := pieces[0].field, pieces[0].text, pieces[1..];
      AtSplit(s, p, ShowField(f), Escape(t) + ShowPieces(rest));
      AtSplit(s, p + |ShowField(f)|, Escape(t), ShowPieces(rest));
      PieceInTurn(s, p, f, t, before, st, args, w);
      var now, text := before + FieldIds(f), FieldText(f, before, args, w);
      assert now + Ids(rest) == before + Ids(pieces);
      if Mixes(now) {
        MixesOn(now, Ids(rest));
      } else if text.Some? {
        PiecesInTurn(s, p + |ShowField(f)| + |Escape(t)|, rest, now, Output((st.out + text.value) + t, Counter(now)), args, w);
        var more := Fill(rest, now, args, w);
        if more.Some? { JoinFour(st.out, text.value, t, more.value); }
      }
    }
  }

  /** At an opening brace a field is read. */
  lemma FieldStep(s: string, p: nat, st: Output, args: Args, w: Writers)
    requires p < |s| && s[p] == '{'
    ensures var h, r := Interpreter(s, args, w), InterpretText(s, args, w, st.nextArgId, p);
      Scan(s, h, st, p) == if r.None? then None else Scan(s, h, Output(st.out + r.value.0, r.value.1), r.value.2)
  {
    hide InterpretText;
    FirstBraceFrom(s, p, p);
    assert s[p..p] == "" && st.out + "" == st.out;
    ScanField(s, Interpreter(s, args, w), st, p, p);
  }

  lemma JoinFour(a: string, b: string, c: string, d: string)
    ensures ((a + b) + c) + d == a + (b + (c + d))
  {
  }

  /** Interpreting what was written prints the texts with the fields' arguments in between; mixing automatic ids with
      indexes is an error. */
  lemma WrittenMeans(t: Template, args: Args, w: Writers)
    requires ValidTemplate(t)
    ensures Interpret(Written(t), args, w) == Meaning(t, args, w)
  {
    hide Scan, Interpreter, Mixes, Counter, Fill, ShowPieces, Escape;
    var s, q := Written(t), |Escape(t.head)|;
    assert At(s, 0, Escape(t.head)) && At(s, q, ShowPieces(t.pieces));
    TextStep(s, 0, t.head, Output("", 0), args, w);
    assert "" + t.head == t.head && [] + Ids(t.pieces) == Ids(t.pieces);
    NothingBefore();
    PiecesInTurn(s, q, t.pieces, [], Output(t.head, 0), args, w);
  }

  lemma NothingBefore()
    ensures !Mixes([]) && Counter([]) == 0
  {
  }

  /** And so does compiling it and running the parts. */
  lemma WrittenRuns(t: Template, args: Args, w: Writers)
    requires ValidTemplate(t)
    ensures RunCompiled(Written(t), args, w) == Meaning(t, args, w)
  {
    WrittenMeans(t, args, w);
    CompiledMeansInterpreted(Written(t), args, w);
  }

  predicate BraceFree(t: string) { '{' !in t && '}' !in t }

  /** Each text behind an empty pair of braces. */
  function Braced(texts: seq<string>): string {
    if texts == [] then "" else "{}" + (texts[0] + Braced(texts[1..]))
  }

  /** Each text behind the next argument. */
  function InTurn(texts: seq<string>, next: nat, args: Args, w: Writers): string
    requires next + |texts| <= |args.positional|
    requires forall i :: next <= i < next + |texts| ==> w.plain(args.positional[i]).Some?
  {
    if texts == [] then ""
    else w.plain(args.positional[next]).value + (texts[0] + InTurn(texts[1..], next + 1, args, w))
  }

  function AutoPieces(texts: seq<string>): seq<Piece> {
    if texts == [] then [] else [Piece(Field(Auto, None), texts[0])] + AutoPieces(texts[1..])
  }

  lemma {:induction false} EscapeFree(t: string)
    requires BraceFree(t)
    ensures Escape(t) == t
  {
    if t != "" {
      EscapeFree(t[1..]);
      assert [t[0]] + t[1..] == t;
    }
  }

  lemma AutoField()
    ensures var f := Field(Auto, None); ShowField(f) == "{}" && FieldIds(f) == [Auto] && ValidField(f)
  {
  }

  lemma {:induction false} AutoWritten(texts: seq<string>)
    requires forall i :: 0 <= i < |texts| ==> BraceFree(texts[i])
    ensures ShowPieces(AutoPieces(texts)) == Braced(texts)
    ensures forall i :: 0 <= i < |AutoPieces(texts)| ==> ValidField(AutoPieces(texts)[i].field)
    ensures forall id :: id in Ids(AutoPieces(texts)) ==> id == Auto
  {
    hide Escape, ShowField, FieldIds, ValidField;
    if texts != [] {
      AutoWritten(texts[1..]);
      EscapeFree(texts[0]);
      assert AutoPieces(texts)[1..] == AutoPieces(texts[1..]);
      AutoField();
    }
  }

  lemma {:induction false} AutoFilled(texts: seq<string>, before: seq<ArgId>, args: Args, w: Writers)
    requires Autos(before) + |texts| <= |args.positional|
    requires forall i :: Autos(before) <= i < Autos(before) + |texts| ==> w.plain(args.positional[i]).Some?
    ensures Fill(AutoPieces(texts), before, args, w) == Some(InTurn(texts, Autos(before), args, w))
    decreases |texts|
  {
    if texts != [] {
      AutosAppend(before, Auto);
      assert FieldIds(Field(Auto, None)) == [Auto];
      AutoFilled(texts[1..], before + [Auto], args, w);
      assert AutoPieces(texts)[1..] == AutoPieces(texts[1..]);
    }
  }

  /** Empty pairs of braces print the arguments in turn. */
  lemma EachInTurn(head: string, texts: seq<string>, args: Args, w: Writers)
    requires BraceFree(head) && (forall i :: 0 <= i < |texts| ==> BraceFree(texts[i])) && |texts| <= |args.positional|
    requires forall i :: 0 <= i < |texts| ==> w.plain(args.positional[i]).Some?
    ensures Interpret(head + Braced(texts), args, w) == Some(head + InTurn(texts, 0, args, w))
  {
    var t := Template(head, AutoPieces(texts));
    EscapeFree(head);
    AutoWritten(texts);
    AutoFilled(texts, [], args, w);
    WrittenMeans(t, args, w);
  }

  /** An automatic id and an index in one string are an error, wherever they stand. */
  lemma MixingFails(t: Template, args: Args, w: Writers, n: nat)
    requires ValidTemplate(t) && Auto in Ids(t.pieces) && Index(n) in Ids(t.pieces)
    ensures Interpret(Written(t), args, w) == None
  {
    WrittenMeans(t, args, w);
  }

  /** The characters that specifiers are written with. */
  lemma MarksWritten(n: nat, c: char)
    ensures ShowAlign(Left) == "<" && ShowAlign(Right) == ">" && ShowAlign(Center) == "^" && ShowAlign(NoAlign) == ""
    ensures ShowSign(Plus) == "+" && ShowSign(Minus) == "-" && ShowSign(Space) == " " && ShowSign(NoSign) == ""
    ensures ShowMarks(Flags("", NoAlign, NoSign, true, false)) == "#" && ShowMarks(Flags("", NoAlign, NoSign, false, true)) == "0"
    ensures ShowPrecision(Literal(n)) == "." + ShowNat(n) && ShowCount(Dynamic(Index(n))) == "{" + ShowNat(n) + "}"
    ensures ShowFlags(Flags([c], Left, Plus, true, true)) == [c] + "<+#0"
  {
  }

  /** A string that is one field. */
  lemma FieldAlone(f: Field, args: Args, w: Writers)
    requires ValidField(f)
    ensures Interpret(ShowField(f), args, w) == if Mixes(FieldIds(f)) then None else FieldText(f, [], args, w)
  {
    hide ShowField, FieldIds, FieldText, ValidField;
    var t := Template("", [Piece(f, "")]);
    var text := FieldText(f, [], args, w);
    assert t.pieces[1..] == [] && Ids(t.pieces) == FieldIds(f) + [] == FieldIds(f);
    assert ShowPieces(t.pieces) == ShowField(f) + (Escape("") + ShowPieces([])) == ShowField(f) + ("" + "");
    assert Written(t) == ShowField(f);
    assert [] + FieldIds(f) == FieldIds(f) && Fill([], FieldIds(f), args, w) == Some("");
    WrittenMeans(t, args, w);
    if text.Some? { assert "" + (text.value + ("" + "")) == text.value; }
  }

  const PADDED := Syntax(Flags("", NoAlign, NoSign, false, true), Literal(16), Absent, Some('X'))

  lemma PaddedShown()
    ensures ShowField(Field(Auto, Some(PADDED))) == "{:016X}" && ValidField(Field(Auto, Some(PADDED)))
    ensures FieldIds(Field(Auto, Some(PADDED))) == [Auto]
  {
    assert ShowNat(16) == ShowNat(1) + "6" == "16";
    assert ShowSyntax(PADDED) == "016X}";
  }

  /** A number written with leading zeros to sixteen hexadecimal digits. */
  lemma PaddedHex(number: Arg, w: Writers)
    requires number.typ == UlongLongType
    ensures Interpret("{:016X}", Args([number], map[]), w)
         == w.formatted(number, Specs(16, -1, Some('X'), Numeric, NoSign, false, "0"))
  {
    hide ShowField, FieldIds, ValidField;
    PaddedShown();
    FieldAlone(Field(Auto, Some(PADDED)), Args([number], map[]), w);
  }

  /** Formatting directly, through the parser. */
  method Format(s: string, args: Args, f: Formatters) returns (r: Option<string>)
    ensures r == Interpret(s, args, Now(f))
    ensures forall t :: ValidTemplate(t) && s == Written(t) ==> r == Meaning(t, args, Now(f))
  {
    forall t | ValidTemplate(t) && s == Written(t) ensures Interpret(s, args, Now(f)) == Meaning(t, args, Now(f)) {
      WrittenMeans(t, args, Now(f));
    }
    InterpreterLawful(s, args, Now(f));
    var st := ParseFormatString(s, Interpreter(s, args, Now(f)), Output("", 0));
    r := if st.None? then None else Some(st.value.out);
  }

  /** Formatting through parts. */
  method FormatCompiled(s: string, args: Args, f: Formatters) returns (r: Option<string>)
    ensures r == RunCompiled(s, args, Later(f))
    ensures forall t :: ValidTemplate(t) && s == Written(t) ==> r == Meaning(t, args, Later(f))
    ensures FloatsAgree(args, f) ==> r == Interpret(s, args, Now(f))
  {
    forall t | ValidTemplate(t) && s == Written(t) ensures RunCompiled(s, args, Later(f)) == Meaning(t, args, Later(f)) {
      WrittenRuns(t, args, Later(f));
    }
    CompilerLawful(s);
    CompiledMeansInterpreted(s, args, Now(f));
    var st := ParseFormatString(s, Compiler(s), Compiled([], 0));
    if st.None? { return None; }
    if FloatsAgree(args, f) { RunSame(st.value.parts, args, f); }
    r := VformatTo(st.value.parts, args, Later(f));
  }
}
