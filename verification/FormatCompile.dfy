/** Interpreting a format string against compiling it to parts, counting the parts, and running them. */
module FormatCompile {
  import opened FormatStrings
  import opened Options
  import opened FormatFields
  import opened FormatPrint

  /** The text of a built-in argument without and with specifiers, in one way of formatting; None for a type it does not
      have. */
  datatype Writers = Writers(plain: Arg -> Option<string>, formatted: (Arg, Specs) -> Option<string>)

  /** format_handler: the output so far and the automatic argument counter. */
  datatype Output = Output(out: string, nextArgId: int)

  /** The text of a field, the counter after it, and where it ends. */
  function InterpretText(s: string, args: Args, w: Writers, nextArgId: int, k: nat): (r: Option<(string, int, nat)>)
    requires k < |s|
    ensures r.Some? ==> k < r.value.2 <= |s|
  {
    match HeadAt(s, k)
    case Malformed => None
    case Brace => Some(("{", nextArgId, k + 2))
    case Simple(id, close) =>
      var ref := Resolve(id, nextArgId);
      if ref.None? || Lookup(args, ref.value.0).None? then None else
        var text := w.plain(Lookup(args, ref.value.0).value);
        if text.None? then None else Some((text.value, ref.value.1, close + 1))
    case WithSpecs(id, p) =>
      var ref := Resolve(id, nextArgId);
      if ref.None? || Lookup(args, ref.value.0).None? then None else
        var arg, x := Lookup(args, ref.value.0).value, SyntaxAt(s, p);
        if x.None? then None else
          var specs := SpecsNow(x.value.0, arg.typ, args, ref.value.1);
          if specs.None? then None else
            var text := w.formatted(arg, specs.value.0);
            if text.None? then None else Some((text.value, specs.value.1, x.value.1 + 1))
  }

  function InterpretField(s: string, args: Args, w: Writers, st: Output, k: nat): (r: Option<(Output, nat)>)
    requires k < |s|
    ensures r.Some? ==> k < r.value.1 <= |s|
  {
    var f := InterpretText(s, args, w, st.nextArgId, k);
    if f.None? then None else Some((Output(st.out + f.value.0, f.value.1), f.value.2))
  }

  function Print(st: Output, text: string): Output { st.(out := st.out + text) }

  function Interpreter(s: string, args: Args, w: Writers): Handler<Output> {
    Handler((st: Output, text: string) => Print(st, text),
            (st: Output, k: nat) => if k < |s| then InterpretField(s, args, w, st, k) else None)
  }

  datatype Part = Text(text: string) | Plain(ref: ArgRef) | Replacement(ref: ArgRef, specs: DynamicSpecs)

  /** format_string_compiler: the parts so far and the automatic argument counter. */
  datatype Compiled = Compiled(parts: seq<Part>, nextArgId: int)

  /** The part of a field, the counter after it, and where it ends. */
  function CompilePart(s: string, nextArgId: int, k: nat): (r: Option<(Part, int, nat)>)
    requires k < |s|
    ensures r.Some? ==> k < r.value.2 <= |s|
  {
    match HeadAt(s, k)
    case Malformed => None
    case Brace => Some((Text("{"), nextArgId, k + 2))
    case Simple(id, close) =>
      var ref := Resolve(id, nextArgId);
      if ref.None? then None else Some((Plain(ref.value.0), ref.value.1, close + 1))
    case WithSpecs(id, p) =>
      var ref, x := Resolve(id, nextArgId), SyntaxAt(s, p);
      if ref.None? || x.None? then None else
        var specs := SpecsLater(x.value.0, ref.value.1);
        if specs.None? then None else Some((Replacement(ref.value.0, specs.value.0), specs.value.1, x.value.1 + 1))
  }

  function CompileField(s: string, st: Compiled, k: nat): (r: Option<(Compiled, nat)>)
    requires k < |s|
    ensures r.Some? ==> k < r.value.1 <= |s| && st.parts <= r.value.0.parts
  {
    var f := CompilePart(s, st.nextArgId, k);
    if f.None? then None else Some((Compiled(st.parts + [f.value.0], f.value.1), f.value.2))
  }

  function CompileText(st: Compiled, text: string): Compiled {
    if text == "" then st else st.(parts := st.parts + [Text(text)])
  }

  function Compiler(s: string): Handler<Compiled> {
    Handler((st: Compiled, text: string) => CompileText(st, text),
            (st: Compiled, k: nat) => if k < |s| then CompileField(s, st, k) else None)
  }

  /** One part of cf::vformat_to; a missing argument is the assertion of the formatter. */
  function RunPart(part: Part, args: Args, w: Writers): Option<string> {
    match part
    case Text(text) => Some(text)
    case Plain(ref) => if Lookup(args, ref).None? then None else w.plain(Lookup(args, ref).value)
    case Replacement(ref, d) =>
      if Lookup(args, ref).None? then None else
        var arg := Lookup(args, ref).value;
        var specs := Settle(d, arg.typ, args);
        if specs.None? then None else w.formatted(arg, specs.value)
  }

  function Run(parts: seq<Part>, args: Args, w: Writers): Option<string> {
    if parts == [] then Some("") else
      var n := |parts| - 1;
      var before, last := Run(parts[..n], args, w), RunPart(parts[n], args, w);
      if before.None? || last.None? then None else Some(before.value + last.value)
  }

  /** The loop of cf::vformat_to. */
  method VformatTo(parts: seq<Part>, args: Args, w: Writers) returns (r: Option<string>)
    ensures r == Run(parts, args, w)
  {
    var out := "";
    for i := 0 to |parts|
      invariant Run(parts[..i], args, w) == Some(out)
    {
      var text := RunPart(parts[i], args, w);
      assert parts[..i + 1][..i] == parts[..i];
      if text.None? {
        RunPrefixFails(parts[..i + 1], parts, args, w);
        return None;
      }
      out := out + text.value;
    }
    assert parts[..|parts|] == parts;
    return Some(out);
  }

  lemma {:induction false} RunPrefixFails(parts: seq<Part>, more: seq<Part>, args: Args, w: Writers)
    requires parts <= more && Run(parts, args, w).None?
    ensures Run(more, args, w).None?
    decreases |more|
  {
    if |parts| < |more| {
      RunPrefixFails(parts, more[..|more| - 1], args, w);
    } else {
      assert parts == more;
    }
  }

  lemma RunAppend(parts: seq<Part>, part: Part, args: Args, w: Writers)
    ensures var before, last := Run(parts, args, w), RunPart(part, args, w);
      Run(parts + [part], args, w) == if before.None? || last.None? then None else Some(before.value + last.value)
  {
    assert (parts + [part])[..|parts|] == parts;
  }

  lemma InterpreterLawful(s: string, args: Args, w: Writers)
    ensures Lawful(Interpreter(s, args, w), s)
  {
    forall st: Output ensures Interpreter(s, args, w).text(st, "") == st {
      assert st.out + "" == st.out;
    }
  }

  lemma CompilerLawful(s: string)
    ensures Lawful(Compiler(s), s)
  {
  }

  /** What running the parts compiled so far gives. */
  function RunState(c: Option<Compiled>, args: Args, w: Writers): Option<Output> {
    if c.None? || Run(c.value.parts, args, w).None? then None
    else Some(Output(Run(c.value.parts, args, w).value, c.value.nextArgId))
  }

  /** One field: its part, run later, gives the text that interpreting it gives now. */
  lemma PartAgrees(s: string, args: Args, w: Writers, nextArgId: int, k: nat)
    requires k < |s|
    ensures var now, later := InterpretText(s, args, w, nextArgId, k), CompilePart(s, nextArgId, k);
      now == if later.None? || RunPart(later.value.0, args, w).None? then None
             else Some((RunPart(later.value.0, args, w).value, later.value.1, later.value.2))
  {
    var h := HeadAt(s, k);
    if h.WithSpecs? { SpecsPartAgrees(s, args, w, nextArgId, k, h.id, h.specs); }
  }

  lemma SpecsPartAgrees(s: string, args: Args, w: Writers, nextArgId: int, k: nat, id: ArgId, p: nat)
    requires k < |s| && HeadAt(s, k) == WithSpecs(id, p)
    ensures var now, later := InterpretText(s, args, w, nextArgId, k), CompilePart(s, nextArgId, k);
      now == if later.None? || RunPart(later.value.0, args, w).None? then None
             else Some((RunPart(later.value.0, args, w).value, later.value.1, later.value.2))
  {
    var ref, x := Resolve(id, nextArgId), SyntaxAt(s, p);
    if ref.Some? && x.Some? && Lookup(args, ref.value.0).Some? {
      EarlyIsLate(x.value.0, Lookup(args, ref.value.0).value.typ, args, ref.value.1);
    }
  }

  lemma FieldAgrees(s: string, args: Args, w: Writers, c: Compiled, k: nat)
    requires k < |s| && Run(c.parts, args, w).Some?
    ensures var st := Output(Run(c.parts, args, w).value, c.nextArgId);
      var now, later := InterpretField(s, args, w, st, k), CompileField(s, c, k);
      && (now.Some? ==> later.Some? && now.value.1 == later.value.1)
      && (if now.None? then None else Some(now.value.0)) == RunState(if later.None? then None else Some(later.value.0), args, w)
  {
    PartAgrees(s, args, w, c.nextArgId, k);
    var later := CompilePart(s, c.nextArgId, k);
    if later.Some? { RunAppend(c.parts, later.value.0, args, w); }
  }

  lemma TextAgrees(args: Args, w: Writers, c: Compiled, text: string)
    requires Run(c.parts, args, w).Some?
    ensures RunState(Some(CompileText(c, text)), args, w)
         == Some(Print(Output(Run(c.parts, args, w).value, c.nextArgId), text))
  {
    RunAppend(c.parts, Text(text), args, w);
    assert Run(c.parts, args, w).value + "" == Run(c.parts, args, w).value;
  }

  /** Running what was compiled gives the interpreter's state; a part that cannot be run ends it. */
  function SameState(args: Args, w: Writers): (Output, Compiled) -> bool {
    (st: Output, c: Compiled) => RunState(Some(c), args, w) == Some(st)
  }

  function Failed(args: Args, w: Writers): Compiled -> bool {
    (c: Compiled) => Run(c.parts, args, w).None?
  }

  lemma CompilerSimulates(s: string, args: Args, w: Writers)
    ensures Simulates(s, Interpreter(s, args, w), Compiler(s), SameState(args, w), Failed(args, w), true)
  {
    var hi, hc := Interpreter(s, args, w), Compiler(s);
    forall st: Output, c: Compiled, t: string | SameState(args, w)(st, c)
      ensures SameState(args, w)(hi.text(st, t), hc.text(c, t))
    {
      TextAgrees(args, w, c, t);
    }
    forall c: Compiled, t: string | Failed(args, w)(c) ensures Failed(args, w)(hc.text(c, t)) {
      RunPrefixFails(c.parts, CompileText(c, t).parts, args, w);
    }
    forall c: Compiled, k: nat | k < |s| && Failed(args, w)(c) && hc.field(c, k).Some?
      ensures Failed(args, w)(hc.field(c, k).value.0)
    {
      RunPrefixFails(c.parts, CompileField(s, c, k).value.0.parts, args, w);
    }
    forall st: Output, c: Compiled, k: nat | k < |s| && SameState(args, w)(st, c)
      ensures FieldMatches(hi.field(st, k), hc.field(c, k), SameState(args, w), Failed(args, w), true)
    {
      FieldAgrees(s, args, w, c, k);
    }
  }

  /** vformat_to: interpreting a format string. */
  ghost function Interpret(s: string, args: Args, w: Writers): Option<string> {
    var r := Scan(s, Interpreter(s, args, w), Output("", 0), 0);
    if r.None? then None else Some(r.value.out)
  }

  /** compile_format_string */
  ghost function Compile(s: string): Option<seq<Part>> {
    var r := Scan(s, Compiler(s), Compiled([], 0), 0);
    if r.None? then None else Some(r.value.parts)
  }

  /** Compiling and then running is interpreting: the same output, or an error both ways, for every string. */
  lemma CompiledMeansInterpreted(s: string, args: Args, w: Writers)
    ensures Interpret(s, args, w) == if Compile(s).None? then None else Run(Compile(s).value, args, w)
  {
    CompilerSimulates(s, args, w);
    ScanSimulates(s, Interpreter(s, args, w), Compiler(s), SameState(args, w), Failed(args, w), true,
                  Output("", 0), Compiled([], 0), 0);
  }

  /** Text with doubled braces is formatted to the text. */
  lemma EscapeRoundTrip(t: string, args: Args, w: Writers)
    ensures Interpret(Escape(t), args, w) == Some(t)
  {
    InterpreterPrintsBraces(Escape(t), args, w);
    assert "" + Escape(t) == Escape(t) && "" + t == t;
    ScanEscaped("", t, Interpreter(Escape(t), args, w), Output("", 0));
  }

  lemma InterpreterPrintsBraces(s: string, args: Args, w: Writers)
    ensures PrintsBraces(Interpreter(s, args, w), s) && Joins(Interpreter(s, args, w))
  {
    InterpreterLawful(s, args, w);
    var h := Interpreter(s, args, w);
    forall st: Output, a: string ensures JoinsAt(h, st, a) {
      forall b: string ensures h.text(h.text(st, a), b) == h.text(st, a + b) { Join(st.out, a, b); }
    }
    forall st: Output, k: nat | k + 1 < |s| && s[k] == s[k + 1] == '{'
      ensures h.field(st, k) == Some((h.text(st, "{"), k + 2))
    {
      assert HeadAt(s, k) == Brace;
    }
  }

  /** What the two ways share, and where they differ: without specifiers both write an argument alike, except that
      interpreting has a shorter function for floating-point numbers and running parts uses default specifiers. */
  datatype Formatters = Formatters(write: Arg -> Option<string>, shorter: Arg -> Option<string>,
                                   formatted: (Arg, Specs) -> Option<string>)

  const DEFAULTS := Specs(0, -1, None, NoAlign, NoSign, false, " ")

  predicate IsFloat(t: ArgType) { t.FloatType? || t.DoubleType? || t.LongDoubleType? }

  /** default_arg_formatter */
  function Now(f: Formatters): Writers {
    Writers((arg: Arg) => if IsFloat(arg.typ) then f.shorter(arg) else f.write(arg), f.formatted)
  }

  /** arg_formatter without specifiers */
  function Later(f: Formatters): Writers {
    Writers((arg: Arg) => if IsFloat(arg.typ) then f.formatted(arg, DEFAULTS) else f.write(arg), f.formatted)
  }

  ghost function RunCompiled(s: string, args: Args, w: Writers): Option<string> {
    if Compile(s).None? then None else Run(Compile(s).value, args, w)
  }

  /** The two functions for floating-point numbers give the same text for this argument. */
  predicate SameText(f: Formatters, arg: Arg) { IsFloat(arg.typ) ==> f.shorter(arg) == f.formatted(arg, DEFAULTS) }

  predicate FloatsAgree(args: Args, f: Formatters) {
    forall i :: 0 <= i < |args.positional| ==> SameText(f, args.positional[i])
  }

  lemma {:induction false} RunSame(parts: seq<Part>, args: Args, f: Formatters)
    requires FloatsAgree(args, f)
    ensures Run(parts, args, Now(f)) == Run(parts, args, Later(f))
  {
    if parts != [] {
      RunSame(parts[..|parts| - 1], args, f);
      PartSame(parts[|parts| - 1], args, f);
    }
  }

  lemma PartSame(part: Part, args: Args, f: Formatters)
    requires FloatsAgree(args, f)
    ensures RunPart(part, args, Now(f)) == RunPart(part, args, Later(f))
  {
    if part.Plain? && Lookup(args, part.ref).Some? { assert SameText(f, Lookup(args, part.ref).value); }
  }

  /** For given arguments, compiling and running prints what interpreting prints for every format string exactly if the
      floating-point ones among them are written alike by the two functions for them. */
  lemma CompilingIsInterpreting(args: Args, f: Formatters)
    requires |args.positional| <= MAX_INT
    ensures (forall s :: Interpret(s, args, Now(f)) == RunCompiled(s, args, Later(f))) <==> FloatsAgree(args, f)
  {
    if FloatsAgree(args, f) {
      forall s ensures Interpret(s, args, Now(f)) == RunCompiled(s, args, Later(f)) {
        CompiledMeansInterpreted(s, args, Now(f));
        if Compile(s).Some? { RunSame(Compile(s).value, args, f); }
      }
    } else {
      var i :| 0 <= i < |args.positional| && !SameText(f, args.positional[i]);
      var s := FieldOf(i);
      FieldCompiled(s, i);
      CompiledMeansInterpreted(s, args, Now(f));
      OnePart(Plain(ByIndex(i)), args, Now(f));
      OnePart(Plain(ByIndex(i)), args, Later(f));
    }
  }

  function FieldOf(i: nat): string { "{" + ShowId(Index(i)) + "}" }

  lemma OnePart(part: Part, args: Args, w: Writers)
    ensures Run([part], args, w) == RunPart(part, args, w)
  {
    RunAppend([], part, args, w);
    assert [] + [part] == [part];
    if RunPart(part, args, w).Some? { assert "" + RunPart(part, args, w).value == RunPart(part, args, w).value; }
  }

  lemma FieldHead(s: string, i: nat)
    requires i <= MAX_INT && s == FieldOf(i)
    ensures s[0] == '{' && HeadAt(s, 0) == Simple(Index(i), |s| - 1)
  {
    hide HeadAt;
    BracedAt(s, ShowNat(i));
    HeadRoundTrip(s, 0, Index(i));
  }

  lemma BracedAt(s: string, x: string)
    requires s == "{" + x + "}"
    ensures s[0] == '{' && At(s, 1, x) && s[1 + |x|] == '}'
  {
    InBraces(s, 0, x);
  }

  /** A string that is one field with an index compiles to that one part. */
  lemma FieldCompiled(s: string, i: nat)
    requires i <= MAX_INT && s == FieldOf(i)
    ensures Compile(s) == Some([Plain(ByIndex(i))])
  {
    FieldHead(s, i);
    WholeField(s, i);
  }

  lemma WholeField(s: string, i: nat)
    requires |s| > 0 && s[0] == '{' && HeadAt(s, 0) == Simple(Index(i), |s| - 1)
    ensures Compile(s) == Some([Plain(ByIndex(i))])
  {
    hide HeadAt, CompileField;
    var c := Compiled([], 0);
    assert CompileField(s, c, 0) == Some((Compiled([Plain(ByIndex(i))], -1), |s|)) by { OneField(s, i); }
    FirstBraceFrom(s, 0, 0);
    assert s[0..0] == "";
    ScanField(s, Compiler(s), c, 0, 0);
    FirstBraceFrom(s, |s|, |s|);
    assert s[|s|..] == "";
  }

  lemma OneField(s: string, i: nat)
    requires |s| > 0 && HeadAt(s, 0) == Simple(Index(i), |s| - 1)
    ensures CompileField(s, Compiled([], 0), 0) == Some((Compiled([Plain(ByIndex(i))], -1), |s|))
  {
    hide HeadAt;
    assert [] + [Plain(ByIndex(i))] == [Plain(ByIndex(i))];
  }
}
