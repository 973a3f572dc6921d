/** Replacement fields: their grammar, and interpreting them against compiling them to parts that are run later. */
module FormatFields {
  import opened Options
  import opened Rounding

  /** An argument id as written, and the argument that it refers to. */
  datatype ArgId = Auto | Index(index: nat) | Name(name: string)
  datatype ArgRef = ByIndex(index: nat) | ByName(name: string)

  predicate IsDigit(c: char) { '0' <= c <= '9' }
  predicate IsNameStart(c: char) { 'a' <= c <= 'z' || 'A' <= c <= 'Z' || c == '_' }

  const MAX_INT := 0x7FFF_FFFF

  function DigitsEnd(s: string, p: nat): (k: nat)
    requires p <= |s|
    ensures p <= k <= |s| && (k < |s| ==> !IsDigit(s[k])) && AllDigits(s[p..k])
    decreases |s| - p
  {
    if p == |s| || !IsDigit(s[p]) then p else DigitsEnd(s, p + 1)
  }

  /** The decimal value of the digits at p, unless it is no 32-bit int. */
  function IntAt(s: string, p: nat): (r: Option<(nat, nat)>)
    requires p <= |s|
    ensures r.Some? ==> p <= r.value.1 <= |s| && (p < |s| && IsDigit(s[p]) ==> p < r.value.1)
  {
    var end := DigitsEnd(s, p);
    DecValBounds(s[p..end]);
    if DecVal(s[p..end]) > MAX_INT then None else Some((DecVal(s[p..end]), end))
  }

  /** parse_nonnegative_int: gives up before the value can leave 32 bits. */
  method ParseNonnegativeInt(s: string, p: nat) returns (r: Option<(nat, nat)>)
    requires p < |s| && IsDigit(s[p])
    ensures r == IntAt(s, p)
  {
    var value: int, begin: nat, big := 0, p, MAX_INT / 10;
    assert s[p..p] == "";
    while true
      invariant p <= begin < |s| && IsDigit(s[begin]) && DigitsEnd(s, p) == DigitsEnd(s, begin)
      invariant 0 <= value == DecVal(s[p..begin])
      decreases |s| - begin
    {
      if value > big {
        TooBig(s, p, begin);
        return None;
      }
      NextDigit(s, p, begin);
      value := value * 10 + (s[begin] as int - '0' as int);
      begin := begin + 1;
      if begin == |s| || !IsDigit(s[begin]) { break; }
    }
    return if value > MAX_INT then None else Some((value, begin));
  }

  /** One more digit; below the limit the value still fits 32 unsigned bits. */
  lemma NextDigit(s: string, p: nat, begin: nat)
    requires p <= begin < |s| && IsDigit(s[begin]) && 0 <= DecVal(s[p..begin]) <= MAX_INT / 10
    ensures DecVal(s[p..begin + 1]) == DecVal(s[p..begin]) * 10 + (s[begin] as int - '0' as int)
    ensures 0 <= DecVal(s[p..begin + 1]) < 0x1_0000_0000
  {
    assert s[p..begin + 1] == s[p..begin] + [s[begin]];
    DecValAppend(s[p..begin], s[begin]);
  }

  lemma TooBig(s: string, p: nat, begin: nat)
    requires p <= begin < |s| && IsDigit(s[begin]) && DigitsEnd(s, p) == DigitsEnd(s, begin)
    requires DecVal(s[p..begin]) > MAX_INT / 10
    ensures IntAt(s, p) == None
  {
    var end := DigitsEnd(s, begin);
    assert s[p..end] == s[p..begin] + s[begin..end];
    DecValGrows(s[p..begin], s[begin..end]);
  }

  lemma {:induction false} DecValGrows(a: string, b: string)
    requires AllDigits(b) && |b| > 0 && DecVal(a) >= 0
    ensures DecVal(a + b) >= 10 * DecVal(a)
  {
    var n := |b| - 1;
    assert (a + b)[..|a| + n] == a + b[..n];
    if n > 0 { DecValGrows(a, b[..n]); } else { assert a + b[..n] == a; }
  }

  function NameEnd(s: string, p: nat): (k: nat)
    requires p <= |s|
    ensures p <= k <= |s| && forall i :: p <= i < k ==> IsNameStart(s[i]) || IsDigit(s[i])
    decreases |s| - p
  {
    if p < |s| && (IsNameStart(s[p]) || IsDigit(s[p])) then NameEnd(s, p + 1) else p
  }

  /** parse_arg_id */
  function ArgIdAt(s: string, p: nat): (r: Option<(ArgId, nat)>)
    requires p < |s|
    ensures r.Some? ==> p <= r.value.1 <= |s| && (forall i :: p <= i < r.value.1 ==> s[i] != '{' && s[i] != '}')
  {
    if s[p] == '}' || s[p] == ':' then Some((Auto, p))
    else if IsDigit(s[p]) then
      var number := if s[p] == '0' then Some((0, p + 1)) else IntAt(s, p);
      if number.None? then None
      else if number.value.1 == |s| || (s[number.value.1] != '}' && s[number.value.1] != ':') then None
      else
        assert forall i :: p <= i < number.value.1 ==> s[i] == s[p..number.value.1][i - p];
        Some((Index(number.value.0), number.value.1))
    else if !IsNameStart(s[p]) then None
    else Some((Name(s[p..NameEnd(s, p + 1)]), NameEnd(s, p + 1)))
  }

  /** How a width or a precision is given. */
  datatype Count = Absent | Literal(n: nat) | Dynamic(id: ArgId)
  datatype Align = NoAlign | Left | Right | Center | Numeric
  datatype Sign = NoSign | Plus | Minus | Space

  /** Format specifiers as written. */
  datatype Syntax = Syntax(flags: Flags, width: Count, precision: Count, typ: Option<char>)

  function AlignOf(c: char): Align {
    if c == '<' then Left else if c == '>' then Right else if c == '^' then Center else NoAlign
  }

  /** The start of the next UTF-8 character. */
  function NextCodePoint(s: string, p: nat): (q: nat)
    requires p < |s|
    ensures p < q <= |s| && forall i :: p < i < q ==> s[i] as int / 64 % 4 == 2
  {
    if s[p] as int / 128 % 2 == 0 then p + 1 else SkipTail(s, p + 1)
  }

  function SkipTail(s: string, p: nat): (q: nat)
    requires p <= |s|
    ensures p <= q <= |s| && forall i :: p <= i < q ==> s[i] as int / 64 % 4 == 2
    decreases |s| - p
  {
    if p < |s| && s[p] as int / 64 % 4 == 2 then SkipTail(s, p + 1) else p
  }

  /** There is no brace in s[p..q]. */
  ghost predicate NoBraces(s: string, p: nat, q: nat) {
    p <= q <= |s| && forall i :: p <= i < q ==> s[i] != '{' && s[i] != '}'
  }

  /** parse_align: a character with an alignment after it is the fill. */
  function FillAlignAt(s: string, p: nat): (r: Option<(string, Align, nat)>)
    requires p < |s|
    ensures r.Some? ==> p <= r.value.2 <= |s| && r.value.1 != Numeric && (s[p] != '}' ==> NoBraces(s, p, r.value.2))
  {
    var q := if NextCodePoint(s, p) == |s| then p else NextCodePoint(s, p);
    if q != p && AlignOf(s[q]) != NoAlign then
      if s[p] == '{' then None else Some((s[p..q], AlignOf(s[q]), q + 1))
    else if AlignOf(s[p]) != NoAlign then Some(("", AlignOf(s[p]), p + 1))
    else Some(("", NoAlign, p))
  }

  function SignOf(c: char): Sign {
    if c == '+' then Plus else if c == '-' then Minus else if c == ' ' then Space else NoSign
  }

  /** parse_width at p, and parse_precision after the point: digits, or an argument id in braces. */
  function CountAt(s: string, p: nat, required: bool): (r: Option<(Count, nat)>)
    requires p <= |s|
    ensures r.Some? ==> p <= r.value.1 <= |s| && (required ==> p < r.value.1)
  {
    if p < |s| && IsDigit(s[p]) then
      var number := IntAt(s, p);
      if number.None? then None else Some((Literal(number.value.0), number.value.1))
    else if p < |s| && s[p] == '{' then
      if p + 1 == |s| then None else
        var id := ArgIdAt(s, p + 1);
        if id.None? || id.value.1 == |s| || s[id.value.1] != '}' then None
        else Some((Dynamic(id.value.0), id.value.1 + 1))
    else if required then None else Some((Absent, p))
  }

  /** What comes before the width: fill and alignment, sign, alternate form, zero flag. */
  datatype Flags = Flags(fill: string, align: Align, sign: Sign, alt: bool, zero: bool)

  function FlagsAt(s: string, p: nat): (r: Option<(Flags, nat)>)
    requires p < |s|
    ensures r.Some? ==> p <= r.value.1 <= |s| && r.value.0.align != Numeric && (s[p] != '}' ==> NoBraces(s, p, r.value.1))
  {
    var fa := FillAlignAt(s, p);
    if fa.None? || fa.value.2 >= |s| then None else
      var a := fa.value.2;
      var b := if SignOf(s[a]) == NoSign then a else a + 1;
      var alt := b < |s| && s[b] == '#';
      var c := if alt then b + 1 else b;
      var zero := c < |s| && s[c] == '0';
      Some((Flags(fa.value.0, fa.value.1, SignOf(s[a]), alt, zero), if zero then c + 1 else c))
  }

  /** parse_format_specs, up to the closing brace of the field. */
  function SyntaxAt(s: string, p: nat): (r: Option<(Syntax, nat)>)
    requires p <= |s|
    ensures r.Some? ==> p <= r.value.1 < |s| && s[r.value.1] == '}' && r.value.0.flags.align != Numeric
  {
    if p == |s| then None
    else if s[p] == '}' then Some((Syntax(Flags("", NoAlign, NoSign, false, false), Absent, Absent, None), p))
    else
      var flags := FlagsAt(s, p);
      if flags.None? || flags.value.1 == |s| then None else
        var width := CountAt(s, flags.value.1, false);
        if width.None? then None else
          var tail := TailAt(s, width.value.1);
          if tail.None? then None
          else Some((Syntax(flags.value.0, width.value.0, tail.value.0, tail.value.1), tail.value.2))
  }

  /** Precision and type. */
  function TailAt(s: string, p: nat): (r: Option<(Count, Option<char>, nat)>)
    requires p <= |s|
    ensures r.Some? ==> p <= r.value.2 < |s| && s[r.value.2] == '}'
  {
    if p == |s| then None else
      var precision := if s[p] == '.' then CountAt(s, p + 1, true) else Some((Absent, p));
      if precision.None? || precision.value.1 == |s| then None else
        var q := precision.value.1;
        if s[q] == '}' then Some((precision.value.0, None, q))
        else if q + 1 < |s| && s[q + 1] == '}' then Some((precision.value.0, Some(s[q]), q + 1))
        else None
  }

  /** The branches of parse_replacement_field at an opening brace. */
  datatype Head = Brace | Simple(id: ArgId, close: nat) | WithSpecs(id: ArgId, specs: nat) | Malformed

  function HeadAt(s: string, k: nat): (r: Head)
    requires k < |s|
    ensures r.Simple? ==> k < r.close < |s| && s[r.close] == '}'
    ensures r.WithSpecs? ==> k < r.specs <= |s|
    ensures r.Brace? ==> k + 1 < |s|
  {
    var p := k + 1;
    if p == |s| then Malformed
    else if s[p] == '}' then Simple(Auto, p)
    else if s[p] == '{' then Brace
    else
      var id := ArgIdAt(s, p);
      if id.None? || id.value.1 == |s| then Malformed
      else if s[id.value.1] == '}' then Simple(id.value.0, id.value.1)
      else if s[id.value.1] == ':' then WithSpecs(id.value.0, id.value.1 + 1)
      else Malformed
  }

  /** Automatic ids count up, explicit ones set the counter to -1, and the two cannot be mixed. */
  function Resolve(id: ArgId, nextArgId: int): Option<(ArgRef, int)> {
    match id
    case Auto => if nextArgId >= 0 then Some((ByIndex(nextArgId), nextArgId + 1)) else None
    case Index(i) => if nextArgId > 0 then None else Some((ByIndex(i), -1))
    case Name(n) => Some((ByName(n), nextArgId))
  }

  /** The built-in argument types, in the order of their enumeration, and the value of an integer. */
  datatype ArgType = IntType | UintType | LongLongType | UlongLongType | Int128Type | Uint128Type | BoolType | CharType
                   | FloatType | DoubleType | LongDoubleType | CstringType | StringType | PointerType
  datatype Arg = Arg(typ: ArgType, number: int, text: string)
  datatype Args = Args(positional: seq<Arg>, names: map<string, nat>)

  function Lookup(args: Args, ref: ArgRef): Option<Arg> {
    match ref
    case ByIndex(i) => if i < |args.positional| then Some(args.positional[i]) else None
    case ByName(n) => if n in args.names && args.names[n] < |args.positional| then Some(args.positional[args.names[n]]) else None
  }

  predicate IsIntegral(t: ArgType) {
    t.IntType? || t.UintType? || t.LongLongType? || t.UlongLongType? || t.Int128Type? || t.Uint128Type? || t.BoolType?
    || t.CharType?
  }

  predicate IsArithmetic(t: ArgType) { IsIntegral(t) || t.FloatType? || t.DoubleType? || t.LongDoubleType? }

  /** check_sign */
  predicate SignAllowed(t: ArgType) {
    IsArithmetic(t) && (IsIntegral(t) ==> t.IntType? || t.LongLongType? || t.CharType?)
  }

  predicate PrecisionAllowed(t: ArgType) { !IsIntegral(t) && !t.PointerType? }

  /** get_dynamic_spec: an integer that is not negative and, cut to 64 bits, fits an int. */
  function DynamicValue(arg: Option<Arg>): (r: Option<nat>)
  {
    if arg.None? || !IsIntegral(arg.value.typ) || arg.value.typ.BoolType? || arg.value.typ.CharType? then None
    else if arg.value.number < 0 then None
    else if arg.value.number % 0x1_0000_0000_0000_0000 > MAX_INT then None
    else Some(arg.value.number % 0x1_0000_0000_0000_0000)
  }

  datatype Specs = Specs(width: nat, precision: int, typ: Option<char>, align: Align, sign: Sign, alt: bool, fill: string)

  /** What specs_setter stores of the parts that are given literally; a zero flag overrides alignment and fill. */
  function Literals(x: Syntax): Specs {
    var f := x.flags;
    var fill := if f.fill == "" then " " else f.fill;
    Specs(if x.width.Literal? then x.width.n else 0, if x.precision.Literal? then x.precision.n else -1, x.typ,
          if f.zero then Numeric else f.align, f.sign, f.alt, if f.zero then "0" + fill[1..] else fill)
  }

  /** Interpreting: every specifier is checked, and every argument looked up, as soon as it is parsed. */
  function SpecsNow(x: Syntax, t: ArgType, args: Args, nextArgId: int): Option<(Specs, int)> {
    if x.flags.sign != NoSign && !SignAllowed(t) then None
    else if x.flags.alt && !IsArithmetic(t) then None
    else if x.flags.zero && !IsArithmetic(t) then None
    else
      var width := CountNow(x.width, args, nextArgId);
      if width.None? then None else
        var precision := CountNow(x.precision, args, width.value.1);
        if precision.None? then None
        else if x.precision != Absent && !PrecisionAllowed(t) then None
        else
          var specs := Literals(x);
          var withWidth := if x.width.Dynamic? then specs.(width := width.value.0) else specs;
          Some((if x.precision.Dynamic? then withWidth.(precision := precision.value.0) else withWidth, precision.value.1))
  }

  /** on_dynamic_width and on_dynamic_precision while interpreting. */
  function CountNow(c: Count, args: Args, nextArgId: int): Option<(nat, int)> {
    if !c.Dynamic? then Some((0, nextArgId)) else
      var ref := Resolve(c.id, nextArgId);
      if ref.None? || Lookup(args, ref.value.0).None? then None else
        var value := DynamicValue(Lookup(args, ref.value.0));
        if value.None? then None else Some((value.value, ref.value.1))
  }

  /** Compiling: arguments are remembered by reference and nothing is checked. */
  datatype DynamicSpecs = DynamicSpecs(specs: Specs, width: Option<ArgRef>, precision: Option<ArgRef>)

  function SpecsLater(x: Syntax, nextArgId: int): Option<(DynamicSpecs, int)> {
    var width := CountLater(x.width, nextArgId);
    if width.None? then None else
      var precision := CountLater(x.precision, width.value.1);
      if precision.None? then None
      else Some((DynamicSpecs(Literals(x), width.value.0, precision.value.0), precision.value.1))
  }

  function CountLater(c: Count, nextArgId: int): Option<(Option<ArgRef>, int)> {
    if !c.Dynamic? then Some((None, nextArgId)) else
      var ref := Resolve(c.id, nextArgId);
      if ref.None? then None else Some((Some(ref.value.0), ref.value.1))
  }

  /** Running a compiled field: the references are followed, then the finished specifiers are checked. */
  function Settle(d: DynamicSpecs, t: ArgType, args: Args): Option<Specs> {
    var width := if d.width.None? then Some(d.specs.width) else DynamicValue(Lookup(args, d.width.value));
    if width.None? then None else
      var precision := if d.precision.None? then Some(d.specs.precision) else DynamicPrecision(Lookup(args, d.precision.value));
      if precision.None? then None else
        var specs := d.specs.(width := width.value, precision := precision.value);
        if (specs.align == Numeric && !IsArithmetic(t)) || (specs.sign != NoSign && !SignAllowed(t))
           || (specs.alt && !IsArithmetic(t)) || (specs.precision >= 0 && !PrecisionAllowed(t)) then None
        else Some(specs)
  }

  function DynamicPrecision(arg: Option<Arg>): Option<int> {
    var value := DynamicValue(arg);
    if value.None? then None else Some(value.value)
  }

  /** Resolving early and resolving late give the same specifiers or are both errors. */
  lemma EarlyIsLate(x: Syntax, t: ArgType, args: Args, nextArgId: int)
    requires x.flags.align != Numeric
    ensures var now, later := SpecsNow(x, t, args, nextArgId), SpecsLater(x, nextArgId);
      now == if later.None? then None else
             var settled := Settle(later.value.0, t, args);
             if settled.None? then None else Some((settled.value, later.value.1))
  {
  }
}
