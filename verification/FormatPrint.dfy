/** Writing replacement fields: what is written from an id or from specifiers is parsed back to the same. */
module FormatPrint {
  import opened FormatFields
  import opened Options
  import opened Powers
  import opened Rounding

  /** x stands at position p. */
  predicate At(s: string, p: nat, x: string) {
    p + |x| <= |s| && s[p..p + |x|] == x
  }

  lemma AtSplit(s: string, p: nat, x: string, y: string)
    requires At(s, p, x + y)
    ensures At(s, p, x) && At(s, p + |x|, y)
  {
    assert s[p..p + |x|] == s[p..p + |x + y|][..|x|] == x;
    assert s[p + |x|..p + |x| + |y|] == s[p..p + |x + y|][|x|..] == y;
  }

  lemma CharAt(s: string, p: nat, x: string, i: nat)
    requires At(s, p, x) && i < |x|
    ensures s[p + i] == x[i]
  {
    assert s[p + i] == s[p..p + |x|][i];
  }

  function ShowDigit(d: nat): (c: char)
    requires d < 10
    ensures IsDigit(c) && c as int == '0' as int + d
  {
    (('0' as int) + d) as char
  }

  /** Decimal digits without leading zeros. */
  function ShowNat(n: nat): (x: string)
    ensures |x| > 0 && AllDigits(x) && (x[0] == '0' <==> n == 0)
  {
    if n < 10 then [ShowDigit(n)] else ShowNat(n / 10) + [ShowDigit(n % 10)]
  }

  lemma {:induction false} ShowNatValue(n: nat)
    ensures DecVal(ShowNat(n)) == n
  {
    if n < 10 {
      DecValAppend("", ShowDigit(n));
      assert "" + [ShowDigit(n)] == ShowNat(n);
    } else {
      ShowNatValue(n / 10);
      DecValAppend(ShowNat(n / 10), ShowDigit(n % 10));
    }
  }

  lemma {:induction false} DigitsEndAt(s: string, p: nat, q: nat)
    requires p <= q <= |s| && AllDigits(s[p..q]) && (q < |s| ==> !IsDigit(s[q]))
    ensures DigitsEnd(s, p) == q
    decreases q - p
  {
    if p < q {
      assert s[p] == s[p..q][0] && s[p + 1..q] == s[p..q][1..];
      DigitsEndAt(s, p + 1, q);
    }
  }

  lemma IntRoundTrip(s: string, p: nat, n: nat)
    requires At(s, p, ShowNat(n)) && n <= MAX_INT
    requires p + |ShowNat(n)| < |s| ==> !IsDigit(s[p + |ShowNat(n)|])
    ensures IntAt(s, p) == Some((n, p + |ShowNat(n)|)) && IsDigit(s[p]) && (s[p] == '0' <==> n == 0)
  {
    CharAt(s, p, ShowNat(n), 0);
    DigitsEndAt(s, p, p + |ShowNat(n)|);
    ShowNatValue(n);
  }

  predicate NameChar(c: char) { IsNameStart(c) || IsDigit(c) }

  predicate ValidId(id: ArgId) {
    match id
    case Auto => true
    case Index(n) => n <= MAX_INT
    case Name(x) => |x| > 0 && IsNameStart(x[0]) && forall i :: 0 <= i < |x| ==> NameChar(x[i])
  }

  function ShowId(id: ArgId): string {
    match id
    case Auto => ""
    case Index(n) => ShowNat(n)
    case Name(x) => x
  }

  lemma {:induction false} NameEndAt(s: string, p: nat, q: nat)
    requires p <= q < |s| && (forall i :: p <= i < q ==> NameChar(s[i])) && !NameChar(s[q])
    ensures NameEnd(s, p) == q
    decreases q - p
  {
    if p < q { NameEndAt(s, p + 1, q); }
  }

  /** Every argument id that can be written is read back, up to the brace or colon behind it. */
  lemma ArgIdRoundTrip(s: string, p: nat, id: ArgId)
    requires ValidId(id) && At(s, p, ShowId(id)) && p + |ShowId(id)| < |s|
    requires s[p + |ShowId(id)|] == '}' || s[p + |ShowId(id)|] == ':'
    ensures ArgIdAt(s, p) == Some((id, p + |ShowId(id)|))
  {
    match id
    case Auto =>
    case Index(n) => IndexRoundTrip(s, p, n);
    case Name(x) => NameRoundTrip(s, p, x);
  }

  lemma IndexRoundTrip(s: string, p: nat, n: nat)
    requires n <= MAX_INT && At(s, p, ShowNat(n)) && p + |ShowNat(n)| < |s|
    requires s[p + |ShowNat(n)|] == '}' || s[p + |ShowNat(n)|] == ':'
    ensures ArgIdAt(s, p) == Some((Index(n), p + |ShowNat(n)|))
  {
    IntRoundTrip(s, p, n);
    if n == 0 { assert |ShowNat(0)| == 1; }
  }

  lemma NameRoundTrip(s: string, p: nat, x: string)
    requires ValidId(Name(x)) && At(s, p, x) && p + |x| < |s| && (s[p + |x|] == '}' || s[p + |x|] == ':')
    ensures ArgIdAt(s, p) == Some((Name(x), p + |x|))
  {
    forall i | p <= i < p + |x| ensures s[i] == x[i - p] { CharAt(s, p, x, i - p); }
    NameEndAt(s, p + 1, p + |x|);
  }

  /** The branches of a replacement field are told apart, with the id that was written. */
  lemma HeadRoundTrip(s: string, k: nat, id: ArgId)
    requires k < |s| && ValidId(id) && At(s, k + 1, ShowId(id)) && k + 1 + |ShowId(id)| < |s|
    ensures var end := k + 1 + |ShowId(id)|;
      && (s[end] == '}' ==> HeadAt(s, k) == Simple(id, end))
      && (s[end] == ':' ==> HeadAt(s, k) == WithSpecs(id, end + 1))
  {
    var end := k + 1 + |ShowId(id)|;
    if s[end] == '}' || s[end] == ':' {
      ArgIdRoundTrip(s, k + 1, id);
      if ShowId(id) != "" { CharAt(s, k + 1, ShowId(id), 0); }
    }
  }

  predicate ValidCount(c: Count) {
    match c
    case Absent => true
    case Literal(n) => n <= MAX_INT
    case Dynamic(id) => ValidId(id)
  }

  function ShowCount(c: Count): string {
    match c
    case Absent => ""
    case Literal(n) => ShowNat(n)
    case Dynamic(id) => "{" + ShowId(id) + "}"
  }

  lemma CountRoundTrip(s: string, p: nat, c: Count, required: bool)
    requires ValidCount(c) && At(s, p, ShowCount(c)) && p + |ShowCount(c)| < |s| && (required ==> c != Absent)
    requires var next := s[p + |ShowCount(c)|]; !IsDigit(next) && next != '{'
    ensures CountAt(s, p, required) == Some((c, p + |ShowCount(c)|))
  {
    match c
    case Absent =>
    case Literal(n) => IntRoundTrip(s, p, n);
    case Dynamic(id) => DynamicRoundTrip(s, p, id, required);
  }

  lemma DynamicRoundTrip(s: string, p: nat, id: ArgId, required: bool)
    requires ValidId(id) && At(s, p, "{" + ShowId(id) + "}") && p + |ShowId(id)| + 2 < |s|
    ensures CountAt(s, p, required) == Some((Dynamic(id), p + |ShowId(id)| + 2))
  {
    InBraces(s, p, ShowId(id));
    ArgIdRoundTrip(s, p + 1, id);
  }

  lemma InBraces(s: string, p: nat, x: string)
    requires At(s, p, "{" + x + "}")
    ensures s[p] == '{' && At(s, p + 1, x) && s[p + 1 + |x|] == '}'
  {
    AtSplit(s, p, "{" + x, "}");
    AtSplit(s, p, "{", x);
    CharAt(s, p, "{", 0);
    CharAt(s, p + 1 + |x|, "}", 0);
  }

  function ShowPrecision(c: Count): string { if c == Absent then "" else "." + ShowCount(c) }

  function ShowType(typ: Option<char>): string { if typ.None? then "" else [typ.value] }

  lemma PrecisionRoundTrip(s: string, p: nat, c: Count)
    requires ValidCount(c) && At(s, p, ShowPrecision(c)) && p + |ShowPrecision(c)| < |s|
    requires IsNameStart(s[p + |ShowPrecision(c)|]) || s[p + |ShowPrecision(c)|] == '}'
    ensures (if s[p] == '.' then CountAt(s, p + 1, true) else Some((Absent, p))) == Some((c, p + |ShowPrecision(c)|))
  {
    if c != Absent {
      AtSplit(s, p, ".", ShowCount(c));
      CharAt(s, p, ".", 0);
      CountRoundTrip(s, p + 1, c, true);
    }
  }

  lemma TailRoundTrip(s: string, p: nat, precision: Count, typ: Option<char>, shown: string, rest: string)
    requires ValidCount(precision) && (typ.Some? ==> IsNameStart(typ.value))
    requires shown == ShowPrecision(precision) && rest == ShowType(typ) + "}" && At(s, p, shown + rest)
    ensures TailAt(s, p) == Some((precision, typ, p + |shown| + |rest| - 1))
  {
    hide SyntaxAt, FlagsAt, CountAt, TailAt, FillAlignAt;
    AtSplit(s, p, shown, rest);
    TypeAt(s, p + |shown|, typ);
    PrecisionRoundTrip(s, p, precision);
    TailFrom(s, p, precision, p + |shown|, typ, p + |shown| + |rest| - 1);
  }

  lemma TailFrom(s: string, p: nat, precision: Count, q: nat, typ: Option<char>, end: nat)
    requires p <= q < |s| && (if s[p] == '.' then CountAt(s, p + 1, true) else Some((Absent, p))) == Some((precision, q))
    requires if typ.None? then s[q] == '}' else s[q] == typ.value != '}' && q + 1 < |s| && s[q + 1] == '}'
    requires end == if typ.None? then q else q + 1
    ensures TailAt(s, p) == Some((precision, typ, end))
  {
  }

  lemma TypeAt(s: string, q: nat, typ: Option<char>)
    requires At(s, q, ShowType(typ) + "}") && (typ.Some? ==> IsNameStart(typ.value))
    ensures if typ.None? then q < |s| && s[q] == '}' else q + 1 < |s| && s[q] == typ.value && s[q + 1] == '}'
  {
    CharAt(s, q, ShowType(typ) + "}", 0);
    if typ.Some? { CharAt(s, q, ShowType(typ) + "}", 1); }
  }

  function ShowAlign(a: Align): string {
    match a
    case Left => "<"
    case Right => ">"
    case Center => "^"
    case _ => ""
  }

  function ShowSign(sign: Sign): string {
    match sign
    case Plus => "+"
    case Minus => "-"
    case Space => " "
    case NoSign => ""
  }

  function ShowMarks(f: Flags): string {
    ShowSign(f.sign) + (if f.alt then "#" else "") + (if f.zero then "0" else "")
  }

  /** The bytes behind the first one of a UTF-8 character. */
  predicate IsTail(c: char) { c as int / 64 % 4 == 2 }

  /** A fill is one character that is no brace, and comes with an alignment; the numeric alignment is never written. */
  predicate ValidFlags(f: Flags) {
    && f.align != Numeric
    && (f.fill != "" ==> f.align != NoAlign && f.fill[0] != '{' && f.fill[0] != '}' && OneCharacter(f.fill))
  }

  predicate OneCharacter(x: string) {
    |x| > 0 && (if x[0] as int / 128 % 2 == 0 then |x| == 1 else forall i :: 0 < i < |x| ==> IsTail(x[i]))
  }

  /** What can follow the flags: a width, a precision, a type, or the closing brace. */
  predicate AfterFlags(c: char) { IsDigit(c) || c == '{' || c == '.' || IsNameStart(c) || c == '}' }

  lemma {:induction false} SkipTailAt(s: string, p: nat, q: nat)
    requires p <= q < |s| && (forall i :: p <= i < q ==> IsTail(s[i])) && !IsTail(s[q])
    ensures SkipTail(s, p) == q
    decreases q - p
  {
    if p < q { SkipTailAt(s, p + 1, q); }
  }

  lemma NextAfter(s: string, p: nat, x: string)
    requires OneCharacter(x) && At(s, p, x) && p + |x| < |s| && !IsTail(s[p + |x|])
    ensures NextCodePoint(s, p) == p + |x|
  {
    forall i | p <= i < p + |x| ensures s[i] == x[i - p] { CharAt(s, p, x, i - p); }
    if x[0] as int / 128 % 2 != 0 { SkipTailAt(s, p + 1, p + |x|); }
  }

  /** A fill with its alignment, or an alignment alone. */
  lemma AlignRoundTrip(s: string, p: nat, f: Flags)
    requires ValidFlags(f) && f.align != NoAlign && At(s, p, f.fill + ShowAlign(f.align)) && p + |f.fill| + 1 < |s|
    requires f.fill == "" ==> AlignOf(s[p + 1]) == NoAlign
    ensures FillAlignAt(s, p) == Some((f.fill, f.align, p + |f.fill| + 1)) && s[p] != '}'
  {
    AtSplit(s, p, f.fill, ShowAlign(f.align));
    CharAt(s, p + |f.fill|, ShowAlign(f.align), 0);
    if f.fill != "" {
      CharAt(s, p, f.fill, 0);
      NextAfter(s, p, f.fill);
    } else {
      assert NextCodePoint(s, p) == p + 1;
    }
  }

  /** Characters that are no alignment, before characters that are none: nothing is read. */
  lemma NoAlignRead(s: string, p: nat)
    requires p + 1 < |s| && s[p] as int < 128 && AlignOf(s[p]) == NoAlign && AlignOf(s[p + 1]) == NoAlign
    ensures FillAlignAt(s, p) == Some(("", NoAlign, p))
  {
  }

  /** Sign, alternate form and zero flag, in front of what follows. */
  lemma MarksRoundTrip(s: string, p: nat, f: Flags)
    requires At(s, p, ShowMarks(f)) && p + |ShowMarks(f)| < |s|
    requires AfterFlags(s[p + |ShowMarks(f)|]) && (!f.zero ==> s[p + |ShowMarks(f)|] != '0')
    ensures var b := if SignOf(s[p]) == NoSign then p else p + 1;
      && SignOf(s[p]) == f.sign && b < |s| && ((s[b] == '#') == f.alt)
      && var c := if f.alt then b + 1 else b;
         c < |s| && ((s[c] == '0') == f.zero) && p + |ShowMarks(f)| == if f.zero then c + 1 else c
  {
    var sign, alt, zero := ShowSign(f.sign), if f.alt then "#" else "", if f.zero then "0" else "";
    MarksParts(s, p, sign, alt, zero);
  }

  lemma MarksParts(s: string, p: nat, sign: string, alt: string, zero: string)
    requires At(s, p, sign + alt + zero)
    ensures |sign| > 0 ==> s[p] == sign[0]
    ensures |alt| > 0 ==> s[p + |sign|] == alt[0]
    ensures |zero| > 0 ==> s[p + |sign| + |alt|] == zero[0]
  {
    AtSplit(s, p, sign + alt, zero);
    AtSplit(s, p, sign, alt);
    if |sign| > 0 { CharAt(s, p, sign, 0); }
    if |alt| > 0 { CharAt(s, p + |sign|, alt, 0); }
    if |zero| > 0 { CharAt(s, p + |sign| + |alt|, zero, 0); }
  }

  function ShowFlags(f: Flags): string { f.fill + ShowAlign(f.align) + ShowMarks(f) }

  lemma FlagsRoundTrip(s: string, p: nat, f: Flags)
    requires ValidFlags(f) && At(s, p, ShowFlags(f)) && p + |ShowFlags(f)| < |s|
    requires AfterFlags(s[p + |ShowFlags(f)|]) && (!f.zero ==> s[p + |ShowFlags(f)|] != '0')
    requires ShowFlags(f) == "" ==> p + 1 < |s| && AlignOf(s[p + 1]) == NoAlign
    ensures FlagsAt(s, p) == Some((f, p + |ShowFlags(f)|))
  {
    hide SyntaxAt, FlagsAt, CountAt, TailAt, FillAlignAt;
    FlagsParts(s, p, f, f.fill + ShowAlign(f.align), ShowMarks(f));
  }

  lemma FlagsParts(s: string, p: nat, f: Flags, head: string, marks: string)
    requires ValidFlags(f) && head == f.fill + ShowAlign(f.align) && marks == ShowMarks(f) && At(s, p, head + marks)
    requires var end := p + |head| + |marks|;
      && end < |s| && AfterFlags(s[end]) && (!f.zero ==> s[end] != '0')
      && (head + marks == "" ==> p + 1 < |s| && AlignOf(s[p + 1]) == NoAlign)
    ensures FlagsAt(s, p) == Some((f, p + |head| + |marks|))
  {
    hide SyntaxAt, FlagsAt, CountAt, TailAt, FillAlignAt;
    AtSplit(s, p, head, marks);
    FillRoundTrip(s, p, f, head, marks);
    MarksFrom(s, p, f, p + |head|, marks);
  }

  lemma MarksFrom(s: string, p: nat, f: Flags, a: nat, marks: string)
    requires ValidFlags(f) && p < |s| && a < |s| && FillAlignAt(s, p) == Some((f.fill, f.align, a))
    requires marks == ShowMarks(f) && At(s, a, marks) && a + |marks| < |s|
    requires AfterFlags(s[a + |marks|]) && (!f.zero ==> s[a + |marks|] != '0')
    ensures FlagsAt(s, p) == Some((f, a + |marks|))
  {
    hide SyntaxAt, FlagsAt, CountAt, TailAt, FillAlignAt;
    MarksRoundTrip(s, a, f);
    FlagsFrom(s, p, f, a, a + |marks|);
  }

  lemma FlagsFrom(s: string, p: nat, f: Flags, a: nat, end: nat)
    requires p < |s| && a < |s| && FillAlignAt(s, p) == Some((f.fill, f.align, a)) && f.align != Numeric
    requires var b := if SignOf(s[a]) == NoSign then a else a + 1;
      && SignOf(s[a]) == f.sign && b < |s| && ((s[b] == '#') == f.alt)
      && var c := if f.alt then b + 1 else b;
         c < |s| && ((s[c] == '0') == f.zero) && end == if f.zero then c + 1 else c
    ensures FlagsAt(s, p) == Some((f, end))
  {
  }

  lemma FillRoundTrip(s: string, p: nat, f: Flags, head: string, marks: string)
    requires ValidFlags(f) && head == f.fill + ShowAlign(f.align) && marks == ShowMarks(f) && At(s, p, head)
    requires var a := p + |head|;
      && At(s, a, marks) && a + |marks| < |s| && AfterFlags(s[a + |marks|])
      && (head + marks == "" ==> p + 1 < |s| && AlignOf(s[p + 1]) == NoAlign)
    ensures FillAlignAt(s, p) == Some((f.fill, f.align, p + |head|))
  {
    MarkNoAlign(s, p + |head|, f);
    if f.align != NoAlign {
      AlignRoundTrip(s, p, f);
    } else {
      assert head == "";
      if |marks| > 0 { NextNoAlign(s, p, f); }
      NoAlignRead(s, p);
    }
  }

  lemma MarksPlain(f: Flags)
    ensures forall i :: 0 <= i < |ShowMarks(f)| ==> ShowMarks(f)[i] as int < 128 && AlignOf(ShowMarks(f)[i]) == NoAlign
  {
  }

  /** The first character of the marks, or the one behind them, is no alignment. */
  lemma MarkNoAlign(s: string, p: nat, f: Flags)
    requires At(s, p, ShowMarks(f)) && p + |ShowMarks(f)| < |s| && AfterFlags(s[p + |ShowMarks(f)|])
    ensures s[p] as int < 128 && AlignOf(s[p]) == NoAlign
  {
    MarksPlain(f);
    if |ShowMarks(f)| > 0 { CharAt(s, p, ShowMarks(f), 0); }
  }

  lemma NextNoAlign(s: string, p: nat, f: Flags)
    requires At(s, p, ShowMarks(f)) && p + |ShowMarks(f)| < |s| && AfterFlags(s[p + |ShowMarks(f)|]) && |ShowMarks(f)| > 0
    ensures AlignOf(s[p + 1]) == NoAlign
  {
    MarksPlain(f);
    if |ShowMarks(f)| > 1 { CharAt(s, p, ShowMarks(f), 1); }
  }

  /** Specifiers that can be written: a width without a zero flag does not begin with zero, and a type is a letter. */
  predicate ValidSyntax(x: Syntax) {
    && ValidFlags(x.flags) && ValidCount(x.width) && ValidCount(x.precision)
    && (!x.flags.zero ==> x.width != Literal(0)) && (x.typ.Some? ==> IsNameStart(x.typ.value))
  }

  function ShowRest(x: Syntax): string {
    ShowCount(x.width) + (ShowPrecision(x.precision) + (ShowType(x.typ) + "}"))
  }

  function ShowSyntax(x: Syntax): string { ShowFlags(x.flags) + ShowRest(x) }

  /** The first characters of what follows the flags. */
  lemma RestStarts(x: Syntax, r: string)
    requires ValidSyntax(x) && r == ShowRest(x)
    ensures |r| > 0 && AfterFlags(r[0]) && (!x.flags.zero ==> r[0] != '0') && (|r| > 1 ==> AlignOf(r[1]) == NoAlign)
    ensures |r| == 1 ==> x.width == Absent && x.precision == Absent && x.typ == None
  {
    var tail := ShowPrecision(x.precision) + (ShowType(x.typ) + "}");
    TailStarts(x, tail);
    match x.width
    case Absent =>
    case Literal(n) =>
      assert r[0] == ShowNat(n)[0];
      if |ShowNat(n)| > 1 { assert r[1] == ShowNat(n)[1]; } else { assert r[1] == tail[0]; }
    case Dynamic(id) =>
      assert r[0] == '{';
      assert r[1] == (ShowId(id) + "}")[0];
  }

  lemma TailStarts(x: Syntax, tail: string)
    requires ValidSyntax(x) && tail == ShowPrecision(x.precision) + (ShowType(x.typ) + "}")
    ensures |tail| > 0 && (tail[0] == '.' || IsNameStart(tail[0]) || tail[0] == '}')
    ensures |tail| > 1 ==> AlignOf(tail[1]) == NoAlign
    ensures |tail| == 1 ==> x.precision == Absent && x.typ == None
  {
    if x.precision != Absent {
      var c := ShowCount(x.precision);
      assert tail[0] == '.' && tail[1] == c[0];
    } else if x.typ.Some? {
      assert tail[0] == x.typ.value && tail[1] == '}';
    }
  }

  lemma WidthRead(s: string, q: nat, c: Count, w: string, tail: string)
    requires ValidCount(c) && w == ShowCount(c) && At(s, q, w + tail)
    requires |tail| > 0 && !IsDigit(tail[0]) && tail[0] != '{'
    ensures q < |s| && CountAt(s, q, false) == Some((c, q + |w|))
  {
    hide SyntaxAt, FlagsAt, CountAt, TailAt, FillAlignAt;
    AtSplit(s, q, w, tail);
    CharAt(s, q + |w|, tail, 0);
    CountRoundTrip(s, q, c, false);
  }

  lemma TailRead(s: string, q: nat, w: string, precision: Count, typ: Option<char>, shown: string, rest: string)
    requires ValidCount(precision) && (typ.Some? ==> IsNameStart(typ.value)) && At(s, q, w + (shown + rest))
    requires shown == ShowPrecision(precision) && rest == ShowType(typ) + "}"
    ensures TailAt(s, q + |w|) == Some((precision, typ, q + |w| + |shown| + |rest| - 1))
  {
    hide SyntaxAt, FlagsAt, CountAt, TailAt, FillAlignAt;
    AtSplit(s, q, w, shown + rest);
    TailRoundTrip(s, q + |w|, precision, typ, shown, rest);
  }

  lemma FlagsRead(s: string, p: nat, x: Syntax, flags: string, rest: string)
    requires ValidSyntax(x) && flags == ShowFlags(x.flags) && rest == ShowRest(x) && At(s, p, flags + rest)
    requires |rest| > 1 || flags != ""
    ensures FlagsAt(s, p) == Some((x.flags, p + |flags|)) && At(s, p + |flags|, rest)
  {
    hide SyntaxAt, FlagsAt, CountAt, TailAt, FillAlignAt;
    AtSplit(s, p, flags, rest);
    RestStarts(x, rest);
    CharAt(s, p + |flags|, rest, 0);
    if |rest| > 1 { CharAt(s, p + |flags|, rest, 1); }
    FlagsRoundTrip(s, p, x.flags);
  }

  /** Every format specification that can be written is read back, and ends at its closing brace. */
  lemma SyntaxRoundTrip(s: string, p: nat, x: Syntax)
    requires ValidSyntax(x) && At(s, p, ShowSyntax(x))
    ensures SyntaxAt(s, p) == Some((x, p + |ShowSyntax(x)| - 1))
  {
    hide SyntaxAt, FlagsAt, CountAt, TailAt, FillAlignAt;
    SyntaxParts(s, p, x, ShowFlags(x.flags), ShowRest(x));
  }

  lemma SyntaxParts(s: string, p: nat, x: Syntax, flags: string, rest: string)
    requires ValidSyntax(x) && flags == ShowFlags(x.flags) && rest == ShowRest(x) && At(s, p, flags + rest)
    ensures |rest| > 0 && SyntaxAt(s, p) == Some((x, p + |flags| + |rest| - 1))
  {
    hide SyntaxAt, FlagsAt, CountAt, TailAt, FillAlignAt;
    RestStarts(x, rest);
    if |rest| > 1 || flags != "" {
      SomethingWritten(s, p, x, flags, rest, p + |flags|);
    } else {
      NothingWritten(s, p, x, flags, rest);
    }
  }

  lemma SomethingWritten(s: string, p: nat, x: Syntax, flags: string, rest: string, a: nat)
    requires ValidSyntax(x) && flags == ShowFlags(x.flags) && rest == ShowRest(x) && At(s, p, flags + rest)
    requires (|rest| > 1 || flags != "") && a == p + |flags|
    ensures SyntaxAt(s, p) == Some((x, a + |rest| - 1))
  {
    hide SyntaxAt, FlagsAt, CountAt, TailAt, FillAlignAt;
    FlagsRead(s, p, x, flags, rest);
    FlagsStart(s, p, x, flags, rest);
    AfterFlagsRead(s, p, x, rest, a);
  }

  lemma AfterFlagsRead(s: string, p: nat, x: Syntax, rest: string, a: nat)
    requires p < |s| && s[p] != '}' && FlagsAt(s, p) == Some((x.flags, a))
    requires ValidSyntax(x) && rest == ShowRest(x) && At(s, a, rest)
    ensures SyntaxAt(s, p) == Some((x, a + |rest| - 1))
  {
    hide SyntaxAt, FlagsAt, CountAt, TailAt, FillAlignAt;
    var b := RestRead(s, a, x, rest);
    SyntaxFrom(s, p, x, a, b, a + |rest| - 1);
  }

  lemma RestRead(s: string, q: nat, x: Syntax, rest: string) returns (b: nat)
    requires ValidSyntax(x) && rest == ShowRest(x) && At(s, q, rest)
    ensures q < |s| && b <= |s| && CountAt(s, q, false) == Some((x.width, b))
    ensures TailAt(s, b) == Some((x.precision, x.typ, q + |rest| - 1))
  {
    hide SyntaxAt, FlagsAt, CountAt, TailAt, FillAlignAt;
    b := RestParts(s, q, x, ShowCount(x.width), ShowPrecision(x.precision), ShowType(x.typ) + "}");
  }

  lemma RestParts(s: string, q: nat, x: Syntax, w: string, shown: string, rest: string) returns (b: nat)
    requires ValidSyntax(x) && At(s, q, w + (shown + rest))
    requires w == ShowCount(x.width) && shown == ShowPrecision(x.precision) && rest == ShowType(x.typ) + "}"
    ensures q < |s| && b <= |s| && CountAt(s, q, false) == Some((x.width, b))
    ensures TailAt(s, b) == Some((x.precision, x.typ, q + |w| + |shown| + |rest| - 1))
  {
    hide SyntaxAt, FlagsAt, CountAt, TailAt, FillAlignAt;
    b := q + |w|;
    TailStarts(x, shown + rest);
    WidthRead(s, q, x.width, w, shown + rest);
    TailRead(s, q, w, x.precision, x.typ, shown, rest);
  }

  lemma NothingWritten(s: string, p: nat, x: Syntax, flags: string, rest: string)
    requires ValidSyntax(x) && flags == ShowFlags(x.flags) == "" && rest == ShowRest(x) && At(s, p, flags + rest) && |rest| == 1
    ensures SyntaxAt(s, p) == Some((x, p))
  {
    RestStarts(x, rest);
    CharAt(s, p, flags + rest, 0);
  }

  lemma SyntaxFrom(s: string, p: nat, x: Syntax, a: nat, b: nat, end: nat)
    requires p < |s| && s[p] != '}' && a < |s| && b <= |s|
    requires FlagsAt(s, p) == Some((x.flags, a)) && CountAt(s, a, false) == Some((x.width, b))
    requires TailAt(s, b) == Some((x.precision, x.typ, end))
    ensures SyntaxAt(s, p) == Some((x, end))
  {
  }

  /** Specifiers that are not empty do not begin with a closing brace. */
  lemma FlagsStart(s: string, p: nat, x: Syntax, flags: string, rest: string)
    requires ValidSyntax(x) && flags == ShowFlags(x.flags) && rest == ShowRest(x) && At(s, p, flags + rest)
    requires |rest| > 1 || flags != ""
    ensures p < |s| && s[p] != '}'
  {
    CharAt(s, p, flags + rest, 0);
    if flags != "" { FlagStart(x.flags); } else { RestStart(x, rest); }
  }

  lemma FlagStart(f: Flags)
    requires ValidFlags(f) && ShowFlags(f) != ""
    ensures ShowFlags(f)[0] != '}'
  {
    MarksPlain(f);
  }

  lemma RestStart(x: Syntax, rest: string)
    requires ValidSyntax(x) && rest == ShowRest(x) && |rest| > 1
    ensures rest[0] != '}'
  {
    TailStarts(x, ShowPrecision(x.precision) + (ShowType(x.typ) + "}"));
  }
}
