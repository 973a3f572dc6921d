/** Counting the parts of a format string ahead of compiling it, and text that is written with doubled braces. */
module FormatCount {
  import opened FormatStrings
  import opened Options
  import opened FormatFields
  import opened FormatCompile
  import opened Rounding

  /** part_counter::on_format_specs: the closing brace by counting braces only. */
  function MatchingBrace(s: string, p: nat, depth: nat): (e: nat)
    requires p <= |s|
    ensures p <= e <= |s|
    decreases |s| - p
  {
    if p == |s| then p
    else if s[p] == '{' then MatchingBrace(s, p + 1, depth + 1)
    else if s[p] != '}' then MatchingBrace(s, p + 1, depth)
    else if depth == 0 then p
    else MatchingBrace(s, p + 1, depth - 1)
  }

  /** part_counter */
  datatype PartCounter = PartCounter(numParts: nat)

  /** Where the counter goes on after a brace that balances. */
  function Resume(s: string, e: nat): (r: nat)
    requires e <= |s|
    ensures e <= r <= |s|
  {
    if e == |s| then |s| else e + 1
  }

  /** A field, whatever is wrong with it; a brace that is not found ends the count. */
  function CountField(s: string, n: PartCounter, k: nat): (r: (PartCounter, nat))
    requires k < |s|
    ensures k < r.1 <= |s|
  {
    match HeadAt(s, k)
    case Malformed => CountMalformed(s, n, k)
    case Brace => (PartCounter(n.numParts + 1), k + 2)
    case Simple(_, close) => (PartCounter(n.numParts + 1), close + 1)
    case WithSpecs(_, p) => (PartCounter(n.numParts + 1), Resume(s, MatchingBrace(s, p, 0)))
  }

  /** An id that is not followed by the end of the field ends the count; as a name it is counted before. An index that
      only its last digit makes too big is counted like any other. */
  function CountMalformed(s: string, n: PartCounter, k: nat): (r: (PartCounter, nat))
    requires k < |s|
    ensures k < r.1 <= |s|
  {
    var p := k + 1;
    if p == |s| then (n, |s|)
    else if IsNameStart(s[p]) then (PartCounter(n.numParts + 1), |s|)
    else if s[p] == '0' || !IsDigit(s[p]) then (n, |s|)
    else
      var end := DigitsEnd(s, p);
      if end == |s| || (s[end] != '}' && s[end] != ':') || DecVal(s[p..end - 1]) > MAX_INT / 10 then (n, |s|)
      else (PartCounter(n.numParts + 1), if s[end] == '}' then end + 1 else Resume(s, MatchingBrace(s, end + 1, 0)))
  }

  function CountText(st: PartCounter, text: string): PartCounter {
    if text == "" then st else PartCounter(st.numParts + 1)
  }

  /** The counter has no errors: at a closing brace on its own the loop for short strings stops with what is counted so
      far, and the search for long ones drops the text up to the next opening brace. */
  function CountFrom(s: string, n: PartCounter, p: nat, isLong: bool): PartCounter
    requires p <= |s|
    decreases |s| - p
  {
    var k := FirstBrace(s, p);
    if k == |s| then CountText(n, s[p..])
    else if s[k] == '{' then FieldThen(s, CountText(n, s[p..k]), k, isLong)
    else if k + 1 < |s| && s[k + 1] == '}' then CountFrom(s, CountText(n, s[p..k + 1]), k + 2, isLong)
    else if isLong && Find(s, '{', k, |s|) < |s| then FieldThen(s, n, Find(s, '{', k, |s|), isLong)
    else n
  }

  function FieldThen(s: string, n: PartCounter, k: nat, isLong: bool): PartCounter
    requires k < |s|
    decreases |s| - k, 0
  {
    var (n', next) := CountField(s, n, k);
    CountFrom(s, n', next, isLong)
  }

  /** count_parts */
  function CountParts(s: string): PartCounter { CountFrom(s, PartCounter(0), 0, |s| >= 32) }

  lemma CountsField(s: string, n: PartCounter, a: nat, b: nat, isLong: bool)
    requires a <= b < |s| && FirstBrace(s, a) == b && s[b] == '{'
    ensures CountFrom(s, n, a, isLong) == FieldThen(s, CountText(n, s[a..b]), b, isLong)
  {
  }

  lemma CountsDoubled(s: string, n: PartCounter, a: nat, k: nat, isLong: bool)
    requires a <= k && k + 1 < |s| && FirstBrace(s, a) == k && s[k] == s[k + 1] == '}'
    ensures CountFrom(s, n, a, isLong) == CountFrom(s, CountText(n, s[a..k + 1]), k + 2, isLong)
  {
  }

  lemma CountsRest(s: string, n: PartCounter, a: nat, isLong: bool)
    requires a <= |s| && FirstBrace(s, a) == |s|
    ensures CountFrom(s, n, a, isLong) == CountText(n, s[a..])
  {
  }

  lemma CountsUnmatched(s: string, n: PartCounter, a: nat, k: nat)
    requires a <= k < |s| && FirstBrace(s, a) == k && s[k] == '}' && !(k + 1 < |s| && s[k + 1] == '}')
    ensures CountFrom(s, n, a, false) == n
  {
  }

  /** The loop for strings of fewer than 32 characters. */
  method CountShort(s: string) returns (n: PartCounter)
    ensures n == CountFrom(s, PartCounter(0), 0, false)
  {
    hide CountFrom, CountField;
    var begin, p := 0, 0;
    n := PartCounter(0);
    while p != |s|
      invariant 0 <= begin <= p <= |s| && (forall i :: begin <= i < p ==> s[i] != '{' && s[i] != '}')
      invariant CountFrom(s, n, begin, false) == CountFrom(s, PartCounter(0), 0, false)
      decreases |s| - p
    {
      var c := s[p];
      if c == '{' || c == '}' { FirstBraceFrom(s, begin, p); }
      p := p + 1;
      if c == '{' {
        CountsField(s, n, begin, p - 1, false);
        n := CountText(n, s[begin..p - 1]);
        var f := CountField(s, n, p - 1);
        n, begin, p := f.0, f.1, f.1;
      } else if c == '}' {
        if p == |s| || s[p] != '}' {
          CountsUnmatched(s, n, begin, p - 1);
          return;
        }
        CountsDoubled(s, n, begin, p - 1, false);
        n := CountText(n, s[begin..p]);
        p := p + 1;
        begin := p;
      }
    }
    FirstBraceFrom(s, begin, p);
    CountsRest(s, n, begin, false);
    n := CountText(n, s[begin..]);
  }

  /** What the writer of the long search counts in s[a..b], which has no opening brace. */
  function CountPlain(s: string, n: PartCounter, a: nat, b: nat): PartCounter
    requires a <= b <= |s|
    decreases b - a
  {
    var k := Find(s, '}', a, b);
    if k == b then CountText(n, s[a..b])
    else if k + 1 < b && s[k + 1] == '}' then CountPlain(s, CountText(n, s[a..k + 1]), k + 2, b)
    else n
  }

  method CountWritten(s: string, n0: PartCounter, begin: nat, end: nat) returns (n: PartCounter)
    requires begin <= end <= |s|
    ensures n == CountPlain(s, n0, begin, end)
  {
    n := n0;
    if begin == end {
      assert s[begin..end] == "";
      return;
    }
    var pbegin := begin;
    while true
      invariant begin <= pbegin <= end && CountPlain(s, n, pbegin, end) == CountPlain(s, n0, begin, end)
      decreases end - pbegin
    {
      var p := Find(s, '}', pbegin, end);
      if p == end { return CountText(n, s[pbegin..end]); }
      p := p + 1;
      if p == end || s[p] != '}' { return; }
      n := CountText(n, s[pbegin..p]);
      pbegin := p + 1;
    }
  }

  /** Text up to the next opening brace, whatever is wrong with it, and then the field there. */
  lemma {:induction false} PlainThenField(s: string, n: PartCounter, a: nat, b: nat)
    requires TextUpTo(s, a, b)
    ensures CountFrom(s, n, a, true)
         == if b == |s| then CountPlain(s, n, a, b) else FieldThen(s, CountPlain(s, n, a, b), b, true)
    decreases b - a
  {
    hide CountFrom, FieldThen;
    var k := Find(s, '}', a, b);
    FirstBraceFrom(s, a, k);
    if k == b == |s| {
      CountsRest(s, n, a, true);
      assert s[a..] == s[a..b];
    } else if k == b {
      CountsField(s, n, a, b, true);
    } else if k + 1 < b && s[k + 1] == '}' {
      CountsDoubled(s, n, a, k, true);
      PlainThenField(s, CountText(n, s[a..k + 1]), k + 2, b);
    } else {
      LoneThenField(s, n, a, k, b);
    }
  }

  lemma LoneThenField(s: string, n: PartCounter, a: nat, k: nat, b: nat)
    requires TextUpTo(s, a, b) && a <= k < b && FirstBrace(s, a) == k && s[k] == '}'
    requires !(k + 1 < |s| && s[k + 1] == '}')
    ensures CountFrom(s, n, a, true) == if b == |s| then n else FieldThen(s, n, b, true)
  {
    hide CountField, FieldThen;
    FindIs(s, '{', k, b);
  }

  lemma {:induction false} FindIs(s: string, c: char, p: nat, b: nat)
    requires p <= b <= |s| && (forall i :: p <= i < b ==> s[i] != c) && (b < |s| ==> s[b] == c)
    ensures Find(s, c, p, |s|) == b
    decreases b - p
  {
    if p < b { FindIs(s, c, p + 1, b); }
  }

  /** The two searches for longer strings. */
  method CountLong(s: string) returns (n: PartCounter)
    ensures n == CountFrom(s, PartCounter(0), 0, true)
  {
    var begin := 0;
    n := PartCounter(0);
    while begin != |s|
      invariant begin <= |s| && CountFrom(s, n, begin, true) == CountFrom(s, PartCounter(0), 0, true)
      decreases |s| - begin
    {
      var p := begin;
      if s[begin] != '{' {
        p := Find(s, '{', begin + 1, |s|);
        if p == |s| {
          PlainThenField(s, n, begin, p);
          n := CountWritten(s, n, begin, |s|);
          return;
        }
      }
      PlainThenField(s, n, begin, p);
      n := CountWritten(s, n, begin, p);
      var f := CountField(s, n, p);
      n, begin := f.0, f.1;
    }
    NothingCounted(s, n, true);
  }

  /** count_parts */
  method Count(s: string) returns (n: PartCounter)
    ensures n == CountParts(s)
  {
    if |s| < 32 { n := CountShort(s); } else { n := CountLong(s); }
  }

  lemma {:induction false} SkipPlain(s: string, p: nat, q: nat, depth: nat)
    requires NoBraces(s, p, q)
    ensures MatchingBrace(s, p, depth) == MatchingBrace(s, q, depth)
    decreases q - p
  {
    if p < q { SkipPlain(s, p + 1, q, depth); }
  }

  lemma CountBalanced(s: string, p: nat, required: bool, depth: nat)
    requires p <= |s| && CountAt(s, p, required).Some?
    ensures MatchingBrace(s, p, depth) == MatchingBrace(s, CountAt(s, p, required).value.1, depth)
  {
    var next := CountAt(s, p, required).value.1;
    if p < |s| && IsDigit(s[p]) {
      forall i | p <= i < next ensures s[i] != '{' && s[i] != '}' { assert s[i] == s[p..next][i - p]; }
      SkipPlain(s, p, next, depth);
    } else if p < |s| && s[p] == '{' {
      SkipPlain(s, p + 1, next - 1, depth + 1);
    }
  }

  /** How many more braces are open at the end of the specifiers than before them: a type can be an opening brace. */
  function OpenedBy(typ: Option<char>): nat { if typ == Some('{') then 1 else 0 }

  /** Up to the grammar's end of the specifiers, the braces balance but for the type. */
  lemma SpecsBraces(s: string, p: nat, depth: nat)
    requires p <= |s| && SyntaxAt(s, p).Some?
    ensures MatchingBrace(s, p, depth) == MatchingBrace(s, SyntaxAt(s, p).value.1, depth + OpenedBy(SyntaxAt(s, p).value.0.typ))
  {
    if s[p] != '}' {
      var next := FlagsAt(s, p).value.1;
      SkipPlain(s, p, next, depth);
      CountBalanced(s, next, false, depth);
      TailBraces(s, CountAt(s, next, false).value.1, depth);
    }
  }

  lemma TailBraces(s: string, p: nat, depth: nat)
    requires p <= |s| && TailAt(s, p).Some?
    ensures MatchingBrace(s, p, depth) == MatchingBrace(s, TailAt(s, p).value.2, depth + OpenedBy(TailAt(s, p).value.1))
  {
    if s[p] == '.' { CountBalanced(s, p + 1, true, depth); }
    var q := if s[p] == '.' then CountAt(s, p + 1, true).value.1 else p;
    assert MatchingBrace(s, p, depth) == MatchingBrace(s, q, depth);
  }

  predicate PlainType(part: Part) { part.Replacement? ==> part.specs.specs.typ != Some('{') }

  /** Of the parts from the given one on, none but the last has an opening brace as its type. */
  predicate PlainBeforeLast(parts: seq<Part>, from: nat) {
    forall i :: from <= i < |parts| - 1 ==> PlainType(parts[i])
  }

  /** Reading over a field with depth braces open leaves no fewer open behind it. */
  lemma FieldBraces(s: string, nextArgId: int, k: nat, depth: nat) returns (more: nat)
    requires k < |s| && s[k] == '{' && CompilePart(s, nextArgId, k).Some?
    ensures MatchingBrace(s, k, depth) == MatchingBrace(s, CompilePart(s, nextArgId, k).value.2, depth + more)
  {
    hide SyntaxAt, ArgIdAt;
    var h := HeadAt(s, k);
    HeadBraces(s, k, depth);
    more := if h.Brace? then 2 else if h.WithSpecs? then OpenedBy(SyntaxAt(s, h.specs).value.0.typ) else 0;
    if h.WithSpecs? {
      SpecsBraces(s, h.specs, depth + 1);
      CloseOne(s, SyntaxAt(s, h.specs).value.1, depth + more);
    } else if h.Simple? {
      CloseOne(s, h.close, depth);
    } else {
      OpenPair(s, k, depth);
    }
  }

  lemma OpenPair(s: string, k: nat, depth: nat)
    requires k + 1 < |s| && s[k] == s[k + 1] == '{'
    ensures MatchingBrace(s, k, depth) == MatchingBrace(s, k + 2, depth + 2)
  {
  }

  lemma CloseOne(s: string, k: nat, depth: nat)
    requires k < |s| && s[k] == '}'
    ensures MatchingBrace(s, k, depth + 1) == MatchingBrace(s, k + 1, depth)
  {
  }

  lemma ClosePair(s: string, k: nat, depth: nat)
    requires k + 1 < |s| && s[k] == s[k + 1] == '}'
    ensures depth == 0 ==> MatchingBrace(s, k, depth) == k
    ensures depth == 1 ==> MatchingBrace(s, k, depth) == k + 1
    ensures depth >= 2 ==> MatchingBrace(s, k, depth) == MatchingBrace(s, k + 2, depth - 2)
  {
  }

  /** There is no brace in an argument id. */
  lemma HeadBraces(s: string, k: nat, depth: nat)
    requires k < |s| && s[k] == '{'
    ensures HeadAt(s, k).Simple? ==> MatchingBrace(s, k, depth) == MatchingBrace(s, HeadAt(s, k).close, depth + 1)
    ensures HeadAt(s, k).WithSpecs? ==> MatchingBrace(s, k, depth) == MatchingBrace(s, HeadAt(s, k).specs, depth + 1)
  {
    var h := HeadAt(s, k);
    if h.Simple? { SkipPlain(s, k + 1, h.close, depth + 1); }
    if h.WithSpecs? { SkipPlain(s, k + 1, h.specs, depth + 1); }
  }

  /** Compiling appends parts, and at least one unless the string has ended. */
  lemma {:induction false} CompiledGrows(s: string, c: Compiled, p: nat)
    requires p <= |s| && Scan(s, Compiler(s), c, p).Some?
    ensures var parts := Scan(s, Compiler(s), c, p).value.parts;
      c.parts <= parts && (p == |s| <==> |parts| == |c.parts|)
    decreases |s| - p
  {
    hide CompilePart;
    var k := FirstBrace(s, p);
    if k == |s| {
      assert s[p..] == "" <==> p == |s|;
    } else if s[k] == '{' {
      ScanField(s, Compiler(s), c, p, k);
      var c1 := CompileText(c, s[p..k]);
      CompiledGrows(s, CompileField(s, c1, k).value.0, CompileField(s, c1, k).value.1);
    } else {
      ScanDoubled(s, Compiler(s), c, p, k);
      CompiledGrows(s, CompileText(c, s[p..k + 1]), k + 2);
    }
  }

  /** The field is one part for both. The counter ends where the compiler does, or, with an opening brace as the type,
      reads on to a later brace. */
  lemma FieldEnds(s: string, k: nat, n: PartCounter, c: Compiled)
    requires k < |s| && CompileField(s, c, k).Some?
    ensures CountField(s, n, k).0.numParts == n.numParts + 1
    ensures c.parts <= CompileField(s, c, k).value.0.parts && |CompileField(s, c, k).value.0.parts| == |c.parts| + 1
    ensures var end := CompileField(s, c, k).value.1;
      CountField(s, n, k).1 == if PlainType(CompileField(s, c, k).value.0.parts[|c.parts|]) then end
                                     else Resume(s, MatchingBrace(s, end, 0))
  {
    hide HeadAt, CompilePart, CountField, PlainType;
    PartEnds(s, k, n, c.nextArgId);
  }

  lemma PartEnds(s: string, k: nat, n: PartCounter, nextArgId: int)
    requires k < |s| && CompilePart(s, nextArgId, k).Some?
    ensures CountField(s, n, k).0.numParts == n.numParts + 1
    ensures var end := CompilePart(s, nextArgId, k).value.2;
      CountField(s, n, k).1 == if PlainType(CompilePart(s, nextArgId, k).value.0) then end
                                     else Resume(s, MatchingBrace(s, end, 0))
  {
    hide SyntaxAt, HeadAt;
    var h := HeadAt(s, k);
    if h.WithSpecs? { SpecsField(s, h.specs); }
  }

  /** The braces balance at the grammar's end of the specifiers, unless the type is an opening brace; then one brace
      further on is taken with it. */
  lemma SpecsField(s: string, p: nat)
    requires p <= |s| && SyntaxAt(s, p).Some?
    ensures var (x, end) := SyntaxAt(s, p).value;
      MatchingBrace(s, p, 0) == if x.typ == Some('{') then MatchingBrace(s, end + 1, 0) else end
  {
    SpecsBraces(s, p, 0);
    if SyntaxAt(s, p).value.0.typ == Some('{') { CloseOne(s, SyntaxAt(s, p).value.1, 0); }
  }

  lemma {:induction false} WrittenGrows(s: string, c: Compiled, a: nat, b: nat)
    requires a <= b <= |s| && WriteText(s, Compiler(s), c, a, b).Some?
    ensures |c.parts| <= |WriteText(s, Compiler(s), c, a, b).value.parts|
    decreases b - a
  {
    hide CompileField, Find;
    var k := Find(s, '}', a, b);
    if k < b { WrittenGrows(s, CompileText(c, s[a..k + 1]), k + 2, b); }
  }

  /** One closing brace too many before a place where text that compiles begins: the counter stops at an odd one, or
      goes on with the next field. */
  lemma {:induction false} OddBound(s: string, q: nat, n: PartCounter, c: Compiled, isLong: bool)
    requires q < |s| && s[q] == '}' && Scan(s, Compiler(s), c, q + 1).Some?
    ensures CountFrom(s, n, q, isLong).numParts - n.numParts <= |Scan(s, Compiler(s), c, q + 1).value.parts| - |c.parts|
    decreases |s| - q, 1
  {
    hide CountField, CompileField;
    FirstBraceFrom(s, q, q);
    if q + 1 < |s| && s[q + 1] == '}' {
      FirstBraceFrom(s, q + 1, q + 1);
      ScanDoubled(s, Compiler(s), c, q + 1, q + 1);
      OddBound(s, q + 2, CountText(n, s[q..q + 1]), CompileText(c, s[q + 1..q + 2]), isLong);
    } else {
      CompiledGrows(s, c, q + 1);
      var b := Find(s, '{', q, |s|);
      if isLong && b < |s| { NextFieldBound(s, q, n, c, b); }
    }
  }

  lemma NextFieldBound(s: string, q: nat, n: PartCounter, c: Compiled, b: nat)
    requires q < b < |s| && TextUpTo(s, q + 1, b) && Scan(s, Compiler(s), c, q + 1).Some?
    ensures FieldThen(s, n, b, true).numParts - n.numParts <= |Scan(s, Compiler(s), c, q + 1).value.parts| - |c.parts|
    decreases |s| - q, 0
  {
    hide CountField, CountFrom, FieldThen, CompileField;
    assert Lawful(Compiler(s), s) by { CompilerLawful(s); }
    TextThenField(s, Compiler(s), c, q + 1, b);
    WrittenGrows(s, c, q + 1, b);
    FieldBound(s, b, n, WriteText(s, Compiler(s), c, q + 1, b).value, true);
  }

  /** The counter, at the same place as the compiler, counts no more parts than are emitted from there on, and as many
      exactly if no part before the last has an opening brace as its type. */
  lemma {:induction false} SyncedBound(s: string, p: nat, n: PartCounter, c: Compiled, isLong: bool)
    requires p <= |s| && Scan(s, Compiler(s), c, p).Some?
    ensures var counted, parts := CountFrom(s, n, p, isLong).numParts - n.numParts, Scan(s, Compiler(s), c, p).value.parts;
      counted <= |parts| - |c.parts| && (counted == |parts| - |c.parts| <==> PlainBeforeLast(parts, |c.parts|))
    decreases |s| - p, 1
  {
    hide CountField, CompileField;
    var k := FirstBrace(s, p);
    if k < |s| && s[k] == '{' {
      ScanField(s, Compiler(s), c, p, k);
      FieldBound(s, k, CountText(n, s[p..k]), CompileText(c, s[p..k]), isLong);
      TextIsPlain(c, s[p..k], Scan(s, Compiler(s), c, p).value.parts);
    } else if k < |s| {
      SyncedPair(s, p, k, n, c, isLong);
    }
  }

  lemma SyncedPair(s: string, p: nat, k: nat, n: PartCounter, c: Compiled, isLong: bool)
    requires p <= k < |s| && FirstBrace(s, p) == k && s[k] == '}' && Scan(s, Compiler(s), c, p).Some?
    ensures var counted, parts := CountFrom(s, n, p, isLong).numParts - n.numParts, Scan(s, Compiler(s), c, p).value.parts;
      counted <= |parts| - |c.parts| && (counted == |parts| - |c.parts| <==> PlainBeforeLast(parts, |c.parts|))
    decreases |s| - p, 0
  {
    hide CountField, CompileField;
    ScanDoubled(s, Compiler(s), c, p, k);
    var c1 := CompileText(c, s[p..k + 1]);
    SyncedBound(s, k + 2, CountText(n, s[p..k + 1]), c1, isLong);
    CompiledGrows(s, c1, k + 2);
    TextIsPlain(c, s[p..k + 1], Scan(s, Compiler(s), c, p).value.parts);
  }

  lemma TextIsPlain(c: Compiled, text: string, parts: seq<Part>)
    requires CompileText(c, text).parts <= parts
    ensures PlainBeforeLast(parts, |c.parts|) <==> PlainBeforeLast(parts, |CompileText(c, text).parts|)
  {
    if text != "" { assert parts[|c.parts|] == Text(text); }
  }

  lemma FieldBound(s: string, k: nat, n: PartCounter, c: Compiled, isLong: bool)
    requires k < |s| && s[k] == '{' && Continue(s, Compiler(s), CompileField(s, c, k), k).Some?
    ensures var parts := Continue(s, Compiler(s), CompileField(s, c, k), k).value.parts;
      var counted := FieldThen(s, n, k, isLong).numParts - n.numParts;
      && c.parts <= parts && counted <= |parts| - |c.parts|
      && (counted == |parts| - |c.parts| <==> PlainBeforeLast(parts, |c.parts|))
    decreases |s| - k, 0
  {
    hide CountField, CompileField;
    FieldEnds(s, k, n, c);
    var n1, c1, next := CountField(s, n, k).0, CompileField(s, c, k).value.0, CompileField(s, c, k).value.1;
    CompiledGrows(s, c1, next);
    if PlainType(c1.parts[|c.parts|]) {
      SyncedBound(s, next, n1, c1, isLong);
    } else {
      InsideBound(s, next, 0, n1, c1, isLong);
    }
  }

  /** The counter is looking for the brace that balances depth open ones, where the compiler is past the field already:
      the part that is emitted next is not counted. */
  lemma {:induction false} InsideBound(s: string, p: nat, depth: nat, n: PartCounter, c: Compiled, isLong: bool)
    requires p <= |s| && Scan(s, Compiler(s), c, p).Some?
    ensures var counted := CountFrom(s, n, Resume(s, MatchingBrace(s, p, depth)), isLong).numParts - n.numParts;
      var emitted := |Scan(s, Compiler(s), c, p).value.parts| - |c.parts|;
      counted <= emitted && (counted == emitted <==> p == |s|)
    decreases |s| - p, 2
  {
    hide CountField, CompileField;
    var k := FirstBrace(s, p);
    SkipPlain(s, p, k, depth);
    CompiledGrows(s, c, p);
    if k == |s| {
      NothingCounted(s, n, isLong);
    } else if s[k] == '{' {
      ScanField(s, Compiler(s), c, p, k);
      OpenInside(s, k, depth, n, CompileText(c, s[p..k]), isLong);
    } else {
      ScanDoubled(s, Compiler(s), c, p, k);
      ClosedInside(s, k, depth, n, CompileText(c, s[p..k + 1]), isLong);
    }
  }

  lemma OpenInside(s: string, k: nat, depth: nat, n: PartCounter, c: Compiled, isLong: bool)
    requires k < |s| && s[k] == '{' && Continue(s, Compiler(s), CompileField(s, c, k), k).Some?
    ensures CountFrom(s, n, Resume(s, MatchingBrace(s, k, depth)), isLong).numParts - n.numParts
         < |Continue(s, Compiler(s), CompileField(s, c, k), k).value.parts| - |c.parts|
    decreases |s| - k, 0
  {
    hide CountField, CompilePart;
    var more := FieldBraces(s, c.nextArgId, k, depth);
    InsideBound(s, CompileField(s, c, k).value.1, depth + more, n, CompileField(s, c, k).value.0, isLong);
  }

  lemma ClosedInside(s: string, k: nat, depth: nat, n: PartCounter, c: Compiled, isLong: bool)
    requires k + 1 < |s| && s[k] == s[k + 1] == '}' && Scan(s, Compiler(s), c, k + 2).Some?
    ensures CountFrom(s, n, Resume(s, MatchingBrace(s, k, depth)), isLong).numParts - n.numParts
         <= |Scan(s, Compiler(s), c, k + 2).value.parts| - |c.parts|
    decreases |s| - k, 0
  {
    hide CountField, CompileField;
    ClosePair(s, k, depth);
    if depth == 0 {
      OddBound(s, k + 1, n, c, isLong);
    } else if depth == 1 {
      SyncedBound(s, k + 2, n, c, isLong);
    } else {
      InsideBound(s, k + 2, depth - 2, n, c, isLong);
    }
  }

  lemma NothingCounted(s: string, n: PartCounter, isLong: bool)
    ensures CountFrom(s, n, |s|, isLong) == n
  {
    assert s[|s|..] == "";
  }

  /** count_parts is never above the number of parts that the compiler emits, and is that number exactly if no part
      before the last has an opening brace as its type. */
  lemma CountExact(s: string)
    requires Compile(s).Some?
    ensures CountParts(s).numParts <= |Compile(s).value|
    ensures CountParts(s).numParts == |Compile(s).value| <==> PlainBeforeLast(Compile(s).value, 0)
  {
    SyncedBound(s, 0, PartCounter(0), Compiled([], 0), |s| >= 32);
  }

  /** No built-in argument can be formatted with an opening brace as its type. */
  ghost predicate RefusesBraceType(w: Writers) {
    forall arg: Arg, specs: Specs :: specs.typ == Some('{') ==> w.formatted(arg, specs) == None
  }

  /** Hence the count is right for every string that formats some arguments. */
  lemma FormattingStringsFit(s: string, args: Args, w: Writers)
    requires RefusesBraceType(w) && Interpret(s, args, w).Some?
    ensures Compile(s).Some? && CountParts(s).numParts == |Compile(s).value|
  {
    CompiledMeansInterpreted(s, args, w);
    RunnableIsPlain(Compile(s).value, args, w);
    CountExact(s);
  }

  lemma {:induction false} RunnableIsPlain(parts: seq<Part>, args: Args, w: Writers)
    requires RefusesBraceType(w) && Run(parts, args, w).Some?
    ensures forall i :: 0 <= i < |parts| ==> PlainType(parts[i])
  {
    if parts != [] {
      var n := |parts| - 1;
      RunnableIsPlain(parts[..n], args, w);
      assert RunPart(parts[n], args, w).Some? && PlainType(parts[n]);
      forall i | 0 <= i < n ensures PlainType(parts[i]) { assert parts[i] == parts[..n][i]; }
    }
  }

  /** A field of type brace alone, in front of text, and in front of a doubled brace, at which the counter stops. */
  lemma BraceTypeExamples()
    ensures Compile("{:5{}").Some? && |Compile("{:5{}").value| == 1 == CountParts("{:5{}").numParts
    ensures Compile("{:5{}x").Some? && |Compile("{:5{}x").value| == 2 && CountParts("{:5{}x").numParts == 1
    ensures Compile("{:5{}}}").Some? && |Compile("{:5{}}}").value| == 2 && CountParts("{:5{}}}").numParts == 1
  {
    BraceTypeExample("{:5{}", "");
    BraceTypeExample("{:5{}x", "x");
    BraceTypeExample("{:5{}}}", "}}");
  }

  lemma BraceTypeExample(s: string, rest: string)
    requires s == "{:5{}" + rest && rest in {"", "x", "}}"}
    ensures Compile(s).Some? && |Compile(s).value| == (if rest == "" then 1 else 2) && CountParts(s).numParts == 1
  {
    FieldOfExample(s);
    assert FirstBrace(s, 0) == 0 && s[0..0] == "";
    ScanField(s, Compiler(s), Compiled([], 0), 0, 0);
    CountsField(s, PartCounter(0), 0, 0, false);
    var c1 := CompileField(s, Compiled([], 0), 0).value.0;
    if rest == "}}" { PairAtFive(s, c1); } else { TextAtFive(s, c1, rest); }
  }

  lemma TextAtFive(s: string, c: Compiled, rest: string)
    requires 5 <= |s| < 7 && s[5..] == rest && (|s| == 6 ==> s[5] == 'x')
    ensures Scan(s, Compiler(s), c, 5) == Some(CompileText(c, rest))
    ensures CountFrom(s, PartCounter(1), |s|, false) == PartCounter(1)
  {
    FirstBraceFrom(s, 5, |s|);
    NothingCounted(s, PartCounter(1), false);
  }

  lemma PairAtFive(s: string, c: Compiled)
    requires |s| == 7 && s[5] == s[6] == '}'
    ensures Scan(s, Compiler(s), c, 5).Some? && |Scan(s, Compiler(s), c, 5).value.parts| == |c.parts| + 1
    ensures CountFrom(s, PartCounter(1), 6, false) == PartCounter(1)
  {
    FirstBraceFrom(s, 5, 5);
    ScanDoubled(s, Compiler(s), c, 5, 5);
    FirstBraceFrom(s, 6, 6);
    FirstBraceFrom(s, 7, 7);
    assert s[7..] == "";
  }

  lemma FieldOfExample(s: string)
    requires |s| in {5, 6, 7} && s[..5] == "{:5{}" && (|s| == 6 ==> s[5] == 'x') && (|s| == 7 ==> s[5] == s[6] == '}')
    ensures CompileField(s, Compiled([], 0), 0).Some?
    ensures |CompileField(s, Compiled([], 0), 0).value.0.parts| == 1 && CompileField(s, Compiled([], 0), 0).value.1 == 5
    ensures CountField(s, PartCounter(0), 0) == (PartCounter(1), if |s| == 5 then 5 else 6)
  {
    assert s[0] == '{' && s[1] == ':' && s[2] == '5' && s[3] == '{' && s[4] == '}';
    assert ArgIdAt(s, 1) == Some((Auto, 1)) && HeadAt(s, 0) == WithSpecs(Auto, 2);
    SpecsOfExample(s);
    assert MatchingBrace(s, 2, 0) == MatchingBrace(s, 3, 0) == MatchingBrace(s, 4, 1) == MatchingBrace(s, 5, 0);
    if |s| == 6 { assert MatchingBrace(s, 5, 0) == MatchingBrace(s, 6, 0) == 6; }
  }

  lemma SpecsOfExample(s: string)
    requires |s| >= 5 && s[2] == '5' && s[3] == '{' && s[4] == '}'
    ensures SyntaxAt(s, 2) == Some((Syntax(Flags("", NoAlign, NoSign, false, false), Literal(5), Absent, Some('{')), 4))
  {
    assert DigitsEnd(s, 2) == 3 && s[2..3] == "5";
    assert DecVal("5") == 5 by { DecValAppend("", '5'); assert "" + ['5'] == "5"; }
    assert FlagsAt(s, 2) == Some((Flags("", NoAlign, NoSign, false, false), 2));
  }
}
