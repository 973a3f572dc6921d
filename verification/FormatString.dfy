/** Scanning a format string: the loop for short strings and the two-pass search for long ones. */
module FormatStrings {
  import opened Options

  /** The position of the first c in s[p..end], or end. */
  function Find(s: string, c: char, p: nat, end: nat): (k: nat)
    requires p <= end <= |s|
    ensures p <= k <= end && (k < end ==> s[k] == c)
    ensures forall i :: p <= i < k ==> s[i] != c
    decreases end - p
  {
    if p == end || s[p] == c then p else Find(s, c, p + 1, end)
  }

  /** What the parser calls back: literal text, and a replacement field at a brace, which says where it ended. */
  datatype Handler<!H> = Handler(text: (H, string) -> H, field: (H, nat) -> Option<(H, nat)>)

  /** Empty text changes nothing, and a field moves on inside the string. */
  ghost predicate Lawful<H(!new)>(h: Handler<H>, s: string) {
    && (forall st: H :: h.text(st, "") == st)
    && forall st: H, p: nat :: h.field(st, p).Some? ==> p < h.field(st, p).value.1 <= |s|
  }

  function FirstBrace(s: string, p: nat): (k: nat)
    requires p <= |s|
    ensures p <= k <= |s| && (k < |s| ==> s[k] == '{' || s[k] == '}')
    ensures forall i :: p <= i < k ==> s[i] != '{' && s[i] != '}'
    decreases |s| - p
  {
    if p == |s| || s[p] == '{' || s[p] == '}' then p else FirstBrace(s, p + 1)
  }

  /** Brace by brace: text up to an opening brace and the field there; text up to and including a doubled closing brace. */
  ghost function Scan<H(!new)>(s: string, h: Handler<H>, st: H, p: nat): Option<H>
    requires p <= |s|
    decreases |s| - p
  {
    var k := FirstBrace(s, p);
    if k == |s| then Some(h.text(st, s[p..]))
    else if s[k] == '{' then Continue(s, h, h.field(h.text(st, s[p..k]), k), k)
    else if k + 1 < |s| && s[k + 1] == '}' then Scan(s, h, h.text(st, s[p..k + 1]), k + 2)
    else None
  }

  ghost function Continue<H(!new)>(s: string, h: Handler<H>, r: Option<(H, nat)>, k: nat): Option<H>
    requires k < |s|
    decreases |s| - k, 0
  {
    if r.None? || r.value.1 <= k || r.value.1 > |s| then None else Scan(s, h, r.value.0, r.value.1)
  }

  lemma FirstBraceFrom(s: string, begin: nat, p: nat)
    requires begin <= p <= |s| && (forall i :: begin <= i < p ==> s[i] != '{' && s[i] != '}')
    requires p == |s| || s[p] == '{' || s[p] == '}'
    ensures FirstBrace(s, begin) == p
  {
  }

  /** The loop for strings of fewer than 32 characters. */
  method ParseShort<H(!new)>(s: string, h: Handler<H>, st0: H) returns (r: Option<H>)
    requires Lawful(h, s)
    ensures r == Scan(s, h, st0, 0)
  {
    var begin, p, st := 0, 0, st0;
    while p != |s|
      invariant 0 <= begin <= p <= |s| && (forall i :: begin <= i < p ==> s[i] != '{' && s[i] != '}')
      invariant Scan(s, h, st, begin) == Scan(s, h, st0, 0)
      decreases |s| - p
    {
      var c := s[p];
      if c == '{' || c == '}' { FirstBraceFrom(s, begin, p); }
      p := p + 1;
      if c == '{' {
        st := h.text(st, s[begin..p - 1]);
        var f := h.field(st, p - 1);
        if f.None? { return None; }
        st, begin, p := f.value.0, f.value.1, f.value.1;
      } else if c == '}' {
        if p == |s| || s[p] != '}' { return None; }
        st := h.text(st, s[begin..p]);
        p := p + 1;
        begin := p;
      }
    }
    FirstBraceFrom(s, begin, p);
    return Some(h.text(st, s[begin..]));
  }

  /** The text s[a..b], which has no opening brace, split after every doubled closing brace. */
  ghost function WriteText<H(!new)>(s: string, h: Handler<H>, st: H, a: nat, b: nat): Option<H>
    requires a <= b <= |s|
    decreases b - a
  {
    var k := Find(s, '}', a, b);
    if k == b then Some(h.text(st, s[a..b]))
    else if k + 1 < b && s[k + 1] == '}' then WriteText(s, h, h.text(st, s[a..k + 1]), k + 2, b)
    else None
  }

  /** The writer of the long scan. */
  method Write<H(!new)>(s: string, h: Handler<H>, st0: H, begin: nat, end: nat) returns (r: Option<H>)
    requires begin <= end <= |s| && Lawful(h, s)
    ensures r == WriteText(s, h, st0, begin, end)
  {
    if begin == end {
      assert s[begin..end] == "";
      return Some(st0);
    }
    var pbegin, st := begin, st0;
    while true
      invariant begin <= pbegin <= end && WriteText(s, h, st, pbegin, end) == WriteText(s, h, st0, begin, end)
      decreases end - pbegin
    {
      var p := Find(s, '}', pbegin, end);
      if p == end { return Some(h.text(st, s[pbegin..end])); }
      p := p + 1;
      if p == end || s[p] != '}' { return None; }
      st := h.text(st, s[pbegin..p]);
      pbegin := p + 1;
    }
  }

  ghost function AfterText<H(!new)>(s: string, h: Handler<H>, w: Option<H>, b: nat): Option<H>
    requires b <= |s|
  {
    if w.None? || b == |s| then w else Continue(s, h, h.field(w.value, b), b)
  }

  /** s[a..b] is text: the next opening brace, or the end, is at b. */
  ghost predicate TextUpTo(s: string, a: nat, b: nat) {
    a <= b <= |s| && (forall i :: a <= i < b ==> s[i] != '{') && (b < |s| ==> s[b] == '{')
  }

  /** Text up to the next opening brace or the end, then the field there. */
  lemma {:induction false} TextThenField<H(!new)>(s: string, h: Handler<H>, st: H, a: nat, b: nat)
    requires TextUpTo(s, a, b) && Lawful(h, s)
    ensures Scan(s, h, st, a) == AfterText(s, h, WriteText(s, h, st, a, b), b)
    decreases b - a
  {
    var k := Find(s, '}', a, b);
    if k == b {
      PlainText(s, h, st, a, b);
    } else if k + 1 < b && s[k + 1] == '}' {
      TextThenField(s, h, h.text(st, s[a..k + 1]), k + 2, b);
      DoubledBrace(s, h, st, a, b, k);
    } else {
      UnmatchedBrace(s, h, st, a, b, k);
    }
  }

  lemma PlainText<H(!new)>(s: string, h: Handler<H>, st: H, a: nat, b: nat)
    requires TextUpTo(s, a, b) && Lawful(h, s) && Find(s, '}', a, b) == b
    ensures Scan(s, h, st, a) == AfterText(s, h, WriteText(s, h, st, a, b), b)
  {
    FirstBraceFrom(s, a, b);
    if b == |s| { assert s[a..] == s[a..b]; }
  }

  lemma ScanField<H(!new)>(s: string, h: Handler<H>, st: H, a: nat, b: nat)
    requires a <= b < |s| && FirstBrace(s, a) == b && s[b] == '{'
    ensures Scan(s, h, st, a) == Continue(s, h, h.field(h.text(st, s[a..b]), b), b)
  {
  }

  lemma ScanDoubled<H(!new)>(s: string, h: Handler<H>, st: H, a: nat, k: nat)
    requires a <= k < k + 1 < |s| && FirstBrace(s, a) == k && s[k] == s[k + 1] == '}'
    ensures Scan(s, h, st, a) == Scan(s, h, h.text(st, s[a..k + 1]), k + 2)
  {
  }

  lemma DoubledBrace<H(!new)>(s: string, h: Handler<H>, st: H, a: nat, b: nat, k: nat)
    requires TextUpTo(s, a, b) && Lawful(h, s) && Find(s, '}', a, b) == k && k + 1 < b && s[k + 1] == '}'
    requires var st' := h.text(st, s[a..k + 1]); Scan(s, h, st', k + 2) == AfterText(s, h, WriteText(s, h, st', k + 2, b), b)
    ensures Scan(s, h, st, a) == AfterText(s, h, WriteText(s, h, st, a, b), b)
  {
    FirstBraceFrom(s, a, k);
    ScanDoubled(s, h, st, a, k);
    WriteDoubled(s, h, st, a, b, k);
  }

  lemma WriteDoubled<H(!new)>(s: string, h: Handler<H>, st: H, a: nat, b: nat, k: nat)
    requires a <= b <= |s| && Find(s, '}', a, b) == k && k + 1 < b && s[k + 1] == '}'
    ensures WriteText(s, h, st, a, b) == WriteText(s, h, h.text(st, s[a..k + 1]), k + 2, b)
  {
  }

  lemma UnmatchedBrace<H(!new)>(s: string, h: Handler<H>, st: H, a: nat, b: nat, k: nat)
    requires TextUpTo(s, a, b) && Lawful(h, s) && Find(s, '}', a, b) == k < b && !(k + 1 < b && s[k + 1] == '}')
    ensures Scan(s, h, st, a) == AfterText(s, h, WriteText(s, h, st, a, b), b)
  {
    FirstBraceFrom(s, a, k);
  }

  /** The two searches for longer strings. */
  method ParseLong<H(!new)>(s: string, h: Handler<H>, st0: H) returns (r: Option<H>)
    requires Lawful(h, s)
    ensures r == Scan(s, h, st0, 0)
  {
    var begin, st := 0, st0;
    while begin != |s|
      invariant begin <= |s| && Scan(s, h, st, begin) == Scan(s, h, st0, 0)
      decreases |s| - begin
    {
      var p := begin;
      if s[begin] != '{' {
        p := Find(s, '{', begin + 1, |s|);
        if p == |s| {
          TextThenField(s, h, st, begin, p);
          r := Write(s, h, st, begin, |s|);
          return;
        }
      }
      TextThenField(s, h, st, begin, p);
      var w := Write(s, h, st, begin, p);
      if w.None? { return None; }
      var f := h.field(w.value, p);
      if f.None? { return None; }
      st, begin := f.value.0, f.value.1;
    }
    FirstBraceFrom(s, begin, begin);
    assert s[begin..] == "";
    return Some(st);
  }

  /** parse_format_string: the length chooses the algorithm and nothing else. */
  method ParseFormatString<H(!new)>(s: string, h: Handler<H>, st: H) returns (r: Option<H>)
    requires Lawful(h, s)
    ensures r == Scan(s, h, st, 0)
  {
    if |s| < 32 { r := ParseShort(s, h, st); } else { r := ParseLong(s, h, st); }
  }

  /** Field results that correspond: same end and related states, unless the second handler's state is dead. */
  predicate FieldMatches<A, B>(fa: Option<(A, nat)>, fb: Option<(B, nat)>, related: (A, B) -> bool, dead: B -> bool,
                               strict: bool)
  {
    if fb.None? || dead(fb.value.0) then strict ==> fa.None?
    else fa.Some? && fa.value.1 == fb.value.1 && related(fa.value.0, fb.value.0)
  }

  /** Step by step the handlers stay related; a dead state stays dead, and if strict it means an error of the first. */
  ghost predicate Simulates<A(!new), B(!new)>(s: string, ha: Handler<A>, hb: Handler<B>, related: (A, B) -> bool,
                                             dead: B -> bool, strict: bool)
  {
    && (forall a, b, t :: related(a, b) ==> related(ha.text(a, t), hb.text(b, t)))
    && (forall b, t :: dead(b) ==> dead(hb.text(b, t)))
    && (forall b, k: nat :: k < |s| && dead(b) && hb.field(b, k).Some? ==> dead(hb.field(b, k).value.0))
    && (forall a, b, k: nat :: k < |s| && related(a, b) ==>
          FieldMatches(ha.field(a, k), hb.field(b, k), related, dead, strict))
  }

  lemma {:induction false} DeadStays<A(!new), B(!new)>(s: string, ha: Handler<A>, hb: Handler<B>, related: (A, B) -> bool,
                                                      dead: B -> bool, strict: bool, b: B, p: nat)
    requires p <= |s| && Simulates(s, ha, hb, related, dead, strict) && dead(b)
    ensures var r := Scan(s, hb, b, p); r.Some? ==> dead(r.value)
    decreases |s| - p
  {
    var k := FirstBrace(s, p);
    if k < |s| && s[k] == '{' {
      var f := hb.field(hb.text(b, s[p..k]), k);
      if f.Some? && k < f.value.1 <= |s| { DeadStays(s, ha, hb, related, dead, strict, f.value.0, f.value.1); }
    } else if k + 1 < |s| && s[k + 1] == '}' {
      DeadStays(s, ha, hb, related, dead, strict, hb.text(b, s[p..k + 1]), k + 2);
    }
  }

  /** Related handlers have related scans of the whole string. */
  ghost predicate ResultsMatch<A, B>(ra: Option<A>, rb: Option<B>, related: (A, B) -> bool, dead: B -> bool, strict: bool) {
    if rb.None? || dead(rb.value) then strict ==> ra.None? else ra.Some? && related(ra.value, rb.value)
  }

  lemma {:induction false} ScanSimulates<A(!new), B(!new)>(s: string, ha: Handler<A>, hb: Handler<B>,
                                                          related: (A, B) -> bool, dead: B -> bool, strict: bool,
                                                          a: A, b: B, p: nat)
    requires p <= |s| && Simulates(s, ha, hb, related, dead, strict) && related(a, b)
    requires forall a, b :: related(a, b) ==> !dead(b)
    ensures ResultsMatch(Scan(s, ha, a, p), Scan(s, hb, b, p), related, dead, strict)
    decreases |s| - p
  {
    var k := FirstBrace(s, p);
    if k == |s| {
      assert related(ha.text(a, s[p..]), hb.text(b, s[p..]));
    } else if s[k] == '{' {
      var a1, b1 := ha.text(a, s[p..k]), hb.text(b, s[p..k]);
      ScanField(s, ha, a, p, k);
      ScanField(s, hb, b, p, k);
      var fa, fb := ha.field(a1, k), hb.field(b1, k);
      assert FieldMatches(fa, fb, related, dead, strict);
      if fb.Some? && k < fb.value.1 <= |s| {
        if dead(fb.value.0) { DeadStays(s, ha, hb, related, dead, strict, fb.value.0, fb.value.1); }
        else { ScanSimulates(s, ha, hb, related, dead, strict, fa.value.0, fb.value.0, fb.value.1); }
      }
    } else if k + 1 < |s| && s[k + 1] == '}' {
      ScanDoubled(s, ha, a, p, k);
      ScanDoubled(s, hb, b, p, k);
      ScanSimulates(s, ha, hb, related, dead, strict, ha.text(a, s[p..k + 1]), hb.text(b, s[p..k + 1]), k + 2);
    }
  }

  /** Doubling every brace makes literal text of a string. */
  function Escape(t: string): string {
    if t == "" then "" else Doubled(t[0]) + Escape(t[1..])
  }

  function Doubled(c: char): string { if c == '{' || c == '}' then [c, c] else [c] }

  /** A field that starts with two braces is the text of one. */
  ghost predicate PrintsBraces<H(!new)>(h: Handler<H>, s: string) {
    && (forall st: H, k: nat :: k + 1 < |s| && s[k] == s[k + 1] == '{' ==> h.field(st, k) == Some((h.text(st, "{"), k + 2)))
    && (forall st: H :: h.text(st, "") == st)
  }

  /** Texts can be joined. */
  ghost predicate Joins<H(!new)>(h: Handler<H>) {
    forall st: H, a: string :: JoinsAt(h, st, a)
  }

  ghost predicate JoinsAt<H(!new)>(h: Handler<H>, st: H, a: string) {
    forall b: string :: h.text(h.text(st, a), b) == h.text(st, a + b)
  }

  /** Scanning an escaped string prints the string. */
  lemma {:induction false} ScanEscaped<H(!new)>(a: string, t: string, h: Handler<H>, st: H)
    requires PrintsBraces(h, a + Escape(t)) && Joins(h)
    ensures Scan(a + Escape(t), h, st, |a|) == Some(h.text(st, t))
    decreases |t|
  {
    var s, p := a + Escape(t), |a|;
    if t == "" {
      assert s[p..] == "";
    } else {
      var b := a + Doubled(t[0]);
      Join(a, Doubled(t[0]), Escape(t[1..]));
      ScanEscaped(b, t[1..], h, h.text(st, [t[0]]));
      assert JoinsAt(h, st, [t[0]]);
      assert h.text(h.text(st, [t[0]]), t[1..]) == h.text(st, t) by { assert [t[0]] + t[1..] == t; }
      assert s[p] == t[0];
      if t[0] == '{' || t[0] == '}' {
        assert s[p + 1] == t[0];
        BraceStep(s, h, st, p);
      } else {
        PlainStep(s, h, st, p);
      }
    }
  }

  lemma Join(a: string, b: string, c: string)
    ensures (a + b) + c == a + (b + c)
  {
  }

  /** A character that is no brace can be printed on its own. */
  lemma PlainStep<H(!new)>(s: string, h: Handler<H>, st: H, p: nat)
    requires p < |s| && s[p] != '{' && s[p] != '}' && JoinsAt(h, st, [s[p]])
    ensures Scan(s, h, st, p) == Scan(s, h, h.text(st, [s[p]]), p + 1)
  {
    var k := FirstBrace(s, p + 1);
    FirstBraceFrom(s, p, k);
    if k == |s| {
      PlainEnd(s, h, st, p);
    } else if s[k] == '{' {
      PlainField(s, h, st, p, k);
    } else if k + 1 < |s| && s[k + 1] == '}' {
      PlainDoubled(s, h, st, p, k);
    } else {
      ScanUnmatched(s, h, st, p, k);
      ScanUnmatched(s, h, h.text(st, [s[p]]), p + 1, k);
    }
  }

  lemma PlainField<H(!new)>(s: string, h: Handler<H>, st: H, p: nat, k: nat)
    requires p < k < |s| && FirstBrace(s, p) == FirstBrace(s, p + 1) == k && s[k] == '{' && JoinsAt(h, st, [s[p]])
    ensures Scan(s, h, st, p) == Scan(s, h, h.text(st, [s[p]]), p + 1)
  {
    JoinAt(s, h, st, p, k);
    ScanField(s, h, st, p, k);
    ScanField(s, h, h.text(st, [s[p]]), p + 1, k);
  }

  lemma PlainDoubled<H(!new)>(s: string, h: Handler<H>, st: H, p: nat, k: nat)
    requires p < k < k + 1 < |s| && FirstBrace(s, p) == FirstBrace(s, p + 1) == k && JoinsAt(h, st, [s[p]])
    requires s[k] == s[k + 1] == '}'
    ensures Scan(s, h, st, p) == Scan(s, h, h.text(st, [s[p]]), p + 1)
  {
    JoinAt(s, h, st, p, k + 1);
    ScanDoubled(s, h, st, p, k);
    ScanDoubled(s, h, h.text(st, [s[p]]), p + 1, k);
  }

  lemma PlainEnd<H(!new)>(s: string, h: Handler<H>, st: H, p: nat)
    requires p < |s| && FirstBrace(s, p) == FirstBrace(s, p + 1) == |s| && JoinsAt(h, st, [s[p]])
    ensures Scan(s, h, st, p) == Scan(s, h, h.text(st, [s[p]]), p + 1)
  {
    JoinAt(s, h, st, p, |s|);
    assert s[p..] == s[p..|s|] && s[p + 1..] == s[p + 1..|s|];
  }

  lemma ScanUnmatched<H(!new)>(s: string, h: Handler<H>, st: H, a: nat, k: nat)
    requires a <= k < |s| && FirstBrace(s, a) == k && s[k] == '}' && !(k + 1 < |s| && s[k + 1] == '}')
    ensures Scan(s, h, st, a) == None
  {
  }

  lemma JoinAt<H(!new)>(s: string, h: Handler<H>, st: H, p: nat, k: nat)
    requires p < k <= |s| && JoinsAt(h, st, [s[p]])
    ensures h.text(h.text(st, [s[p]]), s[p + 1..k]) == h.text(st, s[p..k])
  {
    assert [s[p]] + s[p + 1..k] == s[p..k];
  }

  /** A doubled brace is printed once. */
  lemma BraceStep<H(!new)>(s: string, h: Handler<H>, st: H, p: nat)
    requires p + 1 < |s| && s[p] == s[p + 1] && (s[p] == '{' || s[p] == '}') && PrintsBraces(h, s)
    ensures Scan(s, h, st, p) == Scan(s, h, h.text(st, [s[p]]), p + 2)
  {
    FirstBraceFrom(s, p, p);
    if s[p] == '{' {
      ScanField(s, h, st, p, p);
      assert s[p..p] == "";
    } else {
      ScanDoubled(s, h, st, p, p);
      assert s[p..p + 1] == [s[p]];
    }
  }
}
