/** getopt_internal: one call of the scanner, and what every run of calls keeps of the argument vector. */
module Getopt {
  import opened Options
  import opened Permute

  /** What happens to a non-option: skipped and permuted, returned in order, or the end of the scan. */
  datatype Mode = PermuteNonOptions | ReturnInOrder | RequireOrder

  datatype Arity = NoArgument | Required | Possible

  /** An entry of the table of long options; meaning stands for its flag and value. */
  datatype Long = Long(name: string, arity: Arity, meaning: int)

  /** How parse_long_options understands the text of a long option: the entry of the table, the value behind an equals
      sign, and whether the next argument is the value. */
  datatype LongMatch = NoMatch | Ambiguous | UnexpectedValue | Match(entry: nat, takesNext: bool, attached: Option<string>)

  /** What a call returns, with optarg. */
  datatype Result = Letter(c: char, value: Option<string>) | LongOption(entry: nat, value: Option<string>)
                  | BadOption | BadArgument | InOrder(arg: string) | EndOfArgs | DoubleDash | StoppedHere

  /** What a scan returns, and for each argument that it reads whether it was an option or an option's argument. */
  datatype Scan = Scan(results: seq<Result>, tags: seq<bool>)

  /** The elements of s whose tag is want, in order. */
  function Picked<T>(s: seq<T>, tags: seq<bool>, want: bool): seq<T>
    requires |s| == |tags|
  {
    if |s| == 0 then [] else
      var n := |s| - 1;
      Picked(s[..n], tags[..n], want) + if tags[n] == want then [s[n]] else []
  }

  lemma PickedAppend<T>(s: seq<T>, tags: seq<bool>, x: T, tag: bool, want: bool)
    requires |s| == |tags|
    ensures Picked(s + [x], tags + [tag], want) == Picked(s, tags, want) + if tag == want then [x] else []
  {
    assert (s + [x])[..|s|] == s && (tags + [tag])[..|s|] == tags;
  }

  lemma {:induction false} PickedConcat<T>(a: seq<T>, tagsA: seq<bool>, b: seq<T>, tagsB: seq<bool>, want: bool)
    requires |a| == |tagsA| && |b| == |tagsB|
    ensures Picked(a + b, tagsA + tagsB, want) == Picked(a, tagsA, want) + Picked(b, tagsB, want)
    decreases |b|
  {
    if b == [] {
      assert a + b == a && tagsA + tagsB == tagsA;
    } else {
      var n := |b| - 1;
      PickedConcat(a, tagsA, b[..n], tagsB[..n], want);
      assert (a + b)[..|a| + n] == a + b[..n] && (tagsA + tagsB)[..|a| + n] == tagsA + tagsB[..n];
    }
  }

  /** Every argument is picked exactly once. */
  lemma {:induction false} PickedPartition<T>(s: seq<T>, tags: seq<bool>)
    requires |s| == |tags|
    ensures multiset(Picked(s, tags, true)) + multiset(Picked(s, tags, false)) == multiset(s)
  {
    if |s| > 0 {
      var n := |s| - 1;
      SplitLast(s);
      SplitLast(tags);
      PickedPartition(s[..n], tags[..n]);
      PartitionStep(s[..n], tags[..n], s[n], tags[n]);
    }
  }

  lemma SplitLast<T>(s: seq<T>)
    requires |s| > 0
    ensures s[..|s| - 1] + [s[|s| - 1]] == s
  {
  }

  lemma PartitionStep<T>(s: seq<T>, tags: seq<bool>, x: T, tag: bool)
    requires |s| == |tags| && multiset(Picked(s, tags, true)) + multiset(Picked(s, tags, false)) == multiset(s)
    ensures multiset(Picked(s + [x], tags + [tag], true)) + multiset(Picked(s + [x], tags + [tag], false))
         == multiset(s + [x])
  {
    PickedAppend(s, tags, x, tag, true);
    PickedAppend(s, tags, x, tag, false);
    var a, b := Picked(s, tags, true), Picked(s, tags, false);
    MultisetAppend(s, x);
    MultisetAppend(a, x);
    MultisetAppend(b, x);
    OneMore(multiset(a), multiset(b), x);
    assert a + [] == a && b + [] == b;
  }

  lemma MultisetAppend<T>(s: seq<T>, x: T)
    ensures multiset(s + [x]) == multiset(s) + multiset{x}
  {
  }

  lemma OneMore<T>(a: multiset<T>, b: multiset<T>, x: T)
    ensures (a + multiset{x}) + b == (a + b) + multiset{x} == a + (b + multiset{x})
  {
  }

  function CharAt(s: string, i: nat): char { if i < |s| then s[i] else '\0' }

  /** strchr: the first position of c, or |s|. */
  function IndexOf(s: string, c: char): (i: nat)
    ensures i <= |s| && (i < |s| ==> s[i] == c) && (c in s <==> i < |s|)
  {
    if s == [] then 0 else if s[0] == c then 0 else 1 + IndexOf(s[1..], c)
  }

  /** The option string declares the letter c at i, which is where it first stands. */
  predicate DeclaredAt(options: string, c: char, i: nat) {
    i < |options| && options[i] == c && c !in options[..i]
  }

  /** One colon behind a letter: it takes an argument; two: it may have one. */
  function ArityAt(options: string, i: nat): Arity {
    if i + 1 < |options| && options[i + 1] == ':' then
      if i + 2 < |options| && options[i + 2] == ':' then Possible else Required
    else NoArgument
  }

  lemma {:induction false} DeclaredIndex(options: string, c: char, i: nat)
    requires DeclaredAt(options, c, i)
    ensures IndexOf(options, c) == i
  {
    if i > 0 {
      assert options[0] in options[..i];
      assert options[1..][..i - 1] == options[..i][1..];
      DeclaredIndex(options[1..], c, i - 1);
    }
  }

  /** The name in front of an equals sign, and the value behind it. */
  function KeyOf(text: string): string { text[..IndexOf(text, '=')] }

  function AttachedTo(text: string): Option<string> {
    if '=' in text then Some(text[IndexOf(text, '=') + 1..]) else None
  }

  /** An abbreviation that counts: not one letter that is known as a short option. */
  predicate Abbreviates(long: Long, key: string, shortToo: bool) { key <= long.name && !(shortToo && |key| == 1) }

  predicate Alike(a: Long, b: Long) { a.arity == b.arity && a.meaning == b.meaning }

  /** The first entry with this name, or |longs|. */
  function FirstExact(longs: seq<Long>, key: string): (i: nat)
    ensures i <= |longs| && (i < |longs| ==> longs[i].name == key)
    ensures forall j :: 0 <= j < i ==> longs[j].name != key
  {
    if longs == [] || longs[0].name == key then 0 else 1 + FirstExact(longs[1..], key)
  }

  function FirstAbbreviated(longs: seq<Long>, key: string, shortToo: bool): (i: nat)
    ensures i <= |longs| && (i < |longs| ==> Abbreviates(longs[i], key, shortToo))
    ensures forall j :: 0 <= j < i ==> !Abbreviates(longs[j], key, shortToo)
  {
    if longs == [] || Abbreviates(longs[0], key, shortToo) then 0 else 1 + FirstAbbreviated(longs[1..], key, shortToo)
  }

  /** The full name wins; an abbreviation must not stand for entries that differ. */
  ghost function LookupLong(longs: seq<Long>, text: string, shortToo: bool): LongMatch {
    var key := KeyOf(text);
    var exact, first := FirstExact(longs, key), FirstAbbreviated(longs, key, shortToo);
    if exact < |longs| then Understood(longs, exact, text)
    else if first == |longs| then NoMatch
    else if exists j :: first < j < |longs| && Abbreviates(longs[j], key, shortToo) && !Alike(longs[j], longs[first]) then Ambiguous
    else Understood(longs, first, text)
  }

  function Understood(longs: seq<Long>, i: nat, text: string): LongMatch
    requires i < |longs|
  {
    var attached := AttachedTo(text);
    if longs[i].arity == NoArgument && attached.Some? then UnexpectedValue
    else Match(i, longs[i].arity == Required && attached.None?, attached)
  }

  /** The search of parse_long_options. */
  method MatchLong(longs: seq<Long>, text: string, shortToo: bool) returns (m: LongMatch)
    ensures m == LookupLong(longs, text, shortToo)
  {
    var key := KeyOf(text);
    var matched: Option<nat>, ambiguous := None, false;
    for i := 0 to |longs|
      invariant FirstExact(longs, key) >= i
      invariant matched == (var first := FirstAbbreviated(longs, key, shortToo); if first < i then Some(first) else None)
      invariant ambiguous <==> matched.Some? && exists j :: matched.value < j < i && Abbreviates(longs[j], key, shortToo)
                                                           && !Alike(longs[j], longs[matched.value])
    {
      if !(key <= longs[i].name) { continue; }
      if |longs[i].name| == |key| {
        return Understood(longs, i, text);
      }
      if shortToo && |key| == 1 { continue; }
      if matched.None? {
        matched := Some(i);
      } else if !Alike(longs[i], longs[matched.value]) {
        ambiguous := true;
      }
    }
    if ambiguous { return Ambiguous; }
    if matched.None? { return NoMatch; }
    return Understood(longs, matched.value, text);
  }

  /** The first read arguments of orig stand in argv as options, with the skipped ones as one block [start, end) inside. */
  ghost predicate LayoutOf(argv: seq<string>, orig: seq<string>, tags: seq<bool>, read: nat, start: int, end: int) {
    && 1 <= read <= |argv| == |orig| && |tags| == read - 1
    && argv[0] == orig[0] && argv[read..] == orig[read..]
    && 1 <= start <= end <= read
    && argv[1..start] + argv[end..read] == Picked(orig[1..read], tags, true)
    && argv[start..end] == Picked(orig[1..read], tags, false)
  }

  /** Options first, then the skipped arguments, then what was not read. */
  ghost predicate Sorted(argv: seq<string>, orig: seq<string>, tags: seq<bool>, read: nat, first: nat) {
    && 1 <= read <= |argv| == |orig| && |tags| == read - 1
    && var options, others := Picked(orig[1..read], tags, true), Picked(orig[1..read], tags, false);
    && first == 1 + |options| && argv == [orig[0]] + options + others + orig[read..]
  }

  /** One more argument read as an option; a block that is open at the end cannot take it. */
  lemma LayoutConsume(argv: seq<string>, orig: seq<string>, tags: seq<bool>, read: nat, start: int, end: int)
    requires LayoutOf(argv, orig, tags, read, start, end) && read < |argv|
    ensures LayoutOf(argv, orig, tags + [true], read + 1, start, end)
    ensures start == end == read ==> LayoutOf(argv, orig, tags + [true], read + 1, read + 1, read + 1)
  {
    ReadOne(argv, orig, tags, read, true);
    assert argv[end..read + 1] == argv[end..read] + [argv[read]];
    assert argv[1..start] + argv[end..read + 1] == (argv[1..start] + argv[end..read]) + [argv[read]];
    if start == end == read {
      assert argv[1..read + 1] == argv[1..read] + [argv[read]];
      assert argv[read..read] == argv[read + 1..read + 1] == [];
      assert argv[1..read] == argv[1..start] + argv[end..read];
      assert argv[1..read + 1] == argv[1..read + 1] + argv[read + 1..read + 1];
    }
  }

  lemma LayoutSkip(argv: seq<string>, orig: seq<string>, tags: seq<bool>, read: nat, start: int)
    requires LayoutOf(argv, orig, tags, read, start, read) && read < |argv|
    ensures LayoutOf(argv, orig, tags + [false], read + 1, start, read + 1)
  {
    ReadOne(argv, orig, tags, read, false);
    assert argv[start..read + 1] == argv[start..read] + [argv[read]];
    assert argv[read..read] == argv[read + 1..read + 1] == [];
  }

  /** How the picked sequences grow with one more argument. */
  lemma ReadOne(argv: seq<string>, orig: seq<string>, tags: seq<bool>, read: nat, tag: bool)
    requires 1 <= read < |argv| == |orig| && |tags| == read - 1 && argv[read..] == orig[read..]
    ensures Picked(orig[1..read + 1], tags + [tag], tag) == Picked(orig[1..read], tags, tag) + [argv[read]]
    ensures Picked(orig[1..read + 1], tags + [tag], !tag) == Picked(orig[1..read], tags, !tag)
    ensures argv[read + 1..] == orig[read + 1..]
  {
    assert orig[1..read + 1] == orig[1..read] + [orig[read]];
    assert argv[read] == argv[read..][0] == orig[read..][0] == orig[read];
    PickedAppend(orig[1..read], tags, orig[read], tag, tag);
    PickedAppend(orig[1..read], tags, orig[read], tag, !tag);
    assert argv[read + 1..] == argv[read..][1..];
    assert orig[read + 1..] == orig[read..][1..];
  }

  lemma LayoutRotate(argv: seq<string>, orig: seq<string>, tags: seq<bool>, read: nat, start: int, end: int, now: seq<string>)
    requires LayoutOf(argv, orig, tags, read, start, end)
    requires now == argv[..start] + argv[end..read] + argv[start..end] + argv[read..]
    ensures LayoutOf(now, orig, tags, read, read - (end - start), read)
  {
    var middle := read - (end - start);
    assert now[1..middle] == argv[1..start] + argv[end..read];
    assert now[middle..read] == argv[start..end];
    assert now[read..read] == [];
    assert now[read..] == argv[read..];
    assert now[1..middle] + now[read..read] == now[1..middle];
  }

  /** A block that reaches the end of what was read is sorted behind the options. */
  lemma LayoutSorted(argv: seq<string>, orig: seq<string>, tags: seq<bool>, read: nat, start: int)
    requires LayoutOf(argv, orig, tags, read, start, read)
    ensures Sorted(argv, orig, tags, read, start)
  {
    assert argv[read..read] == [];
    assert argv == [argv[0]] + argv[1..start] + argv[start..read] + argv[read..];
  }

  lemma RotatedSorted(argv: seq<string>, orig: seq<string>, tags: seq<bool>, read: nat, start: int, end: int, now: seq<string>)
    requires LayoutOf(argv, orig, tags, read, start, end)
    requires now == argv[..start] + argv[end..read] + argv[start..end] + argv[read..]
    ensures Sorted(now, orig, tags, read, read - (end - start))
  {
    LayoutRotate(argv, orig, tags, read, start, end, now);
    LayoutSorted(now, orig, tags, read, read - (end - start));
  }

  /** The argument vector and the skipped block, as the scanner leaves them after the arguments tagged so far. */
  datatype State = State(argv: seq<string>, start: int, end: int)

  function Rotated(argv: seq<string>, start: int, mid: int, end: int): seq<string> {
    if 0 <= start <= mid <= end <= |argv| then argv[..start] + argv[mid..end] + argv[start..mid] + argv[end..] else argv
  }

  function Replay(orig: seq<string>, tags: seq<bool>): State {
    if |tags| == 0 then State(orig, -1, -1) else
      var n := |tags| - 1;
      ReplayOne(Replay(orig, tags[..n]), n + 1, tags[n])
  }

  /** The argument at position i is read as an option, or skipped. */
  function ReplayOne(prev: State, i: nat, tag: bool): State {
    if tag then
      if prev.start != -1 && prev.end == -1 then prev.(end := i) else prev
    else if prev.start == -1 then prev.(start := i)
    else if prev.end != -1 then State(Rotated(prev.argv, prev.start, prev.end, i), i - (prev.end - prev.start), -1)
    else prev
  }

  lemma ReplayAppend(orig: seq<string>, tags: seq<bool>, tag: bool)
    ensures Replay(orig, tags + [tag]) == ReplayOne(Replay(orig, tags), |tags| + 1, tag)
  {
    assert (tags + [tag])[..|tags|] == tags;
  }

  function BlockStart(s: State, read: nat): int { if s.start == -1 then read else s.start }
  function BlockEnd(s: State, read: nat): int { if s.end == -1 then read else s.end }

  /** The skipped arguments are one block, in order, among the options in order. */
  ghost predicate OneBlock(s: State, orig: seq<string>, tags: seq<bool>) {
    var read := |tags| + 1;
    && LayoutOf(s.argv, orig, tags, read, BlockStart(s, read), BlockEnd(s, read))
    && (s.start == -1 ==> s.end == -1) && (s.start != -1 ==> 1 <= s.start < BlockEnd(s, read))
    && (s.end != -1 ==> s.start < s.end < read)
  }

  lemma OptionKeepsBlock(s: State, orig: seq<string>, tags: seq<bool>)
    requires OneBlock(s, orig, tags) && |tags| + 1 < |orig|
    ensures OneBlock(ReplayOne(s, |tags| + 1, true), orig, tags + [true])
  {
    var read := |tags| + 1;
    LayoutConsume(s.argv, orig, tags, read, BlockStart(s, read), BlockEnd(s, read));
  }

  lemma SkipKeepsBlock(s: State, orig: seq<string>, tags: seq<bool>)
    requires OneBlock(s, orig, tags) && |tags| + 1 < |orig|
    ensures OneBlock(ReplayOne(s, |tags| + 1, false), orig, tags + [false])
  {
    var read := |tags| + 1;
    if s.end != -1 {
      RotateThenSkip(s, orig, tags);
    } else {
      LayoutSkip(s.argv, orig, tags, read, BlockStart(s, read));
    }
  }

  lemma RotateThenSkip(s: State, orig: seq<string>, tags: seq<bool>)
    requires OneBlock(s, orig, tags) && |tags| + 1 < |orig| && s.end != -1
    ensures OneBlock(ReplayOne(s, |tags| + 1, false), orig, tags + [false])
  {
    var read := |tags| + 1;
    var now := Rotated(s.argv, s.start, s.end, read);
    LayoutRotate(s.argv, orig, tags, read, s.start, s.end, now);
    LayoutSkip(now, orig, tags, read, read - (s.end - s.start));
  }

  /** At every moment of a replay. */
  lemma {:induction false} ReplayLayout(orig: seq<string>, tags: seq<bool>)
    requires |tags| < |orig|
    ensures OneBlock(Replay(orig, tags), orig, tags)
  {
    if |tags| == 0 {
      assert orig[1..1] == [];
    } else {
      var n := |tags| - 1;
      var before := tags[..n];
      ReplayLayout(orig, before);
      SplitLast(tags);
      if tags[n] { OptionKeepsBlock(Replay(orig, before), orig, before); }
      else { SkipKeepsBlock(Replay(orig, before), orig, before); }
    }
  }

  /** The three ways a scan can end: no block, a block at the end, or one to be moved behind the options after it. */
  lemma ReplaySorted(orig: seq<string>, tags: seq<bool>)
    requires |tags| < |orig|
    ensures var s, read := Replay(orig, tags), |tags| + 1;
      && (s.start == -1 ==> s.end == -1 && Sorted(s.argv, orig, tags, read, read))
      && (s.start != -1 && s.end == -1 ==> s.start > 0 && Sorted(s.argv, orig, tags, read, s.start))
      && (s.end != -1 ==> 1 <= s.start < s.end < read <= |s.argv|)
      && (s.end != -1 ==> Sorted(Rotated(s.argv, s.start, s.end, read), orig, tags, read, read - (s.end - s.start)))
  {
    var s, read := Replay(orig, tags), |tags| + 1;
    ReplayLayout(orig, tags);
    if s.end != -1 {
      RotatedSorted(s.argv, orig, tags, read, s.start, s.end, Rotated(s.argv, s.start, s.end, read));
    } else {
      LayoutSorted(s.argv, orig, tags, read, BlockStart(s, read));
    }
  }

  /** The end of a cluster of letters: nothing more, a letter with its value behind it or in the next argument, or a
      letter that may have a value and has none. */
  datatype Ending = Nothing | Attached(c: char, value: string) | Separate(c: char, value: string) | Bare(c: char)

  /** A command line as a user means it. */
  datatype Item = Operand(text: string) | Cluster(letters: string, ending: Ending)
                | LongItem(name: string, entry: nat, value: Option<string>, separate: bool)

  /** Where the options stop: at the end, at "--", or, if the order is required, at an operand. */
  datatype Stop = AtEnd | AtDashes(rest: seq<string>) | AtOperand(text: string, rest: seq<string>)

  function EndingText(e: Ending): string {
    match e
    case Nothing => ""
    case Attached(c, value) => [c] + value
    case Separate(c, _) => [c]
    case Bare(c) => [c]
  }

  function LongText(name: string, value: Option<string>, separate: bool): string {
    if value.Some? && !separate then name + ("=" + value.value) else name
  }

  /** The arguments that an item is written as. */
  function Words(item: Item): seq<string> {
    match item
    case Operand(text) => [text]
    case Cluster(letters, e) => ["-" + (letters + EndingText(e))] + if e.Separate? then [e.value] else []
    case LongItem(name, _, value, separate) =>
      ["--" + LongText(name, value, separate)] + if separate && value.Some? then [value.value] else []
  }

  function AllWords(items: seq<Item>): seq<string> {
    if items == [] then [] else Words(items[0]) + AllWords(items[1..])
  }

  function StopWords(stop: Stop): seq<string> {
    match stop
    case AtEnd => []
    case AtDashes(rest) => ["--"] + rest
    case AtOperand(text, rest) => [text] + rest
  }

  /** The words of the options, and the operands, each in order. */
  function OptionWords(items: seq<Item>): seq<string> {
    if items == [] then [] else (if items[0].Operand? then [] else Words(items[0])) + OptionWords(items[1..])
  }

  function Operands(items: seq<Item>): seq<string> {
    if items == [] then [] else (if items[0].Operand? then [items[0].text] else []) + Operands(items[1..])
  }

  /** Letters without values, each on its own. */
  function Letters(letters: string): seq<Result> {
    if letters == "" then [] else [Letter(letters[0], None)] + Letters(letters[1..])
  }

  function EndingResults(e: Ending): seq<Result> {
    match e
    case Nothing => []
    case Attached(c, value) => [Letter(c, Some(value))]
    case Separate(c, value) => [Letter(c, Some(value))]
    case Bare(c) => [Letter(c, None)]
  }

  /** The name stands for this entry: as its full name, or as an abbreviation of entries that do not differ. */
  ghost predicate StandsFor(longs: seq<Long>, name: string, entry: nat) {
    && entry < |longs|
    && if longs[entry].name == name then forall j :: 0 <= j < entry ==> longs[j].name != name
       else name <= longs[entry].name && (forall j :: 0 <= j < |longs| ==> longs[j].name != name)
            && (forall j :: 0 <= j < entry ==> !(name <= longs[j].name))
            && (forall j :: entry < j < |longs| && name <= longs[j].name ==> Alike(longs[j], longs[entry]))
  }

  /** A name that stands for an entry is understood as that entry. */
  lemma NameUnderstood(longs: seq<Long>, name: string, entry: nat, text: string, shortToo: bool)
    requires StandsFor(longs, name, entry) && KeyOf(text) == name && !(shortToo && |name| == 1)
    ensures LookupLong(longs, text, shortToo) == Understood(longs, entry, text)
  {
    var exact, first := FirstExact(longs, name), FirstAbbreviated(longs, name, shortToo);
    if longs[entry].name == name {
      assert exact == entry;
    } else {
      assert exact == |longs| && Abbreviates(longs[entry], name, shortToo) && first == entry;
    }
  }

  lemma {:induction false} IndexBehind(a: string, c: char, b: string)
    requires c !in a
    ensures IndexOf(a + ([c] + b), c) == |a|
    ensures IndexOf(a, c) == |a|
  {
    if a != "" {
      assert (a + ([c] + b))[1..] == a[1..] + ([c] + b);
      IndexBehind(a[1..], c, b);
    }
  }

  lemma LongTextRead(name: string, value: Option<string>, separate: bool)
    requires '=' !in name
    ensures var text := LongText(name, value, separate);
      KeyOf(text) == name && AttachedTo(text) == if separate then None else value
  {
    hide IndexOf;
    var text := LongText(name, value, separate);
    IndexBehind(name, '=', if value.Some? then value.value else "");
    if value.Some? && !separate {
      assert text[..|name|] == name && text[|name| + 1..] == value.value && text[|name|] == '=';
    } else {
      assert text[..|name|] == name;
    }
  }

  /** A sorted vector, said of the words that were read. */
  lemma SortedAs(argv: seq<string>, orig: seq<string>, words: seq<string>, tags: seq<bool>, first: nat,
                 options: seq<string>, others: seq<string>, rest: seq<string>)
    requires Sorted(argv, orig, tags, |tags| + 1, first) && orig[1..|tags| + 1] == words && |words| == |tags|
    requires Picked(words, tags, true) == options && Picked(words, tags, false) == others && orig[|tags| + 1..] == rest
    ensures |argv| == |orig| && first <= |argv| && argv[..first] == [orig[0]] + options && argv[first..] == others + rest
  {
    hide Picked;
    Halves(argv, [orig[0]] + options, others + rest);
  }

  lemma Halves<T>(s: seq<T>, a: seq<T>, b: seq<T>)
    requires s == a + b
    ensures s[..|a|] == a && s[|a|..] == b
  {
  }

  lemma SortedWithin(argv: seq<string>, orig: seq<string>, tags: seq<bool>, first: nat)
    requires Sorted(argv, orig, tags, |tags| + 1, first)
    ensures first <= |argv| == |orig|
  {
  }

  const MINER_OPTIONS := "a:c:kBp:x:r:R:s:t:T:o:u:O:v:l:S46"

  class Scanner {
    const options: string
    const mode: Mode
    const longOptions: bool
    const longs: seq<Long>
    const longOnly: bool
    const nargv: array<string>
    var optind: nat
    var nonoptStart: int
    var nonoptEnd: int
    var place: string
    ghost const orig: seq<string>
    ghost var tags: seq<bool>   // for each argument read so far: was it an option (or its argument)?

    constructor (nargv: array<string>, options: string, mode: Mode, longOptions: bool, longs: seq<Long>, longOnly: bool)
      requires nargv.Length > 0
      ensures Valid() && this.nargv == nargv && orig == nargv[..] && tags == [] && optind == 1 && place == ""
    {
      this.nargv, this.options, this.mode := nargv, options, mode;
      this.longOptions, this.longs, this.longOnly := longOptions, longs, longOnly;
      optind, nonoptStart, nonoptEnd, place := 1, -1, -1, "";
      orig, tags := nargv[..], [];
    }

    predicate NonOption(arg: string) {
      arg == "" || arg[0] != '-' || (arg == "-" && '-' !in options)
    }

    /** The scanner is where the replay of its tags is; nonoptEnd may run ahead by the option about to be read. */
    ghost predicate InStep()
      reads this, nargv
    {
      && optind == |tags| + 1 <= nargv.Length == |orig| && Honest()
      && var s := Replay(orig, tags);
      && nargv[..] == s.argv && nonoptStart == s.start
      && (nonoptEnd == s.end || (nonoptEnd == optind && s.start != -1 && s.end == -1))
      && nonoptEnd <= optind && (mode != PermuteNonOptions ==> nonoptStart == -1)
    }

    /** Between calls: an unfinished cluster is in the current argument; an empty block of options is about to grow. */
    ghost predicate Valid()
      reads this, nargv
    {
      && InStep()
      && (nonoptEnd == optind ==> optind < nargv.Length && !NonOption(nargv[optind]))
      && (place != "" ==> optind < nargv.Length && Closed())
    }

    /** Only non-options were skipped. */
    ghost predicate Honest()
      reads `tags
    {
      |tags| < |orig| && forall k: nat :: k < |tags| && !tags[k] ==> NonOption(orig[k + 1])
    }

    /** Argv is sorted and the block forgotten. */
    ghost predicate Done()
      reads this, nargv
    {
      && place == "" && nonoptStart == nonoptEnd == -1 && Honest()
      && Sorted(nargv[..], orig, tags, |tags| + 1, optind)
    }

    /** No block of non-options is still growing. */
    ghost predicate Closed()
      reads this
    {
      nonoptStart == -1 || nonoptEnd != -1
    }

    /** A long option after the arguments tagged so far: its result and the tags after it; None means try a short one. */
    ghost function LongAt(tags: seq<bool>, text: string, shortToo: bool)
      : (t: Option<(Result, seq<bool>)>)
      ensures t.Some? ==> |t.value.1| > |tags| && (t.value.0.BadOption? || t.value.0.LongOption? || t.value.0.BadArgument?)
    {
      match LookupLong(longs, text, shortToo)
      case NoMatch => if shortToo then None else Some((BadOption, tags + [true]))
      case Ambiguous => Some((BadOption, tags + [true]))
      case UnexpectedValue => Some((BadArgument, tags + [true]))
      case Match(entry, takesNext, attached) =>
        if !takesNext then Some((LongOption(entry, attached), tags + [true]))
        else if |tags| + 2 >= |orig| then Some((BadArgument, tags + [true]))
        else Some((LongOption(entry, Some(orig[|tags| + 2])), tags + [true] + [true]))
    }

    /** The letter at the front of place: its result, the tags after it, and what is left of the cluster. */
    ghost function ShortAt(tags: seq<bool>, place: string)
      : (t: (Result, seq<bool>, string))
      requires place != ""
      ensures !t.0.EndOfArgs? && !t.0.DoubleDash? && (t.0.StoppedHere? || Onward(tags, place, t.1, t.2))
    {
      var c, rest, oli := place[0], place[1..], IndexOf(options, place[0]);
      var used := if rest == "" then tags + [true] else tags;
      if c == '-' && rest == "" && oli == |options| then (StoppedHere, tags, "")
      else if c == ':' || (c == '-' && rest != "") || oli == |options| then (BadOption, used, rest)
      else if longOptions && c == 'W' && CharAt(options, oli + 1) == ';' then WordAt(tags, rest)
      else if CharAt(options, oli + 1) != ':' then (Letter(c, None), used, rest)
      else if rest != "" then (Letter(c, Some(rest)), tags + [true], "")
      else if CharAt(options, oli + 2) == ':' then (Letter(c, None), tags + [true], "")
      else if |tags| + 2 >= |orig| then (BadArgument, tags + [true], "")
      else (Letter(c, Some(orig[|tags| + 2])), tags + [true] + [true], "")
    }

    /** -W and the name of a long option, attached or in the next argument. */
    ghost function WordAt(tags: seq<bool>, rest: string)
      : (t: (Result, seq<bool>, string))
      ensures !t.0.EndOfArgs? && !t.0.DoubleDash? && |t.1| > |tags|
    {
      if rest == "" && |tags| + 2 >= |orig| then (BadArgument, tags + [true], "") else
        var before := if rest == "" then tags + [true] else tags;
        match LongAt(before, if rest == "" then orig[|tags| + 2] else rest, false)
        case Some((r, after)) => (r, after, "")
        case None => (BadOption, tags + [true], "")
    }

    /** One option, after the arguments tagged so far. */
    ghost function OptionAt(tags: seq<bool>, place: string, whole: bool)
      : (t: (Result, seq<bool>, string))
      requires place != ""
      ensures !t.0.EndOfArgs? && !t.0.DoubleDash? && (t.0.StoppedHere? || Onward(tags, place, t.1, t.2))
    {
      if longOptions && !whole && (place[0] == '-' || longOnly) then
        var shortToo := place[0] != '-' && place[0] != ':' && place[0] in options;
        match LongAt(tags, if place[0] == '-' then place[1..] else place, shortToo)
        case Some((r, after)) => (r, after, "")
        case None => ShortAt(tags, place)
      else ShortAt(tags, place)
    }

    /** More arguments are read, or more of a cluster. */
    ghost predicate Onward(tags0: seq<bool>, place0: string, tags: seq<bool>, place: string) {
      |tags| > |tags0| || (|tags| == |tags0| && 0 < |place| < |place0|)
    }

    /** A whole scan, read off the original arguments after those tagged so far: while permuting, non-options are
        passed over and tagged false; all else that is read, "--" included, is tagged true. */
    ghost function ScanFrom(tags: seq<bool>, place: string, whole: bool): Scan
      decreases |orig| - |tags|, place == "", |place|
    {
      var i := |tags| + 1;
      if place != "" then
        var t := OptionAt(tags, place, whole);
        if t.0.StoppedHere? || i >= |orig| then Scan([t.0], t.1) else Before(t.0, ScanFrom(t.1, t.2, false))
      else if i >= |orig| then Scan([EndOfArgs], tags)
      else if NonOption(orig[i]) then
        match mode
        case RequireOrder => Scan([StoppedHere], tags)
        case ReturnInOrder => Before(InOrder(orig[i]), ScanFrom(tags + [true], "", false))
        case PermuteNonOptions => ScanFrom(tags + [false], "", false)
      else if orig[i] == "--" then Scan([DoubleDash], tags + [true])
      else ScanFrom(tags, if orig[i] == "-" then orig[i] else orig[i][1..], orig[i] == "-")
    }

    /** now goes on from tags with true tags only. */
    ghost predicate OptionsRead(tags: seq<bool>, now: seq<bool>) {
      tags <= now && forall k :: |tags| <= k < |now| ==> now[k]
    }

    lemma LongAtTags(tags: seq<bool>, text: string, shortToo: bool)
      ensures var t := LongAt(tags, text, shortToo); t.Some? ==> OptionsRead(tags, t.value.1)
    {
      hide LookupLong;
    }

    lemma WordAtTags(tags: seq<bool>, rest: string)
      ensures OptionsRead(tags, WordAt(tags, rest).1)
    {
      hide LookupLong, LongAt;
      LongAtTags(if rest == "" then tags + [true] else tags, if rest == "" && |tags| + 2 < |orig| then orig[|tags| + 2] else rest, false);
    }

    lemma ShortAtTags(tags: seq<bool>, place: string)
      requires place != ""
      ensures OptionsRead(tags, ShortAt(tags, place).1)
    {
      hide LookupLong, LongAt, WordAt;
      WordAtTags(tags, place[1..]);
    }

    lemma OptionAtTags(tags: seq<bool>, place: string, whole: bool)
      requires place != ""
      ensures OptionsRead(tags, OptionAt(tags, place, whole).1)
    {
      hide LookupLong, LongAt, ShortAt;
      LongAtTags(tags, if place[0] == '-' then place[1..] else place, place[0] != '-' && place[0] != ':' && place[0] in options);
      ShortAtTags(tags, place);
    }

    ghost predicate EndsWith(arg: string, place: string) {
      |place| <= |arg| && arg[|arg| - |place|..] == place
    }

    /** The rest of a cluster is in the same argument. */
    lemma OptionRest(tags: seq<bool>, place: string, whole: bool)
      requires place != ""
      ensures var t := OptionAt(tags, place, whole); t.2 == "" || (t.1 == tags && EndsWith(place, t.2))
    {
    }

    /** The option that is read from place on, in argument j + 1, takes argument k + 1 as well: its argument, or the name
        after -W or that name's argument. */
    ghost predicate TakenAt(tags: seq<bool>, k: nat, j: nat, place: string, whole: bool) {
      && j < k < |tags| && j + 1 < |orig| && !NonOption(orig[j + 1]) && place != "" && EndsWith(orig[j + 1], place)
      && var after := OptionAt(tags[..j], place, whole).1;
         k < |after| <= |tags| && after == tags[..|after|]
    }

    ghost predicate Taken(tags: seq<bool>, k: nat) {
      exists j: nat, place: string, whole: bool :: TakenAt(tags, k, j, place, whole)
    }

    /** What is tagged false is exactly a non-option that no option takes. */
    ghost predicate TagRight(tags: seq<bool>, k: nat)
      requires k < |tags|
    {
      k + 1 < |orig| ==> (!tags[k] <==> NonOption(orig[k + 1]) && !Taken(tags, k))
    }

    ghost predicate TagsRight(tags: seq<bool>, n: nat) {
      forall k :: n <= k < |tags| ==> TagRight(tags, k)
    }

    lemma TakenIsTrue(tags: seq<bool>, k: nat)
      requires k < |tags| && Taken(tags, k)
      ensures tags[k]
    {
      var j: nat, place: string, whole: bool :| TakenAt(tags, k, j, place, whole);
      OptionAtTags(tags[..j], place, whole);
      var after := OptionAt(tags[..j], place, whole).1;
      assert tags[k] == after[k];
    }

    /** The arguments of one option are tagged right: it is no non-option itself and takes the others. */
    lemma OptionTagged(tags: seq<bool>, place: string, whole: bool, all: seq<bool>)
      requires place != "" && |tags| + 1 < |orig| && !NonOption(orig[|tags| + 1]) && EndsWith(orig[|tags| + 1], place)
      requires OptionAt(tags, place, whole).1 <= all
      ensures forall k :: |tags| <= k < |OptionAt(tags, place, whole).1| ==> TagRight(all, k)
    {
      var after := OptionAt(tags, place, whole).1;
      OptionAtTags(tags, place, whole);
      assert all[..|tags|] == tags && all[..|after|] == after;
      forall k | |tags| <= k < |after| ensures TagRight(all, k) {
        assert all[k] == after[k];
        if k > |tags| { assert TakenAt(all, k, |tags|, place, whole); }
      }
    }

    /** Exactly the non-options that no option before them takes are passed over. */
    lemma {:induction false} PassedOver(tags: seq<bool>, place: string, whole: bool)
      requires mode == PermuteNonOptions
      requires place != "" ==>
        |tags| + 1 < |orig| && !NonOption(orig[|tags| + 1]) && EndsWith(orig[|tags| + 1], place)
      ensures var t := ScanFrom(tags, place, whole).tags;
        tags <= t && TagsRight(t, |tags|)
      decreases |orig| - |tags|, place == "", |place|
    {
      var i := |tags| + 1;
      if place != "" {
        OptionPassed(tags, place, whole);
      } else if i < |orig| {
        if NonOption(orig[i]) {
          PassedOver(tags + [false], "", false);
          SkippedTagged(tags, ScanFrom(tags + [false], "", false).tags);
        } else if orig[i] != "--" {
          PassedOver(tags, if orig[i] == "-" then orig[i] else orig[i][1..], orig[i] == "-");
        }
      }
    }

    lemma OptionPassed(tags: seq<bool>, place: string, whole: bool)
      requires mode == PermuteNonOptions && place != ""
      requires |tags| + 1 < |orig| && !NonOption(orig[|tags| + 1]) && EndsWith(orig[|tags| + 1], place)
      ensures var t := ScanFrom(tags, place, whole).tags;
        tags <= t && TagsRight(t, |tags|)
      decreases |orig| - |tags|, false, |place|, 0
    {
      var t := OptionAt(tags, place, whole);
      OptionAtTags(tags, place, whole);
      OptionRest(tags, place, whole);
      if !t.0.StoppedHere? { PassedOver(t.1, t.2, false); }
      OptionTagged(tags, place, whole, ScanFrom(tags, place, whole).tags);
    }

    lemma SkippedTagged(tags: seq<bool>, all: seq<bool>)
      requires tags + [false] <= all && |tags| + 1 < |orig| && NonOption(orig[|tags| + 1])
      ensures TagRight(all, |tags|)
    {
      assert all[|tags|] == (tags + [false])[|tags|];
      if Taken(all, |tags|) { TakenIsTrue(all, |tags|); }
    }

    /** One result more, in front. */
    ghost function Before(r: Result, scan: Scan): Scan { Scan([r] + scan.results, scan.tags) }

    /** A result, and the scan after it unless it is the last one. */
    ghost function AfterResult(r: Result, tags: seq<bool>, place: string): Scan {
      if Last(r) then Scan([r], tags) else Before(r, ScanFrom(tags, place, false))
    }

    /** optind++ past an argument that was used as an option or as an option's argument. */
    method Consume()
      requires InStep() && Closed() && optind < nargv.Length
      modifies this`optind, this`tags
      ensures InStep() && Closed() && optind == old(optind) + 1 && tags == old(tags) + [true] && nonoptEnd < optind
    {
      ReplayAppend(orig, tags, true);
      ReplayLayout(orig, tags);
      optind := optind + 1;
      tags := tags + [true];
    }

    /** Unread arguments are where they were. */
    lemma Unread()
      requires InStep() && optind < nargv.Length
      ensures nargv[optind] == orig[optind]
    {
      ReplayLayout(orig, tags);
      assert nargv[optind] == nargv[optind..][0] == orig[optind..][0];
    }

    /** A non-option while permuting: it joins the block of skipped ones. */
    method Skip()
      requires InStep() && mode == PermuteNonOptions && nonoptEnd < optind < nargv.Length && NonOption(nargv[optind])
      modifies this`optind, this`nonoptStart, this`nonoptEnd, this`tags, nargv
      ensures InStep() && optind == old(optind) + 1 && tags == old(tags) + [false] && nonoptEnd == -1
    {
      Unread();
      ReplayAppend(orig, tags, false);
      ReplayLayout(orig, tags);
      if nonoptStart == -1 {
        nonoptStart := optind;
      } else if nonoptEnd != -1 {
        PermuteArgs(nonoptStart, nonoptEnd, optind, nargv);
        nonoptStart := optind - (nonoptEnd - nonoptStart);
        nonoptEnd := -1;
      }
      optind := optind + 1;
      tags := tags + [false];
    }

    /** The end of the scan, with no block still open: sort it and point optind at its start. */
    method Finish()
      requires InStep() && Closed() && nonoptEnd < optind
      modifies this`optind, this`nonoptStart, this`nonoptEnd, this`place, nargv
      ensures Done()
    {
      ReplaySorted(orig, tags);
      place := "";
      if nonoptEnd != -1 {
        ghost var sorted := Rotated(nargv[..], nonoptStart, nonoptEnd, optind);
        PermuteArgs(nonoptStart, nonoptEnd, optind, nargv);
        assert nargv[..] == sorted;
        optind := optind - (nonoptEnd - nonoptStart);
      }
      nonoptStart, nonoptEnd := -1, -1;
    }

    /** Only skipped arguments have been read since the block began: optind goes back to the first of them. */
    method BackToBlock()
      requires InStep() && place == "" && nonoptEnd == -1 && nonoptStart != -1
      modifies this`optind, this`nonoptStart, this`nonoptEnd
      ensures Done()
    {
      ReplaySorted(orig, tags);
      optind := nonoptStart;
      nonoptStart, nonoptEnd := -1, -1;
    }

    /** The end of the argument vector. */
    method FinishAtEnd()
      requires Valid() && place == "" && optind >= nargv.Length
      modifies this`optind, this`nonoptStart, this`nonoptEnd, this`place, nargv
      ensures Done() && |tags| + 1 == nargv.Length
    {
      if nonoptEnd == -1 && nonoptStart != -1 {
        BackToBlock();
      } else {
        Finish();
      }
    }

    /** parse_long_options, reduced to how many arguments it uses up; None means try a short option. */
    method ParseLong(text: string, shortToo: bool) returns (r: Result, found: bool)
      requires InStep() && Closed() && optind < nargv.Length
      modifies this`optind, this`tags, this`place
      ensures InStep() && Closed() && optind >= old(optind) && (optind > old(optind) ==> nonoptEnd < optind)
      ensures found ==> optind > old(optind) && place == "" && (r.BadOption? || r.LongOption? || r.BadArgument?)
      ensures !found ==> optind == old(optind) && shortToo && place == text && tags == old(tags)
      ensures LongAt(old(tags), text, shortToo) == if found then Some((r, tags)) else None
    {
      hide LookupLong;
      var m := MatchLong(longs, text, shortToo);
      if m == NoMatch && shortToo {
        place := text;
        return BadOption, false;
      }
      place := "";
      Consume();
      r, found := if m.Match? then LongOption(m.entry, m.attached) else if m.UnexpectedValue? then BadArgument else BadOption, true;
      if m.Match? && m.takesNext {
        if optind < nargv.Length {
          Unread();
          r := LongOption(m.entry, Some(nargv[optind]));
          Consume();
        } else {
          r := BadArgument;
        }
      }
    }

    /** An option of the current argument: a long one, or the next letter of a cluster. */
    method OneOption(wholeArgument: bool) returns (r: Result)
      requires Valid() && place != ""
      modifies this`optind, this`tags, this`place
      ensures Valid() && !r.EndOfArgs? && !r.DoubleDash? && (r.StoppedHere? || Progress(old(optind), |old(place)|))
      ensures (r, tags, place) == OptionAt(old(tags), old(place), wholeArgument)
    {
      if longOptions && !wholeArgument && (place[0] == '-' || longOnly) {
        var shortToo := place[0] != '-' && place[0] != ':' && place[0] in options;
        var found;
        r, found := ParseLong(if place[0] == '-' then place[1..] else place, shortToo);
        if found { return; }
      }
      r := ShortOption();
    }

    /** The scan has moved on since optind and the length of place were these. */
    ghost predicate Progress(optind0: nat, place0: nat)
      reads this
    {
      optind > optind0 || (optind == optind0 && 0 < |place| < place0)
    }

    /** A declared letter that is not the colon, not a dash inside a cluster, and not the -W of long options. */
    predicate Ordinary(options: string, i: nat, place: string)
      requires i < |options|
    {
      && options[i] != ':' && !(options[i] == '-' && place != "-")
      && !(longOptions && options[i] == 'W' && i + 1 < |options| && options[i + 1] == ';')
    }

    /** What a letter is and takes, said of the option string and the arguments. */
    lemma ByArity(tags: seq<bool>, place: string)
      requires place != ""
      ensures place[0] !in options && place != "-" ==>
        ShortAt(tags, place) == (BadOption, if place[1..] == "" then tags + [true] else tags, place[1..])
      ensures forall i: nat :: DeclaredAt(options, place[0], i) && Ordinary(options, i, place) ==>
        ShortAt(tags, place) == LetterTaken(tags, options[i], place[1..], ArityAt(options, i))
    {
      hide WordAt;
      if place != "-" && place[0] == '-' { assert place[1..] != ""; }
      forall i: nat | DeclaredAt(options, place[0], i) && Ordinary(options, i, place)
        ensures ShortAt(tags, place) == LetterTaken(tags, options[i], place[1..], ArityAt(options, i))
      {
        DeclaredIndex(options, place[0], i);
        if place[0] == '-' { assert place[1..] == ""; }
      }
    }

    /** A letter of this arity with rest behind it in its cluster: the result, the tags after it, what is left. */
    ghost function LetterTaken(tags: seq<bool>, c: char, rest: string, arity: Arity): (t: (Result, seq<bool>, string)) {
      match arity
      case NoArgument => (Letter(c, None), if rest == "" then tags + [true] else tags, rest)
      case Possible => (Letter(c, if rest == "" then None else Some(rest)), tags + [true], "")
      case Required =>
        if rest != "" then (Letter(c, Some(rest)), tags + [true], "")
        else if |tags| + 2 < |orig| then (Letter(c, Some(orig[|tags| + 2])), tags + [true] + [true], "")
        else (BadArgument, tags + [true], "")
    }

    lemma UnreadNext()
      requires InStep()
      ensures optind + 1 < nargv.Length ==> nargv[optind + 1] == orig[optind + 1]
    {
      if optind + 1 < nargv.Length {
        ReplayLayout(orig, tags);
        assert nargv[optind + 1] == nargv[optind..][1] == orig[optind..][1];
      }
    }

    /** The next letter of a cluster, with its argument if it takes one. */
    method ShortOption() returns (r: Result)
      requires Valid() && place != ""
      modifies this`optind, this`tags, this`place
      ensures Valid() && !r.EndOfArgs? && !r.DoubleDash? && (r.StoppedHere? || Progress(old(optind), |old(place)|))
      ensures (r, tags, place) == ShortAt(old(tags), old(place))
      ensures old(place)[0] !in options && old(place) != "-" ==>
        r == BadOption && place == old(place)[1..] && optind == old(optind) + if place == "" then 1 else 0
      ensures forall i: nat :: DeclaredAt(options, old(place)[0], i) && Ordinary(options, i, old(place)) ==>
        match ArityAt(options, i)
        case NoArgument =>
          r == Letter(options[i], None) && place == old(place)[1..] && optind == old(optind) + if place == "" then 1 else 0
        case Possible =>
          && r == Letter(options[i], if old(place)[1..] == "" then None else Some(old(place)[1..]))
          && place == "" && optind == old(optind) + 1
        case Required =>
          if old(place)[1..] != "" then r == Letter(options[i], Some(old(place)[1..])) && place == "" && optind == old(optind) + 1
          else if old(optind) + 1 < nargv.Length then
            r == Letter(options[i], Some(nargv[old(optind) + 1])) && place == "" && optind == old(optind) + 2
          else r == BadArgument && place == "" && optind == old(optind) + 1
    {
      hide WordAt, Replay, Sorted;
      ByArity(tags, place);
      UnreadNext();
      var c := place[0];
      place := place[1..];
      var oli := IndexOf(options, c);
      if c == ':' || (c == '-' && place != "") || oli == |options| {
        if c == '-' && place == "" { return StoppedHere; }
        if place == "" { Consume(); }
        return BadOption;
      }
      if longOptions && c == 'W' && CharAt(options, oli + 1) == ';' {
        r := LongByW();
        return;
      }
      if CharAt(options, oli + 1) != ':' {
        if place == "" { Consume(); }
        return Letter(c, None);
      }
      r := WithArgument(c, CharAt(options, oli + 2) == ':');
    }

    /** An option that takes an argument: attached, or the next one unless it is optional. */
    method WithArgument(c: char, isOptional: bool) returns (r: Result)
      requires InStep() && Closed() && optind < nargv.Length
      modifies this`optind, this`tags, this`place
      ensures InStep() && Closed() && optind > old(optind) && place == "" && nonoptEnd < optind
      ensures (r, tags) == if old(place) != "" then (Letter(c, Some(old(place))), old(tags) + [true])
                           else if isOptional then (Letter(c, None), old(tags) + [true])
                           else if |old(tags)| + 2 >= |orig| then (BadArgument, old(tags) + [true])
                           else (Letter(c, Some(orig[|old(tags)| + 2])), old(tags) + [true] + [true])
    {
      var optarg := None;
      if place != "" {
        optarg := Some(place);
      } else if !isOptional {
        Consume();
        if optind >= nargv.Length { return BadArgument; }
        Unread();
        optarg := Some(nargv[optind]);
      }
      place := "";
      Consume();
      return Letter(c, optarg);
    }

    /** -W name: the rest of the argument, or the next argument, is a long option. */
    method LongByW() returns (r: Result)
      requires InStep() && Closed() && optind < nargv.Length
      modifies this`optind, this`tags, this`place
      ensures InStep() && Closed() && optind > old(optind) && place == "" && nonoptEnd < optind
      ensures r.BadOption? || r.LongOption? || r.BadArgument?
      ensures (r, tags, place) == WordAt(old(tags), old(place))
    {
      var text := place;
      if text == "" {
        Consume();
        if optind >= nargv.Length { return BadArgument; }
        Unread();
        text := nargv[optind];
      }
      var found;
      r, found := ParseLong(text, false);
    }

    /** Updates the scanning pointer: skips non-options up to the next option, unless the call ends here. */
    method NextElement() returns (r: Result, ended: bool, wholeArgument: bool)
      requires Valid() && place == ""
      modifies this`optind, this`nonoptStart, this`nonoptEnd, this`place, this`tags, nargv
      ensures ended ==> Ended(r) || (Valid() && ((r.InOrder? && optind > old(optind)) || r.StoppedHere?))
      ensures !ended ==> Valid() && place != "" && optind >= old(optind)
      ensures ScanFrom(old(tags), "", false)
           == if ended then AfterResult(r, tags, place) else ScanFrom(tags, place, wholeArgument)
    {
      wholeArgument := false;
      while true
        invariant Valid() && place == "" && optind >= old(optind)
        invariant ScanFrom(old(tags), "", false) == ScanFrom(tags, "", false)
        decreases nargv.Length - optind
      {
        if optind >= nargv.Length {
          FinishAtEnd();
          return EndOfArgs, true, false;
        }
        if !NonOption(nargv[optind]) { break; }
        r, ended := PassOver(nargv[optind]);
        if ended { return; }
      }
      r, ended, wholeArgument := BeginOption(nargv[optind]);
    }

    /** The non-option at optind is returned, ends the scan, or is skipped. */
    method PassOver(arg: string) returns (r: Result, ended: bool)
      requires Valid() && place == "" && optind < nargv.Length && arg == nargv[optind] && NonOption(arg)
      modifies this`optind, this`nonoptStart, this`nonoptEnd, this`tags, nargv
      ensures Valid() && ended == (r.InOrder? || r.StoppedHere?) && optind == old(optind) + if r.StoppedHere? then 0 else 1
      ensures ScanFrom(old(tags), "", false)
           == if ended then AfterResult(r, tags, "") else ScanFrom(tags, "", false)
    {
      Unread();
      if mode == ReturnInOrder {
        Consume();
        return InOrder(arg), true;
      }
      if mode == RequireOrder { return StoppedHere, true; }
      Skip();
      return BadOption, false;
    }

    /** The argument at optind is no non-option: it ends the scan, or place is set to its text. */
    method BeginOption(arg: string)
      returns (r: Result, ended: bool, wholeArgument: bool)
      requires Valid() && place == "" && optind < nargv.Length && arg == nargv[optind] && !NonOption(arg)
      modifies this`optind, this`nonoptStart, this`nonoptEnd, this`place, this`tags, nargv
      ensures ended == (arg == "--") && (ended ==> r.DoubleDash? && Ended(r))
      ensures !ended ==> Valid() && place != "" && optind == old(optind)
      ensures ScanFrom(old(tags), "", false)
           == if ended then Scan([DoubleDash], tags) else ScanFrom(tags, place, wholeArgument)
    {
      hide OptionAt, Sorted, Replay, Picked;
      if nonoptStart != -1 && nonoptEnd == -1 { nonoptEnd := optind; }
      wholeArgument := arg == "-";
      ended := arg == "--";
      r := if ended then DoubleDash else BadOption;
      Unread();
      if ended {
        Consume();
        Finish();
      } else {
        place := if wholeArgument then arg else arg[1..];
      }
    }

    /** The two regular ends of a scan: all arguments read, or "--" found. */
    ghost predicate Ended(r: Result)
      reads this, nargv
    {
      Done() && match r
      case EndOfArgs => |tags| + 1 == nargv.Length
      case DoubleDash => tags != [] && tags[|tags| - 1] && |tags| < |orig| && orig[|tags|] == "--"
      case _ => false
    }

    lemma FirstOption(tags: seq<bool>, place: string, whole: bool)
      requires place != "" && |tags| + 1 < |orig|
      ensures var t := OptionAt(tags, place, whole);
        ScanFrom(tags, place, whole) == AfterResult(t.0, t.1, t.2)
    {
    }

    /** The option string declares this letter with this arity. */
    ghost predicate LetterIs(c: char, arity: Arity) {
      && c != '-' && exists i: nat :: DeclaredAt(options, c, i) && Ordinary(options, i, [c]) && ArityAt(options, i) == arity
    }

    ghost predicate ValidEnding(e: Ending) {
      match e
      case Nothing => true
      case Attached(c, value) => value != "" && (LetterIs(c, Required) || LetterIs(c, Possible))
      case Separate(c, _) => LetterIs(c, Required)
      case Bare(c) => LetterIs(c, Possible)
    }

    /** The item means something to this scanner. */
    ghost predicate ValidItem(item: Item) {
      match item
      case Operand(text) => NonOption(text) && mode != RequireOrder
      case Cluster(letters, e) =>
        && (letters != "" || e != Nothing) && !(longOptions && longOnly)
        && (forall i :: 0 <= i < |letters| ==> LetterIs(letters[i], NoArgument)) && ValidEnding(e)
      case LongItem(name, entry, value, separate) => longOptions && ValidLong(name, entry, value, separate)
    }

    /** The name stands for the entry, and the value is one that the entry can have. */
    ghost predicate ValidLong(name: string, entry: nat, value: Option<string>, separate: bool) {
      && name != "" && '=' !in name && StandsFor(longs, name, entry)
      && match longs[entry].arity
         case NoArgument => value.None? && !separate
         case Possible => !separate
         case Required => value.Some?
    }

    /** What an item is for the caller of getopt. */
    function Means(item: Item): seq<Result> {
      match item
      case Operand(text) => if mode == ReturnInOrder then [InOrder(text)] else []
      case Cluster(letters, e) => Letters(letters) + EndingResults(e)
      case LongItem(_, entry, value, _) => [LongOption(entry, value)]
    }

    function AllMean(items: seq<Item>): seq<Result> {
      if items == [] then [] else Means(items[0]) + AllMean(items[1..])
    }

    /** An operand is passed over while permuting; all else is read. */
    function ItemTags(item: Item): seq<bool> {
      if item.Operand? then [mode == ReturnInOrder]
      else if |Words(item)| == 2 then [true] + [true] else [true]
    }

    function AllTags(items: seq<Item>): seq<bool> {
      if items == [] then [] else ItemTags(items[0]) + AllTags(items[1..])
    }

    /** The words stand at the arguments that come after those tagged. */
    ghost predicate Next(tags: seq<bool>, words: seq<string>) {
      var i := |tags| + 1;
      i + |words| <= |orig| && orig[i..i + |words|] == words
    }

    lemma NextSplit(tags: seq<bool>, a: seq<string>, b: seq<string>, more: seq<bool>)
      requires Next(tags, a + b) && |more| == |a|
      ensures Next(tags, a) && Next(tags + more, b)
    {
      var i := |tags| + 1;
      assert orig[i..i + |a|] == orig[i..i + |a + b|][..|a|] == a;
      assert orig[i + |a|..i + |a| + |b|] == orig[i..i + |a + b|][|a|..] == b;
    }

    /** A declared letter in a cluster, whatever follows it. */
    lemma LetterRead(tags: seq<bool>, c: char, rest: string, arity: Arity)
      requires LetterIs(c, arity) && |tags| + 1 < |orig| && !(longOptions && longOnly)
      requires arity == Required && rest == "" ==> |tags| + 2 < |orig|
      ensures var t := LetterTaken(tags, c, rest, arity);
        ScanFrom(tags, [c] + rest, false) == Before(t.0, ScanFrom(t.1, t.2, false))
    {
      hide WordAt, LongAt, ShortAt, ScanFrom;
      var place := [c] + rest;
      var i: nat :| DeclaredAt(options, c, i) && Ordinary(options, i, [c]) && ArityAt(options, i) == arity;
      assert place[0] == c && place[1..] == rest;
      ByArity(tags, place);
      assert Ordinary(options, i, place);
      FirstOption(tags, place, false);
    }

    lemma {:induction false} ClusterRead(tags: seq<bool>, letters: string, e: Ending)
      requires ValidItem(Cluster(letters, e)) && |tags| + 1 < |orig|
      requires e.Separate? ==> |tags| + 2 < |orig| && orig[|tags| + 2] == e.value
      ensures ScanFrom(tags, letters + EndingText(e), false)
           == Continued(Letters(letters) + EndingResults(e),
                        ScanFrom(tags + if e.Separate? then [true] + [true] else [true], "", false))
      decreases |letters|
    {
      hide ScanFrom, LetterIs;
      var after := ScanFrom(tags + if e.Separate? then [true] + [true] else [true], "", false);
      if letters == "" {
        EndingRead(tags, e);
        assert letters + EndingText(e) == EndingText(e) && Letters(letters) + EndingResults(e) == EndingResults(e);
      } else {
        var c, rest := letters[0], letters[1..] + EndingText(e);
        assert letters + EndingText(e) == [c] + rest;
        LetterRead(tags, c, rest, NoArgument);
        if rest == "" {
          assert Letters(letters) + EndingResults(e) == [Letter(c, None)];
        } else {
          ClusterRead(tags, letters[1..], e);
          JoinResults(Letter(c, None), Letters(letters[1..]), EndingResults(e), after);
        }
      }
    }

    lemma JoinResults(r: Result, a: seq<Result>, b: seq<Result>, scan: Scan)
      ensures Before(r, Continued(a + b, scan)) == Continued(([r] + a) + b, scan)
    {
    }

    lemma EndingRead(tags: seq<bool>, e: Ending)
      requires ValidEnding(e) && e != Nothing && |tags| + 1 < |orig| && !(longOptions && longOnly)
      requires e.Separate? ==> |tags| + 2 < |orig| && orig[|tags| + 2] == e.value
      ensures ScanFrom(tags, EndingText(e), false)
           == Continued(EndingResults(e), ScanFrom(tags + if e.Separate? then [true] + [true] else [true], "", false))
    {
      hide ScanFrom, LetterIs;
      match e
      case Attached(c, value) =>
        LetterRead(tags, c, value, if LetterIs(c, Required) then Required else Possible);
      case Separate(c, _) =>
        LetterRead(tags, c, "", Required);
        assert [c] + "" == [c] && tags + [true] + [true] == tags + ([true] + [true]);
      case Bare(c) =>
        LetterRead(tags, c, "", Possible);
        assert [c] + "" == [c];
    }

    lemma LongRead(tags: seq<bool>, name: string, entry: nat, value: Option<string>, separate: bool)
      requires ValidItem(LongItem(name, entry, value, separate)) && |tags| + 1 < |orig|
      requires separate ==> |tags| + 2 < |orig| && orig[|tags| + 2] == value.value
      ensures ScanFrom(tags, "-" + LongText(name, value, separate), false)
           == Before(LongOption(entry, value), ScanFrom(tags + if separate then [true] + [true] else [true], "", false))
    {
      hide ScanFrom, ShortAt, LongAt, LongText, StandsFor;
      var text := LongText(name, value, separate);
      var place := "-" + text;
      assert place[0] == '-' && place[1..] == text;
      LongNamed(tags, name, entry, value, separate, false);
      FirstOption(tags, place, false);
    }

    lemma LongNamed(tags: seq<bool>, name: string, entry: nat, value: Option<string>, separate: bool, shortToo: bool)
      requires ValidLong(name, entry, value, separate) && !(shortToo && |name| == 1)
      requires separate ==> |tags| + 2 < |orig| && orig[|tags| + 2] == value.value
      ensures LongAt(tags, LongText(name, value, separate), shortToo)
           == Some((LongOption(entry, value), tags + if separate then [true] + [true] else [true]))
    {
      hide LookupLong, LongText, StandsFor, KeyOf, AttachedTo;
      LongTextRead(name, value, separate);
      NameUnderstood(longs, name, entry, LongText(name, value, separate), shortToo);
      assert tags + [true] + [true] == tags + ([true] + [true]);
    }

    /** With long options only, one dash is enough for a name of more than one letter, even if it begins like a letter. */
    lemma OneDashRead(tags: seq<bool>, name: string, entry: nat, value: Option<string>, separate: bool)
      requires longOptions && longOnly && ValidLong(name, entry, value, separate) && |name| > 1 && name[0] != '-'
      requires |tags| + 1 < |orig| && (separate ==> |tags| + 2 < |orig| && orig[|tags| + 2] == value.value)
      ensures ScanFrom(tags, LongText(name, value, separate), false)
           == Before(LongOption(entry, value), ScanFrom(tags + if separate then [true] + [true] else [true], "", false))
    {
      hide ScanFrom, ShortAt, LongAt, StandsFor;
      var text := LongText(name, value, separate);
      assert text[0] == name[0];
      LongNamed(tags, name, entry, value, separate, name[0] != ':' && name[0] in options);
      FirstOption(tags, text, false);
    }

    /** -W is two dashes, for option strings that say so; the name is behind it or in the next argument. */
    lemma WordRead(tags: seq<bool>, i: nat, name: string, entry: nat, value: Option<string>)
      requires longOptions && !longOnly && DeclaredAt(options, 'W', i) && i + 1 < |options| && options[i + 1] == ';'
      requires ValidLong(name, entry, value, false) && |tags| + 1 < |orig|
      ensures ScanFrom(tags, "W" + LongText(name, value, false), false)
           == Before(LongOption(entry, value), ScanFrom(tags + [true], "", false))
      ensures |tags| + 2 < |orig| && orig[|tags| + 2] == LongText(name, value, false) ==>
        ScanFrom(tags, "W", false) == Before(LongOption(entry, value), ScanFrom(tags + ([true] + [true]), "", false))
    {
      hide ScanFrom, LongAt, StandsFor;
      var text := LongText(name, value, false);
      assert text != "" && ("W" + text)[0] == 'W' && ("W" + text)[1..] == text && "W"[1..] == "";
      DeclaredIndex(options, 'W', i);
      LongNamed(tags, name, entry, value, false, false);
      FirstOption(tags, "W" + text, false);
      if |tags| + 2 < |orig| && orig[|tags| + 2] == text {
        LongNamed(tags + [true], name, entry, value, false, false);
        FirstOption(tags, "W", false);
        assert tags + [true] + [true] == tags + ([true] + [true]);
      }
    }

    /** An argument that begins an option is read from its second character on. */
    lemma OptionBegins(tags: seq<bool>, arg: string)
      requires |tags| + 1 < |orig| && orig[|tags| + 1] == arg && |arg| > 1 && arg[0] == '-' && arg != "--"
      ensures ScanFrom(tags, "", false) == ScanFrom(tags, arg[1..], false)
    {
      hide OptionAt;
    }

    lemma OperandRead(tags: seq<bool>, text: string)
      requires ValidItem(Operand(text)) && |tags| + 1 < |orig| && orig[|tags| + 1] == text
      ensures ScanFrom(tags, "", false)
           == Continued(Means(Operand(text)), ScanFrom(tags + ItemTags(Operand(text)), "", false))
    {
      hide OptionAt;
      var rest := ScanFrom(tags + ItemTags(Operand(text)), "", false);
      assert [] + rest.results == rest.results;
    }

    /** One item of the command line. */
    lemma ItemRead(tags: seq<bool>, item: Item)
      requires ValidItem(item) && Next(tags, Words(item))
      ensures ScanFrom(tags, "", false) == Continued(Means(item), ScanFrom(tags + ItemTags(item), "", false))
    {
      hide ScanFrom, StandsFor, LetterIs;
      var words, i := Words(item), |tags| + 1;
      assert orig[i] == orig[i..i + |words|][0] == words[0];
      if |words| == 2 { assert orig[i + 1] == orig[i..i + |words|][1] == words[1]; }
      match item
      case Operand(text) => OperandRead(tags, text);
      case Cluster(letters, e) =>
        var place := letters + EndingText(e);
        ClusterStart(letters, e);
        assert ("-" + place)[1..] == place;
        OptionBegins(tags, words[0]);
        ClusterRead(tags, letters, e);
      case LongItem(name, entry, value, separate) =>
        var text := LongText(name, value, separate);
        assert ("--" + text)[1..] == "-" + text && text != "";
        OptionBegins(tags, words[0]);
        LongRead(tags, name, entry, value, separate);
    }

    lemma ClusterStart(letters: string, e: Ending)
      requires ValidItem(Cluster(letters, e))
      ensures var place := letters + EndingText(e); place != "" && place[0] != '-'
    {
      if letters != "" { assert LetterIs(letters[0], NoArgument); }
    }

    /** The whole command line up to where the options stop. */
    lemma {:induction false} ItemsRead(tags: seq<bool>, items: seq<Item>)
      requires (forall i :: 0 <= i < |items| ==> ValidItem(items[i])) && Next(tags, AllWords(items))
      ensures ScanFrom(tags, "", false) == Continued(AllMean(items), ScanFrom(tags + AllTags(items), "", false))
      decreases |items|
    {
      hide ScanFrom, ValidItem, Words, Means, ItemTags;
      var scan := ScanFrom(tags + AllTags(items), "", false);
      if items == [] {
        assert tags + [] == tags && [] + scan.results == scan.results;
      } else {
        var now := tags + ItemTags(items[0]);
        TagCount(items[0]);
        NextSplit(tags, Words(items[0]), AllWords(items[1..]), ItemTags(items[0]));
        ItemRead(tags, items[0]);
        ItemsRead(now, items[1..]);
        assert now + AllTags(items[1..]) == tags + AllTags(items);
        assert Means(items[0]) + (AllMean(items[1..]) + scan.results) == AllMean(items) + scan.results;
      }
    }

    lemma TagCount(item: Item)
      ensures |ItemTags(item)| == |Words(item)| > 0
    {
    }

    /** The argument vector is written from these items, up to where the options stop. */
    ghost predicate IsWritten(items: seq<Item>, stop: Stop) {
      && (forall i :: 0 <= i < |items| ==> ValidItem(items[i]))
      && (stop.AtOperand? ==> mode == RequireOrder && NonOption(stop.text))
      && |orig| > 0 && orig[1..] == AllWords(items) + StopWords(stop)
    }

    function StopResult(stop: Stop): Result {
      match stop
      case AtEnd => EndOfArgs
      case AtDashes(_) => DoubleDash
      case AtOperand(_, _) => StoppedHere
    }

    /** A written argument vector is scanned back to what it was written from. */
    lemma WrittenScanned(items: seq<Item>, stop: Stop)
      requires IsWritten(items, stop)
      ensures ScanFrom([], "", false)
           == Scan(AllMean(items) + [StopResult(stop)], AllTags(items) + if stop.AtDashes? then [true] else [])
    {
      hide ScanFrom, ValidItem;
      var tags := AllTags(items);
      AllTagCount(items);
      assert Next([], AllWords(items) + StopWords(stop)) by { assert orig[1..|orig|] == orig[1..]; }
      NextSplit([], AllWords(items), StopWords(stop), tags);
      ItemsRead([], items);
      assert [] + tags == tags && tags + [] == tags;
      StopRead(tags, stop);
    }

    lemma StopRead(tags: seq<bool>, stop: Stop)
      requires Next(tags, StopWords(stop)) && |orig| == |tags| + 1 + |StopWords(stop)|
      requires stop.AtOperand? ==> mode == RequireOrder && NonOption(stop.text)
      ensures ScanFrom(tags, "", false) == Scan([StopResult(stop)], tags + if stop.AtDashes? then [true] else [])
    {
      hide OptionAt;
      assert tags + [] == tags;
      if stop != AtEnd {
        assert orig[|tags| + 1] == orig[|tags| + 1..|tags| + 1 + |StopWords(stop)|][0] == StopWords(stop)[0];
      }
    }

    lemma {:induction false} AllTagCount(items: seq<Item>)
      ensures |AllTags(items)| == |AllWords(items)|
    {
      if items != [] {
        TagCount(items[0]);
        AllTagCount(items[1..]);
      }
    }

    lemma ThreeItems(a: Item, b: Item, c: Item)
      ensures AllWords([a, b, c]) == Words(a) + (Words(b) + Words(c))
      ensures AllMean([a, b, c]) == Means(a) + (Means(b) + Means(c))
    {
      hide Words, Means;
      assert [a, b, c][1..] == [b, c] && [b, c][1..] == [c] && [c][1..] == [];
      assert AllWords([c]) == Words(c) + [] == Words(c) && AllMean([c]) == Means(c) + [] == Means(c);
      assert AllWords([b, c]) == Words(b) + AllWords([c]) && AllMean([b, c]) == Means(b) + AllMean([c]);
    }

    lemma MinerLetters()
      requires options == MINER_OPTIONS
      ensures LetterIs('o', Required) && LetterIs('k', NoArgument)
    {
      assert DeclaredAt(options, 'o', 20) && Ordinary(options, 20, "o") && ArityAt(options, 20) == Required;
      assert DeclaredAt(options, 'k', 4) && Ordinary(options, 4, "k") && ArityAt(options, 4) == NoArgument;
    }

    /** A pool, a switch and an operand for the miner's own option string. */
    lemma PoolAndSwitch(name: string)
      requires options == MINER_OPTIONS && mode == PermuteNonOptions && !longOnly
      requires orig == [name] + ["-o", "pool:3333", "-k", "x"]
      ensures ScanFrom([], "", false).results == [Letter('o', Some("pool:3333")), Letter('k', None), EndOfArgs]
    {
      hide ScanFrom, LetterIs, AllWords, AllMean;
      var a, b, c := Cluster("", Separate('o', "pool:3333")), Cluster("k", Nothing), Operand("x");
      MinerLetters();
      ThreeItems(a, b, c);
      assert "-" + ("" + ['o']) == "-o" && "-" + ("k" + "") == "-k";
      assert Words(a) == ["-o", "pool:3333"] && Words(b) == ["-k"] && Words(c) == ["x"];
      assert Letters("k") == [Letter('k', None)];
      assert orig[1..] == AllWords([a, b, c]) + [];
      WrittenScanned([a, b, c], AtEnd);
    }

    /** Options and operands of a written command line, apart. */
    lemma {:induction false} ItemsPicked(items: seq<Item>)
      requires mode == PermuteNonOptions
      ensures |AllWords(items)| == |AllTags(items)|
      ensures Picked(AllWords(items), AllTags(items), true) == OptionWords(items)
      ensures Picked(AllWords(items), AllTags(items), false) == Operands(items)
    {
      hide Words, ItemTags;
      if items != [] {
        var w, t, words, tags := Words(items[0]), ItemTags(items[0]), AllWords(items[1..]), AllTags(items[1..]);
        TagCount(items[0]);
        ItemPicked(items[0]);
        ItemsPicked(items[1..]);
        PickedConcat(w, t, words, tags, true);
        PickedConcat(w, t, words, tags, false);
      }
    }

    lemma ItemPicked(item: Item)
      requires mode == PermuteNonOptions
      ensures |Words(item)| == |ItemTags(item)|
      ensures Picked(Words(item), ItemTags(item), true) == if item.Operand? then [] else Words(item)
      ensures Picked(Words(item), ItemTags(item), false) == if item.Operand? then [item.text] else []
    {
      var w := Words(item);
      if |w| == 2 {
        PickedConcat([w[0]], [true], [w[1]], [true], true);
        PickedConcat([w[0]], [true], [w[1]], [true], false);
        assert w == [w[0]] + [w[1]];
      } else {
        assert w == [w[0]];
      }
    }

    /** Where a scan of a written command line leaves the arguments: options first, then the operands, at optind. */
    lemma WrittenSorted(items: seq<Item>, stop: Stop, argv: seq<string>, first: nat)
      requires IsWritten(items, stop) && mode == PermuteNonOptions
      requires var read := AllTags(items) + if stop.AtDashes? then [true] else [];
        Sorted(argv, orig, read, |read| + 1, first)
      ensures |argv| == |orig| && first <= |argv|
      ensures argv[..first] == [orig[0]] + (OptionWords(items) + if stop.AtDashes? then ["--"] else [])
      ensures argv[first..] == Operands(items) + if stop.AtDashes? then stop.rest else []
    {
      hide IsWritten, Sorted, AllWords, AllTags, OptionWords, Operands;
      var last, dashes := if stop.AtDashes? then [true] else [], if stop.AtDashes? then ["--"] else [];
      WordsRead(items, stop);
      ItemsPicked(items);
      PickedConcat(AllWords(items), AllTags(items), dashes, last, true);
      PickedConcat(AllWords(items), AllTags(items), dashes, last, false);
      assert Operands(items) + [] == Operands(items);
      SortedAs(argv, orig, AllWords(items) + dashes, AllTags(items) + last, first, OptionWords(items) + dashes, Operands(items),
               if stop.AtDashes? then stop.rest else []);
    }

    lemma WordsRead(items: seq<Item>, stop: Stop)
      requires IsWritten(items, stop) && mode == PermuteNonOptions
      ensures var read := |AllWords(items)| + 1 + if stop.AtDashes? then 1 else 0;
        && |AllTags(items)| == |AllWords(items)| && read <= |orig|
        && orig[1..read] == AllWords(items) + (if stop.AtDashes? then ["--"] else [])
        && orig[read..] == if stop.AtDashes? then stop.rest else []
    {
      hide ValidItem, AllWords, AllTags;
      AllTagCount(items);
      var words, rest := AllWords(items) + (if stop.AtDashes? then ["--"] else []), if stop.AtDashes? then stop.rest else [];
      assert StopWords(stop) == (if stop.AtDashes? then ["--"] else []) + rest;
      Halves(orig[1..], words, rest);
    }

    lemma {:induction false} ReplayAllRead(tags: seq<bool>)
      requires forall i :: 0 <= i < |tags| ==> tags[i]
      ensures Replay(orig, tags) == State(orig, -1, -1)
    {
      if tags != [] { ReplayAllRead(tags[..|tags| - 1]); }
    }

    lemma {:induction false} AllTagsTrue(items: seq<Item>)
      requires mode == RequireOrder && forall i :: 0 <= i < |items| ==> ValidItem(items[i])
      ensures forall i :: 0 <= i < |AllTags(items)| ==> AllTags(items)[i]
    {
      if items != [] {
        assert ValidItem(items[0]);
        AllTagsTrue(items[1..]);
      }
    }

    /** What a whole scan comes to for a written command line. */
    ghost predicate ScannedBack(items: seq<Item>, stop: Stop, results: seq<Result>)
      reads this, nargv
    {
      && results == AllMean(items) + [StopResult(stop)] && nargv.Length == |orig| > 0 && optind <= |orig|
      && (mode == PermuteNonOptions ==>
            && nargv[..optind] == [orig[0]] + (OptionWords(items) + if stop.AtDashes? then ["--"] else [])
            && nargv[optind..] == Operands(items) + if stop.AtDashes? then stop.rest else [])
      && (stop.AtOperand? ==> nargv[..] == orig && optind == 1 + |AllWords(items)|)
    }

    lemma BackScanned(items: seq<Item>, stop: Stop, results: seq<Result>)
      requires IsWritten(items, stop) && Scan(results, tags) == ScanFrom([], "", false) && results != []
      requires var last := results[|results| - 1]; Ended(last) || (last.StoppedHere? && Valid())
      requires nargv.Length == |orig|
      ensures ScannedBack(items, stop, results)
    {
      hide ScanFrom, IsWritten, Replay, Sorted, Honest;
      WrittenScanned(items, stop);
      assert results[|results| - 1] == StopResult(stop);
      if stop.AtOperand? {
        StoppedAt(items, stop);
      } else {
        EndedAt(items, stop);
      }
    }

    lemma AllBackScanned(results: seq<Result>)
      requires Scan(results, tags) == ScanFrom([], "", false) && results != [] && nargv.Length == |orig|
      requires var last := results[|results| - 1]; Ended(last) || (last.StoppedHere? && Valid())
      ensures forall items, stop :: IsWritten(items, stop) ==> ScannedBack(items, stop, results)
    {
      forall items, stop | IsWritten(items, stop) ensures ScannedBack(items, stop, results) {
        BackScanned(items, stop, results);
      }
    }

    lemma StoppedAt(items: seq<Item>, stop: Stop)
      requires IsWritten(items, stop) && stop.AtOperand? && InStep() && tags == AllTags(items) + []
      ensures mode == RequireOrder && nargv[..] == orig && optind == 1 + |AllWords(items)| <= |orig|
    {
      hide ValidItem, Honest;
      AllTagsTrue(items);
      AllTagCount(items);
      assert tags + [] == tags;
      ReplayAllRead(tags);
    }

    lemma EndedAt(items: seq<Item>, stop: Stop)
      requires IsWritten(items, stop) && !stop.AtOperand? && Done() && nargv.Length == |orig|
      requires tags == AllTags(items) + if stop.AtDashes? then [true] else []
      ensures optind <= |orig|
      ensures mode == PermuteNonOptions ==>
        && nargv[..optind] == [orig[0]] + (OptionWords(items) + if stop.AtDashes? then ["--"] else [])
        && nargv[optind..] == Operands(items) + if stop.AtDashes? then stop.rest else []
    {
      hide IsWritten, Honest;
      SortedWithin(nargv[..], orig, tags, optind);
      if mode == PermuteNonOptions { WrittenSorted(items, stop, nargv[..], optind); }
    }

    /** One call of getopt_internal. */
    method GetoptInternal() returns (r: Result)
      requires Valid()
      modifies this`optind, this`nonoptStart, this`nonoptEnd, this`place, this`tags, nargv
      ensures Ended(r) || (Valid() && !r.EndOfArgs? && !r.DoubleDash?)
      ensures !Ended(r) && !r.StoppedHere? ==> optind > old(optind) || (optind == old(optind) && Shorter(old(place)))
      ensures ScanFrom(old(tags), old(place), false) == AfterResult(r, tags, place)
    {
      var wholeArgument := false;
      if place == "" {
        var ended;
        r, ended, wholeArgument := NextElement();
        if ended { return; }
      }
      FirstOption(tags, place, wholeArgument);
      r := OneOption(wholeArgument);
    }

    /** The cluster being read is further along than was, which is empty before a cluster is begun. */
    predicate Shorter(was: string)
      reads this
    {
      place != "" && (was == "" || |place| < |was|)
    }

    predicate Last(r: Result) { r.EndOfArgs? || r.DoubleDash? || r.StoppedHere? }

    /** Results that are out already, in front of those still to come. */
    ghost function Continued(results: seq<Result>, scan: Scan): Scan { Scan(results + scan.results, scan.tags) }

    lemma OneMoreResult(results: seq<Result>, r: Result, scan: Scan)
      ensures Continued(results, Before(r, scan)) == Continued(results + [r], scan)
    {
      assert results + ([r] + scan.results) == (results + [r]) + scan.results;
    }

    /** A whole getopt_long loop: calls until one returns -1. What it returned and which arguments it passed over are
        those of the original arguments, and these decide the final vector and optind. */
    method ScanAll() returns (last: Result, results: seq<Result>)
      requires Valid()
      modifies this`optind, this`nonoptStart, this`nonoptEnd, this`place, this`tags, nargv
      ensures Scan(results, tags) == ScanFrom(old(tags), old(place), false)
      ensures results != [] && last == results[|results| - 1]
      ensures Ended(last) || (last.StoppedHere? && Valid())
      ensures Ended(last) ==> var read := ScanFrom(old(tags), old(place), false).tags;
        Sorted(nargv[..], orig, read, |read| + 1, optind)
      ensures old(tags) == [] && old(place) == "" ==>
        forall items, stop :: IsWritten(items, stop) ==> ScannedBack(items, stop, results)
    {
      hide ScanFrom, IsWritten, ScannedBack, Sorted, Replay;
      results := [];
      while true
        invariant Valid()
        invariant ScanFrom(old(tags), old(place), false)
               == Continued(results, ScanFrom(tags, place, false))
        decreases nargv.Length - optind, place == "", |place|
      {
        last := GetoptInternal();
        if Last(last) {
          results := results + [last];
          if old(tags) == [] && old(place) == "" { AllBackScanned(results); }
          return;
        }
        OneMoreResult(results, last, ScanFrom(tags, place, false));
        results := results + [last];
      }
    }
  }

  /** A sorted vector holds the same arguments; past optind come the skipped ones, then the unread ones. */
  lemma SortedIsPermutation(argv: seq<string>, orig: seq<string>, tags: seq<bool>, read: nat, first: nat)
    requires Sorted(argv, orig, tags, read, first)
    ensures multiset(argv) == multiset(orig)
    ensures first <= read && argv[first..] == Picked(orig[1..read], tags, false) + orig[read..]
  {
    var options, others := Picked(orig[1..read], tags, true), Picked(orig[1..read], tags, false);
    PickedPartition(orig[1..read], tags);
    PickedLengths(orig[1..read], tags);
    assert multiset(orig) == multiset([orig[0]]) + multiset(orig[1..read]) + multiset(orig[read..]) by {
      assert orig == [orig[0]] + orig[1..read] + orig[read..];
    }
    assert argv[first..] == others + orig[read..] by {
      assert argv == ([orig[0]] + options) + (others + orig[read..]);
    }
  }

  lemma {:induction false} PickedLengths<T>(s: seq<T>, tags: seq<bool>)
    requires |s| == |tags|
    ensures |Picked(s, tags, true)| + |Picked(s, tags, false)| == |s|
  {
    if |s| > 0 { PickedLengths(s[..|s| - 1], tags[..|s| - 1]); }
  }
}
