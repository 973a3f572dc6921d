/** JSON values, the events that visiting one produces, and the document that rebuilds it from them. */
module Json {
  import opened Options
  import opened Words

  const TWO31 := 0x8000_0000
  const TWO63 := 0x8000_0000_0000_0000

  /** The flags of a number: which types its value can be read as. */
  datatype Flags = Flags(isInt: bool, isUint: bool, isInt64: bool, isUint64: bool, isDouble: bool)

  /** A number is its flags and the eight bytes of the union. */
  datatype Number = Number(flags: Flags, data: Word64)

  /** How the characters of a string are kept; short strings are copied into the value itself. */
  datatype Storage = Constant | Copied | Inline

  datatype Value = Null | Bool(b: bool) | Num(number: Number) | Str(chars: string, storage: Storage)
                 | Array(elements: seq<Value>) | Object(members: seq<Member>)
  datatype Member = Member(name: Value, value: Value)

  /** The two's complement bytes of an integer. */
  function Bytes(m: int): Word64
    requires -TWO63 <= m < TWO64
  {
    if m >= 0 then m else m + TWO64
  }

  /** The integer constructors; the tests on the high bits are written as comparisons. */
  function FromInt(i: int): Number
    requires -TWO31 <= i < TWO31
  {
    Number(Flags(true, i >= 0, true, i >= 0, false), Bytes(i))
  }

  function FromUint(u: int): Number
    requires 0 <= u < B
  {
    Number(if u / TWO31 % 2 == 1 then Flags(false, true, true, true, false) else Flags(true, true, true, true, false), u)
  }

  function FromInt64(i: int): Number
    requires -TWO63 <= i < TWO63
  {
    Number(if i >= 0 then Flags(i / TWO31 == 0, i / B == 0, true, true, false)
           else Flags(i >= -TWO31, false, true, false, false), Bytes(i))
  }

  function FromUint64(u: int): Number
    requires 0 <= u < TWO64
  {
    Number(Flags(u / TWO31 == 0, u / B == 0, u / TWO63 % 2 == 0, true, false), u)
  }

  function FromDouble(bits: Word64): Number { Number(Flags(false, false, false, false, true), bits) }

  /** The number that can be read as exactly the types its value fits. */
  function Exact(m: int): Number
    requires -TWO63 <= m < TWO64
  {
    Number(Flags(-TWO31 <= m < TWO31, 0 <= m < B, m < TWO63, 0 <= m, false), Bytes(m))
  }

  /** Every integer constructor sets exactly the flags of the types that its argument fits. */
  lemma ConstructorsExact(m: int)
    requires -TWO63 <= m < TWO64
    ensures -TWO31 <= m < TWO31 ==> FromInt(m) == Exact(m)
    ensures 0 <= m < B ==> FromUint(m) == Exact(m)
    ensures m < TWO63 ==> FromInt64(m) == Exact(m)
    ensures 0 <= m ==> FromUint64(m) == Exact(m)
  {
  }

  datatype Event = NullEvent | BoolEvent(b: bool) | IntEvent(i: int) | UintEvent(u: int) | Int64Event(i: int)
                 | Uint64Event(u: int) | DoubleEvent(bits: Word64) | StringEvent(chars: string, copy: bool)
                 | StartArray | EndArray(count: nat) | StartObject | EndObject(count: nat)

  /** The low half of the union as an int. */
  function LowInt(data: Word64): int {
    if data % B < TWO31 then data % B else data % B - B
  }

  function NumberEvent(n: Number): Event {
    if n.flags.isDouble then DoubleEvent(n.data)
    else if n.flags.isInt then IntEvent(LowInt(n.data))
    else if n.flags.isUint then UintEvent(n.data % B)
    else if n.flags.isInt64 then Int64Event(if n.data < TWO63 then n.data else n.data - TWO64)
    else Uint64Event(n.data)
  }

  /** Accept: the events of a value, in order. */
  function Events(v: Value): seq<Event> {
    match v
    case Null => [NullEvent]
    case Bool(b) => [BoolEvent(b)]
    case Num(n) => [NumberEvent(n)]
    case Str(chars, storage) => [StringEvent(chars, storage != Constant)]
    case Array(es) => [StartArray] + ElementEvents(es) + [EndArray(|es|)]
    case Object(ms) => [StartObject] + MemberEvents(ms) + [EndObject(|ms|)]
  }

  function ElementEvents(es: seq<Value>): seq<Event> {
    if es == [] then [] else Events(es[0]) + ElementEvents(es[1..])
  }

  function MemberEvents(ms: seq<Member>): seq<Event> {
    if ms == [] then [] else PairEvents(ms[0]) + MemberEvents(ms[1..])
  }

  function PairEvents(m: Member): seq<Event> { Events(m.name) + Events(m.value) }

  /** The longest string that is kept inside a value, with the 48-bit pointer layout. */
  const MAX_INLINE := 13

  function StringValue(chars: string, copy: bool): Value {
    Str(chars, if !copy then Constant else if |chars| <= MAX_INLINE then Inline else Copied)
  }

  /** A value as the constructors leave it; names are strings. */
  ghost predicate Constructed(v: Value) {
    match v
    case Null => true
    case Bool(_) => true
    case Num(n) => ConstructedNumber(n)
    case Str(chars, storage) => storage != Constant ==> storage == if |chars| <= MAX_INLINE then Inline else Copied
    case Array(es) => forall i :: 0 <= i < |es| ==> Constructed(es[i])
    case Object(ms) => forall i :: 0 <= i < |ms| ==> ms[i].name.Str? && Constructed(ms[i].name) && Constructed(ms[i].value)
  }

  ghost predicate ConstructedNumber(n: Number) {
    n == FromDouble(n.data) || exists m :: -TWO63 <= m < TWO64 && n == Exact(m)
  }

  /** The number that an event's constructor makes. */
  function NumberOf(e: Event): (v: Option<Number>)
  {
    match e
    case IntEvent(i) => if -TWO31 <= i < TWO31 then Some(FromInt(i)) else None
    case UintEvent(u) => if 0 <= u < B then Some(FromUint(u)) else None
    case Int64Event(i) => if -TWO63 <= i < TWO63 then Some(FromInt64(i)) else None
    case Uint64Event(u) => if 0 <= u < TWO64 then Some(FromUint64(u)) else None
    case DoubleEvent(bits) => Some(FromDouble(bits))
    case _ => None
  }

  /** An integer is visited as itself, as the first of int, unsigned, 64-bit int and 64-bit unsigned that it fits. */
  lemma VisitedAsFirstFit(m: int)
    requires -TWO63 <= m < TWO64
    ensures NumberEvent(Exact(m)) == if -TWO31 <= m < TWO31 then IntEvent(m) else if 0 <= m < B then UintEvent(m)
                                     else if m < TWO63 then Int64Event(m) else Uint64Event(m)
  {
    if 0 <= m < B { assert m % B == m; }
    if -TWO31 <= m < 0 { assert (m + TWO64) % B == m + B; }
  }

  /** A number is read as a type that it fits and comes back with its flags and bytes. */
  lemma NumberComesBack(n: Number)
    requires ConstructedNumber(n)
    ensures NumberOf(NumberEvent(n)) == Some(n)
  {
    if n != FromDouble(n.data) {
      hide Exact, NumberEvent, FromInt, FromUint, FromInt64, FromUint64;
      var m :| -TWO63 <= m < TWO64 && n == Exact(m);
      VisitedAsFirstFit(m);
      ConstructorsExact(m);
    }
  }

  /** A number made without a value has every flag; it is read as a double and comes back as one only. */
  lemma UnsetNumberBecomesDouble(data: Word64)
    ensures var n := Number(Flags(true, true, true, true, true), data); NumberOf(NumberEvent(n)) == Some(FromDouble(data)) != Some(n)
  {
  }

  /** The flags that come back are the flags that were there exactly for the numbers with a value. */
  lemma FlagsComeBack(n: Number)
    ensures NumberOf(NumberEvent(n)) == Some(n) <==> ConstructedNumber(n)
  {
    if ConstructedNumber(n) { NumberComesBack(n); }
    else if NumberOf(NumberEvent(n)) == Some(n) {
      match NumberEvent(n)
      case IntEvent(i) => ConstructorsExact(i);
      case UintEvent(u) => ConstructorsExact(u);
      case Int64Event(i) => ConstructorsExact(i);
      case Uint64Event(u) => ConstructorsExact(u);
      case _ =>
    }
  }

  /** The members made of n names and values in turn. */
  function Paired(flat: seq<Value>): seq<Member>
    requires |flat| % 2 == 0
  {
    if flat == [] then [] else [Member(flat[0], flat[1])] + Paired(flat[2..])
  }

  function Flattened(ms: seq<Member>): (flat: seq<Value>)
    ensures |flat| == 2 * |ms|
    ensures forall i :: 0 <= i < |ms| ==> flat[2 * i] == ms[i].name && flat[2 * i + 1] == ms[i].value
  {
    if ms == [] then [] else [ms[0].name, ms[0].value] + Flattened(ms[1..])
  }

  lemma {:induction false} PairedFlattened(ms: seq<Member>)
    ensures Paired(Flattened(ms)) == ms
  {
    if ms != [] {
      PairedFlattened(ms[1..]);
      assert Flattened(ms)[2..] == Flattened(ms[1..]);
    }
  }

  /** The document as a handler: every event pushes a value, and an end takes its elements off again. */
  class GenericDocument {
    var stack: seq<Value>
    ghost var heard: seq<Event>   // every event so far

    constructor ()
      ensures stack == [] && heard == []
    {
      stack, heard := [], [];
    }

    method Push(v: Value)
      modifies `stack
      ensures stack == old(stack) + [v]
    {
      stack := stack + [v];
    }

    /** Null, Bool, the number events and String. */
    method Scalar(e: Event) returns (ok: bool)
      requires e.NullEvent? || e.BoolEvent? || e.StringEvent? || NumberOf(e).Some?
      modifies this
      ensures ok && stack == old(stack) + [ScalarValue(e)] && heard == old(heard) + [e]
    {
      heard := heard + [e];
      Push(ScalarValue(e));
      return true;
    }

    method StartObject() returns (ok: bool)
      modifies this
      ensures ok && stack == old(stack) + [Object([])] && heard == old(heard) + [Event.StartObject]
    {
      heard := heard + [Event.StartObject];
      Push(Object([]));
      return true;
    }

    method StartArray() returns (ok: bool)
      modifies this
      ensures ok && stack == old(stack) + [Array([])] && heard == old(heard) + [Event.StartArray]
    {
      heard := heard + [Event.StartArray];
      Push(Array([]));
      return true;
    }

    /** Pops the members and puts them into the object below. */
    method EndObject(memberCount: nat) returns (ok: bool)
      requires |stack| > 2 * memberCount
      modifies this
      ensures ok && stack == Ended(old(stack), Object(Paired(old(stack)[|old(stack)| - 2 * memberCount..])), 2 * memberCount)
      ensures heard == old(heard) + [Event.EndObject(memberCount)]
    {
      heard := heard + [Event.EndObject(memberCount)];
      var members := Paired(stack[|stack| - 2 * memberCount..]);
      stack := stack[..|stack| - 2 * memberCount];
      stack := stack[|stack| - 1 := Object(members)];
      return true;
    }

    /** Pops the elements and puts them into the array below. */
    method EndArray(elementCount: nat) returns (ok: bool)
      requires |stack| > elementCount
      modifies this
      ensures ok && stack == Ended(old(stack), Array(old(stack)[|old(stack)| - elementCount..]), elementCount)
      ensures heard == old(heard) + [Event.EndArray(elementCount)]
    {
      heard := heard + [Event.EndArray(elementCount)];
      var elements := stack[|stack| - elementCount..];
      stack := stack[..|stack| - elementCount];
      stack := stack[|stack| - 1 := Array(elements)];
      return true;
    }

    /** Accept with this document as the handler: one value more on the stack, equal to v, and nothing below it changed. */
    method Accept(v: Value) returns (ok: bool)
      requires Constructed(v)
      modifies this
      ensures ok && stack == old(stack) + [v] && heard == old(heard) + Events(v)
      decreases v, 1
    {
      match v
      case Object(ms) =>
        ok := StartObject();
        AcceptMembers(ms, v);
        AfterMembers(old(stack), ms);
        ok := EndObject(|ms|);
        Between(old(heard), Event.StartObject, MemberEvents(ms), Event.EndObject(|ms|));
      case Array(es) =>
        ok := StartArray();
        AcceptElements(es, v);
        AfterElements(old(stack), es);
        ok := EndArray(|es|);
        Between(old(heard), Event.StartArray, ElementEvents(es), Event.EndArray(|es|));
      case _ =>
        ScalarsComeBack(v);
        ok := Scalar(Events(v)[0]);
        assert Events(v) == [Events(v)[0]];
    }

    method AcceptMembers(ms: seq<Member>, ghost parent: Value)
      requires parent == Object(ms) && Constructed(parent)
      modifies this
      ensures stack == old(stack) + Flattened(ms) && heard == old(heard) + MemberEvents(ms)
      decreases parent, 0
    {
      for i := 0 to |ms|
        invariant stack == old(stack) + Flattened(ms[..i]) && heard == old(heard) + MemberEvents(ms[..i])
      {
        MemberEventsAt(ms[..i + 1], i);
        assert ms[..i + 1][..i] == ms[..i] && ms[..i + 1][i + 1..] == [];
        var ok := Accept(ms[i].name);
        ok := Accept(ms[i].value);
        FlattenedNext(old(stack), ms, i);
        HeardPair(old(heard), MemberEvents(ms[..i]), Events(ms[i].name), Events(ms[i].value));
      }
      assert ms[..|ms|] == ms;
    }

    method AcceptElements(es: seq<Value>, ghost parent: Value)
      requires parent == Array(es) && Constructed(parent)
      modifies this
      ensures stack == old(stack) + es && heard == old(heard) + ElementEvents(es)
      decreases parent, 0
    {
      for i := 0 to |es|
        invariant stack == old(stack) + es[..i] && heard == old(heard) + ElementEvents(es[..i])
      {
        ElementEventsAt(es[..i + 1], i);
        assert es[..i + 1][..i] == es[..i] && es[..i + 1][i + 1..] == [];
        var ok := Accept(es[i]);
        HeardNext(old(heard), ElementEvents(es[..i]), Events(es[i]));
      }
      assert es[..|es|] == es;
    }
  }

  lemma Between(heard: seq<Event>, start: Event, inner: seq<Event>, end: Event)
    ensures ((heard + [start]) + inner) + [end] == heard + ([start] + inner + [end])
  {
  }

  lemma HeardNext(heard: seq<Event>, before: seq<Event>, next: seq<Event>)
    ensures (heard + before) + next == heard + (before + (next + []))
  {
  }

  lemma HeardPair(heard: seq<Event>, before: seq<Event>, name: seq<Event>, value: seq<Event>)
    ensures ((heard + before) + name) + value == heard + (before + (name + (value + [])))
  {
  }

  /** Elements are visited from the first to the last. */
  lemma {:induction false} ElementEventsAt(es: seq<Value>, i: nat)
    requires i < |es|
    ensures ElementEvents(es) == ElementEvents(es[..i]) + (Events(es[i]) + ElementEvents(es[i + 1..]))
    decreases |es|
  {
    hide Events;
    if i == 0 {
      assert es[..0] == [];
    } else {
      ElementEventsAt(es[1..], i - 1);
      assert es[1..][..i - 1] == es[..i][1..] && es[1..][i..] == es[i + 1..];
      assert ElementEvents(es[..i]) == Events(es[0]) + ElementEvents(es[..i][1..]);
    }
  }

  /** Members are visited from the first to the last, each name in front of its value. */
  lemma {:induction false} MemberEventsAt(ms: seq<Member>, i: nat)
    requires i < |ms|
    ensures MemberEvents(ms)
         == MemberEvents(ms[..i]) + (Events(ms[i].name) + (Events(ms[i].value) + MemberEvents(ms[i + 1..])))
    decreases |ms|
  {
    hide Events;
    if i == 0 {
      assert ms[..0] == [];
    } else {
      MemberEventsAt(ms[1..], i - 1);
      assert ms[1..][..i - 1] == ms[..i][1..] && ms[1..][i..] == ms[i + 1..];
      assert MemberEvents(ms[..i]) == PairEvents(ms[0]) + MemberEvents(ms[..i][1..]);
    }
  }

  /** The value of a scalar event. */
  function ScalarValue(e: Event): Value
    requires e.NullEvent? || e.BoolEvent? || e.StringEvent? || NumberOf(e).Some?
  {
    match e
    case NullEvent => Null
    case BoolEvent(b) => Bool(b)
    case StringEvent(chars, copy) => StringValue(chars, copy)
    case _ => Num(NumberOf(e).value)
  }

  lemma ScalarsComeBack(v: Value)
    requires Constructed(v) && !v.Array? && !v.Object?
    ensures var e := Events(v)[0];
      && (e.NullEvent? || e.BoolEvent? || e.StringEvent? || NumberOf(e).Some?) && ScalarValue(e) == v && |Events(v)| == 1
  {
    if v.Num? { NumberComesBack(v.number); }
  }

  /** The stack after n values were replaced, with the container below them, by the finished container. */
  function Ended(stack: seq<Value>, v: Value, n: nat): seq<Value>
    requires n < |stack|
  {
    stack[..|stack| - n - 1] + [v]
  }

  lemma TopOfStack(stack: seq<Value>, container: Value, top: seq<Value>)
    ensures var s := stack + [container] + top; s[|s| - |top|..] == top && s[..|s| - |top| - 1] == stack
  {
  }

  lemma AfterMembers(stack: seq<Value>, ms: seq<Member>)
    ensures var s := stack + [Object([])] + Flattened(ms);
      && Ended(s, Object(Paired(s[|s| - 2 * |ms|..])), 2 * |ms|) == stack + [Object(ms)]
  {
    TopOfStack(stack, Object([]), Flattened(ms));
    PairedFlattened(ms);
  }

  lemma AfterElements(stack: seq<Value>, es: seq<Value>)
    ensures var s := stack + [Array([])] + es; Ended(s, Array(s[|s| - |es|..]), |es|) == stack + [Array(es)]
  {
    TopOfStack(stack, Array([]), es);
  }

  lemma {:induction false} FlattenedAppend(ms: seq<Member>, m: Member)
    ensures Flattened(ms + [m]) == Flattened(ms) + [m.name, m.value]
  {
    if ms == [] {
      assert [] + [m] == [m];
    } else {
      FlattenedAppend(ms[1..], m);
      assert (ms + [m])[1..] == ms[1..] + [m];
    }
  }

  lemma FlattenedNext(stack: seq<Value>, ms: seq<Member>, i: nat)
    requires i < |ms|
    ensures (stack + Flattened(ms[..i]) + [ms[i].name]) + [ms[i].value] == stack + Flattened(ms[..i + 1])
  {
    FlattenedAppend(ms[..i], ms[i]);
    assert ms[..i] + [ms[i]] == ms[..i + 1];
  }

  /** What one event does to the document's stack; None where the stack is too short. */
  function Step(stack: seq<Value>, e: Event): Option<seq<Value>> {
    match e
    case StartArray => Some(stack + [Array([])])
    case StartObject => Some(stack + [Object([])])
    case EndArray(n) => if |stack| <= n then None else Some(Ended(stack, Array(stack[|stack| - n..]), n))
    case EndObject(n) =>
      if |stack| <= 2 * n then None else Some(Ended(stack, Object(Paired(stack[|stack| - 2 * n..])), 2 * n))
    case NullEvent => Some(stack + [Null])
    case BoolEvent(b) => Some(stack + [Bool(b)])
    case StringEvent(chars, copy) => Some(stack + [StringValue(chars, copy)])
    case _ => if NumberOf(e).None? then None else Some(stack + [Num(NumberOf(e).value)])
  }

  function Replay(stack: seq<Value>, events: seq<Event>): Option<seq<Value>>
    decreases |events|
  {
    if events == [] then Some(stack) else
      var next := Step(stack, events[0]);
      if next.None? then None else Replay(next.value, events[1..])
  }

  lemma {:induction false} ReplayConcat(stack: seq<Value>, a: seq<Event>, b: seq<Event>)
    ensures Replay(stack, a + b) == if Replay(stack, a).None? then None else Replay(Replay(stack, a).value, b)
    decreases |a|
  {
    if a == [] {
      assert [] + b == b;
    } else {
      assert (a + b)[1..] == a[1..] + b;
      var next := Step(stack, a[0]);
      if next.Some? { ReplayConcat(next.value, a[1..], b); }
    }
  }

  /** Replaying the events of a value pushes exactly that value. */
  lemma {:induction false} ReplayRebuilds(stack: seq<Value>, v: Value)
    requires Constructed(v)
    ensures Replay(stack, Events(v)) == Some(stack + [v])
    decreases v, 1
  {
    match v
    case Array(es) =>
      ReplayElements(stack + [Array([])], es, v);
      ReplayArray(stack, es);
    case Object(ms) =>
      ReplayMembers(stack + [Object([])], ms, v);
      ReplayObject(stack, ms);
    case _ =>
      ReplayScalar(stack, v);
  }

  lemma ReplayScalar(stack: seq<Value>, v: Value)
    requires Constructed(v) && !v.Array? && !v.Object?
    ensures Replay(stack, Events(v)) == Some(stack + [v])
  {
    ScalarsComeBack(v);
    var e := Events(v)[0];
    assert Events(v) == [e] && [e][1..] == [];
    assert Step(stack, e) == Some(stack + [v]);
  }

  lemma ReplayArray(stack: seq<Value>, es: seq<Value>)
    requires Replay(stack + [Array([])], ElementEvents(es)) == Some(stack + [Array([])] + es)
    ensures Replay(stack, Events(Array(es))) == Some(stack + [Array(es)])
  {
    hide ElementEvents, Ended;
    AfterElements(stack, es);
    Bracketed(stack, StartArray, ElementEvents(es), EndArray(|es|), stack + [Array([])] + es);
  }

  lemma ReplayObject(stack: seq<Value>, ms: seq<Member>)
    requires Replay(stack + [Object([])], MemberEvents(ms)) == Some(stack + [Object([])] + Flattened(ms))
    ensures Replay(stack, Events(Object(ms))) == Some(stack + [Object(ms)])
  {
    hide Flattened, Paired, MemberEvents, Ended;
    AfterMembers(stack, ms);
    Bracketed(stack, StartObject, MemberEvents(ms), EndObject(|ms|), stack + [Object([])] + Flattened(ms));
  }

  lemma {:induction false} ReplayElements(stack: seq<Value>, es: seq<Value>, parent: Value)
    requires forall i :: 0 <= i < |es| ==> Constructed(es[i]) && es[i] < parent
    ensures Replay(stack, ElementEvents(es)) == Some(stack + es)
    decreases parent, 0, |es|
  {
    if es == [] {
      assert stack + [] == stack;
    } else {
      ReplayRebuilds(stack, es[0]);
      ReplayElements(stack + [es[0]], es[1..], parent);
      ReplayConcat(stack, Events(es[0]), ElementEvents(es[1..]));
      assert stack + [es[0]] + es[1..] == stack + es;
    }
  }

  lemma {:induction false} ReplayMembers(stack: seq<Value>, ms: seq<Member>, parent: Value)
    requires forall i :: 0 <= i < |ms| ==>
      Constructed(ms[i].name) && Constructed(ms[i].value) && ms[i].name < parent && ms[i].value < parent
    ensures Replay(stack, MemberEvents(ms)) == Some(stack + Flattened(ms))
    decreases parent, 0, |ms|
  {
    if ms == [] {
      assert stack + [] == stack;
    } else {
      var m, rest := ms[0], ms[1..];
      var next := stack + [m.name] + [m.value];
      ReplayRebuilds(stack, m.name);
      ReplayRebuilds(stack + [m.name], m.value);
      ReplayPair(stack, m);
      ReplayMembers(next, rest, parent);
      ReplayConcat(stack, PairEvents(m), MemberEvents(rest));
      assert next + Flattened(rest) == stack + Flattened(ms) by { PushPair(stack, m.name, m.value, Flattened(rest)); }
    }
  }

  lemma PushPair(stack: seq<Value>, a: Value, b: Value, rest: seq<Value>)
    ensures stack + [a] + [b] + rest == stack + ([a, b] + rest)
  {
  }

  lemma ReplayPair(stack: seq<Value>, m: Member)
    requires Replay(stack, Events(m.name)) == Some(stack + [m.name])
    requires Replay(stack + [m.name], Events(m.value)) == Some(stack + [m.name] + [m.value])
    ensures Replay(stack, PairEvents(m)) == Some(stack + [m.name] + [m.value])
  {
    ReplayConcat(stack, Events(m.name), Events(m.value));
  }

  lemma Bracketed(stack: seq<Value>, start: Event, inner: seq<Event>, end: Event, inside: seq<Value>)
    requires Step(stack, start).Some? && Replay(Step(stack, start).value, inner) == Some(inside)
    ensures Replay(stack, [start] + inner + [end]) == Step(inside, end)
  {
    var all := [start] + inner + [end];
    assert all[1..] == inner + [end];
    ReplayConcat(Step(stack, start).value, inner, [end]);
    assert [end][1..] == [];
  }

  /** Different values have different events. */
  lemma EventsInjective(v: Value, w: Value)
    requires Constructed(v) && Constructed(w) && Events(v) == Events(w)
    ensures v == w
  {
    ReplayRebuilds([], v);
    ReplayRebuilds([], w);
    assert ([] + [v])[0] == ([] + [w])[0];
  }
}
