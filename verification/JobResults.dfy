/** The result queue between mining threads and the main thread, as interleaved steps. */
module JobResults {

  /** Where the main thread is: outside the callback, before the swap, or delivering the result with this number. */
  datatype Consumer = Waiting | Called | Delivering(next: nat)

  /** The two vectors, the wake-up of the event loop, and what the listener was called with so far. */
  datatype State<R> = State(results: seq<R>, processing: seq<R>, wakeUp: bool, consumer: Consumer, delivered: seq<R>)

  /** The steps that take the lock, or need none, and cannot be interrupted. */
  datatype Step<R> = Submit(r: R) | Wake | Swap | Deliver | Finish

  function Initial<R>(): State<R> { State([], [], false, Waiting, []) }

  /** One step of any thread, and whether it can be taken. Wake-ups that are sent before the callback starts are one. */
  function Next<R>(s: State<R>, step: Step<R>): (t: (bool, State<R>)) {
    match step
    case Submit(r) => (true, s.(results := s.results + [r], wakeUp := true))
    case Wake => (s.wakeUp && s.consumer == Waiting, s.(wakeUp := false, consumer := Called))
    case Swap => (s.consumer == Called, s.(results := s.processing, processing := s.results, consumer := Delivering(0)))
    case Deliver =>
      if s.consumer.Delivering? && s.consumer.next < |s.processing| then
        (true, s.(delivered := s.delivered + [s.processing[s.consumer.next]], consumer := Delivering(s.consumer.next + 1)))
      else (false, s)
    case Finish =>
      (s.consumer.Delivering? && s.consumer.next >= |s.processing|, s.(processing := [], consumer := Waiting))
  }

  /** What the threads submit in a run, in order, whatever the steps do with it. */
  function Submitted<R>(steps: seq<Step<R>>): seq<R> {
    if steps == [] then [] else (if steps[0].Submit? then [steps[0].r] else []) + Submitted(steps[1..])
  }

  /** A thread is never kept from submitting, wherever the main thread is. */
  lemma SubmitNeverRefused<R>(s: State<R>, r: R)
    ensures Next(s, Submit(r)).0 && Submitted([Submit(r)]) == [r]
  {
    assert [Submit(r)][1..] == [];
  }

  /** The results that were swapped out and not delivered yet. */
  function Undelivered<R>(s: State<R>): seq<R> {
    if s.consumer.Delivering? && s.consumer.next <= |s.processing| then s.processing[s.consumer.next..] else s.processing
  }

  /** Of the submitted results nothing is lost, doubled or reordered, a waiting result has a wake-up, and nothing is left
      over at a swap. */
  ghost predicate Sound<R>(s: State<R>, submitted: seq<R>) {
    && s.delivered + (Undelivered(s) + s.results) == submitted
    && (s.results != [] ==> s.wakeUp || s.consumer == Called)
    && (!s.consumer.Delivering? ==> s.processing == [])
    && (s.consumer.Delivering? ==> s.consumer.next <= |s.processing|)
  }

  /** A run is a list of steps, each possible where it is taken. */
  ghost predicate IsRun<R>(s: State<R>, steps: seq<Step<R>>)
    decreases |steps|
  {
    steps == [] || (Next(s, steps[0]).0 && IsRun(Next(s, steps[0]).1, steps[1..]))
  }

  function After<R>(s: State<R>, steps: seq<Step<R>>): State<R>
    decreases |steps|
  {
    if steps == [] then s else After(Next(s, steps[0]).1, steps[1..])
  }

  lemma StepKeepsSound<R>(s: State<R>, submitted: seq<R>, step: Step<R>)
    requires Sound(s, submitted) && Next(s, step).0
    ensures Sound(Next(s, step).1, submitted + if step.Submit? then [step.r] else [])
  {
    match step
    case Submit(r) => Associate(s.delivered, Undelivered(s), s.results, [r]);
    case Deliver => DeliverKeepsSound(s, submitted);
    case _ => assert submitted + [] == submitted;
  }

  lemma DeliverKeepsSound<R>(s: State<R>, submitted: seq<R>)
    requires Sound(s, submitted) && Next(s, Deliver).0
    ensures Sound(Next(s, Deliver).1, submitted + [])
  {
    var x := Undelivered(s);
    assert x == [x[0]] + x[1..] && submitted + [] == submitted;
    Associate(s.delivered, [x[0]], x[1..], s.results);
  }

  lemma Associate<T>(a: seq<T>, b: seq<T>, c: seq<T>, d: seq<T>)
    ensures a + (b + (c + d)) == (a + (b + c)) + d == (a + b) + (c + d)
    ensures a + ((b + c) + d) == (a + b) + (c + d)
  {
  }

  /** Every run, whatever the threads do and whenever the event loop calls back. */
  lemma {:induction false} RunsAreSound<R>(s: State<R>, submitted: seq<R>, steps: seq<Step<R>>)
    requires Sound(s, submitted) && IsRun(s, steps)
    ensures Sound(After(s, steps), submitted + Submitted(steps))
    decreases |steps|
  {
    hide Sound, Next;
    if steps == [] {
      assert submitted + [] == submitted;
    } else {
      var first := if steps[0].Submit? then [steps[0].r] else [];
      StepKeepsSound(s, submitted, steps[0]);
      RunsAreSound(Next(s, steps[0]).1, submitted + first, steps[1..]);
      assert (submitted + first) + Submitted(steps[1..]) == submitted + Submitted(steps);
    }
  }

  lemma SoundFromStart<R>(steps: seq<Step<R>>)
    requires IsRun(Initial<R>(), steps)
    ensures Sound(After(Initial<R>(), steps), Submitted(steps))
  {
    assert Sound(Initial<R>(), []) by { assert Initial<R>().delivered + ([] + []) == []; }
    RunsAreSound(Initial<R>(), [], steps);
    assert [] + Submitted(steps) == Submitted(steps);
  }

  /** The listener hears what the run submits once each and in that order; the swap always takes an empty vector; with no
      wake-up pending and no callback under way it has heard all. */
  lemma DeliveredInOrder<R>(steps: seq<Step<R>>)
    requires IsRun(Initial<R>(), steps)
    ensures var s := After(Initial<R>(), steps);
      && s.delivered <= Submitted(steps)
      && (s.consumer == Called ==> s.processing == [])
      && (s.consumer == Waiting && !s.wakeUp ==> s.delivered == Submitted(steps))
  {
    SoundFromStart(steps);
    var s := After(Initial<R>(), steps);
    assert s.delivered <= s.delivered + (Undelivered(s) + s.results);
  }

  /** What the main thread does next on its own. */
  function ConsumerStep<R>(s: State<R>): Step<R> {
    match s.consumer
    case Waiting => Wake
    case Called => Swap
    case Delivering(i) => if i < |s.processing| then Deliver else Finish
  }

  /** The listener is called by the main thread only, once a step, while it is in the callback. */
  lemma ListenerCalls<R>(s: State<R>, step: Step<R>)
    requires Next(s, step).0
    ensures var calls := |Next(s, step).1.delivered| - |s.delivered|;
      s.delivered <= Next(s, step).1.delivered && calls == if step.Deliver? then 1 else 0
    ensures step.Deliver? ==> s.consumer.Delivering?
  {
  }

  /** What is left of the main thread's work. */
  ghost function Work<R>(s: State<R>): nat {
    4 * |s.results| + (if s.wakeUp then 4 else 0) + 2 * |Undelivered(s)|
    + match s.consumer case Waiting => 0 case Called => 3 case Delivering(_) => 1
  }

  /** The main thread can always go on while there is work for it. */
  lemma ConsumerNeverStuck<R>(s: State<R>, submitted: seq<R>)
    requires Sound(s, submitted) && !(s.consumer == Waiting && !s.wakeUp)
    ensures Next(s, ConsumerStep(s)).0 && Work(Next(s, ConsumerStep(s)).1) < Work(s)
  {
  }

  /** From every sound state the main thread alone finishes. */
  lemma {:induction false} WorkedOff<R>(s: State<R>, submitted: seq<R>) returns (rest: seq<Step<R>>)
    requires Sound(s, submitted)
    ensures IsRun(s, rest) && (forall i :: 0 <= i < |rest| ==> !rest[i].Submit?)
    ensures After(s, rest).delivered == submitted
    decreases Work(s)
  {
    if s.consumer == Waiting && !s.wakeUp {
      rest := [];
      assert s.delivered + ([] + []) == s.delivered;
    } else {
      var step := ConsumerStep(s);
      ConsumerNeverStuck(s, submitted);
      StepKeepsSound(s, submitted, step);
      assert submitted + [] == submitted;
      var more := WorkedOff(Next(s, step).1, submitted);
      rest := [step] + more;
      assert rest[1..] == more;
    }
  }

  /** When the threads stop submitting, after any run, the main thread alone delivers everything that the run submitted. */
  lemma EverythingDelivered<R>(steps: seq<Step<R>>) returns (rest: seq<Step<R>>)
    requires IsRun(Initial<R>(), steps)
    ensures IsRun(Initial<R>(), steps + rest) && (forall i :: 0 <= i < |rest| ==> !rest[i].Submit?)
    ensures After(Initial<R>(), steps + rest).delivered == Submitted(steps)
  {
    SoundFromStart(steps);
    rest := WorkedOff(After(Initial<R>(), steps), Submitted(steps));
    RunsJoin(Initial<R>(), steps, rest);
  }

  lemma {:induction false} RunsJoin<R>(s: State<R>, a: seq<Step<R>>, b: seq<Step<R>>)
    requires IsRun(s, a)
    ensures IsRun(s, a + b) == IsRun(After(s, a), b)
    ensures After(s, a + b) == After(After(s, a), b)
    decreases |a|
  {
    if a == [] {
      assert a + b == b;
    } else {
      RunsJoin(Next(s, a[0]).1, a[1..], b);
      assert (a + b)[1..] == a[1..] + b;
    }
  }
}
