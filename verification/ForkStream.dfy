/**
 * A stream forked to two consumers: one producer task that sends every item down two
 * unbounded channels, two consumers that receive or hang up at any time, all steps
 * interleaved freely.
 */
module ForkStream {
  /** What pulling the input yields; the input ends where the sequence does. */
  datatype Pull<T> = Item(item: T) | Failure

  /** The producer's belief that a side listens, and the receiving end of its channel. */
  datatype Side<T> = Side(open: bool, alive: bool, queue: seq<T>, received: seq<T>)

  datatype Phase<T> = Pulling | SendingLeft(item: T) | SendingRight(item: T) | Checking | Stopped

  datatype State<T> = State(input: seq<Pull<T>>, pulled: nat, phase: Phase<T>, left: Side<T>, right: Side<T>)

  datatype Step = Produce | ReceiveLeft | ReceiveRight | DropLeft | DropRight

  function Start<T>(input: seq<Pull<T>>): State<T> {
    State(input, 0, Pulling, Side(true, true, [], []), Side(true, true, [], []))
  }

  /** Sending fails only when the receiver is gone. */
  function Send<T>(side: Side<T>, item: T): Side<T> {
    if !side.open then side
    else if side.alive then side.(queue := side.queue + [item])
    else side.(open := false)
  }

  function Receive<T>(side: Side<T>): Side<T> {
    if side.alive && side.queue != [] then side.(queue := side.queue[1..], received := side.received + [side.queue[0]])
    else side
  }

  /** A dropped receiver takes its queue with it. */
  function Drop<T>(side: Side<T>): Side<T> {
    side.(alive := false, queue := [])
  }

  function Produced<T>(s: State<T>): State<T> {
    match s.phase
    case Pulling =>
      if s.pulled < |s.input| && s.input[s.pulled].Item?
      then s.(pulled := s.pulled + 1, phase := SendingLeft(s.input[s.pulled].item))
      else s.(phase := Stopped)
    case SendingLeft(item) => s.(left := Send(s.left, item), phase := SendingRight(item))
    case SendingRight(item) => s.(right := Send(s.right, item), phase := Checking)
    case Checking => s.(phase := if !s.left.open && !s.right.open then Stopped else Pulling)
    case Stopped => s
  }

  function Next<T>(s: State<T>, step: Step): State<T> {
    match step
    case Produce => Produced(s)
    case ReceiveLeft => s.(left := Receive(s.left))
    case ReceiveRight => s.(right := Receive(s.right))
    case DropLeft => s.(left := Drop(s.left))
    case DropRight => s.(right := Drop(s.right))
  }

  function Run<T>(s: State<T>, steps: seq<Step>): State<T> {
    if steps == [] then s else Next(Run(s, steps[..|steps| - 1]), steps[|steps| - 1])
  }

  // ---- What the sides may hold

  /** The items before the first failure, at most `n` of them. */
  function Items<T>(input: seq<Pull<T>>, n: nat): seq<T> {
    if n == 0 || input == [] || input[0].Failure? then [] else [input[0].item] + Items(input[1..], n - 1)
  }

  function AllItems<T>(input: seq<Pull<T>>): seq<T> {
    Items(input, |input|)
  }

  /** How many items have been offered to each side. */
  function OfferedLeft<T>(s: State<T>): int {
    if s.phase.SendingLeft? then s.pulled - 1 else s.pulled
  }

  function OfferedRight<T>(s: State<T>): int {
    if s.phase.SendingLeft? || s.phase.SendingRight? then s.pulled - 1 else s.pulled
  }

  /** A live side holds, received and queued in order, exactly what was offered; a dropped one received a prefix of
      it. */
  predicate Faithful<T(==)>(input: seq<Pull<T>>, offered: nat, side: Side<T>) {
    && (side.alive ==> side.open && side.received + side.queue == Items(input, offered))
    && (!side.alive ==> side.queue == [] && side.received <= Items(input, offered))
  }

  predicate Sending<T(==)>(s: State<T>)
    requires s.pulled <= |s.input|
  {
    match s.phase
    case SendingLeft(item) => s.pulled > 0 && s.input[s.pulled - 1] == Item(item)
    case SendingRight(item) => s.pulled > 0 && s.input[s.pulled - 1] == Item(item)
    case _ => true
  }

  /** Why the producer stopped. */
  predicate Ended<T>(s: State<T>)
    requires s.pulled <= |s.input|
  {
    || s.pulled == |s.input|
    || s.input[s.pulled].Failure?
    || (!s.left.open && !s.right.open && !s.left.alive && !s.right.alive)
  }

  ghost predicate Invariant<T>(s: State<T>) {
    && s.pulled <= |s.input| && (forall i :: 0 <= i < s.pulled ==> s.input[i].Item?)
    && Sending(s)
    && OfferedLeft(s) >= 0 && Faithful(s.input, OfferedLeft(s), s.left)
    && OfferedRight(s) >= 0 && Faithful(s.input, OfferedRight(s), s.right)
    && (s.phase.Stopped? ==> Ended(s))
    && (!s.left.open && !s.right.open ==> s.phase.SendingRight? || s.phase.Checking? || s.phase.Stopped?)
  }

  lemma {:induction false} OneMoreItem<T>(input: seq<Pull<T>>, n: nat)
    requires n < |input| && forall i :: 0 <= i <= n ==> input[i].Item?
    ensures Items(input, n + 1) == Items(input, n) + [input[n].item]
  {
    if n > 0 {
      OneMoreItem(input[1..], n - 1);
    }
  }

  lemma {:induction false} SendKeeps<T>(input: seq<Pull<T>>, offered: nat, side: Side<T>)
    requires offered < |input| && (forall i :: 0 <= i <= offered ==> input[i].Item?) && Faithful(input, offered, side)
    ensures Faithful(input, offered + 1, Send(side, input[offered].item))
  {
    OneMoreItem(input, offered);
    if side.alive {
      assert side.received + (side.queue + [input[offered].item]) ==
             (side.received + side.queue) + [input[offered].item];
    }
  }

  lemma {:induction false} ConsumerKeeps<T>(input: seq<Pull<T>>, offered: nat, side: Side<T>)
    requires Faithful(input, offered, side)
    ensures Faithful(input, offered, Receive(side)) && Faithful(input, offered, Drop(side))
    ensures Receive(side).open == side.open && Drop(side).open == side.open
  {
    if side.alive && side.queue != [] {
      assert (side.received + [side.queue[0]]) + side.queue[1..] == side.received + side.queue;
    }
  }

  lemma {:induction false} ProducerKeeps<T>(s: State<T>)
    requires Invariant(s)
    ensures Invariant(Produced(s))
  {
    hide Items;
    match s.phase {
      case SendingLeft(item) => SendKeeps(s.input, s.pulled - 1, s.left);
      case SendingRight(item) => SendKeeps(s.input, s.pulled - 1, s.right);
      case _ =>
    }
  }

  lemma {:induction false} StepKeeps<T>(s: State<T>, step: Step)
    requires Invariant(s)
    ensures Invariant(Next(s, step))
  {
    hide Items;
    ConsumerKeeps(s.input, OfferedLeft(s), s.left);
    ConsumerKeeps(s.input, OfferedRight(s), s.right);
    if step.Produce? {
      ProducerKeeps(s);
    }
  }

  /** Every interleaving keeps the invariant. */
  lemma {:induction false} RunKeeps<T>(input: seq<Pull<T>>, steps: seq<Step>)
    ensures Invariant(Run(Start(input), steps)) && Run(Start(input), steps).input == input
  {
    if steps != [] {
      RunKeeps(input, steps[..|steps| - 1]);
      StepKeeps(Run(Start(input), steps[..|steps| - 1]), steps[|steps| - 1]);
    }
  }

  lemma {:induction false} ItemsEnd<T>(input: seq<Pull<T>>, n: nat)
    requires n <= |input| && (forall i :: 0 <= i < n ==> input[i].Item?) && (n == |input| || input[n].Failure?)
    ensures Items(input, n) == AllItems(input)
  {
    if n > 0 {
      ItemsEnd(input[1..], n - 1);
    }
  }

  /** Once the producer stops, a side that was never dropped has or will get every item, whatever the other side did. */
  lemma {:induction false} NothingLost<T>(input: seq<Pull<T>>, steps: seq<Step>)
    ensures var s := Run(Start(input), steps);
            && (s.phase.Stopped? && s.left.alive ==> s.left.received + s.left.queue == AllItems(input))
            && (s.phase.Stopped? && s.right.alive ==> s.right.received + s.right.queue == AllItems(input))
  {
    hide Run, Items;
    var s := Run(Start(input), steps);
    RunKeeps(input, steps);
    if s.phase.Stopped? && (s.left.alive || s.right.alive) {
      ItemsEnd(input, s.pulled);
    }
  }

  // ---- Receiving

  /** A receive step of a live side with something queued hands it exactly the input's next item. */
  lemma {:induction false} ReceiveDelivers<T>(input: seq<Pull<T>>, steps: seq<Step>)
    ensures var s := Run(Start(input), steps);
            var l, r := Next(s, ReceiveLeft).left.received, Next(s, ReceiveRight).right.received;
            && (s.left.alive && s.left.queue != [] ==>
                |l| == |s.left.received| + 1 <= |AllItems(input)| && l == AllItems(input)[..|l|])
            && (s.right.alive && s.right.queue != [] ==>
                |r| == |s.right.received| + 1 <= |AllItems(input)| && r == AllItems(input)[..|r|])
  {
    hide Run, Items;
    var s := Run(Start(input), steps);
    RunKeeps(input, steps);
    ItemsPrefix(input, OfferedLeft(s));
    ItemsPrefix(input, OfferedRight(s));
  }

  /** Hanging up is final: the side keeps what it received, and neither receives nor holds anything more. */
  lemma {:induction false} DroppedIsGone<T>(s: State<T>, more: seq<Step>)
    ensures var l, r := Run(Next(s, DropLeft), more).left, Run(Next(s, DropRight), more).right;
            && !l.alive && l.queue == [] && l.received == s.left.received
            && !r.alive && r.queue == [] && r.received == s.right.received
  {
    if more != [] {
      DroppedIsGone(s, more[..|more| - 1]);
    }
  }

  function CountSteps(steps: seq<Step>, step: Step): nat {
    if steps == [] then 0
    else CountSteps(steps[..|steps| - 1], step) + if steps[|steps| - 1] == step then 1 else 0
  }

  lemma {:induction false} RunAppends<T>(s: State<T>, steps: seq<Step>, more: seq<Step>)
    ensures Run(s, steps + more) == Run(Run(s, steps), more)
  {
    if more == [] {
      assert steps + more == steps;
    } else {
      var front := more[..|more| - 1];
      assert (steps + more)[..|steps + more| - 1] == steps + front;
      RunAppends(s, steps, front);
    }
  }

  /** What a side is after it has received this often and been sent nothing. */
  function Drained<T>(side: Side<T>, n: nat): Side<T> {
    if n <= |side.queue| then side.(queue := side.queue[n..], received := side.received + side.queue[..n])
    else side.(queue := [], received := side.received + side.queue)
  }

  /** Once the producer has stopped, a side only ever hands over its queue, one item for each receive step. */
  lemma {:induction false} QueueDrains<T>(s: State<T>, more: seq<Step>)
    requires s.phase.Stopped?
    ensures Run(s, more).phase.Stopped?
    ensures s.left.alive && DropLeft !in more ==>
            Run(s, more).left == Drained(s.left, CountSteps(more, ReceiveLeft))
    ensures s.right.alive && DropRight !in more ==>
            Run(s, more).right == Drained(s.right, CountSteps(more, ReceiveRight))
  {
    hide Drained, Receive;
    if more == [] {
      QueueStep(s.left, 0);
      QueueStep(s.right, 0);
    } else {
      var front, last := more[..|more| - 1], more[|more| - 1];
      assert more == front + [last];
      QueueDrains(s, front);
      QueueStep(s.left, CountSteps(front, ReceiveLeft));
      QueueStep(s.right, CountSteps(front, ReceiveRight));
    }
  }

  lemma {:induction false} QueueStep<T>(side: Side<T>, n: nat)
    ensures Drained(side, 0) == side && (side.alive ==> Receive(Drained(side, n)) == Drained(side, n + 1))
  {
    assert side.queue[0..] == side.queue && side.received + side.queue[..0] == side.received;
    if n < |side.queue| {
      assert side.queue[n..][1..] == side.queue[n + 1..];
      assert side.received + side.queue[..n] + [side.queue[n]] == side.received + side.queue[..n + 1];
    }
  }

  /** Neither side ever receives anything but the input's items in order. */
  lemma {:induction false} ReceivesInOrder<T>(input: seq<Pull<T>>, steps: seq<Step>)
    ensures var s := Run(Start(input), steps);
            s.left.received <= AllItems(input) && s.right.received <= AllItems(input)
  {
    hide Run;
    var s := Run(Start(input), steps);
    RunKeeps(input, steps);
    ItemsPrefix(input, OfferedLeft(s));
    ItemsPrefix(input, OfferedRight(s));
  }

  lemma {:induction false} ItemsPrefix<T>(input: seq<Pull<T>>, n: nat)
    requires n <= |input|
    ensures Items(input, n) <= AllItems(input)
  {
    if n > 0 && input[0].Item? {
      ItemsPrefix(input[1..], n - 1);
    }
  }

  /** A failing input is indistinguishable from one that ends there, in every interleaving. */
  lemma {:induction false} FailureLooksLikeEnd<T>(items: seq<Pull<T>>, rest: seq<Pull<T>>, steps: seq<Step>)
    ensures var failing, ending := Run(Start(items + [Failure] + rest), steps), Run(Start(items), steps);
            failing == ending.(input := items + [Failure] + rest) && ending.pulled <= |items|
  {
    if steps != [] {
      FailureLooksLikeEnd(items, rest, steps[..|steps| - 1]);
      RunKeeps(items, steps[..|steps| - 1]);
    }
  }

  /** Producer steps left before it stops, at most. */
  function StepsLeft<T>(s: State<T>): nat
    requires s.pulled <= |s.input|
  {
    4 * (|s.input| - s.pulled) +
    match s.phase
    case Pulling => 1
    case SendingLeft(_) => 4
    case SendingRight(_) => 3
    case Checking => 2
    case Stopped => 0
  }

  /** The producer always gets on: no consumer can hold it up, and it stops. */
  lemma {:induction false} ProducerGetsOn<T>(s: State<T>, step: Step)
    requires s.pulled <= |s.input|
    ensures Next(s, step).pulled <= |s.input| && StepsLeft(Next(s, step)) <= StepsLeft(s)
    ensures step.Produce? && !s.phase.Stopped? ==> StepsLeft(Next(s, step)) < StepsLeft(s)
    ensures s.phase.Stopped? ==> Next(s, step).phase.Stopped?
  {
  }

  /** So it has stopped after boundedly many steps of its own, whatever comes between them. */
  lemma {:induction false} ProducerStops<T>(s: State<T>, more: seq<Step>)
    requires s.pulled <= |s.input|
    ensures var end := Run(s, more);
            && end.pulled <= |end.input| && end.input == s.input
            && (end.phase.Stopped? || StepsLeft(end) + CountSteps(more, Produce) <= StepsLeft(s))
            && (CountSteps(more, Produce) >= StepsLeft(s) ==> end.phase.Stopped?)
  {
    hide StepsLeft;
    if more != [] {
      var front := more[..|more| - 1];
      ProducerStops(s, front);
      ProducerGetsOn(Run(s, front), more[|more| - 1]);
    }
    RunsOut(Run(s, more));
  }

  lemma {:induction false} RunsOut<T>(s: State<T>)
    requires s.pulled <= |s.input|
    ensures !s.phase.Stopped? ==> StepsLeft(s) > 0
  {
  }

  /** Every item arrives: after enough producer steps a side that is never dropped and then receives as often as there
      are items has received all of them, in order, whatever the other side does. */
  lemma {:induction false} EveryItemArrives<T>(input: seq<Pull<T>>, steps: seq<Step>, more: seq<Step>)
    requires CountSteps(steps, Produce) > 4 * |input|
    ensures var end := Run(Start(input), steps + more);
            && (DropLeft !in steps + more && CountSteps(more, ReceiveLeft) >= |AllItems(input)| ==>
                end.left.received == AllItems(input))
            && (DropRight !in steps + more && CountSteps(more, ReceiveRight) >= |AllItems(input)| ==>
                end.right.received == AllItems(input))
  {
    hide Run, Items, CountSteps;
    var s := Run(Start(input), steps);
    assert StepsLeft(Start(input)) == 4 * |input| + 1;
    ProducerStops(Start(input), steps);
    NothingLost(input, steps);
    RunAppends(Start(input), steps, more);
    QueueDrains(s, more);
    StaysAlive(Start(input), steps);
    assert forall step :: step in steps || step in more ==> step in steps + more;
  }

  lemma {:induction false} StaysAlive<T>(s: State<T>, steps: seq<Step>)
    ensures s.left.alive && DropLeft !in steps ==> Run(s, steps).left.alive
    ensures s.right.alive && DropRight !in steps ==> Run(s, steps).right.alive
  {
    if steps != [] {
      assert steps == steps[..|steps| - 1] + [steps[|steps| - 1]];
      StaysAlive(s, steps[..|steps| - 1]);
    }
  }

  // ---- Nobody listens

  /** Producer steps left before it stops when both sides are gone: those of a round for every side it still takes to
      be listening. */
  function LeftAlone<T>(s: State<T>): nat {
    match s.phase
    case Pulling => 4
    case SendingLeft(_) => 3
    case SendingRight(_) => if s.left.open then 6 else 2
    case Checking => if s.left.open || s.right.open then 5 else 1
    case Stopped => 0
  }

  /** The items it may still pull. */
  function PullsLeft<T>(s: State<T>): nat {
    match s.phase
    case Pulling => 1
    case SendingLeft(_) => 0
    case SendingRight(_) => if s.left.open then 1 else 0
    case Checking => if s.left.open || s.right.open then 1 else 0
    case Stopped => 0
  }

  lemma {:induction false} AloneStep<T>(s: State<T>, step: Step)
    requires !s.left.alive && !s.right.alive
    ensures var next := Next(s, step);
            && !next.left.alive && !next.right.alive && next.pulled >= s.pulled
            && next.pulled + PullsLeft(next) <= s.pulled + PullsLeft(s)
            && LeftAlone(next) <= LeftAlone(s) &&
              (step.Produce? && !s.phase.Stopped? ==> LeftAlone(next) < LeftAlone(s))
  {
  }

  /** Once both sides are gone, in any state, the producer pulls at most one more item and stops within six steps. */
  lemma {:induction false} StopsWhenAlone<T>(s: State<T>, more: seq<Step>)
    requires !s.left.alive && !s.right.alive
    ensures var end := Run(s, more);
            && !end.left.alive && !end.right.alive && s.pulled <= end.pulled
            && end.pulled + PullsLeft(end) <= s.pulled + PullsLeft(s)
            && end.pulled <= s.pulled + 1
            && (end.phase.Stopped? || LeftAlone(end) + CountSteps(more, Produce) <= LeftAlone(s))
            && (CountSteps(more, Produce) >= 6 ==> end.phase.Stopped?)
  {
    hide LeftAlone, PullsLeft;
    if more != [] {
      var front := more[..|more| - 1];
      StopsWhenAlone(s, front);
      AloneStep(Run(s, front), more[|more| - 1]);
      StoppedStays(Run(s, front), more[|more| - 1]);
    }
    AloneBounds(s);
    AloneBounds(Run(s, more));
  }

  lemma {:induction false} StoppedStays<T>(s: State<T>, step: Step)
    ensures s.phase.Stopped? ==> Next(s, step).phase.Stopped?
  {
  }

  lemma {:induction false} AloneBounds<T>(s: State<T>)
    ensures PullsLeft(s) <= 1 && LeftAlone(s) <= 6 && (!s.phase.Stopped? ==> LeftAlone(s) > 0)
  {
  }

  /** Once it has noticed both, it pulls nothing more and stops within two steps. */
  lemma {:induction false} NoticedIsOver<T>(input: seq<Pull<T>>, steps: seq<Step>, more: seq<Step>)
    requires var s := Run(Start(input), steps); !s.left.open && !s.right.open
    ensures var s, end := Run(Start(input), steps), Run(Start(input), steps + more);
            end.pulled == s.pulled && (CountSteps(more, Produce) >= 2 ==> end.phase.Stopped?)
  {
    hide Run, Items;
    var s := Run(Start(input), steps);
    RunKeeps(input, steps);
    RunAppends(Start(input), steps, more);
    StopsWhenAlone(s, more);
  }
}
