/**
  The sensor queue: room for four frames, filled by the sensor task (look at the count, discard
  one, put) and emptied by the flight task (get), each queue call being atomic.  `World` is the
  pair of tasks at the grain of those calls, with a history of what went where.
  */
module Mailbox {
  import opened Bytes

  const CAPACITY: nat := 4

  /** The RTOS message queue, non-blocking. */
  class MessageQueue<T> {
    var items: seq<T>

    constructor ()
      ensures items == []
    {
      items := [];
    }

    method Get() returns (r: Option<T>)
      modifies this
      ensures old(items) == [] ==> r == None && items == []
      ensures old(items) != [] ==> r == Some(old(items)[0]) && items == old(items)[1..]
    {
      if items == [] {
        return None;
      }
      r := Some(items[0]);
      items := items[1..];
    }

    method Put(x: T) returns (ok: bool)
      modifies this
      ensures ok <==> |old(items)| < 4
      ensures items == if ok then old(items) + [x] else old(items)
    {
      ok := |items| < CAPACITY;
      if ok {
        items := items + [x];
      }
    }
  }

  // ----- The two tasks, step by step -----

  /** A frame and its place in the order in which the sensor task parsed it. */
  datatype Item<T> = Item(number: nat, frame: T)

  /** What the sensor task will call next. */
  datatype Pc<T> = Idle | Checking(item: Item<T>) | Discarding(item: Item<T>) | Putting(item: Item<T>)

  datatype World<T> = World(
    queue: seq<Item<T>>, pc: Pc<T>, parsed: nat,
    puts: seq<Item<T>>, failed: seq<Item<T>>, discarded: seq<Item<T>>, delivered: seq<Item<T>>)

  /** Either task may take the next step; `frame` is what the sensor task parses if it is idle. */
  datatype Actor<T> = SensorTask(frame: T) | FlightTask

  function Start<T>(): World<T> {
    World([], Idle, 0, [], [], [], [])
  }

  function Get<T>(w: World<T>): World<T> {
    if w.queue == [] then w else w.(queue := w.queue[1..], delivered := w.delivered + [w.queue[0]])
  }

  function Discard<T>(w: World<T>): World<T> {
    if w.queue == [] then w else w.(queue := w.queue[1..], discarded := w.discarded + [w.queue[0]])
  }

  function Put<T>(w: World<T>, x: Item<T>): World<T> {
    if |w.queue| < CAPACITY then w.(queue := w.queue + [x], puts := w.puts + [x])
    else w.(failed := w.failed + [x])
  }

  function Step<T>(w: World<T>, a: Actor<T>): World<T> {
    match a
    case FlightTask => Get(w)
    case SensorTask(frame) =>
      match w.pc
      case Idle => w.(pc := Checking(Item(w.parsed, frame)), parsed := w.parsed + 1)
      case Checking(x) => w.(pc := if |w.queue| > 0 then Discarding(x) else Putting(x))
      case Discarding(x) => Discard(w).(pc := Putting(x))
      case Putting(x) => Put(w, x).(pc := Idle)
  }

  function Run<T>(s: seq<Actor<T>>): World<T> {
    if s == [] then Start() else Step(Run(s[..|s| - 1]), s[|s| - 1])
  }

  // ----- The invariant -----

  predicate Increasing<T>(s: seq<Item<T>>) {
    forall i, j :: 0 <= i < j < |s| ==> s[i].number < s[j].number
  }

  /** Every number below the count of puts was put once, in order. */
  predicate Numbered<T>(puts: seq<Item<T>>) {
    forall i :: 0 <= i < |puts| ==> puts[i].number == i
  }

  /** At most the newest frame is queued, and never while the sensor task is about to put. */
  ghost predicate QueueShape<T>(w: World<T>) {
    && (w.queue == [] || (w.puts != [] && w.queue == [w.puts[|w.puts| - 1]]))
    && (w.pc.Putting? ==> w.queue == [])
    && w.failed == []
  }

  ghost predicate Order<T>(w: World<T>) {
    && Numbered(w.puts) && Increasing(w.delivered)
    && (forall i :: 0 <= i < |w.delivered| ==>
        w.delivered[i].number < |w.puts| - |w.queue| && w.delivered[i] == w.puts[w.delivered[i].number])
    && w.parsed == |w.puts| + (if w.pc.Idle? then 0 else 1)
    && (!w.pc.Idle? ==> w.pc.item.number == |w.puts|)
  }

  /** Whatever was put has been delivered, or was discarded, or is queued. */
  ghost predicate Conserved<T>(w: World<T>) {
    multiset(w.puts) == multiset(w.delivered) + multiset(w.discarded) + multiset(w.queue)
  }

  /** An empty queue has handed over the newest frame, unless a newer one is about to be put. */
  ghost predicate Fresh<T>(w: World<T>) {
    w.queue == [] && w.puts != [] && !w.pc.Putting? ==>
      w.delivered != [] && w.delivered[|w.delivered| - 1] == w.puts[|w.puts| - 1]
  }

  ghost predicate Inv<T>(w: World<T>) {
    QueueShape(w) && Order(w) && Conserved(w) && Fresh(w)
  }

  lemma ShapeStep<T>(w: World<T>, a: Actor<T>)
    requires QueueShape(w)
    ensures QueueShape(Step(w, a))
  {
  }

  lemma OrderStep<T>(w: World<T>, a: Actor<T>)
    requires QueueShape(w) && Order(w)
    ensures Order(Step(w, a))
  {
  }

  lemma Hand<T>(q: seq<T>, out: seq<T>)
    requires q != []
    ensures multiset(out + [q[0]]) + multiset(q[1..]) == multiset(out) + multiset(q)
  {
    assert q == [q[0]] + q[1..];
  }

  lemma Regroup<T>(a: multiset<T>, b: multiset<T>, c: multiset<T>, d: multiset<T>, e: multiset<T>)
    requires d + e == a + c
    ensures d + b + e == a + b + c
  {
    assert d + b + e == (d + e) + b;
    assert a + b + c == (a + c) + b;
  }

  lemma Associate<T>(a: multiset<T>, b: multiset<T>, c: multiset<T>)
    ensures (a + b) + c == a + (b + c)
  {
  }

  lemma GetConserves<T>(w: World<T>)
    requires Conserved(w)
    ensures Conserved(Get(w))
  {
    if w.queue != [] {
      var v := Get(w);
      Hand(w.queue, w.delivered);
      Regroup(multiset(w.delivered), multiset(w.discarded), multiset(w.queue),
              multiset(v.delivered), multiset(v.queue));
    }
  }

  lemma DiscardConserves<T>(w: World<T>)
    requires Conserved(w)
    ensures Conserved(Discard(w))
  {
    if w.queue != [] {
      var v := Discard(w);
      Hand(w.queue, w.discarded);
      Associate(multiset(w.delivered), multiset(w.discarded), multiset(w.queue));
      Associate(multiset(w.delivered), multiset(v.discarded), multiset(v.queue));
    }
  }

  lemma PutConserves<T>(w: World<T>, x: Item<T>)
    requires Conserved(w)
    ensures Conserved(Put(w, x))
  {
  }

  lemma ConservedStep<T>(w: World<T>, a: Actor<T>)
    requires Conserved(w)
    ensures Conserved(Step(w, a))
  {
    hide Get, Discard, Put;
    GetConserves(w);
    DiscardConserves(w);
    if w.pc.Putting? {
      PutConserves(w, w.pc.item);
    }
  }

  lemma FreshStep<T>(w: World<T>, a: Actor<T>)
    requires QueueShape(w) && Order(w) && Fresh(w)
    ensures Fresh(Step(w, a))
  {
  }

  /** Every interleaving keeps the invariant. */
  lemma {:induction false} RunInv<T>(s: seq<Actor<T>>)
    ensures Inv(Run(s))
  {
    hide Step, QueueShape, Order, Conserved, Fresh;
    if s == [] {
      StartInv<T>();
    } else {
      var w, a := Run(s[..|s| - 1]), s[|s| - 1];
      RunInv(s[..|s| - 1]);
      ShapeStep(w, a);
      OrderStep(w, a);
      ConservedStep(w, a);
      FreshStep(w, a);
    }
  }

  lemma StartInv<T>()
    ensures Inv<T>(Start())
  {
  }

  // ----- What it means -----

  /** The queue never holds more than one frame, and no put ever fails. */
  lemma NeverMoreThanOne<T>(s: seq<Actor<T>>)
    ensures |Run(s).queue| <= 1 && Run(s).failed == []
  {
    RunInv(s);
  }

  /** Frames reach the flight task in the order they were put, and none twice. */
  lemma DeliveredInOrderOnce<T>(s: seq<Actor<T>>, i: nat, j: nat)
    requires i < j < |Run(s).delivered|
    ensures Run(s).delivered[i].number < Run(s).delivered[j].number
    ensures Run(s).delivered[i] in Run(s).puts && Run(s).delivered[j] in Run(s).puts
  {
    RunInv(s);
  }

  /**
    A get hands over the newest frame put so far, or nothing; nothing means that the flight task
    has that frame already, or that a newer one is about to be put.
    */
  lemma GetIsNewest<T>(s: seq<Actor<T>>)
    ensures
      var w, v := Run(s), Run(s + [FlightTask]);
      || (w.puts != [] && v.delivered == w.delivered + [w.puts[|w.puts| - 1]])
      || (v.delivered == w.delivered &&
          (w.puts == [] || w.pc.Putting? ||
           (w.delivered != [] && w.delivered[|w.delivered| - 1] == w.puts[|w.puts| - 1])))
  {
    hide Conserved, Increasing, Numbered, Run;
    RunInv(s);
    RunSnoc(s, FlightTask);
  }

  lemma RunSnoc<T>(s: seq<Actor<T>>, a: Actor<T>)
    ensures Run(s + [a]) == Step(Run(s), a)
  {
    hide Step;
    assert (s + [a])[..|s|] == s;
  }

  /** Nothing is lost or made up: each frame parsed is delivered, discarded, queued or still in hand. */
  lemma FramesConserved<T>(s: seq<Actor<T>>)
    ensures var w := Run(s);
      && multiset(w.puts) == multiset(w.delivered) + multiset(w.discarded) + multiset(w.queue)
      && w.parsed == |w.delivered| + |w.discarded| + |w.queue| + (if w.pc.Idle? then 0 else 1)
  {
    RunInv(s);
    var w := Run(s);
    assert |multiset(w.puts)| == |multiset(w.delivered) + multiset(w.discarded) + multiset(w.queue)|;
  }

  /** The two tests, in numbers: the put has room below four, and the count check asks for a discard above zero. */
  lemma TestsInNumbers<T>(w: World<T>, x: Item<T>, frame: T)
    ensures |w.queue| < 4 ==> Put(w, x) == w.(queue := w.queue + [x], puts := w.puts + [x])
    ensures |w.queue| >= 4 ==> Put(w, x) == w.(failed := w.failed + [x])
    ensures w.pc == Checking(x) ==>
      Step(w, SensorTask(frame)) == w.(pc := if w.queue == [] then Putting(x) else Discarding(x))
  {
  }
}
