/** The buffer of heal results of one heal sequence (cmd/admin-heal-ops.go): the traversal
    pushes, the status API pops, each under the sequence's mutex. */
module HealResults {

  const MAX_UNCONSUMED := 1000

  datatype Item<R> = Item(resultIndex: int, detail: R)

  datatype Buffer<R> = Buffer(items: seq<Item<R>>, lastSentResultIndex: int)

  /** The buffer with one more result, numbered after the last one held or sent. */
  function Pushed<R>(b: Buffer<R>, detail: R): Buffer<R> {
    var index := if b.items != [] then 1 + b.items[|b.items| - 1].resultIndex else 1 + b.lastSentResultIndex;
    b.(items := b.items + [Item(index, detail)])
  }

  /** The buffer after everything in it was handed out. */
  function Popped<R>(b: Buffer<R>): Buffer<R> {
    Buffer([], if b.items != [] then b.items[|b.items| - 1].resultIndex else b.lastSentResultIndex)
  }

  /** What a full buffer makes a push do, by which event comes first. */
  datatype WhenFull = Tick | Stop | IdleTimeout

  datatype PushOutcome = Accepted | TryAgain | StopSignalled | TimedOut

  datatype PopOutcome<R> = InvalidToken | Batch(items: seq<Item<R>>) | EncodingFailed

  class HealSequence<R> {
    const clientToken: string
    var buffer: Buffer<R>

    constructor (token: string)
      ensures clientToken == token && buffer == Buffer([], 0)
    {
      clientToken := token;
      buffer := Buffer([], 0);
    }

    /** One round of the push loop. */
    method PushHealResultItem(detail: R, full: WhenFull) returns (outcome: PushOutcome)
      modifies this
      ensures outcome == if |old(buffer).items| != 1000 then Accepted
                         else match full case Tick => TryAgain case Stop => StopSignalled case IdleTimeout => TimedOut
      ensures buffer == if outcome == Accepted then Pushed(old(buffer), detail) else old(buffer)
    {
      var itemsLen := |buffer.items|;
      if itemsLen == MAX_UNCONSUMED {
        match full {
          case Tick => return TryAgain;
          case Stop => return StopSignalled;
          case IdleTimeout => return TimedOut;
        }
      }
      var index;
      if itemsLen > 0 {
        index := 1 + buffer.items[itemsLen - 1].resultIndex;
      } else {
        index := 1 + buffer.lastSentResultIndex;
      }
      buffer := buffer.(items := buffer.items + [Item(index, detail)]);
      return Accepted;
    }

    /** The items are dropped even when they cannot be encoded. */
    method PopHealStatus(token: string, encodes: bool) returns (outcome: PopOutcome<R>)
      modifies this
      ensures outcome == if token != clientToken then InvalidToken else if encodes then Batch(old(buffer).items) else EncodingFailed
      ensures buffer == if token != clientToken then old(buffer) else Popped(old(buffer))
    {
      if token != clientToken {
        return InvalidToken;
      }
      var numItems, lastResultIndex := |buffer.items|, buffer.lastSentResultIndex;
      if numItems > 0 {
        lastResultIndex := buffer.items[numItems - 1].resultIndex;
      }
      outcome := if encodes then Batch(buffer.items) else EncodingFailed;
      buffer := Buffer([], lastResultIndex);
    }
  }

  // ----- Every interleaving of pushes and pops

  datatype Event<R> = Push(detail: R) | Pop

  /** The buffer, with everything that left it and everything that was accepted. */
  datatype History<R> = History(buffer: Buffer<R>, popped: seq<Item<R>>, accepted: seq<R>)

  function Step<R>(h: History<R>, e: Event<R>): History<R> {
    match e
    case Push(detail) =>
      if |h.buffer.items| == MAX_UNCONSUMED then h
      else h.(buffer := Pushed(h.buffer, detail), accepted := h.accepted + [detail])
    case Pop => h.(buffer := Popped(h.buffer), popped := h.popped + h.buffer.items)
  }

  function Run<R>(events: seq<Event<R>>): History<R> {
    if events == [] then History(Buffer([], 0), [], [])
    else Step(Run(events[..|events| - 1]), events[|events| - 1])
  }

  /** The accepted results numbered 1, 2, 3, ... */
  function Numbered<R>(details: seq<R>): seq<Item<R>> {
    seq(|details|, i requires 0 <= i < |details| => Item(i + 1, details[i]))
  }

  ghost predicate Consistent<R>(h: History<R>) {
    && h.popped + h.buffer.items == Numbered(h.accepted)
    && h.buffer.lastSentResultIndex == |h.popped|
    && |h.buffer.items| <= MAX_UNCONSUMED
  }

  lemma NumberedStep<R>(details: seq<R>, detail: R)
    ensures Numbered(details + [detail]) == Numbered(details) + [Item(|details| + 1, detail)]
  {
  }

  lemma StepIsConsistent<R>(h: History<R>, e: Event<R>)
    requires Consistent(h)
    ensures Consistent(Step(h, e))
  {
    var held := h.buffer.items;
    assert |Numbered(h.accepted)| == |h.popped| + |held|;
    assert held != [] ==> held[|held| - 1] == Numbered(h.accepted)[|h.accepted| - 1];
    match e
    case Push(detail) =>
      NumberedStep(h.accepted, detail);
      if |held| != MAX_UNCONSUMED {
        var item := Item(|h.accepted| + 1, detail);
        assert Step(h, e).buffer.items == held + [item];
        assert h.popped + (held + [item]) == h.popped + held + [item];
      }
    case Pop =>
      assert h.popped + held + [] == h.popped + held;
  }

  /** After every run, the results popped so far (also those dropped because they could not
      be encoded) followed by those still held are exactly the accepted ones, in order, with
      result indexes 1, 2, 3, ...; and never more than 1000 are held. */
  lemma {:induction false} RunLosesNothing<R>(events: seq<Event<R>>)
    ensures var h := Run(events);
            && h.popped + h.buffer.items == Numbered(h.accepted)
            && (forall i :: 0 <= i < |h.accepted| ==> (h.popped + h.buffer.items)[i] == Item(i + 1, h.accepted[i]))
            && h.buffer.lastSentResultIndex == |h.popped|
            && |h.buffer.items| <= 1000
  {
    if events != [] {
      RunLosesNothing(events[..|events| - 1]);
      StepIsConsistent(Run(events[..|events| - 1]), events[|events| - 1]);
      hide Step;
    }
  }

  /** A push is accepted exactly when fewer than 1000 results wait, so after a pop the next
      thousand pushes all are. */
  lemma {:induction false} PopMakesRoom<R>(events: seq<Event<R>>, details: seq<R>)
    requires |details| <= 1000
    ensures var h := Run(events + [Pop] + Pushes(details));
            h.accepted == Run(events).accepted + details && |h.buffer.items| == |details|
  {
    if details == [] {
      assert events + [Pop] + Pushes(details) == events + [Pop];
      assert (events + [Pop])[..|events|] == events;
    } else {
      var k := |details| - 1;
      PopMakesRoom(events, details[..k]);
      var before := events + [Pop] + Pushes(details[..k]);
      assert events + [Pop] + Pushes(details) == before + [Push(details[k])];
      assert (before + [Push(details[k])])[..|before|] == before;
      assert details == details[..k] + [details[k]];
    }
  }

  function Pushes<R>(details: seq<R>): seq<Event<R>> {
    seq(|details|, i requires 0 <= i < |details| => Push(details[i]))
  }
}
