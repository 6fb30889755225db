/** What holds in every reachable state of the getdata protocol, and that it ends. */
module GetDataRuns {
  import opened GetData

  // ---- histories grow at the end ---------------------------------------------------------------

  lemma {:induction false} FlatSnoc(queue: seq<seq<Item>>, msg: seq<Item>)
    ensures Flat(queue + [msg]) == Flat(queue) + msg
  {
    if queue == [] {
      assert Flat([]) == [] && Flat([msg]) == msg + Flat([]);
    } else {
      assert (queue + [msg])[1..] == queue[1..] + [msg];
      FlatSnoc(queue[1..], msg);
    }
  }

  lemma PickedSnoc(answered: seq<Answered>, x: Answered, a: Answer)
    ensures Picked(answered + [x], a) == Picked(answered, a) + (if x.answer == a then [x.item] else [])
  {
    assert (answered + [x])[..|answered|] == answered;
  }

  lemma {:induction false} PickedGiving(answered: seq<Answered>, items: seq<Item>, b: Answer, a: Answer)
    ensures Picked(answered + Giving(items, b), a) == Picked(answered, a) + (if a == b then items else [])
  {
    hide Picked;
    if items == [] {
      assert answered + Giving(items, b) == answered;
    } else {
      var n := |items| - 1;
      PickedGiving(answered, items[..n], b, a);
      PickedSnoc(answered + Giving(items[..n], b), Answered(items[n], b), a);
      assert answered + Giving(items[..n], b) + [Answered(items[n], b)] == answered + Giving(items, b);
      assert items == items[..n] + [items[n]];
    }
  }

  lemma AnsweredOne(s: State, item: Item, a: Answer)
    ensures Items(s.answered + [Answered(item, a)]) == Items(s.answered) + [item]
    ensures Picked(s.answered + [Answered(item, a)], Ignored) == Picked(s.answered, Ignored) + (if a == Ignored then [item] else [])
    ensures Picked(s.answered + [Answered(item, a)], Abandoned) == Picked(s.answered, Abandoned) + (if a == Abandoned then [item] else [])
  {
    PickedSnoc(s.answered, Answered(item, a), Ignored);
    PickedSnoc(s.answered, Answered(item, a), Abandoned);
  }

  // ---- every step keeps the invariant ----------------------------------------------------------

  lemma ProducerKeeps(s: State, step: Step)
    requires Inv(s) && Enabled(s, step)
    requires step.Receive? || step.CheckPending? || step.Count? || step.Enqueue? || step.Drop?
    ensures Inv(ProducerStep(s, step))
  {
    hide Flat, Picked, InHand, Items;
    if step.Enqueue? {
      FlatSnoc(s.queue, s.producer.msg);
      assert s.accepted + s.producer.msg == Items(s.answered) + InHand(s.server) + (Flat(s.queue) + s.producer.msg);
    }
  }

  lemma TakeKeeps(s: State)
    requires Inv(s) && Enabled(s, Take)
    ensures Inv(ServerStep(s, Take))
  {
    hide Picked, Items;
    assert Items(s.answered) + [] + Flat(s.queue) == Items(s.answered) + s.queue[0] + Flat(s.queue[1..]);
  }

  lemma FetchKeeps(s: State, found: bool)
    requires Inv(s) && Enabled(s, Fetch(found))
    ensures Inv(FetchStep(s, found))
  {
    hide Picked, Items, Flat;
    var item, rest := s.server.rest[0], s.server.rest[1..];
    assert s.server.rest == [item] + rest;
    assert Items(s.answered) + ([item] + rest) + Flat(s.queue) == (Items(s.answered) + [item]) + rest + Flat(s.queue);
    if !item.recognized { AnsweredOne(s, item, Ignored); }
    else if !found { AnsweredOne(s, item, Missing); }
  }

  lemma SendKeeps(s: State, withInventory: bool)
    requires Inv(s) && Enabled(s, Send(withInventory))
    ensures Inv(ServerStep(s, Send(withInventory)))
  {
    hide Picked, Items, Flat;
    var item, rest := s.server.item, s.server.rest;
    AnsweredOne(s, item, Sent);
    assert Items(s.answered) + ([item] + rest) + Flat(s.queue) == (Items(s.answered) + [item]) + rest + Flat(s.queue);
  }

  lemma GiveUpKeeps(s: State)
    requires Inv(s) && Enabled(s, GiveUp)
    ensures Inv(ServerStep(s, GiveUp))
  {
    hide Picked, Flat;
    var left := [s.server.item] + s.server.rest;
    PickedGiving(s.answered, left, Abandoned, Ignored);
    PickedGiving(s.answered, left, Abandoned, Abandoned);
    assert Items(s.answered + Giving(left, Abandoned)) == Items(s.answered) + left;
    assert Items(s.answered) + left + Flat(s.queue) == (Items(s.answered) + left) + [] + Flat(s.queue);
  }

  /** Every step keeps the invariant. */
  lemma StepKeeps(s: State, step: Step)
    requires Inv(s) && Enabled(s, step)
    ensures Inv(Apply(s, step))
  {
    hide Picked, Items, Flat;
    if step.Take? { TakeKeeps(s); }
    else if step.Fetch? { FetchKeeps(s, step.found); }
    else if step.Send? { SendKeeps(s, step.withInventory); }
    else if step.GiveUp? { GiveUpKeeps(s); }
    else if !IsServerStep(step) && !step.Acknowledge? && !step.Quit? { ProducerKeeps(s, step); }
  }

  /** A run: the states between its steps. */
  ghost predicate IsRun(states: seq<State>, steps: seq<Step>) {
    && |states| == |steps| + 1 && states[0] == Init()
    && forall i :: 0 <= i < |steps| ==> Enabled(states[i], steps[i]) && states[i + 1] == Apply(states[i], steps[i])
  }

  lemma RunKeeps(states: seq<State>, steps: seq<Step>)
    requires IsRun(states, steps)
    ensures forall s :: s in states ==> Inv(s)
  {
    hide Inv, Enabled, Apply;
    assert Inv(Init()) by { InitOk(); }
    for i := 0 to |steps|
      invariant forall j :: 0 <= j <= i ==> Inv(states[j])
    {
      assert Enabled(states[i], steps[i]);
      StepKeeps(states[i], steps[i]);
    }
  }

  lemma InitOk()
    ensures Inv(Init())
  {
  }

  // ---- what that means -------------------------------------------------------------------------

  /** No action ever has to wait that the program expects not to wait. */
  lemma NeverBlocks(states: seq<State>, steps: seq<Step>, s: State)
    requires IsRun(states, steps) && s in states
    ensures s.unacked <= MAX_SENDING
    ensures s.unacked > 0 ==> Enabled(s, Acknowledge)
    ensures s.server.Releasing? ==> Enabled(s, Release)
    ensures s.producer.Counted? ==> Enabled(s, Enqueue)
  {
    hide PendingOk, OrderOk, IsRun;
    RunKeeps(states, steps);
  }

  /** The counter neither wraps nor exceeds its maximum, covers the unserved items,
      and equals them exactly while no item of unknown type was requested. */
  lemma PendingExact(states: seq<State>, steps: seq<Step>, s: State)
    requires IsRun(states, steps) && s in states
    ensures Unserved(s) <= s.pending <= MAX_PENDING
    ensures s.server.Acquired? || (s.server.Serving? && s.server.rest != []) ==> s.pending >= 1
    ensures s.pending == Unserved(s) <==> forall x :: x in s.answered ==> x.answer != Ignored
  {
    hide IsRun, Flat;
    RunKeeps(states, steps);
    PickedEmpty(s.answered, Ignored);
  }

  lemma {:induction false} PickedEmpty(answered: seq<Answered>, a: Answer)
    ensures Picked(answered, a) == [] <==> forall x :: x in answered ==> x.answer != a
  {
    if answered != [] {
      var n := |answered| - 1;
      PickedEmpty(answered[..n], a);
      assert answered == answered[..n] + [answered[n]];
    }
  }

  // ---- the replies ------------------------------------------------------------------------------

  function DataItems(replies: seq<Reply>): seq<Item> {
    if replies == [] then []
    else
      var n := |replies| - 1;
      DataItems(replies[..n]) + (if replies[n].Data? then [replies[n].item] else [])
  }

  function MissingItems(replies: seq<Reply>): seq<Item> {
    if replies == [] then []
    else
      var n := |replies| - 1;
      MissingItems(replies[..n]) + (if replies[n].NotFound? then replies[n].items else [])
  }

  lemma ReplySnoc(replies: seq<Reply>, r: Reply)
    ensures DataItems(replies + [r]) == DataItems(replies) + (if r.Data? then [r.item] else [])
    ensures MissingItems(replies + [r]) == MissingItems(replies) + (if r.NotFound? then r.items else [])
  {
    assert (replies + [r])[..|replies|] == replies;
  }

  /** The notfound message being built. */
  function Building(p: Server): seq<Item> {
    if p.Serving? || p.Fetched? || p.Acquired? || p.Uncounted? then p.missing
    else if p.Releasing? then Building(p.back)
    else []
  }

  ghost predicate Right(x: Answered) {
    (x.answer == Ignored ==> !x.item.recognized) && (x.answer == Sent || x.answer == Missing ==> x.item.recognized)
  }

  /** Every data item was handed over as data, in order; every missing one is listed
      in a notfound message, unless serving was given up. */
  ghost predicate RepliesOk(s: State) {
    && DataItems(s.replies) == Picked(s.answered, Sent)
    && (Picked(s.answered, Abandoned) == [] ==> MissingItems(s.replies) + Building(s.server) == Picked(s.answered, Missing))
  }

  ghost predicate AnswersOk(s: State) {
    && (forall x :: x in s.answered ==> Right(x))
    && (s.server.Fetched? || s.server.Acquired? || s.server.Uncounted? ==> s.server.item.recognized)
    && (s.server.Releasing? && s.server.back.Fetched? ==> s.server.back.item.recognized)
  }

  /** Giving up happens only after quitting. */
  ghost predicate QuitOk(s: State) {
    s.quit || (!s.server.Stopped? && Picked(s.answered, Abandoned) == [] && s.dropped == 0)
  }

  lemma RepliesKept(s: State, step: Step)
    requires Inv(s) && RepliesOk(s) && Enabled(s, step)
    ensures RepliesOk(Apply(s, step))
  {
    hide Inv, Picked, DataItems, MissingItems, Flat, Items;
    var t := Apply(s, step);
    if step.Fetch? { FetchReplies(s, step.found); }
    else if step.Finish? { ReplySnoc(s.replies, NotFound(s.server.missing)); }
    else if step.Send? { SendReplies(s, step.withInventory); }
    else if step.GiveUp? {
      var left := [s.server.item] + s.server.rest;
      PickedGiving(s.answered, left, Abandoned, Sent);
      PickedGiving(s.answered, left, Abandoned, Abandoned);
    }
    else if step.Release? || step.TakeDone? { TokensShape(s); }
  }

  lemma TokensShape(s: State)
    requires Inv(s)
    ensures s.server.Releasing? ==> CanTakeDone(s.server.back)
  {
  }

  lemma FetchReplies(s: State, found: bool)
    requires RepliesOk(s) && Enabled(s, Fetch(found))
    ensures RepliesOk(FetchStep(s, found))
  {
    hide Picked, DataItems, MissingItems;
    var item, built := s.server.rest[0], s.server.missing;
    var x := Answered(item, if item.recognized then Missing else Ignored);
    PickedSnoc(s.answered, x, Sent);
    PickedSnoc(s.answered, x, Missing);
    PickedSnoc(s.answered, x, Abandoned);
    assert MissingItems(s.replies) + (built + [item]) == MissingItems(s.replies) + built + [item];
  }

  lemma SendReplies(s: State, withInventory: bool)
    requires RepliesOk(s) && Enabled(s, Send(withInventory))
    ensures RepliesOk(ServerStep(s, Send(withInventory)))
  {
    hide Picked, DataItems, MissingItems;
    var x := Answered(s.server.item, Sent);
    PickedSnoc(s.answered, x, Sent);
    PickedSnoc(s.answered, x, Missing);
    PickedSnoc(s.answered, x, Abandoned);
    ReplySnoc(s.replies, Data(s.server.item));
    ReplySnoc(s.replies + [Data(s.server.item)], Inventory);
    assert s.replies + [Data(s.server.item)] + [] == s.replies + [Data(s.server.item)];
  }

  lemma AnswersKept(s: State, step: Step)
    requires AnswersOk(s) && Enabled(s, step) && (s.server.Releasing? ==> CanTakeDone(s.server.back))
    ensures AnswersOk(Apply(s, step))
  {
  }

  lemma QuitKept(s: State, step: Step)
    requires QuitOk(s) && Enabled(s, step) && (s.server.Releasing? ==> CanTakeDone(s.server.back))
    ensures QuitOk(Apply(s, step))
  {
    hide Picked;
    if step.Fetch? {
      var item := s.server.rest[0];
      PickedSnoc(s.answered, Answered(item, Ignored), Abandoned);
      PickedSnoc(s.answered, Answered(item, Missing), Abandoned);
    } else if step.Send? {
      PickedSnoc(s.answered, Answered(s.server.item, Sent), Abandoned);
    }
  }

  lemma RunAnswers(states: seq<State>, steps: seq<Step>)
    requires IsRun(states, steps)
    ensures forall s :: s in states ==> Inv(s) && RepliesOk(s) && AnswersOk(s) && QuitOk(s)
  {
    hide Inv, RepliesOk, AnswersOk, QuitOk, Enabled, Apply;
    assert Inv(Init()) && RepliesOk(Init()) && AnswersOk(Init()) && QuitOk(Init()) by { InitAnswers(); }
    RunKeeps(states, steps);
    for i := 0 to |steps|
      invariant forall j :: 0 <= j <= i ==> RepliesOk(states[j]) && AnswersOk(states[j]) && QuitOk(states[j])
    {
      var s := states[i];
      assert Enabled(s, steps[i]) && s in states;
      TokensShape(s);
      RepliesKept(s, steps[i]);
      AnswersKept(s, steps[i]);
      QuitKept(s, steps[i]);
    }
  }

  lemma InitAnswers()
    ensures Inv(Init()) && RepliesOk(Init()) && AnswersOk(Init()) && QuitOk(Init())
  {
  }

  // ---- serving ends ------------------------------------------------------------------------------

  /** Steps of the serving goroutine and of the sender. */
  predicate Works(step: Step) { IsServerStep(step) || step.Acknowledge? }

  function Rank(p: Server): nat {
    match p
    case Stopped => 0
    case Idle => 1
    case Serving(rest, _) => 2 + 7 * |rest|
    case Fetched(_, rest, _) => 8 + 7 * |rest|
    case Acquired(_, rest, _) => 7 + 7 * |rest|
    case Uncounted(_, rest, _) => 6 + 7 * |rest|
    case Releasing(back) => 1 + Rank(back)
  }

  function Work(s: State): nat {
    7 * |Flat(s.queue)| + 2 * |s.queue| + Rank(s.server) + 3 * s.unacked + 2 * s.done
  }

  lemma WorkShrinks(s: State, step: Step)
    requires Enabled(s, step) && Works(step) && (s.server.Releasing? ==> CanTakeDone(s.server.back))
    ensures Work(Apply(s, step)) < Work(s)
  {
  }

  /** Between two requests only finitely many steps are possible. */
  lemma ServingEnds(states: seq<State>, steps: seq<Step>, i: nat, j: nat)
    requires IsRun(states, steps) && i <= j < |states| && forall k :: i <= k < j ==> Works(steps[k])
    ensures j - i <= Work(states[i])
  {
    hide Inv, Work, Works, Enabled, Apply;
    RunKeeps(states, steps);
    for k := i to j
      invariant k - i + Work(states[k]) <= Work(states[i])
    {
      var s := states[k];
      assert s in states && Enabled(s, steps[k]);
      TokensShape(s);
      WorkShrinks(s, steps[k]);
    }
  }

  /** Where no such step is possible, everything accepted has been answered: each
      item of a known type was sent or reported missing, in order; all tokens are
      back; and the counter holds what is being counted plus the unknown types. */
  lemma AllServed(states: seq<State>, steps: seq<Step>)
    requires IsRun(states, steps)
    requires var s := states[|steps|]; !s.quit && forall step :: Works(step) ==> !Enabled(s, step)
    ensures var s := states[|steps|];
      && s.server.Idle? && s.queue == [] && s.semaphore == s.done == s.unacked == 0
      && s.accepted == Items(s.answered)
      && (forall x :: x in s.answered ==> x.answer == Ignored || (x.item.recognized && (x.answer == Sent || x.answer == Missing)))
      && DataItems(s.replies) == Picked(s.answered, Sent) && MissingItems(s.replies) == Picked(s.answered, Missing)
      && s.pending == (if s.producer.Counted? then |s.producer.msg| else 0) + |Picked(s.answered, Ignored)|
  {
    hide Picked, Items, DataItems, MissingItems, IsRun, Enabled, Flat, Works;
    LastState(states, steps);
    var s := states[|steps|];
    RunAnswers(states, steps);
    AtRest(s);
    NoneGivenUp(s.answered);
    assert forall x :: x in s.answered ==> Right(x);
    assert Items(s.answered) + [] + [] == Items(s.answered);
    assert MissingItems(s.replies) + [] == MissingItems(s.replies);
  }

  lemma AtRest(s: State)
    requires TokensOk(s) && QuitOk(s) && !s.quit && forall step :: Works(step) ==> !Enabled(s, step)
    ensures s.server.Idle? && s.queue == [] && Flat(s.queue) == [] && s.semaphore == s.done == s.unacked == 0
  {
    hide Picked;
    assert !Enabled(s, Take) && !Enabled(s, Fetch(true)) && !Enabled(s, Finish) && !Enabled(s, Acquire) && !Enabled(s, Uncount);
    assert !Enabled(s, Send(true)) && !Enabled(s, TakeDone) && !Enabled(s, Release) && !Enabled(s, Acknowledge);
  }

  lemma LastState(states: seq<State>, steps: seq<Step>)
    requires IsRun(states, steps)
    ensures |states| == |steps| + 1 && states[|steps|] in states
  {
  }

  lemma NoneGivenUp(answered: seq<Answered>)
    ensures Picked(answered, Abandoned) == [] <==> forall x :: x in answered ==> x.answer != Abandoned
  {
    PickedEmpty(answered, Abandoned);
  }

  ghost predicate Reachable(s: State) {
    exists states: seq<State>, steps: seq<Step> :: IsRun(states, steps) && states[|steps|] == s
  }

  lemma ReachableNext(s: State, step: Step)
    requires Reachable(s) && Enabled(s, step)
    ensures Reachable(Apply(s, step))
  {
    hide Enabled, Apply;
    var states: seq<State>, steps: seq<Step> :| IsRun(states, steps) && states[|steps|] == s;
    var longer, more := states + [Apply(s, step)], steps + [step];
    assert longer[..|states|] == states;
    forall i | 0 <= i < |more| ensures Enabled(longer[i], more[i]) && longer[i + 1] == Apply(longer[i], more[i]) {
      if i < |steps| { assert steps[i] == more[i] && states[i] == longer[i] && states[i + 1] == longer[i + 1]; }
    }
    assert IsRun(longer, more);
  }

  lemma Start()
    ensures Reachable(Init())
  {
    assert IsRun([Init()], []);
  }

  /** A request of one item arrives at an idle server. */
  lemma Requested(x: Item)
    ensures Reachable(Init().(queue := [[x]], pending := 1, accepted := [x]))
  {
    hide Reachable;
    Start();
    var s := Init();
    ReachableNext(s, Receive([x], false));
    ReachableNext(s.(producer := QueueChecked([x])), CheckPending);
    ReachableNext(s.(producer := PendingChecked([x])), Count);
    ReachableNext(s.(producer := Counted([x]), pending := 1), Enqueue);
    assert s.queue + [[x]] == [[x]] && s.accepted + [x] == [x];
  }

  /** One request for an unknown type is counted for ever: all is served, and the
      counter stays at one. */
  lemma UnknownTypeLeaks()
    ensures exists s :: Reachable(s) && s.server.Idle? && s.queue == [] && s.producer.Waiting? && !s.quit && Unserved(s) == 0 && s.pending == 1
  {
    hide Reachable, Unserved;
    var x := Item(false, 0);
    Requested(x);
    var s4 := Init().(queue := [[x]], pending := 1, accepted := [x]);
    ReachableNext(s4, Take);
    assert [[x]][1..] == [];
    var s5 := s4.(queue := [], server := Serving([x], []));
    ReachableNext(s5, Fetch(true));
    var s6 := s5.(server := Serving([], []), answered := [Answered(x, Ignored)]);
    assert [x][1..] == [] && s5.answered + [Answered(x, Ignored)] == s6.answered;
    ReachableNext(s6, Finish);
    LeftOver(s6.(server := Idle));
  }

  lemma LeftOver(s: State)
    requires s.queue == [] && s.server.Idle? && s.producer.Waiting? && s.dropped == 0
    requires |s.answered| == 1 && s.answered[0].answer == Ignored
    ensures Unserved(s) == 0
  {
    assert s.answered == [] + [s.answered[0]];
    PickedSnoc([], s.answered[0], Abandoned);
  }
}
