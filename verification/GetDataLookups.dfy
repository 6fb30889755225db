/** What the lookups decide: over every run of the getdata protocol, which items are
    sent and which are reported missing; and which requests are taken in. */
module GetDataLookups {
  import opened Options
  import opened GetData
  import opened GetDataRuns

  /** The results of the lookups in the first n steps, one for each item; none for the
      items of a batch given up before they were looked up. */
  function Lookups(states: seq<State>, steps: seq<Step>, n: nat): seq<Option<bool>>
    requires n <= |steps| < |states|
  {
    if n == 0 then []
    else
      var before, p := Lookups(states, steps, n - 1), states[n - 1].server;
      match steps[n - 1]
      case Fetch(found) => before + [Some(found)]
      case GiveUp => before + (if p.Fetched? then seq(|p.rest|, _ => None) else [])
      case _ => before
  }

  /** An item is sent only if it was found and reported missing only if it was not;
      one of unknown type is ignored either way; one given up was found or not yet
      looked up. */
  ghost predicate Decided(x: Answered, lookup: Option<bool>) {
    match x.answer
    case Sent => x.item.recognized && lookup == Some(true)
    case Missing => x.item.recognized && lookup == Some(false)
    case Ignored => !x.item.recognized && lookup.Some?
    case Abandoned => lookup == None || (x.item.recognized && lookup == Some(true))
  }

  /** An item that was found and is not answered yet. */
  predicate InTransit(p: Server) {
    p.Fetched? || p.Acquired? || p.Uncounted? || (p.Releasing? && p.back.Fetched?)
  }

  ghost predicate LookupsOk(s: State, lookups: seq<Option<bool>>) {
    && |lookups| == |s.answered| + (if InTransit(s.server) then 1 else 0)
    && (forall i :: 0 <= i < |s.answered| ==> Decided(s.answered[i], lookups[i]))
    && (InTransit(s.server) ==> lookups[|s.answered|] == Some(true) && InHand(s.server) != [] && InHand(s.server)[0].recognized)
  }

  lemma FetchLookup(s: State, found: bool, lookups: seq<Option<bool>>)
    requires LookupsOk(s, lookups) && Enabled(s, Fetch(found))
    ensures LookupsOk(Apply(s, Fetch(found)), lookups + [Some(found)])
  {
    var t := Apply(s, Fetch(found));
    forall i | 0 <= i < |t.answered| ensures Decided(t.answered[i], (lookups + [Some(found)])[i]) {
      if i < |s.answered| { assert t.answered[i] == s.answered[i]; }
    }
  }

  lemma SendLookup(s: State, withInventory: bool, lookups: seq<Option<bool>>)
    requires LookupsOk(s, lookups) && Enabled(s, Send(withInventory))
    ensures LookupsOk(Apply(s, Send(withInventory)), lookups)
  {
  }

  lemma GiveUpLookup(s: State, lookups: seq<Option<bool>>)
    requires LookupsOk(s, lookups) && Enabled(s, GiveUp)
    ensures LookupsOk(Apply(s, GiveUp), lookups + seq(|s.server.rest|, _ => None))
  {
    var t, more := Apply(s, GiveUp), lookups + seq(|s.server.rest|, _ => None);
    forall i | 0 <= i < |t.answered| ensures Decided(t.answered[i], more[i]) {
      if i < |s.answered| { assert t.answered[i] == s.answered[i]; }
      else { assert t.answered[i].answer == Abandoned; }
    }
  }

  lemma OtherLookup(s: State, step: Step, lookups: seq<Option<bool>>)
    requires LookupsOk(s, lookups) && Enabled(s, step) && !step.Fetch? && !step.Send? && !step.GiveUp?
    requires s.server.Releasing? ==> CanTakeDone(s.server.back)
    ensures LookupsOk(Apply(s, step), lookups)
  {
    hide Decided;
  }

  /** In every run the lookups decide the answers. */
  lemma {:induction false} LookupsDecide(states: seq<State>, steps: seq<Step>, n: nat)
    requires IsRun(states, steps) && n <= |steps|
    ensures LookupsOk(states[n], Lookups(states, steps, n))
  {
    hide LookupsOk, Inv, Enabled, Apply;
    if n == 0 {
      assert LookupsOk(Init(), []) by { NothingLooked(); }
    } else {
      LookupsDecide(states, steps, n - 1);
      RunKeeps(states, steps);
      var s, step, before := states[n - 1], steps[n - 1], Lookups(states, steps, n - 1);
      assert s in states && Enabled(s, step) && states[n] == Apply(s, step);
      TokensShape(s);
      match step
      case Fetch(found) => FetchLookup(s, found, before);
      case GiveUp =>
        assert s.server.Fetched? by { CanGiveUp(s); }
        GiveUpLookup(s, before);
      case Send(withInventory) => SendLookup(s, withInventory, before);
      case _ => OtherLookup(s, step, before);
    }
  }

  lemma NothingLooked()
    ensures LookupsOk(Init(), [])
  {
  }

  lemma CanGiveUp(s: State)
    requires Enabled(s, GiveUp)
    ensures s.server.Fetched?
  {
  }

  /** The items of known type whose lookup had one result, in order. */
  function Select(items: seq<Item>, lookups: seq<Option<bool>>, found: bool): seq<Item>
    requires |items| == |lookups|
  {
    if items == [] then []
    else
      var n := |items| - 1;
      Select(items[..n], lookups[..n], found) + (if items[n].recognized && lookups[n] == Some(found) then [items[n]] else [])
  }

  lemma {:induction false} PickedIsSelect(answered: seq<Answered>, lookups: seq<Option<bool>>)
    requires |lookups| == |answered| && forall i :: 0 <= i < |answered| ==> Decided(answered[i], lookups[i])
    requires forall x :: x in answered ==> x.answer != Abandoned
    ensures Picked(answered, Sent) == Select(Items(answered), lookups, true)
    ensures Picked(answered, Missing) == Select(Items(answered), lookups, false)
  {
    if answered != [] {
      var n := |answered| - 1;
      assert answered == answered[..n] + [answered[n]];
      assert Decided(answered[n], lookups[n]) && answered[n] in answered;
      PickedIsSelect(answered[..n], lookups[..n]);
      assert Items(answered)[..n] == Items(answered[..n]);
    }
  }

  /** At rest, data were sent for exactly the accepted items of known type that were
      found, and the notfound messages list exactly those that were not, each in the
      order of the requests. */
  lemma RepliesFollowLookups(states: seq<State>, steps: seq<Step>)
    requires IsRun(states, steps)
    requires var s := states[|steps|]; !s.quit && forall step :: Works(step) ==> !Enabled(s, step)
    ensures var s, lookups := states[|steps|], Lookups(states, steps, |steps|);
      && |lookups| == |s.accepted|
      && DataItems(s.replies) == Select(s.accepted, lookups, true)
      && MissingItems(s.replies) == Select(s.accepted, lookups, false)
  {
    hide DataItems, MissingItems, Picked, Items, Works, Lookups, Select;
    AllServed(states, steps);
    LookupsDecide(states, steps, |steps|);
    PickedIsSelect(states[|steps|].answered, Lookups(states, steps, |steps|));
  }

  // ---- inventory after data ------------------------------------------------------------------------

  /** For each data message, whether an inventory message follows it. */
  function Followed(replies: seq<Reply>): seq<bool> {
    if replies == [] then []
    else
      var n := |replies| - 1;
      var before := Followed(replies[..n]);
      match replies[n]
      case Data(_) => before + [false]
      case Inventory => if before == [] then [] else before[|before| - 1 := true]
      case NotFound(_) => before
  }

  /** For each send, whether it asked for one. */
  function Asked(steps: seq<Step>): seq<bool> {
    if steps == [] then []
    else
      var n := |steps| - 1;
      Asked(steps[..n]) + (if steps[n].Send? then [steps[n].withInventory] else [])
  }

  lemma FollowedSnoc(replies: seq<Reply>, r: Reply)
    ensures var before := Followed(replies);
      Followed(replies + [r]) == match r
        case Data(_) => before + [false]
        case Inventory => if before == [] then [] else before[|before| - 1 := true]
        case NotFound(_) => before
  {
    assert (replies + [r])[..|replies|] == replies;
  }

  ghost predicate AfterData(replies: seq<Reply>) {
    forall i :: 0 <= i < |replies| && replies[i].Inventory? ==> i > 0 && replies[i - 1].Data?
  }

  lemma StepFollows(s: State, step: Step)
    requires Enabled(s, step) && AfterData(s.replies)
    ensures AfterData(Apply(s, step).replies)
    ensures Followed(Apply(s, step).replies) == Followed(s.replies) + (if step.Send? then [step.withInventory] else [])
  {
    hide Followed;
    if step.Send? {
      FollowedSnoc(s.replies, Data(s.server.item));
      FollowedSnoc(s.replies + [Data(s.server.item)], Inventory);
      assert s.replies + [Data(s.server.item)] + [] == s.replies + [Data(s.server.item)];
    } else {
      if step.Finish? { FollowedSnoc(s.replies, NotFound(s.server.missing)); }
      assert Followed(s.replies) + [] == Followed(s.replies);
    }
  }

  /** In every run an inventory message follows exactly the data it was asked for with,
      directly. */
  lemma {:induction false} InventoryFollows(states: seq<State>, steps: seq<Step>, n: nat)
    requires IsRun(states, steps) && n <= |steps|
    ensures AfterData(states[n].replies) && Followed(states[n].replies) == Asked(steps[..n])
  {
    hide Enabled, Apply, Followed, AfterData;
    if n == 0 {
      assert steps[..0] == [] && states[0].replies == [];
      assert AfterData([]) && Followed([]) == [] by { NoReplies(); }
    } else {
      InventoryFollows(states, steps, n - 1);
      assert Enabled(states[n - 1], steps[n - 1]) && states[n] == Apply(states[n - 1], steps[n - 1]);
      StepFollows(states[n - 1], steps[n - 1]);
      assert steps[..n][..n - 1] == steps[..n - 1];
    }
  }

  lemma NoReplies()
    ensures AfterData([]) && Followed([]) == []
  {
  }

  // ---- which requests are taken in -------------------------------------------------------------------

  /** A request within the limits that arrives at a waiting handler is counted and
      queued, whatever the server is doing. */
  lemma RequestAccepted(s: State, msg: seq<Item>)
    requires Inv(s) && s.producer.Waiting? && 0 < |msg| <= MAX_INV
    requires |s.queue| < MAX_QUEUED && s.pending + |msg| <= MAX_PENDING
    ensures Enabled(s, Receive(msg, false))
    ensures var s1 := Apply(s, Receive(msg, false));
      && Enabled(s1, CheckPending)
      && var s2 := Apply(s1, CheckPending);
      && Enabled(s2, Count)
      && var s3 := Apply(s2, Count);
      && Enabled(s3, Enqueue)
      && Apply(s3, Enqueue) == s.(queue := s.queue + [msg], pending := s.pending + |msg|, accepted := s.accepted + msg)
  {
  }

  /** Any other is refused and leaves no trace: an empty one, one of a peer being
      banned, one too many, or one that asks for too much. */
  lemma RequestRefused(s: State, msg: seq<Item>, banned: bool)
    requires Inv(s) && s.producer.Waiting? && |msg| <= MAX_INV
    requires msg == [] || banned || |s.queue| >= MAX_QUEUED || s.pending + |msg| > MAX_PENDING
    ensures Enabled(s, Receive(msg, banned))
    ensures var s1 := Apply(s, Receive(msg, banned));
      s1 == s || (Enabled(s1, CheckPending) && Apply(s1, CheckPending) == s)
  {
  }
}
