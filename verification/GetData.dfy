/** The flow control of getdata requests: the peer's input handler counts and
    queues requests, one goroutine serves them, and an asynchronous sender reports
    each sent message.  Every atomic action is a step; a run interleaves them. */
module GetData {

  const MAX_QUEUED: nat := 1000
  const MAX_INV: nat := 50000
  const MAX_PENDING: nat := 2 * MAX_INV
  const MAX_SENDING: nat := 3
  const DONE_CAPACITY: nat := MAX_SENDING + 1
  const UINT32: nat := 0x1_0000_0000

  /** A requested item; its type may not be one the server knows. */
  datatype Item = Item(recognized: bool, hash: nat)

  datatype Answer = Sent | Missing | Ignored | Abandoned

  datatype Answered = Answered(item: Item, answer: Answer)

  datatype Reply = Data(item: Item) | Inventory | NotFound(items: seq<Item>)

  datatype Producer = Waiting | QueueChecked(msg: seq<Item>) | PendingChecked(msg: seq<Item>) | Counted(msg: seq<Item>)

  /** Where the serving goroutine is; `missing` is the notfound message it builds. */
  datatype Server =
    | Idle
    | Serving(rest: seq<Item>, missing: seq<Item>)
    | Fetched(item: Item, rest: seq<Item>, missing: seq<Item>)
    | Acquired(item: Item, rest: seq<Item>, missing: seq<Item>)
    | Uncounted(item: Item, rest: seq<Item>, missing: seq<Item>)
    | Releasing(back: Server)
    | Stopped

  /** The last three fields are history: what was accepted, how each item was
      answered, and how many counted items were never queued. */
  datatype State = State(producer: Producer, server: Server, queue: seq<seq<Item>>, pending: nat,
                         semaphore: nat, done: nat, unacked: nat, quit: bool, replies: seq<Reply>,
                         accepted: seq<Item>, answered: seq<Answered>, dropped: nat)

  datatype Step =
    | Receive(msg: seq<Item>, refused: bool)
    | CheckPending
    | Count
    | Enqueue
    | Drop
    | Take
    | Fetch(found: bool)
    | Finish
    | Acquire
    | GiveUp
    | Uncount
    | Send(withInventory: bool)
    | TakeDone
    | Release
    | Stop
    | Acknowledge
    | Quit

  function Init(): State {
    State(Waiting, Idle, [], 0, 0, 0, 0, false, [], [], [], 0)
  }

  function Minus1(n: nat): nat { (n + UINT32 - 1) % UINT32 }

  function Plus(n: nat, k: nat): nat { (n + k) % UINT32 }

  function Giving(items: seq<Item>, a: Answer): (r: seq<Answered>)
    ensures |r| == |items|
  {
    seq(|items|, i requires 0 <= i < |items| => Answered(items[i], a))
  }

  predicate CanTakeDone(p: Server) { p.Idle? || p.Fetched? }

  predicate Enabled(s: State, step: Step) {
    match step
    case Receive(msg, refused) => s.producer.Waiting? && |msg| <= MAX_INV
    case CheckPending => s.producer.QueueChecked?
    case Count => s.producer.PendingChecked?
    case Enqueue => s.producer.Counted? && |s.queue| < MAX_QUEUED
    case Drop => s.producer.Counted? && s.quit
    case Take => s.server.Idle? && s.queue != []
    case Fetch(found) => s.server.Serving? && s.server.rest != []
    case Finish => s.server.Serving? && s.server.rest == []
    case Acquire => s.server.Fetched? && s.semaphore < MAX_SENDING
    case GiveUp => s.server.Fetched? && s.quit
    case Uncount => s.server.Acquired?
    case Send(withInventory) => s.server.Uncounted?
    case TakeDone => CanTakeDone(s.server) && s.done > 0
    case Release => s.server.Releasing? && s.semaphore > 0
    case Stop => s.server.Idle? && s.quit
    case Acknowledge => s.unacked > 0 && s.done < DONE_CAPACITY
    case Quit => !s.quit
  }

  /** One action of OnGetData. */
  function ProducerStep(s: State, step: Step): State
    requires Enabled(s, step) && (step.Receive? || step.CheckPending? || step.Count? || step.Enqueue? || step.Drop?)
  {
    match step
    case Receive(msg, refused) =>
      if msg == [] || refused || |s.queue| + 1 > MAX_QUEUED then s else s.(producer := QueueChecked(msg))
    case CheckPending =>
      var msg := s.producer.msg;
      s.(producer := if Plus(s.pending, |msg|) > MAX_PENDING then Waiting else PendingChecked(msg))
    case Count =>
      var msg := s.producer.msg;
      s.(producer := Counted(msg), pending := Plus(s.pending, |msg|))
    case Enqueue =>
      var msg := s.producer.msg;
      s.(producer := Waiting, queue := s.queue + [msg], accepted := s.accepted + msg)
    case Drop => s.(producer := Waiting, dropped := s.dropped + |s.producer.msg|)
  }

  /** Looking up the next item of the batch. */
  function FetchStep(s: State, found: bool): State
    requires s.server.Serving? && s.server.rest != []
  {
    var item, rest, missing := s.server.rest[0], s.server.rest[1..], s.server.missing;
    if !item.recognized then
      s.(server := Serving(rest, missing), answered := s.answered + [Answered(item, Ignored)])
    else if !found then
      s.(server := Serving(rest, missing + [item]), pending := Minus1(s.pending),
         answered := s.answered + [Answered(item, Missing)])
    else s.(server := Fetched(item, rest, missing))
  }

  /** One action of serveGetData or handleServeGetData. */
  function ServerStep(s: State, step: Step): State
    requires Enabled(s, step) && IsServerStep(step)
  {
    match step
    case Take => s.(server := Serving(s.queue[0], []), queue := s.queue[1..])
    case Fetch(found) => FetchStep(s, found)
    case Finish =>
      s.(server := Idle, replies := if s.server.missing == [] then s.replies else s.replies + [NotFound(s.server.missing)])
    case Acquire =>
      s.(server := Acquired(s.server.item, s.server.rest, s.server.missing), semaphore := s.semaphore + 1)
    case GiveUp =>
      s.(server := Idle, answered := s.answered + Giving([s.server.item] + s.server.rest, Abandoned))
    case Uncount =>
      s.(server := Uncounted(s.server.item, s.server.rest, s.server.missing), pending := Minus1(s.pending))
    case Send(withInventory) =>
      s.(server := Serving(s.server.rest, s.server.missing), unacked := s.unacked + 1,
         replies := s.replies + [Data(s.server.item)] + (if withInventory then [Inventory] else []),
         answered := s.answered + [Answered(s.server.item, Sent)])
    case TakeDone => s.(server := Releasing(s.server), done := s.done - 1)
    case Release => s.(server := s.server.back, semaphore := s.semaphore - 1)
    case Stop => s.(server := Stopped)
  }

  predicate IsServerStep(step: Step) {
    || step.Take? || step.Fetch? || step.Finish? || step.Acquire? || step.GiveUp? || step.Uncount? || step.Send?
    || step.TakeDone? || step.Release? || step.Stop?
  }

  function Apply(s: State, step: Step): State
    requires Enabled(s, step)
  {
    if IsServerStep(step) then ServerStep(s, step)
    else if step.Acknowledge? then s.(unacked := s.unacked - 1, done := s.done + 1)
    else if step.Quit? then s.(quit := true)
    else ProducerStep(s, step)
  }

  // ---- what every step keeps -----------------------------------------------------------------

  function Flat(queue: seq<seq<Item>>): (r: seq<Item>) {
    if queue == [] then [] else queue[0] + Flat(queue[1..])
  }

  function Items(answered: seq<Answered>): (r: seq<Item>)
    ensures |r| == |answered|
  {
    seq(|answered|, i requires 0 <= i < |answered| => answered[i].item)
  }

  /** The items of the batch being served that are not answered yet. */
  function InHand(p: Server): seq<Item> {
    match p
    case Serving(rest, _) => rest
    case Fetched(item, rest, _) => [item] + rest
    case Acquired(item, rest, _) => [item] + rest
    case Uncounted(item, rest, _) => [item] + rest
    case Releasing(back) => InHand(back)
    case _ => []
  }

  /** Items answered in one way. */
  function Picked(answered: seq<Answered>, a: Answer): seq<Item> {
    if answered == [] then []
    else
      var n := |answered| - 1;
      Picked(answered[..n], a) + (if answered[n].answer == a then [answered[n].item] else [])
  }

  /** Items counted but not served: just counted, queued, in hand, given up, or
      never queued. */
  function Unserved(s: State): nat {
    (if s.producer.Counted? then |s.producer.msg| else 0) + |Flat(s.queue)|
    + |InHand(s.server)| - (if s.server.Uncounted? then 1 else 0)
    + |Picked(s.answered, Abandoned)| + s.dropped
  }

  ghost predicate ProducerOk(s: State) {
    match s.producer
    case Waiting => true
    case QueueChecked(msg) => |s.queue| < MAX_QUEUED && |msg| <= MAX_INV
    case PendingChecked(msg) => |s.queue| < MAX_QUEUED && s.pending + |msg| <= MAX_PENDING
    case Counted(msg) => |s.queue| < MAX_QUEUED
  }

  /** Tokens held: unacknowledged sends, buffered signals, and one in transit while
      a send is being prepared or a signal turned into a release. */
  ghost predicate TokensOk(s: State) {
    && s.semaphore == s.unacked + s.done + (if s.server.Acquired? || s.server.Uncounted? || s.server.Releasing? then 1 else 0)
    && s.semaphore <= MAX_SENDING
    && (s.server.Releasing? ==> CanTakeDone(s.server.back))
  }

  ghost predicate PendingOk(s: State) {
    s.pending == Unserved(s) + |Picked(s.answered, Ignored)| && s.pending <= MAX_PENDING
  }

  /** Nothing lost, nothing duplicated, nothing reordered. */
  ghost predicate OrderOk(s: State) {
    s.accepted == Items(s.answered) + InHand(s.server) + Flat(s.queue)
  }

  ghost predicate Inv(s: State) {
    ProducerOk(s) && TokensOk(s) && PendingOk(s) && OrderOk(s) && |s.queue| <= MAX_QUEUED
  }
}
