/** The contract of `RestorationStore`: a keyed map with a time to live on which
    every transition is one indivisible read-apply-write.  Store implementations
    are shown to refine it; the service is reasoned about on top of it. */
module AtomicContract {
  import opened Domain

  /** `prepare(call, missed)` is what `call` does before its transition, `missed` telling
      whether its lookup found nothing.  `callback(call, prepared, attempt, current)` is
      its state-transition callback: every invocation is handed the state prepared before
      the transition, and `attempt` numbers the invocations. */
  datatype Contract = Contract(
    ttl: real,
    keyOf: Call -> string,
    prepare: (Call, bool) -> Preparation,
    callback: (Call, Option<Record>, nat, Option<Record>) -> Invocation)

  /** What the callback of `call` does when the store invokes it on `current`. */
  function Invoke(c: Contract, call: Call, missed: bool, attempt: nat, current: Option<Record>): Invocation {
    c.callback(call, c.prepare(call, missed).prepared, attempt, current)
  }

  /** The last value written under a key; `None` records a deletion. */
  datatype Cell = Cell(value: Option<Record>, expiresAt: real, writtenAt: real)

  type Cells = map<string, Cell>

  /** An operation as the contract sees it.  A transition looks at the key at `at`
      and takes effect, for good, at `now`. */
  datatype Op =
    | Transition(call: Call, missed: bool, attempt: nat, at: real, now: real)
    | Lookup(call: Call, at: real)
    | Refusal(call: Call, now: real)

  datatype Reply =
    | Wrote(base: Option<Record>, result: Option<Record>)
    | Threw(base: Option<Record>, error: Error)
    | Found(found: Option<Record>)
    | Refused

  function Current(cells: Cells, key: string, at: real): Option<Record> {
    if key in cells && at < cells[key].expiresAt then cells[key].value else None
  }

  function Respond(c: Contract, cells: Cells, op: Op): Reply {
    match op
    case Transition(call, missed, attempt, at, now) =>
      var base := Current(cells, c.keyOf(call), at);
      (match Invoke(c, call, missed, attempt, base).result
       case Return(state) => Wrote(base, state)
       case Raise(error) => Threw(base, error))
    case Lookup(call, at) => Found(Current(cells, c.keyOf(call), at))
    case Refusal(_, _) => Refused
  }

  function Apply(c: Contract, cells: Cells, op: Op): Cells {
    var reply := Respond(c, cells, op);
    if op.Transition? && reply.Wrote? then
      cells[c.keyOf(op.call) := Cell(reply.result, op.now + c.ttl, op.now)]
    else
      cells
  }

  /** No other write to the key fell between the look and the effect. */
  predicate Indivisible(c: Contract, cells: Cells, op: Op) {
    op.Transition? ==>
      && op.at <= op.now
      && (c.keyOf(op.call) in cells ==> cells[c.keyOf(op.call)].writtenAt <= op.at)
  }

  function CellsAfter(c: Contract, ops: seq<Op>): Cells {
    if ops == [] then map[]
    else Apply(c, CellsAfter(c, ops[..|ops| - 1]), ops[|ops| - 1])
  }

  function Replies(c: Contract, ops: seq<Op>): (r: seq<Reply>)
    ensures |r| == |ops|
  {
    if ops == [] then []
    else Replies(c, ops[..|ops| - 1]) + [Respond(c, CellsAfter(c, ops[..|ops| - 1]), ops[|ops| - 1])]
  }

  predicate AllIndivisible(c: Contract, ops: seq<Op>) {
    ops == [] ||
    (AllIndivisible(c, ops[..|ops| - 1]) && Indivisible(c, CellsAfter(c, ops[..|ops| - 1]), ops[|ops| - 1]))
  }

  /** The instant an operation takes effect, or its caller is turned away. */
  function TimeOf(op: Op): real {
    if op.Lookup? then op.at else op.now
  }

  /** Nothing in the log is later than `clock`, given that the log is in order. */
  predicate Until(ops: seq<Op>, clock: real) {
    ops == [] || TimeOf(ops[|ops| - 1]) <= clock
  }

  /** The log is in clock order. */
  predicate InOrder(ops: seq<Op>) {
    ops == [] || (InOrder(ops[..|ops| - 1]) && Until(ops[..|ops| - 1], TimeOf(ops[|ops| - 1])))
  }

  /** The log is in clock order, every operation was answered as by the contract in the
      state the earlier ones left, and no transition let another write of its key in. */
  ghost predicate Atomic(c: Contract, ops: seq<Op>, replies: seq<Reply>) {
    replies == Replies(c, ops) && AllIndivisible(c, ops) && InOrder(ops)
  }

  lemma {:induction false} LaterInLog(ops: seq<Op>, i: nat, j: nat)
    requires InOrder(ops) && i <= j < |ops|
    ensures TimeOf(ops[i]) <= TimeOf(ops[j])
  {
    var front := ops[..|ops| - 1];
    if j < |front| {
      LaterInLog(front, i, j);
    } else if i < j {
      LaterInLog(front, i, |front| - 1);
    }
  }

  lemma AtomicExtend(c: Contract, ops: seq<Op>, replies: seq<Reply>, op: Op)
    requires Atomic(c, ops, replies)
    requires Indivisible(c, CellsAfter(c, ops), op) && Until(ops, TimeOf(op))
    ensures Atomic(c, ops + [op], replies + [Respond(c, CellsAfter(c, ops), op)])
    ensures CellsAfter(c, ops + [op]) == Apply(c, CellsAfter(c, ops), op)
  {
    var all := ops + [op];
    assert |all| - 1 == |ops| && all[..|ops|] == ops && all[|ops|] == op;
    assert Replies(c, all) == Replies(c, ops) + [Respond(c, CellsAfter(c, ops), op)];
    assert AllIndivisible(c, all);
    assert InOrder(all);
  }

  /** A commit makes its result the cell of its key. */
  lemma WriteExtend(c: Contract, ops: seq<Op>, replies: seq<Reply>, op: Op, base: Option<Record>,
                    result: Option<Record>)
    requires Atomic(c, ops, replies) && op.Transition?
    requires Indivisible(c, CellsAfter(c, ops), op) && Until(ops, TimeOf(op))
    requires Respond(c, CellsAfter(c, ops), op) == Wrote(base, result)
    ensures Atomic(c, ops + [op], replies + [Wrote(base, result)])
    ensures CellsAfter(c, ops + [op]) == CellsAfter(c, ops)[c.keyOf(op.call) := Cell(result, op.now + c.ttl, op.now)]
  {
    AtomicExtend(c, ops, replies, op);
  }

  /** Answering without writing leaves the cells as they are. */
  lemma ReadExtend(c: Contract, ops: seq<Op>, replies: seq<Reply>, op: Op, reply: Reply)
    requires Atomic(c, ops, replies)
    requires Indivisible(c, CellsAfter(c, ops), op) && Until(ops, TimeOf(op))
    requires reply == Respond(c, CellsAfter(c, ops), op) && !reply.Wrote?
    ensures Atomic(c, ops + [op], replies + [reply])
    ensures CellsAfter(c, ops + [op]) == CellsAfter(c, ops)
  {
    AtomicExtend(c, ops, replies, op);
  }

  /** The i-th reply is the contract's answer in the state the first i operations left. */
  lemma {:induction false} ReplyAt(c: Contract, ops: seq<Op>, i: nat)
    requires i < |ops|
    ensures Replies(c, ops)[i] == Respond(c, CellsAfter(c, ops[..i]), ops[i])
  {
    var last := |ops| - 1;
    if i < last {
      ReplyAt(c, ops[..last], i);
      assert ops[..last][..i] == ops[..i];
    }
  }

  lemma {:induction false} IndivisibleAt(c: Contract, ops: seq<Op>, i: nat)
    requires AllIndivisible(c, ops) && i < |ops|
    ensures Indivisible(c, CellsAfter(c, ops[..i]), ops[i])
  {
    var last := |ops| - 1;
    if i < last {
      IndivisibleAt(c, ops[..last], i);
      assert ops[..last][..i] == ops[..i];
    }
  }

  ghost predicate Commits(c: Contract, ops: seq<Op>, replies: seq<Reply>, key: string, i: int)
    requires |ops| == |replies|
  {
    0 <= i < |ops| && ops[i].Transition? && c.keyOf(ops[i].call) == key && replies[i].Wrote?
  }

  /** An operation changes the cell of a key exactly when it is a commit on that key. */
  lemma CellOf(c: Contract, ops: seq<Op>, replies: seq<Reply>, key: string, n: nat)
    requires n < |ops| && replies == Replies(c, ops)
    ensures
      var before, after := CellsAfter(c, ops[..n]), CellsAfter(c, ops[..n + 1]);
      if Commits(c, ops, replies, key, n) then
        key in after && after[key] == Cell(replies[n].result, ops[n].now + c.ttl, ops[n].now)
      else
        (key in after <==> key in before) && (key in after ==> after[key] == before[key])
  {
    ReplyAt(c, ops, n);
    assert ops[..n + 1][..n] == ops[..n];
  }

  /** No lost update: a transition that finds a record finds exactly what the latest
      earlier commit on its key wrote, and finds it before its time to live ran out. */
  lemma {:induction false} BaseIsLatestCommit(c: Contract, ops: seq<Op>, replies: seq<Reply>, key: string, n: nat)
    returns (i: int)
    requires Atomic(c, ops, replies)
    requires n <= |ops|
    ensures -1 <= i < n
    ensures i >= 0 ==> Commits(c, ops, replies, key, i)
    ensures forall m :: i < m < n ==> !Commits(c, ops, replies, key, m)
    ensures i >= 0 ==> key in CellsAfter(c, ops[..n])
                       && CellsAfter(c, ops[..n])[key] == Cell(replies[i].result, ops[i].now + c.ttl, ops[i].now)
    ensures i < 0 ==> key !in CellsAfter(c, ops[..n])
  {
    if n == 0 {
      i := -1;
    } else {
      i := BaseIsLatestCommit(c, ops, replies, key, n - 1);
      CellOf(c, ops, replies, key, n - 1);
      if Commits(c, ops, replies, key, n - 1) {
        i := n - 1;
      }
    }
  }

  /** The value a transition is applied to, in terms of the history alone. */
  lemma {:induction false} NoLostUpdate(c: Contract, ops: seq<Op>, replies: seq<Reply>, j: nat) returns (i: int)
    requires Atomic(c, ops, replies)
    requires j < |ops| && ops[j].Transition?
    ensures -1 <= i < j
    ensures i >= 0 ==> Commits(c, ops, replies, c.keyOf(ops[j].call), i) && ops[i].now <= ops[j].at <= ops[j].now
    ensures forall m :: i < m < j ==> !Commits(c, ops, replies, c.keyOf(ops[j].call), m)
    ensures !replies[j].Found? && !replies[j].Refused?
    ensures replies[j].base == if i >= 0 && ops[j].at < ops[i].now + c.ttl then replies[i].result else None
    ensures replies[j].Wrote? ==>
              Invoke(c, ops[j].call, ops[j].missed, ops[j].attempt, replies[j].base).result == Return(replies[j].result)
    ensures replies[j].Threw? ==>
              Invoke(c, ops[j].call, ops[j].missed, ops[j].attempt, replies[j].base).result == Raise(replies[j].error)
  {
    i := BaseIsLatestCommit(c, ops, replies, c.keyOf(ops[j].call), j);
    ReplyAt(c, ops, j);
    IndivisibleAt(c, ops, j);
  }
}
