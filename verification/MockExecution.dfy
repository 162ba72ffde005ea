/** The loop in `execute` over the real queue: pulling, waiting, resuming, transmitting.  Every execution is a run of
    the radio, so what is proved about those runs holds for the loop. */
module MockExecution {
  import opened AsyncQueues
  import opened MockParties
  import opened MockRadio
  import opened Wrappers

  /** `loop` is where the loop stands; while a frame is being transmitted it has not pulled the next one.  `sent`,
      `delivered` and `lost`, the dropped acknowledgements, are history. */
  datatype Wire = Wire(
    queue: Queue<Frame>, loop: Consumer, transmitting: Option<Frame>, nodes: set<nat>,
    sent: seq<Frame>, delivered: seq<Frame>, lost: set<(nat, bool, nat)>)

  datatype Move = Outside(step: Step) | PullNext | Resume | DelayEnds

  function Put(w: Wire, f: Frame): Wire {
    w.(queue := Added(w.queue, [f]), sent := w.sent + [f])
  }

  /** What the loop does with a frame before the transmission delay. */
  function Dispatch(w: Wire, f: Frame): Wire {
    if Reachable(f, w.nodes) then w.(loop := Free, transmitting := Some(f))
    else w.(loop := Free, lost := WithDropped(w.lost, f))
  }

  predicate CanMove(w: Wire, m: Move) {
    match m
    case Outside(step) => !step.Take? && !step.Deliver?
    case PullNext => w.loop.Free? && w.transmitting.None?
    case Resume => w.loop.Pulling? && w.loop.p in w.queue.settled
    case DelayEnds => w.transmitting.Some?
  }

  function AfterMove(w: Wire, m: Move): Wire
    requires CanMove(w, m)
  {
    match m
    case Outside(SendToNode(n)) => Put(w, Frame(0, n, Request, 0))
    case Outside(SendToController(n)) => Put(w, Frame(n, 0, Request, 0))
    case Outside(AddNode(n)) => w.(nodes := w.nodes + {n})
    case Outside(RemoveNode(n)) => w.(nodes := w.nodes - {n})
    case PullNext =>
      var (after, pulled) := AfterNext(w.queue);
      var next := w.(queue := after);
      (match pulled
       case Item(f) => Dispatch(next, f)
       case Waiting => next.(loop := Pulling(w.queue.pulls))
       case Done => next)
    case Resume =>
      var v := w.queue.settled[w.loop.p];
      if v.Some? then Dispatch(w, v.value) else w
    case DelayEnds =>
      var f := w.transmitting.value;
      var done := w.(transmitting := None, delivered := w.delivered + [f]);
      if f.kind == Request then Put(done, AckFor(f, w.delivered)) else done
  }

  function Begin(nodes: set<nat>): Wire {
    Wire(Empty(), Free, None, nodes, [], [], {})
  }

  ghost predicate IsExecution(ws: seq<Wire>, moves: seq<Move>) {
    && |ws| == |moves| + 1
    && forall k | 0 <= k < |moves| :: CanMove(ws[k], moves[k]) && ws[k + 1] == AfterMove(ws[k], moves[k])
  }

  // ---- Each move is a step of the radio, or none

  /** The frames in the air are those that the loop is going to see. */
  ghost predicate Shows(w: Wire, r: Radio) {
    && SoleConsumer(w.queue, w.loop) && (w.transmitting.Some? ==> w.loop == Free)
    && r.air == Upcoming(w.queue, w.loop)
    && r.transmitting == w.transmitting && r.nodes == w.nodes
    && r.sent == w.sent && r.delivered == w.delivered && r.lost == w.lost
  }

  /** Starting to wait on an empty line is invisible; every other move is a step. */
  function StepOf(w: Wire, m: Move): Option<Step> {
    match m
    case Outside(step) => Some(step)
    case PullNext => if w.queue.backlog == [] then None else Some(Take)
    case Resume => Some(Take)
    case DelayEnds => Some(Deliver)
  }

  lemma PutShows(w: Wire, r: Radio, f: Frame)
    requires Shows(w, r)
    ensures Shows(Put(w, f), Send(r, f))
  {
    hide SoleConsumer, Upcoming, Added;
    AddAppends(w.queue, w.loop, f);
  }

  lemma DispatchShows(w: Wire, r: Radio, f: Frame)
    requires SoleConsumer(w.queue, Free) && w.transmitting.None?
    requires r.air == [f] + Upcoming(w.queue, Free)
    requires r.transmitting == w.transmitting && r.nodes == w.nodes
    requires r.sent == w.sent && r.delivered == w.delivered && r.lost == w.lost
    ensures Enabled(r, Take) && Shows(Dispatch(w, f), Do(r, Take))
  {
    hide SoleConsumer, Upcoming, Reachable;
    assert r.air[0] == f && r.air[1..] == Upcoming(w.queue, Free);
  }

  lemma MoveIsAStep(w: Wire, r: Radio, m: Move)
    requires Shows(w, r) && CanMove(w, m)
    ensures match StepOf(w, m)
            case Some(step) => Enabled(r, step) && Shows(AfterMove(w, m), Do(r, step))
            case None => Shows(AfterMove(w, m), r)
  {
    hide Added, AfterNext, AckFor, Dispatch, Upcoming, SoleConsumer, Reachable, Send, Put;
    match m
    case Outside(SendToNode(n)) => PutShows(w, r, Frame(0, n, Request, 0));
    case Outside(SendToController(n)) => PutShows(w, r, Frame(n, 0, Request, 0));
    case Outside(_) =>
    case PullNext =>
      PullTakesHead(w.queue);
      PullIsItemIff(w.queue);
      var (after, pulled) := AfterNext(w.queue);
      if pulled.Item? {
        DispatchShows(w.(queue := after), r, pulled.value);
      }
    case Resume =>
      ResumeTakesHead(w.queue, w.loop.p);
      DispatchShows(w, r, w.queue.settled[w.loop.p].value);
    case DelayEnds =>
      var f := w.transmitting.value;
      if f.kind == Request {
        PutShows(w.(transmitting := None, delivered := w.delivered + [f]),
                 r.(transmitting := None, delivered := r.delivered + [f]), AckFor(f, w.delivered));
      }
  }

  lemma PullIsItemIff<T>(q: Queue<T>)
    ensures AfterNext(q).1.Item? <==> q.backlog != []
  {
  }

  predicate Inside(m: Move) {
    !m.Outside?
  }

  function LoopDeliveries(moves: seq<Move>): nat {
    if moves == [] then 0
    else LoopDeliveries(moves[..|moves| - 1]) + (if moves[|moves| - 1].DelayEnds? then 1 else 0)
  }

  /** Move `j` makes step `k` of the run. */
  ghost predicate Makes(ws: seq<Wire>, moves: seq<Move>, steps: seq<Step>, at: seq<nat>, j: int, k: int) {
    && 0 <= j < |moves| && j < |ws| && j < |at| && 0 <= k < |steps|
    && at[j] == k && StepOf(ws[j], moves[j]) == Some(steps[k])
  }

  ghost predicate IsMade(ws: seq<Wire>, moves: seq<Move>, steps: seq<Step>, at: seq<nat>, k: int) {
    exists j :: Makes(ws, moves, steps, at, j, k)
  }

  /** `at` says where the run stands before each move: the wire shows the radio there, and the run goes on with the
      step of that move. */
  ghost predicate Follows(ws: seq<Wire>, moves: seq<Move>, rs: seq<Radio>, steps: seq<Step>, at: seq<nat>) {
    && |at| == |moves| + 1 == |ws| && |rs| == |steps| + 1 && at[|moves|] == |steps|
    && (forall j | 0 <= j < |at| :: at[j] < |rs| && Shows(ws[j], rs[at[j]]))
    && (forall j | 0 <= j < |moves| && StepOf(ws[j], moves[j]).Some? :: Makes(ws, moves, steps, at, j, at[j]))
    && (forall k | 0 <= k < |steps| :: IsMade(ws, moves, steps, at, k))
  }

  /** An execution that starts where a radio stands is a run of that radio, with the same frames, the same
      deliveries and the same steps from outside. */
  lemma {:induction false} ExecutionIsARunFrom(ws: seq<Wire>, moves: seq<Move>, r: Radio)
      returns (rs: seq<Radio>, steps: seq<Step>, at: seq<nat>)
    requires IsExecution(ws, moves) && Shows(ws[0], r)
    ensures IsRun(rs, steps) && rs[0] == r && Shows(ws[|moves|], rs[|steps|])
    ensures Follows(ws, moves, rs, steps, at)
    ensures Deliveries(steps) == LoopDeliveries(moves)
    ensures forall s | s in steps && !s.Take? && !s.Deliver? :: Outside(s) in moves
    decreases |moves|
  {
    hide CanMove, AfterMove, Shows, Enabled, Do;
    if moves == [] {
      rs, steps, at := [r], [], [0];
    } else {
      var n := |moves| - 1;
      rs, steps, at := ExecutionIsARunFrom(ws[..n + 1], moves[..n], r);
      var rs0, steps0 := rs, steps;
      MoveIsAStep(ws[n], rs[|steps|], moves[n]);
      var step := StepOf(ws[n], moves[n]);
      DeliveryIsADelivery(ws[n], moves[n]);
      if step.Some? {
        assert (steps + [step.value])[..|steps|] == steps;
        rs, steps := rs + [Do(rs[|steps|], step.value)], steps + [step.value];
      }
      FollowsOne(ws, moves, rs0, steps0, at, rs, steps);
      at := at + [|steps|];
    }
  }

  /** The run goes on with the step of the last move, if it has one. */
  lemma FollowsOne(ws: seq<Wire>, moves: seq<Move>, rs: seq<Radio>, steps: seq<Step>, at: seq<nat>,
                   rs': seq<Radio>, steps': seq<Step>)
    requires |ws| == |moves| + 1 && moves != []
    requires var n := |moves| - 1;
             && Follows(ws[..n + 1], moves[..n], rs, steps, at)
             && rs <= rs' && |rs'| == |steps'| + 1 && Shows(ws[n + 1], rs'[|steps'|])
             && steps' == match StepOf(ws[n], moves[n]) { case Some(step) => steps + [step] case None => steps }
    ensures Follows(ws, moves, rs', steps', at + [|steps'|])
  {
    hide Shows, StepOf;
    var n, at' := |moves| - 1, at + [|steps'|];
    forall j | 0 <= j < |at| ensures at[j] < |rs'| && Shows(ws[j], rs'[at[j]]) {
      assert ws[..n + 1][j] == ws[j];
    }
    forall j, k | Makes(ws[..n + 1], moves[..n], steps, at, j, k) ensures Makes(ws, moves, steps', at', j, k) {
      assert ws[..n + 1][j] == ws[j] && moves[..n][j] == moves[j];
    }
    if StepOf(ws[n], moves[n]).Some? {
      assert Makes(ws, moves, steps', at', n, |steps|);
    }
    forall k | 0 <= k < |steps'| ensures IsMade(ws, moves, steps', at', k) {
      if k < |steps| {
        assert IsMade(ws[..n + 1], moves[..n], steps, at, k);
        var j :| Makes(ws[..n + 1], moves[..n], steps, at, j, k);
        assert Makes(ws, moves, steps', at', j, k);
      } else {
        assert Makes(ws, moves, steps', at', n, k);
      }
    }
    forall j | 0 <= j < n && StepOf(ws[j], moves[j]).Some? ensures Makes(ws, moves, steps', at', j, at'[j]) {
      assert ws[..n + 1][j] == ws[j] && moves[..n][j] == moves[j];
    }
  }

  lemma DeliveryIsADelivery(w: Wire, m: Move)
    requires CanMove(w, m)
    ensures m.DelayEnds? <==> StepOf(w, m) == Some(Deliver)
  {
  }

  /** In particular, an execution from the beginning is a run from the start. */
  lemma ExecutionIsARun(ws: seq<Wire>, moves: seq<Move>, nodes: set<nat>)
      returns (rs: seq<Radio>, steps: seq<Step>, at: seq<nat>)
    requires IsExecution(ws, moves) && ws[0] == Begin(nodes)
    ensures Follows(ws, moves, rs, steps, at)
    ensures IsRun(rs, steps) && rs[0] == Start(nodes) && Shows(ws[|moves|], rs[|steps|])
    ensures forall s | s in steps && !s.Take? && !s.Deliver? :: Outside(s) in moves
  {
    hide Shows, IsRun, Follows;
    BeginShows(nodes);
    rs, steps, at := ExecutionIsARunFrom(ws, moves, Start(nodes));
  }

  lemma BeginShows(nodes: set<nat>)
    ensures Shows(Begin(nodes), Start(nodes))
  {
  }

  // ---- What follows for the loop

  /** In move `j`, the loop takes the i-th frame that was sent: it pulls it, or is resumed with it. */
  ghost predicate LoopTakes(ws: seq<Wire>, moves: seq<Move>, j: int, i: int) {
    && 0 <= j < |moves| && j < |ws|
    && (moves[j].Resume? || (moves[j].PullNext? && ws[j].queue.backlog != []))
    && i == |ws[j].sent| - |Upcoming(ws[j].queue, ws[j].loop)|
  }

  ghost predicate IsLoopTaken(ws: seq<Wire>, moves: seq<Move>, i: int) {
    exists j :: LoopTakes(ws, moves, j, i)
  }

  /** Nothing is overtaken and nothing gets lost in the queue: what was delivered or is being transmitted are the sent
      frames in order, without those whose node did not exist when the loop took them, and the rest of what was sent
      is what the loop will see. */
  lemma LoopDeliversInSendOrder(ws: seq<Wire>, moves: seq<Move>, nodes: set<nat>) returns (fates: seq<bool>)
    requires IsExecution(ws, moves) && ws[0] == Begin(nodes)
    ensures var w := ws[|moves|];
            && |fates| <= |w.sent|
            && w.delivered + (if w.transmitting.Some? then [w.transmitting.value] else [])
               == Survivors(w.sent[..|fates|], fates)
            && Upcoming(w.queue, w.loop) == w.sent[|fates|..]
            && (forall i | 0 <= i < |fates| :: IsLoopTaken(ws, moves, i))
            && (forall j, i | LoopTakes(ws, moves, j, i) ::
                  0 <= i < |fates| && (fates[i] <==> HasNode(w.sent[i], ws[j].nodes)))
  {
    hide IsExecution, IsRun, Survivors, Upcoming, SoleConsumer, HasNode;
    var rs, steps, at := ExecutionIsARun(ws, moves, nodes);
    RunLength(rs, steps);
    DeliveredInSendOrder(rs, steps, nodes, |steps|);
    fates := rs[|steps|].fates;
    forall j, i | LoopTakes(ws, moves, j, i)
      ensures 0 <= i < |fates| && (fates[i] <==> HasNode(ws[|moves|].sent[i], ws[j].nodes))
    {
      assert Makes(ws, moves, steps, at, j, at[j]);
      assert Takes(rs, steps, at[j], i);
    }
    forall i | 0 <= i < |fates| ensures IsLoopTaken(ws, moves, i) {
      assert WasTaken(rs, steps, |steps|, i);
      var k :| k < |steps| && Takes(rs, steps, k, i);
      assert IsMade(ws, moves, steps, at, k);
      var j :| Makes(ws, moves, steps, at, j, k);
      assert Shows(ws[j], rs[at[j]]);
      TakingMove(ws, moves, j);
      assert LoopTakes(ws, moves, j, i);
    }
  }

  lemma TakingMove(ws: seq<Wire>, moves: seq<Move>, j: nat)
    requires IsExecution(ws, moves) && j < |moves| && StepOf(ws[j], moves[j]) == Some(Take)
    ensures moves[j].Resume? || (moves[j].PullNext? && ws[j].queue.backlog != [])
  {
    assert CanMove(ws[j], moves[j]);
  }

  lemma RunLength(rs: seq<Radio>, steps: seq<Step>)
    requires IsRun(rs, steps)
    ensures |rs| == |steps| + 1
  {
  }

  /** As long as no node is removed, the k-th acknowledgement a party receives on a link answers its k-th delivered
      request. */
  lemma LoopAcksInOrder(ws: seq<Wire>, moves: seq<Move>, nodes: set<nat>, n: nat, toNode: bool, k: nat)
    requires IsExecution(ws, moves) && ws[0] == Begin(nodes)
    requires forall m | m in moves && m.Outside? :: !m.step.RemoveNode?
    requires k < |Acks(ws[|moves|].delivered, n, toNode)|
    ensures Acks(ws[|moves|].delivered, n, toNode)[k] == k < Requests(ws[|moves|].delivered, n, !toNode)
  {
    hide IsExecution, IsRun, Acks, Requests, Upcoming, SoleConsumer;
    var rs, steps, at := ExecutionIsARun(ws, moves, nodes);
    RunLength(rs, steps);
    forall j | 0 <= j < |steps| ensures !steps[j].RemoveNode? {
      assert steps[j] in steps;
      assert steps[j].Take? || steps[j].Deliver? || Outside(steps[j]) in moves;
    }
    AcksAnswerInOrder(rs, steps, nodes, |steps|, n, toNode, k);
  }

  /** Whatever nodes come and go: the acknowledgements received on a link answer the delivered requests one by one
      exactly if no acknowledgement of an earlier request was dropped. */
  lemma LoopAcksInOrderIff(ws: seq<Wire>, moves: seq<Move>, nodes: set<nat>, n: nat, toNode: bool)
    requires IsExecution(ws, moves) && ws[0] == Begin(nodes)
    ensures var w := ws[|moves|];
            var acks := Acks(w.delivered, n, toNode);
            && |acks| <= Requests(w.delivered, n, !toNode)
            && ((forall k | 0 <= k < |acks| :: acks[k] == k) <==>
                forall l | l in LostOn(w.lost, n, toNode) :: l >= |acks|)
  {
    hide IsExecution, IsRun, Acks, Requests, Upcoming, SoleConsumer, LostOn;
    var rs, steps, at := ExecutionIsARun(ws, moves, nodes);
    RunLength(rs, steps);
    AcksAnswerInOrderIff(rs, steps, nodes, |steps|, n, toNode);
  }

  /** The frames that the loop still has to deal with, the one in transmission first. */
  function ToDo(w: Wire): seq<Frame> {
    (if w.transmitting.Some? then [w.transmitting.value] else []) + Upcoming(w.queue, w.loop)
  }

  /** From any reachable point at which all nodes concerned exist, and with nothing sent from outside any more, the
      loop is done after exactly two deliveries for each pending request and one for each pending acknowledgement,
      and it can go on until then. */
  lemma LoopEmptiesAir(before: seq<Wire>, past: seq<Move>, nodes: set<nat>, ws: seq<Wire>, moves: seq<Move>)
    requires IsExecution(before, past) && before[0] == Begin(nodes)
    requires IsExecution(ws, moves) && ws[0] == before[|past|]
    requires forall f | f in ToDo(ws[0]) :: Reachable(f, ws[0].nodes)
    requires forall m | m in moves :: Inside(m)
    ensures var w, work := ws[|moves|], 2 * CountKind(ToDo(ws[0]), Request) + CountKind(ToDo(ws[0]), Ack);
            && LoopDeliveries(moves) <= work
            && (ToDo(w) == [] <==> LoopDeliveries(moves) == work)
            && (ToDo(w) != [] ==> CanMove(w, PullNext) || CanMove(w, Resume) || CanMove(w, DelayEnds))
  {
    hide IsRun, CountKind, Reachable, Upcoming, SoleConsumer, CanMove, AfterMove, Deliveries, LoopDeliveries, Enabled;
    var rs0, steps0, at0 := ExecutionIsARun(before, past, nodes);
    RunLength(rs0, steps0);
    var r := rs0[|steps0|];
    var rs, steps, at := ExecutionIsARunFrom(ws, moves, r);
    RunLength(rs, steps);
    assert ToDo(ws[0]) == Pending(r) && ToDo(ws[|moves|]) == Pending(rs[|steps|]);
    forall j | 0 <= j < |steps| ensures steps[j].Take? || steps[j].Deliver? {
      assert steps[j] in steps;
      assert steps[j].Take? || steps[j].Deliver? || !Inside(Outside(steps[j]));
    }
    AirEmpties(rs, steps);
    ShownIsNotStuck(ws[|moves|], rs[|steps|]);
  }

  /** No wake-up is missed: while there are frames to see or to transmit, the loop can go on. */
  lemma LoopIsNeverStuck(ws: seq<Wire>, moves: seq<Move>, nodes: set<nat>)
    requires IsExecution(ws, moves) && ws[0] == Begin(nodes)
    ensures var w := ws[|moves|];
            Upcoming(w.queue, w.loop) != [] || w.transmitting.Some? ==>
              CanMove(w, PullNext) || CanMove(w, Resume) || CanMove(w, DelayEnds)
  {
    hide Upcoming, SoleConsumer, CanMove, AfterMove, Enabled, Do;
    var rs, steps, at := ExecutionIsARun(ws, moves, nodes);
    ShownIsNotStuck(ws[|moves|], rs[|steps|]);
  }

  lemma ShownIsNotStuck(w: Wire, r: Radio)
    requires Shows(w, r)
    ensures Upcoming(w.queue, w.loop) != [] || w.transmitting.Some? ==>
              CanMove(w, PullNext) || CanMove(w, Resume) || CanMove(w, DelayEnds)
  {
  }
}
