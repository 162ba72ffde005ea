/** The mock controller and the mock nodes as objects around the shared queue, and why that queue is a plain
    first-in first-out line for the one loop that reads it. */
module MockParties {
  import opened AsyncQueues
  import opened MockRadio
  import opened Wrappers

  // ---- A queue with a single consumer is a line

  /** The state of the loop in `execute`: between two pulls, or waiting for pull `p`. */
  datatype Consumer = Free | Pulling(p: Pull)

  /** The items the consumer is going to see, in order: one that was handed to its waiting pull, then the backlog. */
  function Upcoming<T>(q: Queue<T>, c: Consumer): seq<T> {
    if c.Pulling? && c.p in q.settled && q.settled[c.p].Some? then [q.settled[c.p].value] + q.backlog else q.backlog
  }

  /** Nobody else has ever pulled, and the queue has not ended. */
  ghost predicate SoleConsumer<T>(q: Queue<T>, c: Consumer) {
    && !q.ended
    && (forall p | p in q.settled :: p < q.pulls)
    && match c
       case Free => q.listeners == []
       case Pulling(p) =>
         p < q.pulls && if q.listeners == [] then p in q.settled && q.settled[p].Some?
                        else q.listeners == [p] && p !in q.settled && q.backlog == []
  }

  lemma AddAppends<T>(q: Queue<T>, c: Consumer, item: T)
    requires SoleConsumer(q, c)
    ensures SoleConsumer(Added(q, [item]), c)
    ensures Upcoming(Added(q, [item]), c) == Upcoming(q, c) + [item]
  {
    if q.listeners != [] {
      assert ResolveWith(q.settled, [], []) == q.settled;
      assert [c.p][..0] == [] && [item][..0] == [];
      assert ResolveWith(q.settled, [c.p], [item]) == q.settled[c.p := Some(item)];
      assert q.listeners[..1] == q.listeners && [item][..1] == [item] && [item][1..] == [];
      assert q.listeners[..0] == [] && [item][..0] == [];
    } else {
      assert q.listeners[..0] == [] && [item][0..] == [item];
    }
  }

  /** Pulling takes the head of the line; if the line is empty, the loop starts to wait. */
  lemma PullTakesHead<T>(q: Queue<T>)
    requires SoleConsumer(q, Free)
    ensures var (after, r) := AfterNext(q);
            match r
            case Item(v) => SoleConsumer(after, Free) && Upcoming(q, Free) == [v] + Upcoming(after, Free)
            case Waiting =>
              && SoleConsumer(after, Pulling(q.pulls))
              && Upcoming(q, Free) == Upcoming(after, Pulling(q.pulls)) == []
            case Done => false
  {
  }

  /** A waiting loop that is resolved goes on with the head of the line. */
  lemma ResumeTakesHead<T>(q: Queue<T>, p: Pull)
    requires SoleConsumer(q, Pulling(p)) && p in q.settled
    ensures q.settled[p].Some? && SoleConsumer(q, Free)
    ensures Upcoming(q, Pulling(p)) == [q.settled[p].value] + Upcoming(q, Free)
  {
  }

  // ---- The objects

  class MockNode {
    const id: nat
    const air: AsyncQueue<Frame>
    var autoAckControllerFrames: bool
    var receivedControllerFrames: seq<Frame>
    var sentControllerFrames: seq<Frame>

    constructor (id: nat, air: AsyncQueue<Frame>)
      ensures this.id == id && this.air == air && autoAckControllerFrames
      ensures receivedControllerFrames == [] && sentControllerFrames == []
    {
      this.id, this.air := id, air;
      autoAckControllerFrames := true;
      receivedControllerFrames, sentControllerFrames := [], [];
    }

    method SendToController(kind: Kind, answers: nat)
      modifies air
      ensures air.View() == Added(old(air.View()), [Frame(id, 0, kind, answers)])
    {
      air.Add([Frame(id, 0, kind, answers)]);
    }

    /** `number` counts the requests that were delivered to this node before. */
    method OnControllerFrame(frame: Frame, number: nat)
      modifies this, air
      ensures receivedControllerFrames == old(receivedControllerFrames) + [frame]
      ensures sentControllerFrames == old(sentControllerFrames)
      ensures autoAckControllerFrames == old(autoAckControllerFrames)
      ensures air.View() == if old(autoAckControllerFrames) && frame.kind == Request
                            then Added(old(air.View()), [Frame(id, 0, Ack, number)]) else old(air.View())
    {
      receivedControllerFrames := receivedControllerFrames + [frame];
      if autoAckControllerFrames && frame.kind == Request {
        SendToController(Ack, number);
      }
    }

    /** The callback that is run when a frame of this node is transmitted. */
    method OnTransmit(frame: Frame)
      modifies this
      ensures sentControllerFrames == old(sentControllerFrames) + [frame]
      ensures receivedControllerFrames == old(receivedControllerFrames)
      ensures autoAckControllerFrames == old(autoAckControllerFrames)
    {
      sentControllerFrames := sentControllerFrames + [frame];
    }
  }

  class MockController {
    const air: AsyncQueue<Frame>
    var nodes: map<nat, MockNode>
    var autoAckNodeFrames: bool

    /** Nodes are filed under their IDs and share the controller's queue. */
    ghost predicate Valid()
      reads this
    {
      forall n | n in nodes :: nodes[n].id == n && nodes[n].air == air
    }

    constructor ()
      ensures Valid() && nodes == map[] && autoAckNodeFrames
      ensures fresh(air) && air.View() == Empty()
    {
      air := new AsyncQueue<Frame>();
      nodes := map[];
      autoAckNodeFrames := true;
    }

    method AddNode(node: MockNode)
      requires Valid() && node.air == air
      modifies this
      ensures Valid() && nodes == old(nodes)[node.id := node] && autoAckNodeFrames == old(autoAckNodeFrames)
    {
      nodes := nodes[node.id := node];
    }

    method RemoveNode(node: MockNode)
      requires Valid()
      modifies this
      ensures Valid() && nodes == old(nodes) - {node.id} && autoAckNodeFrames == old(autoAckNodeFrames)
    {
      nodes := nodes - {node.id};
    }

    method SendToNode(node: MockNode, kind: Kind, answers: nat)
      modifies air
      ensures air.View() == Added(old(air.View()), [Frame(0, node.id, kind, answers)])
    {
      air.Add([Frame(0, node.id, kind, answers)]);
    }

    method OnNodeFrame(node: MockNode, frame: Frame, number: nat)
      modifies air
      ensures air.View() == if autoAckNodeFrames && frame.kind == Request
                            then Added(old(air.View()), [Frame(0, node.id, Ack, number)]) else old(air.View())
    {
      if autoAckNodeFrames && frame.kind == Request {
        SendToNode(node, Ack, number);
      }
    }

    /** The part of `execute` before the transmission delay: which node a frame is for, if any. */
    method FindNode(frame: Frame) returns (node: MockNode?)
      requires Valid()
      ensures frame.source == 0 && frame.target != 0 ==>
                if frame.target in nodes then node == nodes[frame.target] else node == null
      ensures frame.source != 0 && frame.target == 0 ==>
                if frame.source in nodes then node == nodes[frame.source] else node == null
      ensures (frame.source == 0 <==> frame.target == 0) ==> node == null
      ensures node != null <==> Reachable(frame, nodes.Keys)
    {
      node := null;
      if frame.source == 0 && frame.target != 0 {
        if frame.target in nodes {
          node := nodes[frame.target];
        }
      } else if frame.source != 0 && frame.target == 0 {
        if frame.source in nodes {
          node := nodes[frame.source];
        }
      }
    }

    /** The part after the delay: the frame is handed to its receiver, which acknowledges a request with the frame
        that the step system says. */
    method Transmit(node: MockNode, frame: Frame, ghost before: seq<Frame>, number: nat)
      requires NodeOf(frame) == Some(node.id) && node.air == air
      requires number == Requests(before, node.id, frame.source == 0)
      modifies node, air
      ensures old(autoAckNodeFrames) && old(node.autoAckControllerFrames) ==>
                air.View() == if frame.kind == Request then Added(old(air.View()), [AckFor(frame, before)])
                              else old(air.View())
      ensures node.receivedControllerFrames
              == old(node.receivedControllerFrames) + if frame.source == 0 then [frame] else []
      ensures node.sentControllerFrames == old(node.sentControllerFrames) + if frame.source == 0 then [] else [frame]
    {
      if frame.source == 0 {
        node.OnControllerFrame(frame, number);
      } else {
        node.OnTransmit(frame);
        OnNodeFrame(node, frame, number);
      }
    }
  }

  // ---- Removing a node can shift acknowledgements

  ghost predicate IsReached(r: Radio, nodes: set<nat>) {
    exists rs: seq<Radio>, steps :: IsRun(rs, steps) && rs[0] == Start(nodes) && rs[|steps|] == r
  }

  lemma ReachedStep(r: Radio, nodes: set<nat>, s: Step)
    requires IsReached(r, nodes) && Enabled(r, s)
    ensures IsReached(Do(r, s), nodes)
  {
    hide Enabled, Do;
    var rs: seq<Radio>, steps :| IsRun(rs, steps) && rs[0] == Start(nodes) && rs[|steps|] == r;
    var rs', steps' := rs + [Do(r, s)], steps + [s];
    assert IsRun(rs', steps');
  }

  lemma StartIsReached(nodes: set<nat>)
    ensures IsReached(Start(nodes), nodes)
  {
    assert IsRun([Start(nodes)], []);
  }

  /** One request of node `n` from sending to delivery, when nothing else is going on. */
  lemma RequestDelivered(r: Radio, nodes: set<nat>, n: nat) returns (t: Radio)
    requires IsReached(r, nodes) && n != 0 && n in r.nodes && r.air == [] && r.transmitting.None?
    ensures IsReached(t, nodes) && t.nodes == r.nodes && t.transmitting.None?
    ensures t.delivered == r.delivered + [Frame(n, 0, Request, 0)]
    ensures t.air == [Frame(0, n, Ack, Requests(r.delivered, n, false))]
  {
    hide IsReached, Requests;
    var r1 := Do(r, SendToController(n));
    ReachedStep(r, nodes, SendToController(n));
    assert r1.air == [Frame(n, 0, Request, 0)];
    var r2 := Do(r1, Take);
    ReachedStep(r1, nodes, Take);
    ReachedStep(r2, nodes, Deliver);
    t := Do(r2, Deliver);
  }

  /** A node that is removed while its acknowledgement is in the air and then added again: the first acknowledgement
      it receives answers its second request. */
  lemma RemovalShiftsAcks(n: nat)
    requires n != 0
    ensures exists r :: IsReached(r, {n}) && Acks(r.delivered, n, true) == [1]
  {
    hide IsReached;
    var req := Frame(n, 0, Request, 0);
    StartIsReached({n});
    var r1 := RequestDelivered(Start({n}), {n}, n);
    var r2 := Do(r1, RemoveNode(n));
    ReachedStep(r1, {n}, RemoveNode(n));
    var r3 := Do(r2, Take);
    ReachedStep(r2, {n}, Take);
    var r4 := Do(r3, AddNode(n));
    ReachedStep(r3, {n}, AddNode(n));
    var r5 := RequestDelivered(r4, {n}, n);
    SecondAck(r5, n);
    var r6 := Do(r5, Take);
    ReachedStep(r5, {n}, Take);
    ReachedStep(r6, {n}, Deliver);
    var r7 := Do(r6, Deliver);
    assert r7.delivered == [req, req] + [Frame(0, n, Ack, 1)];
    AckOfTwo(n);
  }

  lemma SecondAck(r: Radio, n: nat)
    requires n != 0 && r.air == [Frame(0, n, Ack, Requests([Frame(n, 0, Request, 0)], n, false))]
    ensures r.air == [Frame(0, n, Ack, 1)]
  {
  }

  lemma AckOfTwo(n: nat)
    requires n != 0
    ensures Acks([Frame(n, 0, Request, 0), Frame(n, 0, Request, 0)] + [Frame(0, n, Ack, 1)], n, true) == [1]
  {
    var req, ack := Frame(n, 0, Request, 0), Frame(0, n, Ack, 1);
    AcksOne(req, n, true);
    AcksConcat([req], [req], n, true);
    assert [req] + [req] == [req, req];
    AcksOne(ack, n, true);
    AcksConcat([req, req], [ack], n, true);
  }
}
