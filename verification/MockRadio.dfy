/** The mock radio: a controller and any number of nodes exchange frames over one shared queue, and every delivered
    request is acknowledged by its receiver. */
module MockRadio {
  import opened QueueHistory
  import opened Wrappers

  datatype Kind = Request | Ack

  /** `source` is 0 for frames of the controller, `target` is 0 for frames to the controller, as both are absent
      there.  An acknowledgement carries the number of the request it answers among the requests delivered on its
      link in the other direction. */
  datatype Frame = Frame(source: nat, target: nat, kind: Kind, answers: nat)

  /** The link of node `n`, in one of its two directions. */
  predicate OnLink(f: Frame, n: nat, toNode: bool) {
    n != 0 && if toNode then f.source == 0 && f.target == n else f.source == n && f.target == 0
  }

  // ---- The steps

  /** `air` are the frames waiting for their turn, `transmitting` the one whose transmission delay is running.  The
      rest is history: all frames in the order of sending, those that were taken with whether their node existed,
      and those that were delivered. */
  datatype Radio = Radio(
    air: seq<Frame>, transmitting: Option<Frame>, nodes: set<nat>,
    sent: seq<Frame>, fates: seq<bool>, delivered: seq<Frame>, lost: set<(nat, bool, nat)>)

  datatype Step = SendToNode(node: nat) | SendToController(node: nat) | AddNode(node: nat) | RemoveNode(node: nat)
                | Take | Deliver

  function InFlight(r: Radio): seq<Frame> {
    if r.transmitting.Some? then [r.transmitting.value] else []
  }

  function Send(r: Radio, f: Frame): Radio {
    r.(air := r.air + [f], sent := r.sent + [f])
  }

  /** The node that `execute` looks up for a frame; `None` if neither or both ends are given. */
  function NodeOf(f: Frame): Option<nat> {
    if f.source == 0 && f.target != 0 then Some(f.target)
    else if f.source != 0 && f.target == 0 then Some(f.source)
    else None
  }

  predicate Reachable(f: Frame, nodes: set<nat>) {
    NodeOf(f).Some? && NodeOf(f).value in nodes
  }

  /** How many requests were delivered on a link in one direction. */
  function Requests(frames: seq<Frame>, n: nat, toNode: bool): nat {
    if frames == [] then 0
    else
      var last := frames[|frames| - 1];
      Requests(frames[..|frames| - 1], n, toNode) + (if OnLink(last, n, toNode) && last.kind == Request then 1 else 0)
  }

  /** The acknowledgements among the frames on a link in one direction, by the request they answer. */
  function Acks(frames: seq<Frame>, n: nat, toNode: bool): seq<nat> {
    if frames == [] then []
    else
      var last := frames[|frames| - 1];
      Acks(frames[..|frames| - 1], n, toNode)
      + (if OnLink(last, n, toNode) && last.kind == Ack then [last.answers] else [])
  }

  /** The acknowledgement of a request: it travels the other way and answers the latest delivered request. */
  function AckFor(f: Frame, before: seq<Frame>): Frame {
    var toNode := f.source == 0;
    var n := if toNode then f.target else f.source;
    Frame(if toNode then n else 0, if toNode then 0 else n, Ack, Requests(before, n, toNode))
  }

  /** The dropped acknowledgements, after a frame is dropped. */
  function WithDropped(lost: set<(nat, bool, nat)>, f: Frame): set<(nat, bool, nat)> {
    if f.kind == Ack && NodeOf(f).Some? then lost + {(NodeOf(f).value, f.source == 0, f.answers)} else lost
  }

  predicate Enabled(r: Radio, s: Step) {
    match s
    case Take => r.air != [] && r.transmitting.None?
    case Deliver => r.transmitting.Some?
    case _ => true
  }

  function Do(r: Radio, s: Step): Radio
    requires Enabled(r, s)
  {
    match s
    case SendToNode(n) => Send(r, Frame(0, n, Request, 0))
    case SendToController(n) => Send(r, Frame(n, 0, Request, 0))
    case AddNode(n) => r.(nodes := r.nodes + {n})
    case RemoveNode(n) => r.(nodes := r.nodes - {n})
    case Take =>
      var f, rest := r.air[0], r.(air := r.air[1..]);
      if Reachable(f, r.nodes) then rest.(transmitting := Some(f), fates := r.fates + [true])
      else rest.(fates := r.fates + [false],
                 lost := WithDropped(r.lost, f))
    case Deliver =>
      var f := r.transmitting.value;
      var done := r.(transmitting := None, delivered := r.delivered + [f]);
      if f.kind == Request then Send(done, AckFor(f, r.delivered)) else done
  }

  function Start(nodes: set<nat>): Radio {
    Radio([], None, nodes, [], [], [], {})
  }

  ghost predicate IsRun(rs: seq<Radio>, steps: seq<Step>) {
    && |rs| == |steps| + 1
    && forall k | 0 <= k < |steps| :: Enabled(rs[k], steps[k]) && rs[k + 1] == Do(rs[k], steps[k])
  }

  // ---- Frames are delivered in the order in which they were sent

  /** The frames whose node existed when their turn came. */
  function Survivors(frames: seq<Frame>, fates: seq<bool>): seq<Frame>
    requires |frames| == |fates|
    decreases |frames|
  {
    if frames == [] then []
    else
      var n := |frames| - 1;
      Survivors(frames[..n], fates[..n]) + (if fates[n] then [frames[n]] else [])
  }

  ghost predicate InOrder(r: Radio) {
    && |r.fates| + |r.air| == |r.sent|
    && r.air == r.sent[|r.fates|..]
    && r.delivered + InFlight(r) == Survivors(r.sent[..|r.fates|], r.fates)
  }

  lemma StepKeepsOrder(r: Radio, s: Step)
    requires InOrder(r) && Enabled(r, s)
    ensures InOrder(Do(r, s))
  {
    hide Survivors, Reachable, AckFor;
    var t, k := Do(r, s), |r.fates|;
    assert t.sent[..k] == r.sent[..k];
    if s.Take? {
      assert r.air[0] == r.sent[k];
      SurvivorsStep(r.sent, k, t.fates);
    }
  }

  lemma SurvivorsStep(sent: seq<Frame>, k: nat, fates: seq<bool>)
    requires k < |sent| && |fates| == k + 1
    ensures Survivors(sent[..k + 1], fates) == Survivors(sent[..k], fates[..k]) + if fates[k] then [sent[k]] else []
  {
    assert sent[..k + 1][..k] == sent[..k];
  }

  /** The node of a frame exists: one end is the controller, which has no number, and the other one a known node. */
  predicate HasNode(f: Frame, nodes: set<nat>) {
    || (f.source == 0 && f.target != 0 && f.target in nodes)
    || (f.source != 0 && f.target == 0 && f.source in nodes)
  }

  /** Step `j` takes the i-th frame that was sent. */
  ghost predicate Takes(rs: seq<Radio>, steps: seq<Step>, j: int, i: int) {
    0 <= j < |steps| && j < |rs| && steps[j].Take? && i == |rs[j].sent| - |rs[j].air|
  }

  ghost predicate WasTaken(rs: seq<Radio>, steps: seq<Step>, k: nat, i: int) {
    exists j :: j < k && Takes(rs, steps, j, i)
  }

  /** Every frame that has had its turn was taken by a step, and survived exactly if its node existed at that step. */
  ghost predicate TurnsDecide(rs: seq<Radio>, steps: seq<Step>, k: nat)
    requires k < |rs| && |steps| < |rs|
  {
    && |rs[k].fates| <= |rs[k].sent|
    && (forall i | 0 <= i < |rs[k].fates| :: WasTaken(rs, steps, k, i))
    && (forall j, i | j < k && Takes(rs, steps, j, i) ::
          0 <= i < |rs[k].fates| && (rs[k].fates[i] <==> HasNode(rs[k].sent[i], rs[j].nodes)))
  }

  lemma FatesGrow(r: Radio, s: Step)
    requires InOrder(r) && Enabled(r, s)
    ensures var t := Do(r, s);
            && r.sent <= t.sent && r.fates <= t.fates
            && |r.fates| == |r.sent| - |r.air|
            && |t.fates| == |r.fates| + (if s.Take? then 1 else 0)
            && (s.Take? ==> |r.fates| < |r.sent| && t.fates[|r.fates|] == HasNode(r.sent[|r.fates|], r.nodes))
  {
    hide Survivors, AckFor;
  }

  lemma TurnStep(rs: seq<Radio>, steps: seq<Step>, k: nat)
    requires IsRun(rs, steps) && k < |steps| && InOrder(rs[k]) && InOrder(rs[k + 1]) && TurnsDecide(rs, steps, k)
    ensures TurnsDecide(rs, steps, k + 1)
  {
    hide Enabled, Do, HasNode, Survivors;
    FatesGrow(rs[k], steps[k]);
    var n, after := |rs[k].fates|, k + 1;
    forall i | 0 <= i < |rs[after].fates| ensures WasTaken(rs, steps, after, i) {
      if i == n {
        assert Takes(rs, steps, k, i);
      } else {
        assert WasTaken(rs, steps, k, i);
      }
    }
    forall j, i | j < k + 1 && Takes(rs, steps, j, i)
      ensures 0 <= i < |rs[k + 1].fates| && (rs[k + 1].fates[i] <==> HasNode(rs[k + 1].sent[i], rs[j].nodes))
    {
      if j < k {
        assert rs[k + 1].fates[i] == rs[k].fates[i] && rs[k + 1].sent[i] == rs[k].sent[i];
      }
    }
  }

  /** In every run, the delivered frames are the sent ones in the order of sending, without those whose node did
      not exist when their turn came. */
  lemma {:induction false} DeliveredInSendOrder(rs: seq<Radio>, steps: seq<Step>, nodes: set<nat>, k: nat)
    requires IsRun(rs, steps) && rs[0] == Start(nodes) && k < |rs|
    ensures InOrder(rs[k]) && TurnsDecide(rs, steps, k)
  {
    hide Enabled, Do, InOrder, TurnsDecide;
    if k == 0 {
      StartInOrder(nodes);
      NoTurns(rs, steps, nodes);
    } else {
      DeliveredInSendOrder(rs, steps, nodes, k - 1);
      StepKeepsOrder(rs[k - 1], steps[k - 1]);
      TurnStep(rs, steps, k - 1);
    }
  }

  lemma NoTurns(rs: seq<Radio>, steps: seq<Step>, nodes: set<nat>)
    requires |steps| < |rs| && rs[0] == Start(nodes)
    ensures TurnsDecide(rs, steps, 0)
  {
  }

  /** What a step adds to the frames that were sent: a request of the controller or of a node, or the acknowledgement
      of a delivered request, which goes back where the request came from. */
  lemma SentByStep(r: Radio, s: Step)
    requires Enabled(r, s) && Tuned(r)
    ensures Do(r, s).sent
            == r.sent + match s
                        case SendToNode(n) => [Frame(0, n, Request, 0)]
                        case SendToController(n) => [Frame(n, 0, Request, 0)]
                        case Deliver =>
                          var f := r.transmitting.value;
                          var node := if f.source == 0 then f.target else f.source;
                          var number := Requests(r.delivered, node, f.source == 0);
                          if f.kind == Request then [Frame(f.target, f.source, Ack, number)] else []
                        case _ => []
    ensures Do(r, s).nodes == match s
                              case AddNode(n) => r.nodes + {n}
                              case RemoveNode(n) => r.nodes - {n}
                              case _ => r.nodes
  {
    hide Requests;
  }

  lemma StartInOrder(nodes: set<nat>)
    ensures InOrder(Start(nodes))
  {
  }

  // ---- Acknowledgements answer requests in order

  lemma {:induction false} AcksConcat(a: seq<Frame>, b: seq<Frame>, n: nat, toNode: bool)
    ensures Acks(a + b, n, toNode) == Acks(a, n, toNode) + Acks(b, n, toNode)
    decreases |b|
  {
    if b == [] {
      assert a + b == a;
    } else {
      assert (a + b)[..|a + b| - 1] == a + b[..|b| - 1];
      AcksConcat(a, b[..|b| - 1], n, toNode);
    }
  }

  lemma AcksOne(f: Frame, n: nat, toNode: bool)
    ensures Acks([f], n, toNode) == if OnLink(f, n, toNode) && f.kind == Ack then [f.answers] else []
  {
  }

  /** The numbers of the acknowledgements that were dropped on a link because its node was gone. */
  function LostOn(lost: set<(nat, bool, nat)>, n: nat, toNode: bool): set<nat> {
    set l | l in lost && l.0 == n && l.1 == toNode :: l.2
  }

  /** On each link, the acknowledgements received so far, then the one in transmission, then those in the air answer
      the delivered requests one by one, except for those that were dropped. */
  ghost predicate AcksMatch(r: Radio, n: nat, toNode: bool) {
    && Acks(r.delivered + InFlight(r) + r.air, n, toNode)
       == Kept(Requests(r.delivered, n, !toNode), LostOn(r.lost, n, toNode))
    && forall l | l in LostOn(r.lost, n, toNode) :: l < Requests(r.delivered, n, !toNode)
  }

  /** Only frames with exactly one end at the controller are ever transmitted. */
  ghost predicate Tuned(r: Radio) {
    r.transmitting.Some? ==> NodeOf(r.transmitting.value).Some?
  }

  ghost predicate AckInv(r: Radio) {
    Tuned(r) && forall n, toNode :: AcksMatch(r, n, toNode)
  }

  lemma SendRequestMatches(r: Radio, f: Frame, n: nat, toNode: bool)
    requires AcksMatch(r, n, toNode) && f.kind == Request
    ensures AcksMatch(Send(r, f), n, toNode)
  {
    hide Kept, Requests, Acks;
    var all := r.delivered + InFlight(r) + r.air;
    assert r.delivered + InFlight(r) + (r.air + [f]) == all + [f];
    AcksConcat(all, [f], n, toNode);
    AcksOne(f, n, toNode);
  }

  lemma TakeMatches(r: Radio, n: nat, toNode: bool)
    requires AcksMatch(r, n, toNode) && Enabled(r, Take)
    ensures AcksMatch(Do(r, Take), n, toNode)
  {
    hide Kept, Requests, Acks, OnLink, LostOn;
    var t, f, rest := Do(r, Take), r.air[0], r.air[1..];
    assert r.delivered + InFlight(r) + r.air == r.delivered + ([f] + rest);
    if Reachable(f, r.nodes) {
      assert t.delivered + InFlight(t) + t.air == r.delivered + ([f] + rest);
    } else {
      assert t.delivered + InFlight(t) + t.air == r.delivered + rest;
      AcksConcat(r.delivered, [f] + rest, n, toNode);
      AcksConcat([f], rest, n, toNode);
      AcksConcat(r.delivered, rest, n, toNode);
      AcksOne(f, n, toNode);
      LostStep(r, f, n, toNode);
      var front, back := Acks(r.delivered, n, toNode), Acks(rest, n, toNode);
      if OnLink(f, n, toNode) && f.kind == Ack {
        DropOne(Requests(r.delivered, n, !toNode), LostOn(r.lost, n, toNode), front, f.answers, back);
      } else {
        assert [] + back == back;
        assert LostOn(t.lost, n, toNode) == LostOn(r.lost, n, toNode);
      }
    }
  }

  lemma LostStep(r: Radio, f: Frame, n: nat, toNode: bool)
    requires Enabled(r, Take) && f == r.air[0] && !Reachable(f, r.nodes)
    ensures LostOn(Do(r, Take).lost, n, toNode)
            == LostOn(r.lost, n, toNode) + if OnLink(f, n, toNode) && f.kind == Ack then {f.answers} else {}
  {
  }

  /** Dropping one acknowledgement removes its number from the list of those that are still to come. */
  lemma DropOne(n: nat, lost: set<nat>, a: seq<nat>, k: nat, b: seq<nat>)
    requires a + ([k] + b) == Kept(n, lost)
    ensures a + b == Kept(n, lost + {k}) && k < n
  {
    var s := Kept(n, lost);
    assert s[|a|] == k;
    KeptBounds(n, lost);
    KeptWithout(n, lost, |a|);
    assert s[..|a|] == a && s[|a| + 1..] == b;
  }

  lemma RequestsStep(frames: seq<Frame>, f: Frame, n: nat, toNode: bool)
    ensures Requests(frames + [f], n, toNode)
            == Requests(frames, n, toNode) + if OnLink(f, n, toNode) && f.kind == Request then 1 else 0
  {
  }

  lemma DeliverMatches(r: Radio, n: nat, toNode: bool)
    requires AcksMatch(r, n, toNode) && Tuned(r) && Enabled(r, Deliver)
    ensures AcksMatch(Do(r, Deliver), n, toNode)
  {
    hide Kept, Requests, Acks, LostOn;
    var t, f := Do(r, Deliver), r.transmitting.value;
    var before := r.delivered + InFlight(r) + r.air;
    RequestsStep(r.delivered, f, n, !toNode);
    assert LostOn(t.lost, n, toNode) == LostOn(r.lost, n, toNode);
    if f.kind == Request {
      var ack := AckFor(f, r.delivered);
      assert t.delivered + InFlight(t) + t.air == before + [ack];
      AcksConcat(before, [ack], n, toNode);
      AcksOne(ack, n, toNode);
      KeptNext(Requests(r.delivered, n, !toNode), LostOn(r.lost, n, toNode));
      AckLink(f, r.delivered, n, toNode);
    } else {
      assert t.delivered + InFlight(t) + t.air == before;
    }
  }

  lemma KeptNext(n: nat, lost: set<nat>)
    requires forall l | l in lost :: l < n
    ensures Kept(n + 1, lost) == Kept(n, lost) + [n]
  {
  }

  /** A request's acknowledgement is on a link exactly if the request is on it in the other direction. */
  lemma AckLink(f: Frame, before: seq<Frame>, n: nat, toNode: bool)
    requires NodeOf(f).Some?
    ensures OnLink(AckFor(f, before), n, toNode) <==> OnLink(f, n, !toNode)
    ensures OnLink(f, n, !toNode) ==> AckFor(f, before).answers == Requests(before, n, !toNode)
  {
  }

  lemma StepKeepsAckInv(r: Radio, s: Step)
    requires AckInv(r) && Enabled(r, s)
    ensures AckInv(Do(r, s))
  {
    hide AcksMatch, AckFor;
    forall n, toNode ensures AcksMatch(Do(r, s), n, toNode) {
      match s
      case SendToNode(m) => SendRequestMatches(r, Frame(0, m, Request, 0), n, toNode);
      case SendToController(m) => SendRequestMatches(r, Frame(m, 0, Request, 0), n, toNode);
      case AddNode(_) => NodesDoNotMatter(r, Do(r, s), n, toNode);
      case RemoveNode(_) => NodesDoNotMatter(r, Do(r, s), n, toNode);
      case Take => TakeMatches(r, n, toNode);
      case Deliver => DeliverMatches(r, n, toNode);
    }
  }

  lemma NodesDoNotMatter(r: Radio, t: Radio, n: nat, toNode: bool)
    requires t == r.(nodes := t.nodes) && AcksMatch(r, n, toNode)
    ensures AcksMatch(t, n, toNode)
  {
  }

  lemma {:induction false} RunsKeepAckInv(rs: seq<Radio>, steps: seq<Step>, nodes: set<nat>, k: nat)
    requires IsRun(rs, steps) && rs[0] == Start(nodes) && k < |rs|
    ensures AckInv(rs[k])
  {
    hide Enabled, Do, AckInv;
    if k == 0 {
      StartAckInv(nodes);
    } else {
      RunsKeepAckInv(rs, steps, nodes, k - 1);
      StepKeepsAckInv(rs[k - 1], steps[k - 1]);
    }
  }

  lemma StartAckInv(nodes: set<nat>)
    ensures AckInv(Start(nodes))
  {
  }

  /** The leading entries count up from 0 exactly as far as nothing was taken out. */
  lemma {:induction false} KeptCountsUp(n: nat, removed: set<nat>, m: nat)
    requires m <= |Kept(n, removed)|
    ensures (forall k | 0 <= k < m :: Kept(n, removed)[k] == k) <==> (forall l | l in removed :: l >= m)
  {
    var s := Kept(n, removed);
    KeptBounds(n, removed);
    if forall l | l in removed :: l >= m {
      KeptPrefix(n, removed, m);
    }
    if l :| l in removed && l < m {
      assert s[l] !in removed;
      assert s[l] != l;
    }
  }

  lemma {:induction false} KeptPrefix(n: nat, removed: set<nat>, m: nat)
    requires m <= |Kept(n, removed)| && forall l | l in removed :: l >= m
    ensures forall k | 0 <= k < m :: Kept(n, removed)[k] == k
  {
    if n > 0 {
      if m <= |Kept(n - 1, removed)| {
        KeptPrefix(n - 1, removed, m);
      } else {
        KeptPrefix(n - 1, removed, m - 1);
        KeptAll(n - 1, removed, m - 1);
      }
    }
  }

  lemma {:induction false} KeptLength(n: nat, removed: set<nat>)
    ensures |Kept(n, removed)| <= n
  {
    if n > 0 {
      KeptLength(n - 1, removed);
    }
  }

  lemma {:induction false} KeptAll(n: nat, removed: set<nat>, m: nat)
    requires |Kept(n, removed)| == m && forall l | l in removed :: l > m
    ensures n == m
  {
    if n > 0 {
      KeptLength(n - 1, removed);
      if n - 1 in removed {
        KeptAll(n - 1, removed, m);
      } else if m > 0 {
        KeptAll(n - 1, removed, m - 1);
      }
    }
  }

  /** On every link of every run, the k-th acknowledgement that a party receives answers its k-th delivered request,
      for all acknowledgements received so far, exactly if no acknowledgement of an earlier request was dropped. */
  lemma AcksAnswerInOrderIff(rs: seq<Radio>, steps: seq<Step>, nodes: set<nat>, i: nat, n: nat, toNode: bool)
    requires IsRun(rs, steps) && rs[0] == Start(nodes) && i < |rs|
    ensures var r := rs[i];
            var acks := Acks(r.delivered, n, toNode);
            && |acks| <= Requests(r.delivered, n, !toNode)
            && ((forall k | 0 <= k < |acks| :: acks[k] == k) <==>
                forall l | l in LostOn(r.lost, n, toNode) :: l >= |acks|)
  {
    hide Requests, LostOn, Acks;
    RunsKeepAckInv(rs, steps, nodes, i);
    var r := rs[i];
    assert AcksMatch(r, n, toNode);
    var acks, total, lost := Acks(r.delivered, n, toNode), Requests(r.delivered, n, !toNode), LostOn(r.lost, n, toNode);
    assert r.delivered + InFlight(r) + r.air == r.delivered + (InFlight(r) + r.air);
    AcksConcat(r.delivered, InFlight(r) + r.air, n, toNode);
    assert acks <= Kept(total, lost);
    KeptLength(total, lost);
    KeptCountsUp(total, lost, |acks|);
  }

  // ---- Without removed nodes, no acknowledgement is dropped

  ghost predicate AcksStay(r: Radio) {
    && r.lost == {}
    && (forall f | f in r.air && f.kind == Ack :: Reachable(f, r.nodes))
    && (r.transmitting.Some? ==> Reachable(r.transmitting.value, r.nodes))
  }

  lemma StepKeepsAcks(r: Radio, s: Step)
    requires AcksStay(r) && Enabled(r, s) && !s.RemoveNode?
    ensures AcksStay(Do(r, s))
  {
  }

  lemma {:induction false} NoAckIsLost(rs: seq<Radio>, steps: seq<Step>, nodes: set<nat>, k: nat)
    requires IsRun(rs, steps) && rs[0] == Start(nodes) && k < |rs|
    requires forall j | 0 <= j < |steps| :: !steps[j].RemoveNode?
    ensures AcksStay(rs[k])
  {
    hide Enabled, Do;
    if k > 0 {
      NoAckIsLost(rs, steps, nodes, k - 1);
      StepKeepsAcks(rs[k - 1], steps[k - 1]);
    }
  }

  /** As long as no node is removed, the k-th acknowledgement received on a link answers the k-th delivered
      request. */
  lemma AcksAnswerInOrder(rs: seq<Radio>, steps: seq<Step>, nodes: set<nat>, i: nat, n: nat, toNode: bool, k: nat)
    requires IsRun(rs, steps) && rs[0] == Start(nodes) && i < |rs|
    requires forall j | 0 <= j < |steps| :: !steps[j].RemoveNode?
    requires k < |Acks(rs[i].delivered, n, toNode)|
    ensures Acks(rs[i].delivered, n, toNode)[k] == k < Requests(rs[i].delivered, n, !toNode)
  {
    hide Requests, Acks, IsRun;
    NoAckIsLost(rs, steps, nodes, i);
    AcksAnswerInOrderIff(rs, steps, nodes, i, n, toNode);
    assert LostOn(rs[i].lost, n, toNode) == {};
  }

  // ---- The air empties

  /** Deliveries to come: a request and its acknowledgement, or an acknowledgement alone. */
  function Load(frames: seq<Frame>): nat {
    if frames == [] then 0
    else Load(frames[..|frames| - 1]) + (if frames[|frames| - 1].kind == Request then 2 else 1)
  }

  function CountKind(frames: seq<Frame>, kind: Kind): nat {
    if frames == [] then 0
    else CountKind(frames[..|frames| - 1], kind) + (if frames[|frames| - 1].kind == kind then 1 else 0)
  }

  lemma {:induction false} LoadCounts(frames: seq<Frame>)
    ensures Load(frames) == 2 * CountKind(frames, Request) + CountKind(frames, Ack)
    ensures Load(frames) == 0 <==> frames == []
  {
    if frames != [] {
      LoadCounts(frames[..|frames| - 1]);
    }
  }

  lemma {:induction false} LoadConcat(a: seq<Frame>, b: seq<Frame>)
    ensures Load(a + b) == Load(a) + Load(b)
    decreases |b|
  {
    if b == [] {
      assert a + b == a;
    } else {
      assert (a + b)[..|a + b| - 1] == a + b[..|b| - 1];
      LoadConcat(a, b[..|b| - 1]);
    }
  }

  lemma LoadOne(f: Frame)
    ensures Load([f]) == if f.kind == Request then 2 else 1
  {
  }

  function Pending(r: Radio): seq<Frame> {
    InFlight(r) + r.air
  }

  ghost predicate AllReachable(r: Radio) {
    forall f | f in Pending(r) :: Reachable(f, r.nodes)
  }

  function Deliveries(steps: seq<Step>): nat {
    if steps == [] then 0
    else Deliveries(steps[..|steps| - 1]) + (if steps[|steps| - 1].Deliver? then 1 else 0)
  }

  lemma DrainStep(r: Radio, s: Step)
    requires AllReachable(r) && Enabled(r, s) && (s.Take? || s.Deliver?)
    ensures AllReachable(Do(r, s))
    ensures Load(Pending(Do(r, s))) + (if s.Deliver? then 1 else 0) == Load(Pending(r))
  {
    hide Load, Requests;
    var t := Do(r, s);
    if s.Take? {
      assert r.air[0] in Pending(r);
      assert Pending(t) == Pending(r);
    } else {
      var f := r.transmitting.value;
      assert f in Pending(r);
      LoadConcat([f], r.air);
      LoadOne(f);
      if f.kind == Request {
        var ack := AckFor(f, r.delivered);
        assert Pending(t) == r.air + [ack];
        LoadConcat(r.air, [ack]);
        LoadOne(ack);
        assert forall g | g in r.air :: g in Pending(r);
      } else {
        assert Pending(t) == r.air;
        assert forall g | g in r.air :: g in Pending(r);
      }
    }
  }

  lemma {:induction false} DrainRun(rs: seq<Radio>, steps: seq<Step>)
    requires IsRun(rs, steps) && AllReachable(rs[0])
    requires forall j | 0 <= j < |steps| :: steps[j].Take? || steps[j].Deliver?
    ensures AllReachable(rs[|steps|])
    ensures Deliveries(steps) + Load(Pending(rs[|steps|])) == Load(Pending(rs[0]))
    decreases |steps|
  {
    hide Enabled, Do, AllReachable, Load;
    if steps != [] {
      var n := |steps| - 1;
      DrainRun(rs[..n + 1], steps[..n]);
      DrainStep(rs[n], steps[n]);
    }
  }

  /** Once nothing is sent from outside any more and all nodes exist, the radio can always make a step until the air
      is empty, and it is empty after exactly two deliveries for each pending request and one for each pending
      acknowledgement. */
  lemma AirEmpties(rs: seq<Radio>, steps: seq<Step>)
    requires IsRun(rs, steps) && AllReachable(rs[0])
    requires forall j | 0 <= j < |steps| :: steps[j].Take? || steps[j].Deliver?
    ensures var last, work := rs[|steps|], 2 * CountKind(Pending(rs[0]), Request) + CountKind(Pending(rs[0]), Ack);
            && Deliveries(steps) <= work
            && (Pending(last) == [] <==> Deliveries(steps) == work)
            && (Pending(last) != [] ==> Enabled(last, Take) || Enabled(last, Deliver))
  {
    hide AllReachable, Load, CountKind, Deliveries, Do;
    DrainRun(rs, steps);
    LoadCounts(Pending(rs[0]));
    LoadCounts(Pending(rs[|steps|]));
  }
}
