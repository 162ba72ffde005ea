/** The node table of a 700-series NVM: split into one entry per node and several sets of node IDs when it is
    written, and put together again when it is read.  The NVM adapter is a map of properties. */
module NodeTable {
  import opened Wrappers

  datatype Flirs = Never | Every250ms | Every1000ms

  datatype DataRate = Unspecified | Rate9k6 | Rate40k | Rate100k | LongRange100k

  datatype Route = Route(beaming: Flirs, protocolRate: DataRate, repeaterNodeIDs: Option<seq<nat>>)

  /** The fields that `nvmJSONNodeToNodeInfo` picks. */
  datatype NodeInfo = NodeInfo(
    isListening: bool, isFrequentListening: Flirs, isRouting: bool, supportedDataRates: seq<nat>,
    protocolVersion: nat, optionalFunctionality: bool, nodeType: nat, supportsSecurity: bool, supportsBeaming: bool,
    genericDeviceClass: nat, specificDeviceClass: Option<nat>, neighbors: seq<nat>, sucUpdateIndex: nat)

  /** All keys of a node's JSON entry except `isVirtual`. */
  datatype Details = Details(
    info: NodeInfo, appRouteLock: bool, routeSlaveSUC: bool, sucPendingUpdate: bool, pendingDiscovery: bool,
    lwr: Option<Route>, nlwr: Option<Route>)

  /** A node's JSON entry; an entry without details consists of `isVirtual` alone. */
  datatype Node = Node(isVirtual: bool, details: Option<Details>)

  type Table = map<nat, Node>

  /** `nodeHasInfo`: the entry is not virtual, or has more keys than `isVirtual`. */
  predicate HasInfo(n: Node) {
    !n.isVirtual || n.details.Some?
  }

  /** The two kinds of entries that the types allow: with all information, or virtual without any. */
  ghost predicate WellTyped(t: Table) {
    forall id | id in t :: t[id].isVirtual || t[id].details.Some?
  }

  datatype Routes = Routes(lwr: Route, nlwr: Route)

  const EMPTY_ROUTE := Route(Never, Rate40k, None)

  /** The node-table properties of the NVM; absent until they are set. */
  datatype Properties = Properties(
    nodeIds: Option<set<nat>>, virtualNodeIds: Option<set<nat>>, appRouteLock: Option<set<nat>>,
    routeSlaveSUC: Option<set<nat>>, sucPendingUpdate: Option<set<nat>>, pendingDiscovery: Option<set<nat>>,
    infos: map<nat, NodeInfo>, routes: map<nat, Routes>)

  /** An erased NVM. */
  const ERASED := Properties(None, None, None, None, None, None, map[], map[])

  datatype Error = PropertyNotFound

  // ---- Writing

  /** The flags of a node that are written as sets of node IDs. */
  datatype Flag = AppRouteLock | RouteSlaveSUC | SucPendingUpdate | PendingDiscovery

  predicate IsSet(d: Details, f: Flag) {
    match f
    case AppRouteLock => d.appRouteLock
    case RouteSlaveSUC => d.routeSlaveSUC
    case SucPendingUpdate => d.sucPendingUpdate
    case PendingDiscovery => d.pendingDiscovery
  }

  predicate Informed(n: Node) {
    HasInfo(n) && n.details.Some?
  }

  ghost function Flagged(t: Table, f: Flag): set<nat> {
    set id | id in t && Informed(t[id]) && IsSet(t[id].details.value, f)
  }

  ghost function Existing(t: Table): set<nat> {
    set id | id in t && Informed(t[id])
  }

  ghost function Virtual(t: Table): set<nat> {
    set id | id in t && t[id].isVirtual
  }

  ghost function Infos(t: Table): map<nat, NodeInfo> {
    map id | id in t && Informed(t[id]) :: t[id].details.value.info
  }

  predicate HasRoutes(d: Details) {
    d.lwr.Some? || d.nlwr.Some?
  }

  function OrEmpty(r: Option<Route>): Route {
    if r.Some? then r.value else EMPTY_ROUTE
  }

  ghost function AllRoutes(t: Table): map<nat, Routes> {
    map id | id in t && Informed(t[id]) && HasRoutes(t[id].details.value) ::
      Routes(OrEmpty(t[id].details.value.lwr), OrEmpty(t[id].details.value.nlwr))
  }

  /** What a table looks like once it is written to an erased NVM. */
  ghost function Scatter(t: Table): Properties {
    Properties(
      Some(Existing(t)), Some(Virtual(t)), Some(Flagged(t, AppRouteLock)), Some(Flagged(t, RouteSlaveSUC)),
      Some(Flagged(t, SucPendingUpdate)), Some(Flagged(t, PendingDiscovery)), Infos(t), AllRoutes(t))
  }

  // ---- Reading

  /** The entry of one node, from its info, the ID sets and its routes. */
  function GatherNode(p: Properties, id: nat): Node
    requires HasAllSets(p) && id in p.infos
  {
    Node(id in p.virtualNodeIds.value,
         Some(Details(p.infos[id], id in p.appRouteLock.value, id in p.routeSlaveSUC.value,
                      id in p.sucPendingUpdate.value, id in p.pendingDiscovery.value,
                      if id in p.routes then Some(p.routes[id].lwr) else None,
                      if id in p.routes then Some(p.routes[id].nlwr) else None)))
  }

  predicate HasAllSets(p: Properties) {
    && p.nodeIds.Some? && p.virtualNodeIds.Some? && p.appRouteLock.Some? && p.routeSlaveSUC.Some?
    && p.sucPendingUpdate.Some? && p.pendingDiscovery.Some?
  }

  /** Reading fails if a set or the info of a listed node is missing. */
  ghost function Gather(p: Properties): Result<Table, Error> {
    if !HasAllSets(p) || !(p.nodeIds.value <= p.infos.Keys) then Err(PropertyNotFound)
    else Ok(map id | id in p.nodeIds.value :: GatherNode(p, id))
  }

  class NVMAdapter {
    var properties: Properties

    constructor ()
      ensures properties == ERASED
    {
      properties := ERASED;
    }

    /** The node-table part of `jsonToNVM`. */
    method WriteNodes(target: Table)
      requires WellTyped(target) && properties == ERASED
      modifies this
      ensures properties == Scatter(target)
    {
      hide Existing, Virtual, Flagged, Infos, AllRoutes;
      var nodeInfoExists: set<nat>, virtualNodeIds: set<nat> := {}, {};
      var appRouteLock: set<nat>, routeSlaveSUC: set<nat> := {}, {};
      var sucPendingUpdate: set<nat>, pendingDiscovery: set<nat> := {}, {};
      var todo := target.Keys;
      ghost var done: Table := map[];
      ScatterNothing();
      while todo != {}
        invariant todo <= target.Keys && done == map id | id in target && id !in todo :: target[id]
        invariant Properties(Some(nodeInfoExists), Some(virtualNodeIds), Some(appRouteLock), Some(routeSlaveSUC),
                             Some(sucPendingUpdate), Some(pendingDiscovery), properties.infos, properties.routes)
                  == Scatter(done)
        decreases todo
      {
        var nodeId :| nodeId in todo;
        todo := todo - {nodeId};
        var node := target[nodeId];
        ScatterOne(done, nodeId, node);
        done := done[nodeId := node];
        if !HasInfo(node) {
          virtualNodeIds := virtualNodeIds + {nodeId};
          continue;
        }
        var d := node.details.value;
        nodeInfoExists := nodeInfoExists + {nodeId};
        if node.isVirtual { virtualNodeIds := virtualNodeIds + {nodeId}; }
        if d.appRouteLock { appRouteLock := appRouteLock + {nodeId}; }
        if d.routeSlaveSUC { routeSlaveSUC := routeSlaveSUC + {nodeId}; }
        if d.sucPendingUpdate { sucPendingUpdate := sucPendingUpdate + {nodeId}; }
        if d.pendingDiscovery { pendingDiscovery := pendingDiscovery + {nodeId}; }
        properties := properties.(infos := properties.infos[nodeId := d.info]);
        if HasRoutes(d) {
          properties := properties.(routes := properties.routes[nodeId := Routes(OrEmpty(d.lwr), OrEmpty(d.nlwr))]);
        }
      }
      assert done == target;
      properties := properties.(nodeIds := Some(nodeInfoExists));
      properties := properties.(appRouteLock := Some(appRouteLock), routeSlaveSUC := Some(routeSlaveSUC));
      properties := properties.(sucPendingUpdate := Some(sucPendingUpdate), virtualNodeIds := Some(virtualNodeIds));
      properties := properties.(pendingDiscovery := Some(pendingDiscovery));
    }

    /** The node-table part of `nvmToJSON`. */
    method ReadNodes() returns (r: Result<Table, Error>)
      ensures r == Gather(properties)
    {
      if !HasAllSets(properties) {
        return Err(PropertyNotFound);
      }
      hide GatherNode;
      var nodes: Table := map[];
      var nodeIds := properties.nodeIds.value;
      var todo := nodeIds;
      while todo != {}
        invariant todo <= nodeIds && nodeIds - todo <= properties.infos.Keys
        invariant nodes == map id | id in nodeIds && id !in todo && id in properties.infos :: GatherNode(properties, id)
        decreases todo
      {
        var id :| id in todo;
        todo := todo - {id};
        if id !in properties.infos {
          return Err(PropertyNotFound);
        }
        nodes := nodes[id := GatherNode(properties, id)];
      }
      assert nodes == map id | id in nodeIds :: GatherNode(properties, id);
      return Ok(nodes);
    }
  }

  lemma ScatterNothing()
    ensures Scatter(map[]) == ERASED.(nodeIds := Some({}), virtualNodeIds := Some({}), appRouteLock := Some({}),
                                      routeSlaveSUC := Some({}), sucPendingUpdate := Some({}),
                                      pendingDiscovery := Some({}))
  {
    assert Existing(map[]) == {} && Virtual(map[]) == {} && Infos(map[]) == map[] && AllRoutes(map[]) == map[];
    assert forall f :: Flagged(map[], f) == {};
  }

  lemma FlaggedOne(t: Table, id: nat, n: Node, f: Flag)
    requires id !in t
    ensures Flagged(t[id := n], f)
            == if Informed(n) && IsSet(n.details.value, f) then Flagged(t, f) + {id} else Flagged(t, f)
  {
  }

  lemma ScatterOne(t: Table, id: nat, n: Node)
    requires id !in t
    ensures Existing(t[id := n]) == if Informed(n) then Existing(t) + {id} else Existing(t)
    ensures Virtual(t[id := n]) == if n.isVirtual then Virtual(t) + {id} else Virtual(t)
    ensures forall f :: Flagged(t[id := n], f)
                        == if Informed(n) && IsSet(n.details.value, f) then Flagged(t, f) + {id} else Flagged(t, f)
    ensures Infos(t[id := n]) == if Informed(n) then Infos(t)[id := n.details.value.info] else Infos(t)
    ensures AllRoutes(t[id := n])
            == if Informed(n) && HasRoutes(n.details.value)
               then AllRoutes(t)[id := Routes(OrEmpty(n.details.value.lwr), OrEmpty(n.details.value.nlwr))]
               else AllRoutes(t)
  {
    forall f {
      FlaggedOne(t, id, n, f);
    }
  }

  // ---- What is written and what is read

  /** The written ID sets, infos and routes, for every node ID: a set holds the nodes that have information and the flag
      it is named after. */
  lemma WrittenFor(t: Table, id: nat)
    ensures var p := Scatter(t);
            && HasAllSets(p)
            && (id in p.virtualNodeIds.value <==> id in t && t[id].isVirtual)
            && (if id in t && t[id].details.Some? then
                  var d := t[id].details.value;
                  && id in p.nodeIds.value && id in p.infos && p.infos[id] == d.info
                  && (id in p.appRouteLock.value <==> d.appRouteLock)
                  && (id in p.routeSlaveSUC.value <==> d.routeSlaveSUC)
                  && (id in p.sucPendingUpdate.value <==> d.sucPendingUpdate)
                  && (id in p.pendingDiscovery.value <==> d.pendingDiscovery)
                  && (id in p.routes <==> d.lwr.Some? || d.nlwr.Some?)
                  && (id in p.routes ==>
                        && p.routes[id].lwr == (if d.lwr.Some? then d.lwr.value else Route(Never, Rate40k, None))
                        && p.routes[id].nlwr == (if d.nlwr.Some? then d.nlwr.value else Route(Never, Rate40k, None)))
                else
                  && id !in p.nodeIds.value && id !in p.infos && id !in p.routes
                  && id !in p.appRouteLock.value && id !in p.routeSlaveSUC.value
                  && id !in p.sucPendingUpdate.value && id !in p.pendingDiscovery.value)
  {
  }

  /** Reading any properties: it fails if an ID set, or the info of a listed node, is missing; otherwise there is an
      entry for every listed node, with the flags of the sets it is in. */
  lemma ReadFrom(p: Properties, id: nat)
    ensures Gather(p).Ok? <==>
            HasAllSets(p) && forall n | n in p.nodeIds.value :: n in p.infos
    ensures Gather(p).Ok? ==>
              var r := Gather(p).value;
              && (id in r <==> id in p.nodeIds.value)
              && (id in r ==>
                    && r[id].details.Some?
                    && var d := r[id].details.value;
                       && d.info == p.infos[id] && (r[id].isVirtual <==> id in p.virtualNodeIds.value)
                       && (d.appRouteLock <==> id in p.appRouteLock.value)
                       && (d.routeSlaveSUC <==> id in p.routeSlaveSUC.value)
                       && (d.sucPendingUpdate <==> id in p.sucPendingUpdate.value)
                       && (d.pendingDiscovery <==> id in p.pendingDiscovery.value)
                       && d.lwr == (if id in p.routes then Some(p.routes[id].lwr) else None)
                       && d.nlwr == (if id in p.routes then Some(p.routes[id].nlwr) else None))
  {
    if p.nodeIds.Some? && (forall n | n in p.nodeIds.value :: n in p.infos) {
      assert p.nodeIds.value <= p.infos.Keys;
    }
  }

  // ---- The round trip

  /** A node as it comes back: if it has one of the two routes, the other is filled with the empty route. */
  function Normalized(n: Node): Node
    requires n.details.Some?
  {
    var d := n.details.value;
    if HasRoutes(d) then
      n.(details := Some(d.(lwr := Some(OrEmpty(d.lwr)), nlwr := Some(OrEmpty(d.nlwr)))))
    else n
  }

  ghost function Returned(t: Table): Table
    requires WellTyped(t)
  {
    map id | id in t && HasInfo(t[id]) :: Normalized(t[id])
  }

  /** Writing a table to an erased NVM and reading it back succeeds, and returns exactly the nodes that have
      information. */
  lemma GatherInvertsScatter(t: Table)
    requires WellTyped(t)
    ensures Gather(Scatter(t)) == Ok(Returned(t))
  {
    var p := Scatter(t);
    assert p.infos.Keys == p.nodeIds.value;
    var r := Gather(p);
    assert r.Ok?;
    assert r.value.Keys == Returned(t).Keys;
    forall id | id in t && HasInfo(t[id])
      ensures GatherNode(p, id) == Normalized(t[id])
    {
    }
    assert r.value == Returned(t);
  }

  /** What comes back has the same information and the same five flags; routes that were there are unchanged. */
  lemma FlagsAndInfoSurvive(t: Table, id: nat)
    requires WellTyped(t) && id in t && HasInfo(t[id])
    ensures var r := Gather(Scatter(t));
            && r.Ok? && id in r.value && r.value[id].details.Some?
            && r.value[id].isVirtual == t[id].isVirtual
            && r.value[id].details.value.info == t[id].details.value.info
            && (forall f :: IsSet(r.value[id].details.value, f) == IsSet(t[id].details.value, f))
            && (t[id].details.value.lwr.Some? ==> r.value[id].details.value.lwr == t[id].details.value.lwr)
            && (t[id].details.value.nlwr.Some? ==> r.value[id].details.value.nlwr == t[id].details.value.nlwr)
  {
  }

  /** A table that shows the difference: a node with a last working route and no next-to-last one. */
  lemma OneRouteIsFilledIn(info: NodeInfo, route: Route)
    ensures var n := Node(false, Some(Details(info, false, false, false, false, Some(route), None)));
            var filled := n.(details := Some(n.details.value.(nlwr := Some(EMPTY_ROUTE))));
            Gather(Scatter(map[1 := n])) == Ok(map[1 := filled]) && filled != n
  {
    var n := Node(false, Some(Details(info, false, false, false, false, Some(route), None)));
    GatherInvertsScatter(map[1 := n]);
    assert Returned(map[1 := n]) == map[1 := Normalized(n)];
  }

  /** The entries that do not come back are the virtual nodes without information, and no others. */
  lemma OnlyBareVirtualNodesAreLost(t: Table, id: nat)
    requires WellTyped(t)
    ensures var r := Gather(Scatter(t));
            && r.Ok? && (id in r.value ==> id in t)
            && (id in t && id !in r.value <==> id in t && t[id] == Node(true, None))
  {
  }

  /** A table is returned unchanged exactly when it has no bare virtual nodes and no node with one route only. */
  lemma UnchangedIff(t: Table)
    requires WellTyped(t)
    ensures Gather(Scatter(t)) == Ok(t)
            <==> forall id | id in t :: t[id].details.Some?
                                        && (t[id].details.value.lwr.Some? <==> t[id].details.value.nlwr.Some?)
  {
    GatherInvertsScatter(t);
    var back := Returned(t);
    if back == t {
      forall id | id in t
        ensures t[id].details.Some? && (t[id].details.value.lwr.Some? <==> t[id].details.value.nlwr.Some?)
      {
        assert id in back;
        assert t[id] == Normalized(t[id]);
      }
    }
    if forall id | id in t ::
         t[id].details.Some? && (t[id].details.value.lwr.Some? <==> t[id].details.value.nlwr.Some?) {
      forall id | id in t
        ensures id in back && back[id] == t[id]
      {
      }
      assert back == t;
    }
  }

  /** So a second round trip changes nothing. */
  lemma SecondRoundTripIsIdentity(t: Table)
    requires WellTyped(t)
    ensures var r := Gather(Scatter(t)); r.Ok? && WellTyped(r.value) && Gather(Scatter(r.value)) == r
  {
    GatherInvertsScatter(t);
    UnchangedIff(Gather(Scatter(t)).value);
  }
}
