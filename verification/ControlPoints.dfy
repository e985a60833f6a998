/** The points of a body: each location has one at its start and one in its middle, where it takes effect. */
module ControlPoints {
  import opened AbstractStates

  datatype Point = Start(location: Location) | Mid(location: Location)

  /** A body with the blocks that end in a return. */
  datatype Flow = Flow(cfg: Cfg, returning: set<nat>)

  ghost predicate InBody(flow: Flow, loc: Location) {
    WellFormed(flow.cfg) && loc.block < |flow.cfg.statements| && loc.index <= flow.cfg.statements[loc.block]
  }

  function BlockStarts(blocks: seq<nat>): (r: seq<Location>)
    ensures |r| == |blocks| && forall i :: 0 <= i < |blocks| ==> r[i] == Location(blocks[i], 0)
  {
    seq(|blocks|, i requires 0 <= i < |blocks| => Location(blocks[i], 0))
  }

  function GetSuccessors(flow: Flow, loc: Location): seq<Location>
    requires InBody(flow, loc)
  {
    if loc.index < flow.cfg.statements[loc.block] then [Location(loc.block, loc.index + 1)]
    else BlockStarts(flow.cfg.successors[loc.block])
  }

  predicate IsReturn(flow: Flow, loc: Location)
    requires InBody(flow, loc)
  {
    flow.cfg.statements[loc.block] == loc.index && loc.block in flow.returning
  }

  /** Control goes to the next statement, and from the end of a block to the start of one that it leads to. */
  ghost predicate Follows(flow: Flow, loc: Location, next: Location)
    requires InBody(flow, loc)
  {
    if next.index == 0 then
      next.block in flow.cfg.successors[loc.block] && loc.index == flow.cfg.statements[loc.block]
    else next.block == loc.block && next.index - 1 == loc.index && loc.index < flow.cfg.statements[loc.block]
  }

  lemma SuccessorsFollow(flow: Flow, loc: Location, next: Location)
    requires InBody(flow, loc)
    ensures next in GetSuccessors(flow, loc) <==> Follows(flow, loc, next)
  {
    var blocks := flow.cfg.successors[loc.block];
    if loc.index == flow.cfg.statements[loc.block] && next.index == 0 && next.block in blocks {
      var i :| 0 <= i < |blocks| && blocks[i] == next.block;
      assert BlockStarts(blocks)[i] == next;
    }
  }

  /** From the start of a location to its middle, and from there to the start of each that follows. */
  ghost predicate PointEdge(flow: Flow, a: Point, b: Point) {
    && InBody(flow, a.location)
    && if a.Start? then b == Mid(a.location) else b.Start? && Follows(flow, a.location, b.location)
  }

  ghost predicate AreEdges(flow: Flow, edges: set<(Point, Point)>) {
    forall a, b :: (a, b) in edges <==> PointEdge(flow, a, b)
  }
}
