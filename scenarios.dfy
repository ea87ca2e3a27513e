/**
  Client runs of the graph API on small concrete graphs: the checks of the repository's own
  driver (horizon set and changed, parameters redefined by list, variable type changed,
  objective removed) and the behaviours the API documents (shared namespace, rename without
  re-keying, edits between inserts, layered lookup, a skipped unknown name, deletion with a name left over).
*/
module Scenarios {
  import opened Wrappers
  import opened Entities
  import opened Resolution
  import opened Edits
  import opened Graph

  /** The horizon passed to the constructor is read back, and a later set replaces it. */
  method HorizonSetAndChange() returns (first: int, second: int)
    ensures first == 10 && second == 12
  {
    var graph := new GbomlGraph(10);
    first := graph.GetTimehorizon();
    graph.SetTimehorizon(12);
    second := graph.GetTimehorizon();
  }

  /** Without an argument the horizon has length 1. */
  method DefaultHorizon() returns (length: int)
    ensures length == 1
  {
    var graph := new GbomlGraph();
    length := graph.GetTimehorizon();
  }

  /** Nodes and hyperedges share one namespace: a hyperedge named like a node is refused. */
  method SharedNamespace() returns (first: Outcome, second: Outcome, nodes: nat, hyperedges: nat)
    ensures first == Pass && second == Fail(DuplicateIdentifier("A"))
    ensures nodes == 1 && hyperedges == 0
  {
    var graph := new GbomlGraph();
    var node := new Entity(Node, "A", map[], [], []);
    var edge := new Entity(Hyperedge, "A", map[], [], []);
    first := graph.AddNode(node);
    second := graph.AddHyperedge(edge);
    nodes := |graph.listNodes|;
    hyperedges := |graph.listHyperedges|;
  }

  /** A batch insertion keeps the entities before the duplicate and reports the duplicate. */
  method BatchStopsAtDuplicate() returns (outcome: Outcome, count: nat)
    ensures outcome == Fail(DuplicateIdentifier("A"))
    ensures count == 1
  {
    var graph := new GbomlGraph();
    var a := new Entity(Node, "A", map[], [], []);
    var again := new Entity(Node, "A", map[], [], []);
    var b := new Entity(Node, "B", map[], [], []);
    outcome := graph.AddNodesInModel([a, again, b]);
    count := |graph.listNodes|;
  }

  /**
    Edits to an entity's statements and queues leave the registry invariant alone, since it
    depends on names only: a valid graph stays valid across insert, edit, insert.
  */
  method EditBetweenInserts(graph: GbomlGraph, a: Entity, b: Entity) returns (first: Outcome, second: Outcome)
    requires graph.Valid()
    modifies graph`listNodes, graph`nodeHyperedgeDict, a`parameterChanges, a`constraints
    ensures graph.Valid()
  {
    first := graph.AddNode(a);
    GbomlGraph.RedefineParameterFromValue(a, "p", Int(1));
    var _ := GbomlGraph.RemoveConstraint(a, ["c"]);
    second := graph.AddNode(b);
  }

  /**
    Renaming an indexed node changes its name only: it is still found under the old key,
    and the new name is unknown to a strict lookup.
  */
  method RenameKeepsOldKey() returns (byOldKey: Result<Option<Entity>, Error>, byNewKey: Result<Option<Entity>, Error>)
    ensures byOldKey.Success? && byOldKey.value.Some? && byOldKey.value.value.name == "B"
    ensures byNewKey == Failure(UnknownIdentifier("B"))
  {
    var graph := new GbomlGraph();
    var node := new Entity(Node, "A", map[], [], []);
    var _ := graph.AddNode(node);
    GbomlGraph.Rename(node, "B");
    byOldKey := graph.GetStrict(["A"], Some(Node));
    byNewKey := graph.GetStrict(["B"], None);
  }

  /** Layered lookup through a node's internal map: the inner hyperedge is found, and descending past it fails. */
  method NestedLookup() returns (inner: Result<Option<Entity>, Error>, past: Result<Option<Entity>, Error>)
    ensures inner.Success? && inner.value.Some? && inner.value.value.kind == Hyperedge
    ensures past == Failure(InvalidDescent("x"))
  {
    var graph := new GbomlGraph();
    var edge := new Entity(Hyperedge, "x", map[], [], []);
    var node := new Entity(Node, "N", map["x" := edge], [], []);
    var _ := graph.AddNode(node);
    assert graph.nodeHyperedgeDict == map["N" := node];
    assert ["N", "x", "y"][..2] == ["N", "x"] && ["N", "x"][1..] == ["x"];
    RouteResolves(graph.nodeHyperedgeDict, ["N", "x"], [node, edge], None, true);
    HyperedgeDescentFails(graph.nodeHyperedgeDict, ["N", "x", "y"], [node, edge], 1, None, false);
    inner := graph.GetStrict(["N", "x"], Some(Hyperedge));
    past := graph.Get(["N", "x", "y"]);
  }

  /** A leading unknown name is skipped by the tolerant lookup and reported by the strict one. */
  method SkippedUnknownName() returns (tolerant: Result<Option<Entity>, Error>, strict: Result<Option<Entity>, Error>)
    ensures tolerant.Success? && tolerant.value.Some? && tolerant.value.value.name == "N"
    ensures strict == Failure(UnknownIdentifier("Q"))
  {
    var graph := new GbomlGraph();
    var node := new Entity(Node, "N", map[], [], []);
    var _ := graph.AddNode(node);
    assert graph.nodeHyperedgeDict == map["N" := node];
    assert ["Q", "N"][1..] == ["N"];
    assert Walk(graph.nodeHyperedgeDict, ["Q", "N"], None, false) == Success(Some(node));
    tolerant := graph.Get(["Q", "N"], false, Some(Node));
    strict := graph.GetStrict(["Q", "N"], Some(Node));
  }

  /** A wanted kind that does not match what the path denotes is reported. */
  method KindChecked() returns (r: Result<Option<Entity>, Error>)
    ensures r == Failure(KindMismatch(Hyperedge, Some(Node)))
  {
    var node := new Entity(Node, "N", map[], [], []);
    var outer := new Entity(Node, "M", map["N" := node], [], []);
    r := GbomlGraph.GetInsideNode(outer, ["N"], Some(Hyperedge));
  }

  /** Deleting c1 and c2 from [c1, c3] removes c1, keeps c3, and reports c2 as not found. */
  method RemovalExample() returns (kept: seq<Named>, outcome: Outcome)
    ensures kept == [Named("c3", 0)]
    ensures outcome == Fail(NotFound(["c2"], "N"))
  {
    var node := new Entity(Node, "N", map[], [Named("c1", 0), Named("c3", 0)], []);
    outcome := GbomlGraph.RemoveConstraint(node, ["c1", "c2"]);
    kept := node.constraints;
  }

  /** Removing the only objective by its name leaves none and passes. */
  method RemoveOnlyObjective() returns (left: nat, outcome: Outcome)
    ensures left == 0 && outcome == Pass
  {
    var node := new Entity(Node, "N", map[], [], [Named("hi", 0)]);
    outcome := GbomlGraph.RemoveObjectiveInNode(node, ["hi"]);
    left := |node.objectives|;
  }

  /** Changing a variable to external queues one entry with the enum's string and a 0 placeholder. */
  method ChangeVariableTypeExample() returns (changes: seq<VariableChange>)
    ensures changes == [VariableChange("investment", "external", 0)]
  {
    var node := new Entity(Node, "SOLAR_PV", map[], [], []);
    GbomlGraph.ChangeTypeVariableInNode(node, "investment", External);
    changes := node.variableChanges;
  }

  /** Redefining parameters from parallel lists queues one literal per pair, in order. */
  method ParameterListExample() returns (changes: seq<ParameterChange>, outcome: Outcome)
    ensures outcome == Pass
    ensures changes == [ScalarChange("a", Literal(Int(0))), ScalarChange("b", Literal(Int(1)))]
  {
    var node := new Entity(Node, "SOLAR_PV", map[], [], []);
    outcome := GbomlGraph.RedefineParametersFromList(node, ["a", "b"], [Int(0), Int(1)]);
    changes := node.parameterChanges;
  }

  /** Lists of different lengths are refused before any change is queued. */
  method ParameterListArity() returns (changes: seq<ParameterChange>, outcome: Outcome)
    ensures outcome == Fail(ArityMismatch(2, 1))
    ensures changes == []
  {
    var node := new Entity(Node, "SOLAR_PV", map[], [], []);
    outcome := GbomlGraph.RedefineParametersFromList(node, ["a", "b"], [Int(0)]);
    changes := node.parameterChanges;
  }

  /** A keyword batch keeps the changes before a refused value and reports its type. */
  method KeywordsStopAtRefused() returns (changes: seq<ParameterChange>, outcome: Outcome)
    ensures outcome == Fail(UnacceptedType("dict"))
    ensures changes == [FileChange("demand", "demand.csv")]
  {
    var node := new Entity(Node, "B", map[], [], []);
    outcome := GbomlGraph.RedefineParametersFromKeywords(node, [("demand", Str("demand.csv")), ("cost", Other("dict")), ("size", Int(3))]);
    changes := node.parameterChanges;
  }
}
