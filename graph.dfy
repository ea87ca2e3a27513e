/**
  The GbomlGraph model-assembly and editing API: a registry of top-level nodes and
  hyperedges sharing one name index, the time horizon, layered lookup, and the static
  helpers that queue edits on a node or hyperedge or delete its constraints and objectives.
*/
module Graph {
  import opened Wrappers
  import opened Entities
  import opened Resolution
  import opened Edits

  /** An artifact of a model build (program, matrices, mappings); opaque here. */
  datatype Artifact = Artifact(handle: nat)

  /** The fields a build fills in; every one is None until a build succeeds. */
  datatype BuildArtifacts = BuildArtifacts(
    program: Option<Artifact>,
    matrixA: Option<Artifact>,
    matrixB: Option<Artifact>,
    vectorC: Option<Artifact>,
    indepTermC: Option<Artifact>,
    factorMapping: Option<Artifact>,
    objectiveMap: Option<Artifact>)

  const NotBuilt := BuildArtifacts(None, None, None, None, None, None, None)

  /** The names of `entities`, in order, as they are now. */
  ghost function Names(entities: seq<Entity>): (names: seq<string>)
    reads entities`name
    ensures |names| == |entities|
    ensures forall i :: 0 <= i < |entities| ==> names[i] == entities[i].name
    decreases |entities|
  {
    if entities == [] then []
    else
      var rest := Names(entities[1..]);
      assert forall i :: 1 <= i < |entities| ==> rest[i - 1] == entities[i].name;
      [entities[0].name] + rest
  }

  /**
    How many of `names` a sequential insertion admits before the first name that is
    already in `keys` or repeats an earlier name of the same call.
  */
  ghost function Admitted(keys: set<string>, names: seq<string>): (k: nat)
    ensures k <= |names|
    decreases |names|
  {
    if names == [] || names[0] in keys then 0 else 1 + Admitted(keys + {names[0]}, names[1..])
  }

  /**
    The admitted prefix is made of fresh, pairwise distinct names, and the name that
    stops the insertion is a duplicate of an existing key or of an earlier name.
  */
  lemma {:induction false} AdmittedPrefix(keys: set<string>, names: seq<string>)
    ensures var k := Admitted(keys, names);
      && (forall i :: 0 <= i < k ==> names[i] !in keys)
      && (forall i, j :: 0 <= i < j < k ==> names[i] != names[j])
      && (k < |names| ==> names[k] in keys || exists i :: 0 <= i < k && names[i] == names[k])
    decreases |names|
  {
    if names != [] && names[0] !in keys {
      var k := Admitted(keys, names);
      AdmittedPrefix(keys + {names[0]}, names[1..]);
      forall i | 0 < i < k ensures names[i] !in keys && names[i] != names[0] {
        assert names[1..][i - 1] == names[i];
      }
      forall i, j | 0 <= i < j < k ensures names[i] != names[j] {
        assert names[1..][j - 1] == names[j];
        if i > 0 {
          assert names[1..][i - 1] == names[i];
        }
      }
      if k < |names| {
        assert names[1..][k - 1] == names[k];
        if names[k] != names[0] && names[k] !in keys {
          var i :| 0 <= i < k - 1 && names[1..][i] == names[1..][k - 1];
          assert names[i + 1] == names[k];
        }
      }
    }
  }

  /**
    `dict` is a name index of exactly `all`: peeling the listed entities off from the end,
    each one is indexed under its current name, and nothing is left in the index after
    the last one is removed.
  */
  ghost predicate Indexes(dict: map<string, Entity>, all: seq<Entity>)
    reads all`name
    decreases |all|
  {
    if all == [] then dict == map[]
    else
      var last := all[|all| - 1];
      && last.name in dict && dict[last.name] == last
      && Indexes(dict - {last.name}, all[..|all| - 1])
  }

  /**
    What an index of the listed entities guarantees: their names are pairwise distinct,
    each name maps to its own entity, and every key is the name of a listed entity.
  */
  lemma {:induction false} IndexesMeaning(dict: map<string, Entity>, all: seq<Entity>)
    requires Indexes(dict, all)
    ensures forall i, j :: 0 <= i < j < |all| ==> all[i].name != all[j].name
    ensures forall i :: 0 <= i < |all| ==> all[i].name in dict && dict[all[i].name] == all[i]
    ensures forall key :: key in dict ==> exists i :: 0 <= i < |all| && all[i].name == key
    decreases |all|
  {
    if all != [] {
      var n := |all| - 1;
      var last := all[n];
      var rest := dict - {last.name};
      IndexesMeaning(rest, all[..n]);
      assert forall i :: 0 <= i < n ==> all[..n][i] == all[i];
      forall key | key in dict ensures exists i :: 0 <= i < |all| && all[i].name == key {
        if key != last.name {
          assert key in rest;
          var i :| 0 <= i < n && all[..n][i].name == key;
          assert all[i].name == key;
        }
      }
    }
  }

  /**
    Inserting `e` at position `at` of the listed entities, under a name the index did not
    hold, keeps it an index of the listed entities.
  */
  lemma {:induction false} InsertKeepsRegistry(before: seq<Entity>, e: Entity, at: nat, dict: map<string, Entity>)
    requires at <= |before|
    requires e.name !in dict
    requires Indexes(dict, before)
    ensures Indexes(dict[e.name := e], before[..at] + [e] + before[at..])
    decreases |before|
  {
    var after := before[..at] + [e] + before[at..];
    if at == |before| {
      assert after[..|after| - 1] == before;
      assert dict[e.name := e] - {e.name} == dict;
    } else {
      var n := |before| - 1;
      var last := before[n];
      assert after[|after| - 1] == last;
      assert e.name != last.name;
      assert after[..|after| - 1] == before[..n][..at] + [e] + before[..n][at..];
      assert dict[e.name := e] - {last.name} == (dict - {last.name})[e.name := e];
      InsertKeepsRegistry(before[..n], e, at, dict - {last.name});
    }
  }

  /** A list of top-level entities together with the shared name index. */
  datatype Registry = Registry(listed: seq<Entity>, index: map<string, Entity>)

  /** Where a sequence of insertions leaves the registry, and how it ended. */
  datatype Insertion = Insertion(registry: Registry, outcome: Outcome)

  /**
    Inserting `entities[i]` under `names[i]` one at a time: a name already indexed aborts
    with the registry as the earlier insertions left it.
  */
  function InsertAll(r: Registry, names: seq<string>, entities: seq<Entity>): Insertion
    requires |names| == |entities|
    decreases |names|
  {
    if names == [] then Insertion(r, Pass)
    else if names[0] in r.index then Insertion(r, Fail(DuplicateIdentifier(names[0])))
    else InsertAll(Registry(r.listed + [entities[0]], r.index[names[0] := entities[0]]), names[1..], entities[1..])
  }

  /**
    A sequence of insertions appends exactly the admitted prefix and fails exactly when a
    name is refused, reporting that name.
  */
  lemma {:induction false} InsertAllAdmits(r: Registry, names: seq<string>, entities: seq<Entity>)
    requires |names| == |entities|
    ensures var k := Admitted(r.index.Keys, names); var ins := InsertAll(r, names, entities);
      && ins.registry.listed == r.listed + entities[..k]
      && ins.outcome == (if k == |names| then Pass else Fail(DuplicateIdentifier(names[k])))
    decreases |names|
  {
    if names != [] && names[0] !in r.index {
      var k := Admitted(r.index.Keys, names);
      var r' := Registry(r.listed + [entities[0]], r.index[names[0] := entities[0]]);
      assert r'.index.Keys == r.index.Keys + {names[0]};
      InsertAllAdmits(r', names[1..], entities[1..]);
      assert entities[..k] == [entities[0]] + entities[1..][..k - 1];
    }
  }

  /**
    After a sequence of insertions the index holds its earlier keys unchanged plus the
    admitted names, each mapped to the entity inserted under it.
  */
  lemma {:induction false} InsertAllIndexes(r: Registry, names: seq<string>, entities: seq<Entity>)
    requires |names| == |entities|
    ensures var k := Admitted(r.index.Keys, names); var index := InsertAll(r, names, entities).registry.index;
      && index.Keys == r.index.Keys + (set i | 0 <= i < k :: names[i])
      && (forall key :: key in r.index ==> index[key] == r.index[key])
      && (forall i :: 0 <= i < k ==> index[names[i]] == entities[i])
    decreases |names|
  {
    if names != [] && names[0] !in r.index {
      var k := Admitted(r.index.Keys, names);
      var r' := Registry(r.listed + [entities[0]], r.index[names[0] := entities[0]]);
      assert r'.index.Keys == r.index.Keys + {names[0]};
      InsertAllIndexes(r', names[1..], entities[1..]);
      var index := InsertAll(r, names, entities).registry.index;
      assert (set i | 0 <= i < k :: names[i]) == {names[0]} + (set i | 0 <= i < k - 1 :: names[1..][i]) by {
        assert forall i :: 0 < i < k ==> names[1..][i - 1] == names[i];
      }
      forall i | 0 < i < k ensures index[names[i]] == entities[i] {
        assert names[1..][i - 1] == names[i] && entities[1..][i - 1] == entities[i];
      }
    }
  }

  class GbomlGraph {
    var listNodes: seq<Entity>
    var listHyperedges: seq<Entity>
    var timehorizon: Time
    var nodeHyperedgeDict: map<string, Entity>
    var artifacts: BuildArtifacts

    /**
      The registry invariant the inserts keep: the index's keys are exactly the current
      names of the listed entities, those names are pairwise distinct, and each name
      indexes its own entity. Renaming a listed entity breaks it.
    */
    ghost predicate Valid()
      reads this, listNodes`name, listHyperedges`name
    {
      Indexes(nodeHyperedgeDict, listNodes + listHyperedges)
    }

    /** An empty graph whose horizon is a literal of the given length (1 by default). */
    constructor (timehorizon: int := 1)
      ensures listNodes == [] && listHyperedges == [] && nodeHyperedgeDict == map[]
      ensures this.timehorizon == Time("T", timehorizon)
      ensures artifacts == NotBuilt
      ensures Valid()
    {
      listNodes := [];
      listHyperedges := [];
      this.timehorizon := Time("T", timehorizon);
      nodeHyperedgeDict := map[];
      artifacts := NotBuilt;
    }

    /** `__add_node`: a name already in the shared index aborts; otherwise the node is indexed and appended. */
    method AddNode(node: Entity) returns (outcome: Outcome)
      modifies this`listNodes, this`nodeHyperedgeDict
      ensures outcome == if node.name in old(nodeHyperedgeDict) then Fail(DuplicateIdentifier(node.name)) else Pass
      ensures outcome.Fail? ==> listNodes == old(listNodes) && nodeHyperedgeDict == old(nodeHyperedgeDict)
      ensures outcome.Pass? ==> listNodes == old(listNodes) + [node]
                                && nodeHyperedgeDict == old(nodeHyperedgeDict)[node.name := node]
      ensures old(Valid()) ==> Valid()
    {
      var nodeName := node.name;
      if nodeName in nodeHyperedgeDict {
        return Fail(DuplicateIdentifier(nodeName));
      }
      ghost var all := listNodes + listHyperedges;
      nodeHyperedgeDict := nodeHyperedgeDict[nodeName := node];
      listNodes := listNodes + [node];
      outcome := Pass;
      if old(Valid()) {
        InsertKeepsRegistry(all, node, |old(listNodes)|, old(nodeHyperedgeDict));
        assert listNodes + listHyperedges == all[..|old(listNodes)|] + [node] + all[|old(listNodes)|..];
      }
    }

    /** `__add_hyperedge`: the same check against the same index, then the hyperedge list grows. */
    method AddHyperedge(hyperedge: Entity) returns (outcome: Outcome)
      modifies this`listHyperedges, this`nodeHyperedgeDict
      ensures outcome == if hyperedge.name in old(nodeHyperedgeDict) then Fail(DuplicateIdentifier(hyperedge.name)) else Pass
      ensures outcome.Fail? ==> listHyperedges == old(listHyperedges) && nodeHyperedgeDict == old(nodeHyperedgeDict)
      ensures outcome.Pass? ==> listHyperedges == old(listHyperedges) + [hyperedge]
                                && nodeHyperedgeDict == old(nodeHyperedgeDict)[hyperedge.name := hyperedge]
      ensures old(Valid()) ==> Valid()
    {
      var hyperedgeName := hyperedge.name;
      if hyperedgeName in nodeHyperedgeDict {
        return Fail(DuplicateIdentifier(hyperedgeName));
      }
      ghost var all := listNodes + listHyperedges;
      nodeHyperedgeDict := nodeHyperedgeDict[hyperedgeName := hyperedge];
      listHyperedges := listHyperedges + [hyperedge];
      outcome := Pass;
      if old(Valid()) {
        InsertKeepsRegistry(all, hyperedge, |all|, old(nodeHyperedgeDict));
        assert listNodes + listHyperedges == all[..|all|] + [hyperedge] + all[|all|..];
      }
    }

    /**
      `__get__` of the tolerant revisions: resolves `path` from the graph's index; with
      `error` false a missing name is skipped instead of reported. It changes nothing.
    */
    method Get(path: seq<string>, error: bool := false, wantedType: Option<Kind> := None) returns (r: Result<Option<Entity>, Error>)
      ensures r == Resolve(nodeHyperedgeDict, path, error, wantedType)
    {
      r := Lookup(nodeHyperedgeDict, path, error, wantedType);
    }

    /** `__get__` of the revision in docs/source/gboml_graph/gboml_graph.py: every name must be found. It changes nothing. */
    method GetStrict(path: seq<string>, wantedType: Option<Kind>) returns (r: Result<Option<Entity>, Error>)
      ensures r == Resolve(nodeHyperedgeDict, path, true, wantedType)
    {
      r := Lookup(nodeHyperedgeDict, path, true, wantedType);
    }

    /**
      `add_nodes_in_model`: inserts one node at a time in argument order and stops at the
      first duplicate, leaving the nodes before it inserted.
    */
    method AddNodesInModel(nodes: seq<Entity>) returns (outcome: Outcome)
      modifies this`listNodes, this`nodeHyperedgeDict
      ensures var ins := InsertAll(Registry(old(listNodes), old(nodeHyperedgeDict)), Names(nodes), nodes);
        listNodes == ins.registry.listed && nodeHyperedgeDict == ins.registry.index && outcome == ins.outcome
      ensures old(Valid()) ==> Valid()
    {
      ghost var names := Names(nodes);
      ghost var valid := Valid();
      var i := 0;
      while i < |nodes|
        invariant i <= |nodes|
        invariant InsertAll(Registry(old(listNodes), old(nodeHyperedgeDict)), names, nodes)
               == InsertAll(Registry(listNodes, nodeHyperedgeDict), names[i..], nodes[i..])
        invariant valid ==> Valid()
      {
        assert names[i..][0] == names[i] && names[i..][1..] == names[i + 1..];
        assert nodes[i..][0] == nodes[i] && nodes[i..][1..] == nodes[i + 1..];
        outcome := AddNode(nodes[i]);
        if outcome.Fail? {
          return;
        }
        i := i + 1;
      }
      outcome := Pass;
    }

    /** `add_hyperedges_in_model`: the same sequential insertion into the hyperedge list. */
    method AddHyperedgesInModel(hyperedges: seq<Entity>) returns (outcome: Outcome)
      modifies this`listHyperedges, this`nodeHyperedgeDict
      ensures var ins := InsertAll(Registry(old(listHyperedges), old(nodeHyperedgeDict)), Names(hyperedges), hyperedges);
        listHyperedges == ins.registry.listed && nodeHyperedgeDict == ins.registry.index && outcome == ins.outcome
      ensures old(Valid()) ==> Valid()
    {
      ghost var names := Names(hyperedges);
      ghost var valid := Valid();
      var i := 0;
      while i < |hyperedges|
        invariant i <= |hyperedges|
        invariant InsertAll(Registry(old(listHyperedges), old(nodeHyperedgeDict)), names, hyperedges)
               == InsertAll(Registry(listHyperedges, nodeHyperedgeDict), names[i..], hyperedges[i..])
        invariant valid ==> Valid()
      {
        assert names[i..][0] == names[i] && names[i..][1..] == names[i + 1..];
        assert hyperedges[i..][0] == hyperedges[i] && hyperedges[i..][1..] == hyperedges[i + 1..];
        outcome := AddHyperedge(hyperedges[i]);
        if outcome.Fail? {
          return;
        }
        i := i + 1;
      }
      outcome := Pass;
    }

    /** `set_timehorizon`: the horizon becomes a literal of the given length; nothing else changes. */
    method SetTimehorizon(value: int)
      modifies this`timehorizon
      ensures timehorizon == Time("T", value)
    {
      timehorizon := Time("T", value);
    }

    /** `get_timehorizon`: the length of the current horizon. */
    method GetTimehorizon() returns (value: int)
      ensures value == timehorizon.length
    {
      value := timehorizon.length;
    }

    /** `rename`: only the entity's own name changes; no index that holds it is re-keyed. */
    static method Rename(target: Entity, newName: string)
      modifies target`name
      ensures target.name == newName
    {
      target.name := newName;
    }

    /**
      `get_inside_node` / `get_object_in_node`: resolves `path` from a node's internal map.
      A missing name fails: the revision in docs/source/gboml_graph/gboml_graph.py reports it, and in the other revisions
      the branch that would skip it refers to an undefined flag. It changes nothing.
    */
    static method GetInsideNode(atNode: Entity, path: seq<string>, wantedType: Option<Kind>)
      returns (r: Result<Option<Entity>, Error>)
      requires atNode.kind == Node
      ensures r == Resolve(atNode.internal, path, true, wantedType)
    {
      r := Lookup(atNode.internal, path, true, wantedType);
    }

    /** `redefine_parameter_from_value`: queues exactly one scalar-literal change. */
    static method RedefineParameterFromValue(target: Entity, parameterName: string, value: Value)
      modifies target`parameterChanges
      ensures target.parameterChanges == old(target.parameterChanges) + [ScalarChange(parameterName, Literal(value))]
    {
      var expr := Literal(value);
      target.parameterChanges := target.parameterChanges + [ScalarChange(parameterName, expr)];
    }

    /**
      The loop of `redefine_parameter_from_values` that wraps every value in a literal:
      the vector has the input's length and order.
    */
    static method LiteralExpressions(values: seq<Value>) returns (expressionValues: seq<Expression>)
      ensures |expressionValues| == |values|
      ensures forall i :: 0 <= i < |values| ==> expressionValues[i] == Literal(values[i])
    {
      expressionValues := [];
      for i := 0 to |values|
        invariant |expressionValues| == i
        invariant forall j :: 0 <= j < i ==> expressionValues[j] == Literal(values[j])
      {
        expressionValues := expressionValues + [Literal(values[i])];
      }
    }

    /** `redefine_parameter_from_values`: queues exactly one vector change of literals. */
    static method RedefineParameterFromValues(target: Entity, parameterName: string, values: seq<Value>)
      modifies target`parameterChanges
      ensures target.parameterChanges == old(target.parameterChanges) + [VectorChange(parameterName, Literals(values))]
    {
      var expressionValues := LiteralExpressions(values);
      assert expressionValues == Literals(values);
      target.parameterChanges := target.parameterChanges + [VectorChange(parameterName, expressionValues)];
    }

    /** `redefine_parameter_from_file`: queues exactly one change carrying the filename verbatim. */
    static method RedefineParameterFromFile(target: Entity, parameterName: string, filename: string)
      modifies target`parameterChanges
      ensures target.parameterChanges == old(target.parameterChanges) + [FileChange(parameterName, filename)]
    {
      target.parameterChanges := target.parameterChanges + [FileChange(parameterName, filename)];
    }

    /** Dispatch of one (name, value) pair to the single redefiners, as both batch forms do it. */
    static method RedefineOne(target: Entity, parameterName: string, value: Value) returns (outcome: Outcome)
      modifies target`parameterChanges
      ensures var r := Redefinition(parameterName, value);
        && (r.Success? ==> outcome == Pass && target.parameterChanges == old(target.parameterChanges) + [r.value])
        && (r.Failure? ==> outcome == Fail(r.error) && target.parameterChanges == old(target.parameterChanges))
    {
      match value
      case Str(filename) =>
        RedefineParameterFromFile(target, parameterName, filename);
        outcome := Pass;
      case Int(_) =>
        RedefineParameterFromValue(target, parameterName, value);
        outcome := Pass;
      case Float(_) =>
        RedefineParameterFromValue(target, parameterName, value);
        outcome := Pass;
      case Bool(_) =>
        RedefineParameterFromValue(target, parameterName, value);
        outcome := Pass;
      case List(items) =>
        RedefineParameterFromValues(target, parameterName, items);
        outcome := Pass;
      case Other(typeName) =>
        outcome := Fail(UnacceptedType(typeName));
    }

    /**
      `redefine_parameters_from_list`: differing lengths fail before anything is queued;
      otherwise the pairs are redefined in order until the first refused value.
    */
    static method RedefineParametersFromList(target: Entity, listParameters: seq<string>, listValues: seq<Value>)
      returns (outcome: Outcome)
      modifies target`parameterChanges
      ensures |listParameters| != |listValues| ==>
                outcome == Fail(ArityMismatch(|listParameters|, |listValues|))
                && target.parameterChanges == old(target.parameterChanges)
      ensures |listParameters| == |listValues| ==>
                var b := RedefineAll(Zip(listParameters, listValues));
                outcome == b.outcome && target.parameterChanges == old(target.parameterChanges) + b.applied
    {
      if |listParameters| != |listValues| {
        return Fail(ArityMismatch(|listParameters|, |listValues|));
      }
      ghost var pairs := Zip(listParameters, listValues);
      ghost var appended: seq<ParameterChange> := [];
      var i := 0;
      while i < |listParameters|
        invariant 0 <= i <= |listParameters|
        invariant target.parameterChanges == old(target.parameterChanges) + appended
        invariant RedefineAll(pairs).applied == appended + RedefineAll(pairs[i..]).applied
        invariant RedefineAll(pairs).outcome == RedefineAll(pairs[i..]).outcome
      {
        var parameterName := listParameters[i];
        var value := listValues[i];
        assert pairs[i..][0] == (parameterName, value) && pairs[i..][1..] == pairs[i + 1..];
        outcome := RedefineOne(target, parameterName, value);
        if outcome.Fail? {
          return;
        }
        appended := appended + [Redefinition(parameterName, value).value];
        i := i + 1;
      }
      outcome := Pass;
    }

    /**
      `redefine_parameters_from_keywords`: the keyword arguments, in order, are redefined
      one at a time until the first refused value.
    */
    static method RedefineParametersFromKeywords(target: Entity, kwargs: seq<(string, Value)>)
      returns (outcome: Outcome)
      modifies target`parameterChanges
      ensures outcome == RedefineAll(kwargs).outcome
      ensures target.parameterChanges == old(target.parameterChanges) + RedefineAll(kwargs).applied
    {
      ghost var appended: seq<ParameterChange> := [];
      var i := 0;
      while i < |kwargs|
        invariant 0 <= i <= |kwargs|
        invariant target.parameterChanges == old(target.parameterChanges) + appended
        invariant RedefineAll(kwargs).applied == appended + RedefineAll(kwargs[i..]).applied
        invariant RedefineAll(kwargs).outcome == RedefineAll(kwargs[i..]).outcome
      {
        var (parameterName, value) := kwargs[i];
        assert kwargs[i..][0] == (parameterName, value) && kwargs[i..][1..] == kwargs[i + 1..];
        outcome := RedefineOne(target, parameterName, value);
        if outcome.Fail? {
          return;
        }
        appended := appended + [Redefinition(parameterName, value).value];
        i := i + 1;
      }
      outcome := Pass;
    }

    /** `change_type_variable_in_node`: queues exactly one entry; the variable is not looked up. */
    static method ChangeTypeVariableInNode(node: Entity, variableName: string, variableType: VariableType)
      modifies node`variableChanges
      ensures node.variableChanges == old(node.variableChanges) + [VariableChange(variableName, variableType.Tag(), 0)]
    {
      var variableTuple := VariableChange(variableName, variableType.Tag(), 0);
      node.variableChanges := node.variableChanges + [variableTuple];
    }

    /**
      `remove_constraint`: walks a snapshot of the constraints, removing each one whose name
      is still requested and striking that request. Unmatched requests make it fail after
      the removals, which stay applied.
    */
    static method RemoveConstraint(target: Entity, toDelete: seq<string>) returns (outcome: Outcome)
      modifies target`constraints
      ensures var d := Strike(old(target.constraints), toDelete);
        && target.constraints == d.kept
        && outcome == if d.unmatched == [] then Pass else Fail(NotFound(d.unmatched, target.name))
    {
      var constraints := target.constraints;
      var pending := toDelete;
      ghost var kept: seq<Named> := [];
      var position := 0;
      for i := 0 to |constraints|
        invariant position == |kept|
        invariant target.constraints == kept + constraints[i..]
        invariant Resume([], constraints, toDelete) == Resume(kept, constraints[i..], pending)
      {
        var constraint := constraints[i];
        if constraint.name in pending {
          RemovingStep(target.constraints, constraints, i, kept, pending);
          target.constraints := target.constraints[..position] + target.constraints[position + 1..];
          pending := RemoveFirst(pending, constraint.name);
        } else {
          KeepingStep(target.constraints, constraints, i, kept, pending);
          kept := kept + [constraint];
          position := position + 1;
        }
      }
      WalkDone(constraints, toDelete, kept, pending);
      if pending != [] {
        outcome := Fail(NotFound(pending, target.name));
      } else {
        outcome := Pass;
      }
    }

    /** `remove_objective_in_node`: the same deletion applied to the objectives. */
    static method RemoveObjectiveInNode(node: Entity, toDelete: seq<string>) returns (outcome: Outcome)
      modifies node`objectives
      ensures var d := Strike(old(node.objectives), toDelete);
        && node.objectives == d.kept
        && outcome == if d.unmatched == [] then Pass else Fail(NotFound(d.unmatched, node.name))
    {
      var objectives := node.objectives;
      var pending := toDelete;
      ghost var kept: seq<Named> := [];
      var position := 0;
      for i := 0 to |objectives|
        invariant position == |kept|
        invariant node.objectives == kept + objectives[i..]
        invariant Resume([], objectives, toDelete) == Resume(kept, objectives[i..], pending)
      {
        var objective := objectives[i];
        if objective.name in pending {
          RemovingStep(node.objectives, objectives, i, kept, pending);
          node.objectives := node.objectives[..position] + node.objectives[position + 1..];
          pending := RemoveFirst(pending, objective.name);
        } else {
          KeepingStep(node.objectives, objectives, i, kept, pending);
          kept := kept + [objective];
          position := position + 1;
        }
      }
      WalkDone(objectives, toDelete, kept, pending);
      if pending != [] {
        outcome := Fail(NotFound(pending, node.name));
      } else {
        outcome := Pass;
      }
    }

    /** `change_node_name_in_hyperedge`: queues exactly one entry; neither name is checked. */
    static method ChangeNodeNameInHyperedge(hyperedge: Entity, oldNodeName: string, newNodeName: string)
      modifies hyperedge`nameChanges
      ensures hyperedge.nameChanges == old(hyperedge.nameChanges) + [NameChange(oldNodeName, newNodeName, None)]
    {
      var changeTuple := NameChange(oldNodeName, newNodeName, None);
      hyperedge.nameChanges := hyperedge.nameChanges + [changeTuple];
    }
  }
}
