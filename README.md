# GbomlGraph: model assembly and editing, in Dafny

This project models the Python API through which a GBOML optimisation model is assembled
as a graph and then edited: the `GbomlGraph` class in its three revisions
(`docs/source/gbomlgraph.py`, `docs/source/gboml_graph/gboml_graph.py`,
`docs/source/pyGBOML.py`). Its four parts are modelled:

- **The top-level registry.** The registry is made of `list_nodes`, `list_hyperedges` and one
  name index, `node_hyperedge_dict`, that nodes and hyperedges share. Inserting a name that
  is already indexed aborts. Batch inserts go one item at a time, so the items before a
  duplicate stay inserted. The inserts preserve an index/list invariant, `GbomlGraph.Valid`.
  It says the index holds exactly the listed entities, under their current names, and those
  names are pairwise distinct. It reads only the entities' names, so the per-entity edits,
  which never change a name, leave it intact.
- **The time horizon.** It is a literal length, read back by `get_timehorizon`.
- **Layered name resolution.** `__get__`, `get_inside_node` and `get_object_in_node` walk a
  path of names through nested name→entity maps. They are specified by one walk, `Walk`, and
  implemented by one loop, `Lookup`.
  - Reaching a hyperedge before the last step is an error.
  - So is a found object whose kind differs from `wanted_type`.
  - An unknown name is an error in the strict revision. In the tolerant revisions the step
    is skipped when `error` is false.
- **Per-entity edits.**
  - Parameter redefinitions are normalised into a scalar literal, a vector of literals or a
    file reference, following the source's order of type tests.
  - Variable-type changes and hyperedge node-name changes are appended to their queues
    unchecked.
  - Constraint and objective deletion takes effect immediately and reports the requested
    names it never matched.

Nodes and hyperedges are `Entities.Entity` objects tagged with a `Kind`. They are objects
because the static helpers change them in place, and because the graph's lists and index
refer to the same objects. This is why renaming an indexed entity does not re-key the index.
The source's aborting `error_` routine, and the arity `assert`, become a failed `Outcome` or
`Result`. The state is left as it stood when the abort happened.

Where the revisions differ:

- `Graph.GbomlGraph.Get` takes the tolerant revisions' `error` flag.
- `Graph.GbomlGraph.GetStrict` is the strict revision's `__get__`.
- `Graph.GbomlGraph.GetInsideNode` stands for both `get_inside_node` and
  `get_object_in_node`, and is strict. In the tolerant revisions the missing-name branch of
  `get_inside_node` evaluates a name that is never defined, so a missing name fails there
  too.
- The extra `factor_mapping` and `objective_map` fields of `docs/source/pyGBOML.py` are part
  of the build artifacts record, `Graph.BuildArtifacts`. Every field of that record is None
  at construction.

Two behaviours of the code are worth stating plainly:

- **Renaming does not re-key the index.** After `rename`, the old key still finds the entity,
  and a strict lookup of the new name fails (`Scenarios.RenameKeepsOldKey`).
- **A batch insert stops at the first duplicate.** Nothing after the duplicate is added
  (`Graph.InsertAllAdmits`).

## Model

| member | source | states |
|---|---|---|
| Entities.VariableType.Tag | docs/source/gbomlgraph.py:83-85 | the queued tag is the enum's string value: "external" exactly for EXTERNAL, otherwise "internal" |
| Resolution.Resolve | docs/source/gbomlgraph.py:177-195 | a walk error is returned unchanged; after a successful walk the lookup succeeds exactly when no kind is wanted or the object found has the wanted kind, and otherwise fails with a kind mismatch naming the wanted and the found kind; a success returns the walk's object |
| Resolution.Lookup | docs/source/gbomlgraph.py:177-195 | the loop that updates the current layer and the object found returns exactly what the walk specifies, and changes nothing |
| Resolution.RouteResolves | docs/source/gboml_graph/gboml_graph.py:89-106 | when every step is found and no step before the last is a hyperedge, both modes return the object the last name denotes, which may be a hyperedge |
| Resolution.StrictSuccessHasRoute | docs/source/gboml_graph/gboml_graph.py:89-106 | a successful strict lookup of a non-empty path has such a route and returns its last object |
| Resolution.StrictMissingFails | docs/source/gboml_graph/gboml_graph.py:91-100 | strict mode: a name missing from the layer reached by the steps before it is an unknown-identifier error |
| Resolution.HyperedgeDescentFails | docs/source/gbomlgraph.py:179-185 | in either mode, reaching a hyperedge before the last step is an invalid-descent error |
| Resolution.TolerantNeverUnknown | docs/source/gbomlgraph.py:188-189 | with `error` false the only walk error is an invalid descent, so a missing name raises nothing |
| Resolution.TolerantAgreesWithStrict | docs/source/gbomlgraph.py:177-195 | whenever the strict lookup succeeds, the tolerant one returns the same object |
| Resolution.TolerantAllMissing | docs/source/gbomlgraph.py:177-189 | a tolerant walk in which no name is found returns what had been found before it, nothing for a fresh lookup |
| Resolution.AsWrittenNeverRetrieves | docs/source/gbomlgraph.py:180-182 | as written, the lookup never returns an object: it succeeds, with nothing found, exactly when no name is indexed (and, when strict, the path is empty) |
| Resolution.TupleKeyDefect | docs/source/gbomlgraph.py:182 | for a one-name path whose name is indexed, the code as written raises a key error where the per-name lookup returns the indexed entity |
| Edits.Redefinition | docs/source/gbomlgraph.py:595-602 | a string becomes a file reference with the filename verbatim; an int, float or bool becomes a scalar literal; a list becomes a literal vector of the same length and order; any other type is refused, and only that one |
| Edits.RedefineAll | docs/source/gbomlgraph.py:613-622 | a batch appends at most one change per pair, and passes exactly when it appended one for every pair |
| Edits.RedefineAllShape | docs/source/gbomlgraph.py:593-602 | the i-th appended change is the normal form of the i-th pair; a failing batch fails with the error of the first refused value; a batch passes exactly when no value is of a refused type |
| Edits.RemoveFirst | docs/source/gbomlgraph.py:655 | striking a pending name removes exactly one occurrence of it |
| Edits.FirstIndex | docs/source/gbomlgraph.py:655 | the position `list.remove` searches for holds the name and no earlier position does |
| Edits.RemoveFirstDropsFirst | docs/source/gbomlgraph.py:655 | striking a name removes its first occurrence and keeps the names before and after it in their order, which is the order the not-found error reports |
| Edits.Strike | docs/source/gbomlgraph.py:649-655 | every removed element strikes exactly one pending request: removed count equals matched request count |
| Edits.ResumeStrikes | docs/source/gbomlgraph.py:649-655 | the loop's walk, resumed after any kept prefix, keeps that prefix followed by what the deletion of the rest keeps, and leaves the same names unmatched |
| Edits.StrikeCounts | docs/source/pyGBOML.py:561-570 | per name, the deletion removes min(elements with that name, times requested); the other requests stay unmatched; an unrequested element survives; an unmatched name has no element left |
| Edits.StrikeRemovesEarliest | docs/source/gbomlgraph.py:651-655 | among elements sharing a requested name the earliest are removed: the survivors with that name are its occurrences after the first min(count, times requested) |
| Edits.StrikeKeepsOrder | docs/source/gbomlgraph.py:649-655 | what is kept is a subsequence of the original collection, in its original order |
| Graph.Admitted | docs/source/gbomlgraph.py:205-206 | a batch insert admits at most as many entities as it is given |
| Graph.AdmittedPrefix | docs/source/gbomlgraph.py:139-143 | the admitted entities have fresh, pairwise distinct names, and the one that stops the batch repeats an indexed name or an earlier name of the batch |
| Graph.IndexesMeaning | docs/source/pyGBOML.py:55-59 | the registry invariant means: listed names are pairwise distinct, each name indexes its own entity, and every key is the name of a listed entity |
| Graph.InsertKeepsRegistry | docs/source/pyGBOML.py:72-76 | indexing a fresh name and listing its entity keeps the registry invariant, wherever in the lists the entity is placed |
| Graph.InsertAllAdmits | docs/source/gbomlgraph.py:197-206 | a batch insert appends exactly the admitted prefix, in argument order, and fails exactly when a name is refused, reporting that name |
| Graph.InsertAllIndexes | docs/source/gboml_graph/gboml_graph.py:108-128 | after a batch insert the index keeps every earlier key and its entity, gains exactly the admitted names, and maps each to the entity inserted under it |
| Graph.GbomlGraph.constructor | docs/source/pyGBOML.py:24-43 | a new graph has empty lists and an empty index, a horizon of the given length (1 by default), every build artifact None, and satisfies the registry invariant |
| Graph.GbomlGraph.AddNode | docs/source/gbomlgraph.py:129-143 | an indexed name fails with nothing changed; otherwise the index maps the name to the node and the node list gains exactly that node at its end; the hyperedge list never changes; the registry invariant is kept |
| Graph.GbomlGraph.AddHyperedge | docs/source/gbomlgraph.py:145-160 | the same check against the same shared index, so a hyperedge cannot take a node's name; only the hyperedge list grows; the registry invariant is kept |
| Graph.GbomlGraph.Get | docs/source/gbomlgraph.py:162-195 | the tolerant `__get__` returns the resolution of the path from the graph's index, in the mode the `error` flag selects, and changes nothing |
| Graph.GbomlGraph.GetStrict | docs/source/gboml_graph/gboml_graph.py:76-106 | the strict `__get__` returns the strict resolution of the path and changes nothing |
| Graph.GbomlGraph.AddNodesInModel | docs/source/gbomlgraph.py:197-206 | the new lists, index and outcome are those of inserting the nodes one at a time, stopping at the first duplicate; the registry invariant is kept |
| Graph.GbomlGraph.AddHyperedgesInModel | docs/source/gboml_graph/gboml_graph.py:119-128 | the same sequential insertion into the hyperedge list against the shared index; the registry invariant is kept |
| Graph.GbomlGraph.SetTimehorizon | docs/source/gbomlgraph.py:219-227 | the horizon becomes a literal of the given length whatever it was; nothing else changes |
| Graph.GbomlGraph.GetTimehorizon | docs/source/gbomlgraph.py:229-238 | returns the current horizon length and changes nothing |
| Graph.GbomlGraph.Rename | docs/source/pyGBOML.py:356-366 | only the entity's name changes; no index holding it is re-keyed |
| Graph.GbomlGraph.GetInsideNode | docs/source/pyGBOML.py:369-402 | resolves the path strictly from the given node's internal map, with the same descent and kind errors, and changes nothing |
| Graph.GbomlGraph.RedefineParameterFromValue | docs/source/pyGBOML.py:433-447 | appends exactly one scalar-literal change and nothing else |
| Graph.GbomlGraph.LiteralExpressions | docs/source/pyGBOML.py:463-466 | the literal vector has the input's length, and its i-th entry wraps the i-th value |
| Graph.GbomlGraph.RedefineParameterFromValues | docs/source/pyGBOML.py:450-469 | appends exactly one vector change whose literals match the list in length and order |
| Graph.GbomlGraph.RedefineParameterFromFile | docs/source/pyGBOML.py:472-486 | appends exactly one change carrying the filename verbatim |
| Graph.GbomlGraph.RedefineOne | docs/source/gbomlgraph.py:595-602 | an accepted value appends its normal form; a refused value fails with its type and appends nothing |
| Graph.GbomlGraph.RedefineParametersFromList | docs/source/gbomlgraph.py:578-602 | differing lengths fail before any change; otherwise the queue grows by the batch of the zipped pairs and the outcome is the batch's |
| Graph.GbomlGraph.RedefineParametersFromKeywords | docs/source/gboml_graph/gboml_graph.py:518-534 | the queue grows by the batch of the keyword pairs, in keyword order, and the outcome is the batch's |
| Graph.GbomlGraph.ChangeTypeVariableInNode | docs/source/gbomlgraph.py:625-637 | appends exactly one entry (name, enum string, 0) without looking the variable up |
| Graph.GbomlGraph.RemoveConstraint | docs/source/gbomlgraph.py:640-659 | the constraints become what the deletion keeps; unmatched names make it fail naming them and the owner, with the removals left applied |
| Graph.GbomlGraph.RemoveObjectiveInNode | docs/source/gboml_graph/gboml_graph.py:571-589 | the same deletion applied to the objectives |
| Graph.GbomlGraph.ChangeNodeNameInHyperedge | docs/source/gboml_graph/gboml_graph.py:592-602 | appends exactly one entry (old, new, None) and checks neither name |
| Scenarios.HorizonSetAndChange | docs/source/gbomlgraph.py:20-28 | a graph built with horizon 10 reports 10, and reports 12 after it is set to 12 |
| Scenarios.DefaultHorizon | docs/source/gbomlgraph.py:110-120 | a graph built without an argument has horizon 1 |
| Scenarios.SharedNamespace | docs/source/gbomlgraph.py:139-160 | a hyperedge named like an inserted node is refused and the hyperedge list stays empty |
| Scenarios.BatchStopsAtDuplicate | docs/source/gbomlgraph.py:197-206 | inserting A, A, B inserts the first A, then fails on the second A, so B is never inserted |
| Scenarios.EditBetweenInserts | docs/source/gbomlgraph.py:129-143 | on any valid graph, inserting a node, redefining one of its parameters, deleting one of its constraints and inserting another node leaves the registry invariant holding |
| Scenarios.RenameKeepsOldKey | docs/source/pyGBOML.py:356-366 | after renaming an inserted node from A to B, the lookup of A finds the node named B, and a strict lookup of B fails |
| Scenarios.NestedLookup | docs/source/gbomlgraph.py:177-195 | a hyperedge inside a node is found by its two-name path, and descending past it fails |
| Scenarios.SkippedUnknownName | docs/source/gbomlgraph.py:177-189 | an unknown leading name is skipped by the tolerant lookup, which then finds the node, and is an unknown-identifier error for the strict one |
| Scenarios.KindChecked | docs/source/pyGBOML.py:398-402 | asking for a hyperedge where the path denotes a node is a kind-mismatch error |
| Scenarios.RemovalExample | docs/source/gbomlgraph.py:640-659 | deleting c1 and c2 from [c1, c3] keeps [c3] and fails reporting ["c2"] for that node |
| Scenarios.RemoveOnlyObjective | docs/source/gbomlgraph.py:60-63 | deleting the only objective by name leaves none and passes |
| Scenarios.ChangeVariableTypeExample | docs/source/gbomlgraph.py:65-72 | making "investment" external queues exactly ("investment", "external", 0) |
| Scenarios.ParameterListExample | docs/source/gbomlgraph.py:41-54 | redefining a and b from [0, 1] queues the two scalar literals in order and passes |
| Scenarios.ParameterListArity | docs/source/gbomlgraph.py:591 | two names with one value fail before any change is queued |
| Scenarios.KeywordsStopAtRefused | docs/source/gboml_graph/gboml_graph.py:526-534 | a keyword batch keeps the file change before a refused value and fails with that value's type |

## Findings

| source | as written | input that shows it | evidently intended | confidence | as-written member | corrected member |
|---|---|---|---|---|---|---|
| docs/source/gbomlgraph.py:182 | After checking that `name` is in the current layer, `__get__` fetches `current_layer[node_or_hyperedge_name]`, keyed by the whole tuple of names. No name index holds a tuple key, so the first name found raises a key error. The same line is in docs/source/gboml_graph/gboml_graph.py:93 and docs/source/pyGBOML.py:98. | the path ("A",) on a graph where "A" is indexed | fetch `current_layer[name]`, as `get_inside_node` does at docs/source/gbomlgraph.py:478 | high (not executed) | Resolution.WalkAsWritten (Resolution.AsWrittenNeverRetrieves, Resolution.TupleKeyDefect) | Resolution.Lookup (Resolution.RouteResolves) |

Two more defects are noted but not modelled as written:

- `get_inside_node` (docs/source/gbomlgraph.py:484-485, docs/source/pyGBOML.py:395-396)
  tests an `error` flag it never receives. A missing name therefore fails, which
  `GetInsideNode` models as the strict lookup.
- `get_object_in_node` (docs/source/gboml_graph/gboml_graph.py:398-400) walks
  `searched_node`, which is undefined; its parameter is `node_identifier`. The model walks the
  given path.

## Left out

- `build_model`: it is a fixed sequence of calls into compiler stages that are not part of
  this model (semantic analysis, factorisation, matrix generation, multiprocessing). Only
  the artifact fields it fills are modelled, and they stay None.
- `solve_*` and `__solve`: these are floating-point reductions plus foreign solver libraries.
- `import_node`, `import_hyperedge`, `import_all_nodes_and_edges`: these do file parsing,
  change the process-wide working directory, and deep-copy. Entities are built directly
  with `Entities.Entity`'s constructor instead.
- `test_gboml_python_interface`: its file imports, printing and `exit()` are left out. Its
  checks on the graph API are the `Scenarios` members.
- `add_sub_node`, `add_sub_hyperedge`: they delegate to Node methods (`add_sub_node`,
  `add_link`, `update_internal_dict`) that are not part of this model.
- `error_`: it is external. Each call becomes a failure value carrying the condition it
  reports, and the message text is not modelled.
- The Node and Hyperlink classes (`get_internal_dict`, `remove_constraint`, `add_*_change`,
  `rename`) are not part of this model. Their effect is modelled directly on the entity's
  fields: removal deletes the element at its position, and the appenders append.
- Graph.GbomlGraph.RemoveConstraint: the loop is modelled over a snapshot of the collection,
  removing in place by position. What iterating a Python list while removing from it would
  skip depends on the Node class's list handling, which is not visible.
- Graph.GbomlGraph.RemoveObjectiveInNode: modelled over a snapshot of the collection, for
  the same reason.
- Constraint and objective expressions, and parameter expressions other than literals, are
  opaque: `Named` keeps only a name and a payload.
- `VariableChange` line numbers and `NameChange` source lines are the placeholders the source
  writes (0 and None). They are not computed.
- Floating-point values are only stored, never computed with, so `real` stands in for them.
- Graph.GbomlGraph.AddNode: the registry invariant is stated as `old(Valid()) ==> Valid()`,
  because renaming an inserted entity (which the source allows) breaks it.
- Graph.GbomlGraph.AddHyperedge: the invariant is stated conditionally, for the same reason.
