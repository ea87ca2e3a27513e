/**
  Layered name resolution: a path of names is looked up one layer at a time, starting from
  a name index (the graph's own index or a node's internal map) and descending into the
  internal map of each node found before the last step.
*/
module Resolution {
  import opened Wrappers
  import opened Entities

  /**
    The lookup loop, one step per path element. `retrieved` is the object found so far.
    A found name that is not the last step must be a node, whose internal map becomes the
    next layer. A missing name is an error when `strict`; otherwise the step is skipped and
    both the layer and the object found so far stay as they were.
  */
  ghost function Walk(layer: map<string, Entity>, path: seq<string>, retrieved: Option<Entity>,
                      strict: bool): Result<Option<Entity>, Error>
    reads *
    decreases |path|
  {
    if path == [] then Success(retrieved)
    else if path[0] in layer then
      var found := layer[path[0]];
      if |path| == 1 then Success(Some(found))
      else if found.kind == Hyperedge then Failure(InvalidDescent(path[0]))
      else Walk(found.internal, path[1..], Some(found), strict)
    else if strict then Failure(UnknownIdentifier(path[0]))
    else Walk(layer, path[1..], retrieved, strict)
  }

  /** The whole lookup: the walk from nothing found, then the optional check of the kind found. */
  ghost function Resolve(layer: map<string, Entity>, path: seq<string>, strict: bool,
                         wanted: Option<Kind>): (r: Result<Option<Entity>, Error>)
    reads *
    ensures r.Success? && wanted.Some? ==> r.value.Some? && r.value.value.kind == wanted.value
    ensures r.Success? ==> Walk(layer, path, None, strict) == r
    ensures wanted.None? ==> r == Walk(layer, path, None, strict)
    ensures Walk(layer, path, None, strict).Failure? ==> r == Walk(layer, path, None, strict)
    ensures var w := Walk(layer, path, None, strict);
      w.Success? ==>
        (r.Success? <==> wanted.None? || (w.value.Some? && w.value.value.kind == wanted.value))
        && (r.Failure? ==> r.error == KindMismatch(wanted.value, if w.value.None? then None else Some(w.value.value.kind)))
  {
    match Walk(layer, path, None, strict)
    case Failure(e) => Failure(e)
    case Success(found) =>
      if wanted.Some? && (found.None? || found.value.kind != wanted.value) then
        Failure(KindMismatch(wanted.value, if found.None? then None else Some(found.value.kind)))
      else
        Success(found)
  }

  /**
    `route` is what each name of `path` denotes: every name is present in its layer and
    every step before the last is a node (the last step may be a hyperedge).
  */
  ghost predicate IsRoute(layer: map<string, Entity>, path: seq<string>, route: seq<Entity>)
    reads *
    decreases |path|
  {
    && |route| == |path|
    && (path != [] ==>
          && path[0] in layer
          && layer[path[0]] == route[0]
          && (|path| > 1 ==> route[0].kind == Node && IsRoute(route[0].internal, path[1..], route[1..])))
  }

  /** When every step is found and no intermediate step is a hyperedge, both modes return the object the last name denotes. */
  lemma {:induction false} RouteResolves(layer: map<string, Entity>, path: seq<string>, route: seq<Entity>,
                                         retrieved: Option<Entity>, strict: bool)
    requires path != [] && IsRoute(layer, path, route)
    ensures Walk(layer, path, retrieved, strict) == Success(Some(route[|route| - 1]))
    decreases |path|
  {
    if |path| > 1 {
      RouteResolves(route[0].internal, path[1..], route[1..], Some(route[0]), strict);
    }
  }

  /** A successful strict lookup of a non-empty path has a route, and returns its last object. */
  lemma {:induction false} StrictSuccessHasRoute(layer: map<string, Entity>, path: seq<string>,
                                                 retrieved: Option<Entity>)
    returns (route: seq<Entity>)
    requires path != [] && Walk(layer, path, retrieved, true).Success?
    ensures IsRoute(layer, path, route)
    ensures Walk(layer, path, retrieved, true) == Success(Some(route[|route| - 1]))
    decreases |path|
  {
    var found := layer[path[0]];
    if |path| == 1 {
      route := [found];
    } else {
      var rest := StrictSuccessHasRoute(found.internal, path[1..], Some(found));
      route := [found] + rest;
      assert route[1..] == rest;
    }
  }

  /** The layer in which step `k` of a route-prefix looks its name up. */
  ghost function LayerAt(layer: map<string, Entity>, route: seq<Entity>, k: nat): map<string, Entity>
    requires k <= |route|
    reads *
  {
    if k == 0 then layer else route[k - 1].internal
  }

  /** Strict mode: a name missing from the layer reached by the steps before it is an unknown-identifier error. */
  lemma {:induction false} StrictMissingFails(layer: map<string, Entity>, path: seq<string>, route: seq<Entity>,
                                              k: nat, retrieved: Option<Entity>)
    requires k < |path| && IsRoute(layer, path[..k], route)
    requires k > 0 ==> route[k - 1].kind == Node
    requires path[k] !in LayerAt(layer, route, k)
    ensures Walk(layer, path, retrieved, true) == Failure(UnknownIdentifier(path[k]))
    decreases k
  {
    if k > 0 {
      assert path[..k][0] == path[0];
      assert path[1..][..k - 1] == path[..k][1..];
      if k > 1 {
        assert route[1..][k - 2] == route[k - 1];
      }
      StrictMissingFails(route[0].internal, path[1..], route[1..], k - 1, Some(route[0]));
    }
  }

  /** In either mode, reaching a hyperedge before the last step is an invalid-descent error. */
  lemma {:induction false} HyperedgeDescentFails(layer: map<string, Entity>, path: seq<string>, route: seq<Entity>,
                                                 k: nat, retrieved: Option<Entity>, strict: bool)
    requires k + 1 < |path| && IsRoute(layer, path[..k + 1], route)
    requires route[k].kind == Hyperedge
    ensures Walk(layer, path, retrieved, strict) == Failure(InvalidDescent(path[k]))
    decreases k
  {
    assert path[..k + 1][0] == path[0];
    if k > 0 {
      assert path[1..][..k] == path[..k + 1][1..];
      HyperedgeDescentFails(route[0].internal, path[1..], route[1..], k - 1, Some(route[0]), strict);
    }
  }

  /** Tolerant mode never reports an unknown identifier: a missing name raises nothing at its step. */
  lemma {:induction false} TolerantNeverUnknown(layer: map<string, Entity>, path: seq<string>, retrieved: Option<Entity>)
    ensures var r := Walk(layer, path, retrieved, false); r.Failure? ==> r.error.InvalidDescent?
    decreases |path|
  {
    if path != [] {
      if path[0] in layer {
        var found := layer[path[0]];
        if |path| > 1 && found.kind == Node {
          TolerantNeverUnknown(found.internal, path[1..], Some(found));
        }
      } else {
        TolerantNeverUnknown(layer, path[1..], retrieved);
      }
    }
  }

  /** Whenever the strict lookup succeeds, the tolerant one returns the same object. */
  lemma {:induction false} TolerantAgreesWithStrict(layer: map<string, Entity>, path: seq<string>, retrieved: Option<Entity>)
    requires Walk(layer, path, retrieved, true).Success?
    ensures Walk(layer, path, retrieved, false) == Walk(layer, path, retrieved, true)
    decreases |path|
  {
    if path != [] && |path| > 1 {
      var found := layer[path[0]];
      TolerantAgreesWithStrict(found.internal, path[1..], Some(found));
    }
  }

  /** Tolerant mode with no name of the path in the layer returns what was found before the walk (None for a fresh lookup). */
  lemma {:induction false} TolerantAllMissing(layer: map<string, Entity>, path: seq<string>, retrieved: Option<Entity>)
    requires forall i :: 0 <= i < |path| ==> path[i] !in layer
    ensures Walk(layer, path, retrieved, false) == Success(retrieved)
    decreases |path|
  {
    if path != [] {
      assert path[0] !in layer;
      TolerantAllMissing(layer, path[1..], retrieved);
    }
  }

  /**
    The lookup loop shared by `__get__`, `get_inside_node` and `get_object_in_node`: it
    walks `path` from `start`, updating the current layer and the object found, and
    then checks the kind found against `wanted`. It reads the entities and changes nothing.
  */
  method Lookup(start: map<string, Entity>, path: seq<string>, strict: bool, wanted: Option<Kind>)
    returns (r: Result<Option<Entity>, Error>)
    ensures r == Resolve(start, path, strict, wanted)
  {
    var retrieved: Option<Entity> := None;
    var layer := start;
    var depth := |path|;
    var i := 0;
    while i < depth
      invariant 0 <= i <= depth
      invariant Walk(start, path, None, strict) == Walk(layer, path[i..], retrieved, strict)
    {
      var name := path[i];
      assert path[i..][0] == name && path[i..][1..] == path[i + 1..];
      if name in layer {
        var found := layer[name];
        retrieved := Some(found);
        if i < depth - 1 && found.kind == Hyperedge {
          return Failure(InvalidDescent(name));
        } else if i < depth - 1 {
          layer := found.internal;
        } else {
          assert path[i + 1..] == [];
        }
      } else if strict {
        return Failure(UnknownIdentifier(name));
      }
      i := i + 1;
    }
    if wanted.Some? && (retrieved.None? || retrieved.value.kind != wanted.value) {
      r := Failure(KindMismatch(wanted.value, if retrieved.None? then None else Some(retrieved.value.kind)));
    } else {
      r := Success(retrieved);
    }
  }

  /**
    The walk as the three revisions of `__get__` write it: a name found in the layer is
    then fetched with the whole path `whole` as the key, which no name index holds, so the
    first name found raises a key error; missing names before it are skipped or reported
    as in `Walk`.
  */
  function WalkAsWritten(layer: map<string, Entity>, path: seq<string>, whole: seq<string>,
                         strict: bool): Result<Option<Entity>, Error>
    decreases |path|
  {
    if path == [] then Success(None)
    else if path[0] in layer then Failure(MissingKey(whole))
    else if strict then Failure(UnknownIdentifier(path[0]))
    else WalkAsWritten(layer, path[1..], whole, strict)
  }

  /**
    As written, the lookup never retrieves anything: it succeeds, with nothing found,
    exactly when no name of the path is in the starting layer (and, when strict, the path
    is empty); otherwise it fails.
  */
  lemma {:induction false} AsWrittenNeverRetrieves(layer: map<string, Entity>, path: seq<string>,
                                                   whole: seq<string>, strict: bool)
    ensures var r := WalkAsWritten(layer, path, whole, strict);
      && (r.Success? ==> r.value.None?)
      && (r.Success? <==> (forall i :: 0 <= i < |path| ==> path[i] !in layer) && (strict ==> path == []))
    decreases |path|
  {
    if path != [] && path[0] !in layer && !strict {
      AsWrittenNeverRetrieves(layer, path[1..], whole, strict);
      assert forall i :: 0 < i < |path| ==> path[1..][i - 1] == path[i];
    }
  }

  /**
    The input that shows the defect: a one-name path whose name is indexed. The corrected
    walk returns the indexed entity in either mode; as written the lookup raises a key error.
  */
  lemma TupleKeyDefect(layer: map<string, Entity>, name: string, strict: bool)
    requires name in layer
    ensures WalkAsWritten(layer, [name], [name], strict) == Failure(MissingKey([name]))
    ensures Walk(layer, [name], None, strict) == Success(Some(layer[name]))
  {
    RouteResolves(layer, [name], [layer[name]], None, strict);
  }
}
