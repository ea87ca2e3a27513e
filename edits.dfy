/**
  What the edit API records: the normal form of a parameter redefinition, the effect of
  a batch of redefinitions, and the effect of deleting constraints or objectives by name.
*/
module Edits {
  import opened Wrappers
  import opened Entities

  /** The vector `[Expression('literal', v) for v in values]`. */
  function Literals(values: seq<Value>): seq<Expression>
  {
    seq(|values|, i requires 0 <= i < |values| => Literal(values[i]))
  }

  /**
    The change a single value is normalised into, tested in the source's order: a string
    names a file, an int or float (a bool is an int) is a scalar literal, a list is a
    vector of literals, and anything else is refused.
  */
  function Redefinition(name: string, value: Value): (r: Result<ParameterChange, Error>)
    ensures r.Success? ==> r.value.name == name
    ensures r.Success? && r.value.FileChange? <==> value.Str?
    ensures r.Success? && r.value.ScalarChange? <==> value.Int? || value.Float? || value.Bool?
    ensures r.Success? && r.value.VectorChange? <==> value.List?
    ensures r.Failure? <==> value.Other?
    ensures value.Str? ==> r.value.filename == value.s
    ensures r.Success? && r.value.ScalarChange? ==> r.value.expr == Literal(value)
    ensures value.List? ==> |r.value.vector| == |value.items|
                            && forall i :: 0 <= i < |value.items| ==> r.value.vector[i] == Literal(value.items[i])
  {
    match value
    case Str(filename) => Success(FileChange(name, filename))
    case Int(_) => Success(ScalarChange(name, Literal(value)))
    case Float(_) => Success(ScalarChange(name, Literal(value)))
    case Bool(_) => Success(ScalarChange(name, Literal(value)))
    case List(items) => Success(VectorChange(name, Literals(items)))
    case Other(typeName) => Failure(UnacceptedType(typeName))
  }

  /** The changes a batch appended before it stopped, and how it ended. */
  datatype Batch = Batch(applied: seq<ParameterChange>, outcome: Outcome)

  /**
    A batch of (name, value) redefinitions applied one at a time: each accepted value
    appends its change, and the first refused value aborts the batch with the changes
    before it left in place.
  */
  function RedefineAll(pairs: seq<(string, Value)>): (b: Batch)
    ensures |b.applied| <= |pairs|
    ensures b.outcome.Pass? <==> |b.applied| == |pairs|
    decreases |pairs|
  {
    if pairs == [] then Batch([], Pass)
    else
      match Redefinition(pairs[0].0, pairs[0].1)
      case Failure(e) => Batch([], Fail(e))
      case Success(change) =>
        var rest := RedefineAll(pairs[1..]);
        Batch([change] + rest.applied, rest.outcome)
  }

  /**
    The batch appends exactly one change per accepted pair, in input order, and fails at
    the first refused value with that value's error; it passes exactly when every value
    is acceptable.
  */
  lemma {:induction false} RedefineAllShape(pairs: seq<(string, Value)>)
    ensures var b := RedefineAll(pairs);
      && (forall i :: 0 <= i < |b.applied| ==> Redefinition(pairs[i].0, pairs[i].1) == Success(b.applied[i]))
      && (b.outcome.Fail? ==> Redefinition(pairs[|b.applied|].0, pairs[|b.applied|].1) == Failure(b.outcome.error))
      && (b.outcome.Pass? <==> forall i :: 0 <= i < |pairs| ==> !pairs[i].1.Other?)
    decreases |pairs|
  {
    if pairs != [] {
      RedefineAllShape(pairs[1..]);
      var b := RedefineAll(pairs);
      var rest := RedefineAll(pairs[1..]);
      if !pairs[0].1.Other? {
        assert b.applied == [Redefinition(pairs[0].0, pairs[0].1).value] + rest.applied;
        forall i | 0 <= i < |b.applied|
          ensures Redefinition(pairs[i].0, pairs[i].1) == Success(b.applied[i])
        {
          if i > 0 {
            assert pairs[1..][i - 1] == pairs[i];
          }
        }
        if b.outcome.Pass? {
          forall i | 0 <= i < |pairs| ensures !pairs[i].1.Other? {
            if i > 0 {
              assert pairs[1..][i - 1] == pairs[i];
            }
          }
        } else {
          assert pairs[1..][|rest.applied|] == pairs[|b.applied|];
          var k :| 0 <= k < |pairs[1..]| && pairs[1..][k].1.Other?;
          assert pairs[k + 1].1.Other?;
        }
      }
    }
  }

  /** `list(zip(names, values))`: the pairs the list form of the batch walks through. */
  function Zip(names: seq<string>, values: seq<Value>): (pairs: seq<(string, Value)>)
    requires |names| == |values|
    ensures |pairs| == |names|
    ensures forall i :: 0 <= i < |pairs| ==> pairs[i] == (names[i], values[i])
  {
    seq(|names|, i requires 0 <= i < |names| => (names[i], values[i]))
  }

  /** The position of the first occurrence of `x` in `s`. */
  function FirstIndex(s: seq<string>, x: string): (k: nat)
    requires x in s
    ensures k < |s| && s[k] == x && x !in s[..k]
  {
    if s[0] == x then 0
    else
      var k := FirstIndex(s[1..], x);
      assert s[..k + 1] == [s[0]] + s[1..][..k];
      k + 1
  }

  /**
    `list.remove(x)`: the list without the first occurrence of `x`, the other elements
    kept in their order.
  */
  function RemoveFirst(s: seq<string>, x: string): (r: seq<string>)
    requires x in s
    ensures |r| == |s| - 1
    ensures multiset(r) == multiset(s) - multiset{x}
  {
    if s[0] == x then
      assert s == [s[0]] + s[1..];
      s[1..]
    else
      assert s == [s[0]] + s[1..];
      [s[0]] + RemoveFirst(s[1..], x)
  }

  /** `list.remove` drops the first occurrence: the elements before and after it stay in order. */
  lemma {:induction false} RemoveFirstDropsFirst(s: seq<string>, x: string)
    requires x in s
    ensures var k := FirstIndex(s, x); RemoveFirst(s, x) == s[..k] + s[k + 1..]
    decreases |s|
  {
    if s[0] != x {
      RemoveFirstDropsFirst(s[1..], x);
      SpliceUnderHead(s, FirstIndex(s[1..], x));
    }
  }

  /** Cutting position `k` out of the tail is cutting position `k + 1` out of the whole. */
  lemma SpliceUnderHead(s: seq<string>, k: nat)
    requires k + 1 < |s|
    ensures [s[0]] + (s[1..][..k] + s[1..][k + 1..]) == s[..k + 1] + s[k + 2..]
  {
    assert s[..k + 1] == [s[0]] + s[1..][..k];
    assert s[k + 2..] == s[1..][k + 1..];
  }

  /** What a deletion leaves: the collection after removal, and the requested names never matched. */
  datatype Deletion = Deletion(kept: seq<Named>, unmatched: seq<string>)

  /**
    Deletion by name over a snapshot of the collection: an element whose name is still
    pending is removed and strikes one occurrence of that name from the pending list;
    any other element is kept.
  */
  function Strike(items: seq<Named>, pending: seq<string>): (d: Deletion)
    ensures |d.kept| <= |items| && |d.unmatched| <= |pending|
    ensures |items| - |d.kept| == |pending| - |d.unmatched|
    decreases |items|
  {
    if items == [] then Deletion([], pending)
    else if items[0].name in pending then Strike(items[1..], RemoveFirst(pending, items[0].name))
    else
      var rest := Strike(items[1..], pending);
      Deletion([items[0]] + rest.kept, rest.unmatched)
  }

  /**
    The deletion walk resumed part-way, in the order the loop performs it: `kept` holds
    what survived so far, `rest` is still to be walked, `pending` still to be matched.
  */
  function Resume(kept: seq<Named>, rest: seq<Named>, pending: seq<string>): Deletion
    decreases |rest|
  {
    if rest == [] then Deletion(kept, pending)
    else if rest[0].name in pending then Resume(kept, rest[1..], RemoveFirst(pending, rest[0].name))
    else Resume(kept + [rest[0]], rest[1..], pending)
  }

  /** Resuming after `kept` is striking the rest and putting `kept` in front of what survives. */
  lemma {:induction false} ResumeStrikes(kept: seq<Named>, rest: seq<Named>, pending: seq<string>)
    ensures Resume(kept, rest, pending) == Deletion(kept + Strike(rest, pending).kept, Strike(rest, pending).unmatched)
    decreases |rest|
  {
    if rest != [] {
      if rest[0].name in pending {
        ResumeStrikes(kept, rest[1..], RemoveFirst(pending, rest[0].name));
      } else {
        ResumeStrikes(kept + [rest[0]], rest[1..], pending);
        assert kept + ([rest[0]] + Strike(rest[1..], pending).kept) == (kept + [rest[0]]) + Strike(rest[1..], pending).kept;
      }
    } else {
      assert kept + [] == kept;
    }
  }

  /**
    One removing step of the deletion loop over `items`, seen from the collection being
    edited in place: dropping position `|kept|` of `kept + items[i..]` leaves
    `kept + items[i + 1..]`, and the walk resumes after striking the name.
  */
  lemma RemovingStep(current: seq<Named>, items: seq<Named>, i: nat, kept: seq<Named>, pending: seq<string>)
    requires i < |items| && current == kept + items[i..] && items[i].name in pending
    ensures current[..|kept|] + current[|kept| + 1..] == kept + items[i + 1..]
    ensures Resume(kept, items[i..], pending) == Resume(kept, items[i + 1..], RemoveFirst(pending, items[i].name))
  {
    assert current[..|kept|] == kept;
    assert current[|kept| + 1..] == items[i + 1..];
    assert items[i..][0] == items[i] && items[i..][1..] == items[i + 1..];
  }

  /** One keeping step of the deletion loop: the element moves to the kept part. */
  lemma KeepingStep(current: seq<Named>, items: seq<Named>, i: nat, kept: seq<Named>, pending: seq<string>)
    requires i < |items| && current == kept + items[i..] && items[i].name !in pending
    ensures current == (kept + [items[i]]) + items[i + 1..]
    ensures Resume(kept, items[i..], pending) == Resume(kept + [items[i]], items[i + 1..], pending)
  {
    assert items[i..] == [items[i]] + items[i + 1..];
  }

  /** When the loop has walked all of `items`, what it kept and left pending is the deletion. */
  lemma WalkDone(items: seq<Named>, toDelete: seq<string>, kept: seq<Named>, pending: seq<string>)
    requires Resume([], items, toDelete) == Resume(kept, items[|items|..], pending)
    ensures Strike(items, toDelete) == Deletion(kept, pending)
  {
    assert items[|items|..] == [];
    ResumeStrikes([], items, toDelete);
  }

  /** How many elements of `items` carry the name `n`. */
  function NamedCount(items: seq<Named>, n: string): nat
    decreases |items|
  {
    if items == [] then 0 else (if items[0].name == n then 1 else 0) + NamedCount(items[1..], n)
  }

  /**
    Per name, a deletion removes as many elements as the smaller of how many carry that
    name and how many times it was requested; the rest of the requests stay unmatched. So
    each requested occurrence removes at most one element, a name requested twice removes
    two, an unrequested element survives, and an unmatched name has no element left.
  */
  lemma {:induction false} StrikeCounts(items: seq<Named>, pending: seq<string>, n: string)
    ensures var d := Strike(items, pending);
      var removed := Min(NamedCount(items, n), multiset(pending)[n]);
      && NamedCount(d.kept, n) == NamedCount(items, n) - removed
      && multiset(d.unmatched)[n] == multiset(pending)[n] - removed
      && (n in d.unmatched ==> NamedCount(d.kept, n) == 0)
    decreases |items|
  {
    if items != [] {
      var m := items[0].name;
      if m in pending {
        StrikeCounts(items[1..], RemoveFirst(pending, m), n);
      } else {
        StrikeCounts(items[1..], pending, n);
        var rest := Strike(items[1..], pending);
        assert ([items[0]] + rest.kept)[1..] == rest.kept;
      }
    }
  }

  /** The elements of `items` named `n`, in order. */
  function WithName(items: seq<Named>, n: string): (r: seq<Named>)
    ensures |r| == NamedCount(items, n)
    decreases |items|
  {
    if items == [] then []
    else (if items[0].name == n then [items[0]] else []) + WithName(items[1..], n)
  }

  /**
    Among elements sharing a requested name, the deletion removes the earliest ones: what
    survives with name `n` is the occurrences of `n` after the first `removed`, where
    `removed` is the smaller of how many carry `n` and how many times it was requested.
  */
  lemma {:induction false} StrikeRemovesEarliest(items: seq<Named>, pending: seq<string>, n: string)
    ensures var all := WithName(items, n);
      WithName(Strike(items, pending).kept, n) == all[Min(|all|, multiset(pending)[n])..]
    decreases |items|
  {
    if items != [] {
      var x := items[0];
      var tail := WithName(items[1..], n);
      var all := WithName(items, n);
      assert all == (if x.name == n then [x] else []) + tail;
      if x.name in pending {
        var pending' := RemoveFirst(pending, x.name);
        assert Strike(items, pending) == Strike(items[1..], pending');
        StrikeRemovesEarliest(items[1..], pending', n);
        if x.name == n {
          assert multiset(pending)[n] == multiset(pending')[n] + 1;
          DropOneMore(x, tail, multiset(pending')[n]);
        } else {
          assert multiset(pending')[n] == multiset(pending)[n];
          assert all == tail;
        }
      } else {
        var rest := Strike(items[1..], pending).kept;
        assert Strike(items, pending).kept == [x] + rest;
        StrikeRemovesEarliest(items[1..], pending, n);
        WithNameCons(x, rest, n);
        if x.name == n {
          assert multiset(pending)[n] == 0;
          assert all[0..] == all;
        } else {
          assert all == tail;
        }
      }
    }
  }

  /** Skipping one more leading element past a head is skipping within the tail. */
  lemma DropOneMore(x: Named, tail: seq<Named>, c: nat)
    ensures ([x] + tail)[Min(|tail| + 1, c + 1)..] == tail[Min(|tail|, c)..]
  {
  }

  /** `WithName` of a sequence with a known head. */
  lemma WithNameCons(x: Named, s: seq<Named>, n: string)
    ensures WithName([x] + s, n) == (if x.name == n then [x] else []) + WithName(s, n)
  {
    assert ([x] + s)[0] == x && ([x] + s)[1..] == s;
  }

  function Min(a: int, b: int): int
  {
    if a <= b then a else b
  }

  /** `a` is `b` with some elements left out and the rest in their original order. */
  predicate IsSubsequence(a: seq<Named>, b: seq<Named>)
    decreases |b|
  {
    if a == [] then true
    else if b == [] then false
    else if a[0] == b[0] then IsSubsequence(a[1..], b[1..])
    else IsSubsequence(a, b[1..])
  }

  /** Deletion only removes: what is kept stays in its original order. */
  lemma {:induction false} StrikeKeepsOrder(items: seq<Named>, pending: seq<string>)
    ensures IsSubsequence(Strike(items, pending).kept, items)
    decreases |items|
  {
    if items != [] {
      var m := items[0].name;
      if m in pending {
        var rest := Strike(items[1..], RemoveFirst(pending, m));
        StrikeKeepsOrder(items[1..], RemoveFirst(pending, m));
        SubsequenceOfTail(rest.kept, items);
      } else {
        var rest := Strike(items[1..], pending);
        StrikeKeepsOrder(items[1..], pending);
        assert ([items[0]] + rest.kept)[1..] == rest.kept;
      }
    }
  }

  /** A subsequence of a tail is a subsequence of the whole. */
  lemma {:induction false} SubsequenceOfTail(a: seq<Named>, b: seq<Named>)
    requires b != [] && IsSubsequence(a, b[1..])
    ensures IsSubsequence(a, b)
    decreases |b|
  {
    if a != [] && a[0] == b[0] && a[1..] != [] {
      SubsequenceDropHead(a, b[1..]);
      SubsequenceOfTail(a[1..], b[1..]);
    }
  }

  /** Dropping the head of a subsequence keeps it a subsequence. */
  lemma {:induction false} SubsequenceDropHead(a: seq<Named>, b: seq<Named>)
    requires a != [] && IsSubsequence(a, b)
    ensures IsSubsequence(a[1..], b[1..])
    decreases |b|
  {
    if a[0] != b[0] {
      if a[1..] != [] {
        SubsequenceDropHead(a, b[1..]);
        SubsequenceOfTail(a[1..], b[1..]);
      }
    }
  }
}
