/**
 * Named-entity post-processing of the NKJP corpus converter: entities whose
 * targets name other entities are resolved down to morphological segment
 * ids, overlapping entities are dropped, the `morph_` prefix is stripped,
 * the surviving entities label their tokens with B-/I- tags, and the
 * converted paragraphs are cut into train, dev and test parts.
 *
 * Python dictionaries are maps here; where the code depends on their
 * iteration order, that order is an explicit sequence of keys.
 */
module Nkjp {
  import opened Wrappers
  import opened Sequences
  import opened Sorting
  import opened Strings

  /** An entity read from `ann_named.xml`: its id, position in the sentence, text, type, subtype and targets. */
  datatype Entity = Entity(
    entId: string, index: nat, orth: string,
    nerType: string, nerSubtype: Option<string>, targets: seq<string>)

  /** `entities[target]` with no such key (KeyError), or a reference chain deeper than the recursion limit. */
  datatype ResolveError = Missing(id: string) | RecursionLimit

  const NamedPrefix := "named_"

  /** `target.startswith("named_")`: the target is another entity, not a segment. */
  predicate IsNamed(t: string) {
    |t| >= |NamedPrefix| && t[..|NamedPrefix|] == NamedPrefix
  }

  // ---------------------------------------------------------------------
  // resolve_entity

  /**
   * The targets `resolve_entity` produces for an entity with `targets`:
   * every `named_` target replaced by the resolution of the entity it names,
   * every other target kept, in order. `fuel` is the remaining recursion
   * depth; Python raises RecursionError once it is exhausted.
   */
  function Resolve(targets: seq<string>, es: map<string, Entity>, fuel: nat): Result<seq<string>, ResolveError>
    decreases fuel, |targets|
  {
    if targets == [] then Ok([])
    else
      match Resolve(targets[..|targets| - 1], es, fuel)
      case Err(e) => Err(e)
      case Ok(done) =>
        var t := targets[|targets| - 1];
        if !IsNamed(t) then Ok(done + [t])
        else if t !in es then Err(Missing(t))
        else if fuel == 0 then Err(RecursionLimit)
        else
          match Resolve(es[t].targets, es, fuel - 1)
          case Err(e) => Err(e)
          case Ok(sub) => Ok(done + sub)
  }

  /** `resolve_entity(entity, entities)`: a loop over the targets that recurses into named entities. */
  method ResolveEntity(e: Entity, es: map<string, Entity>, fuel: nat) returns (r: Result<seq<string>, ResolveError>)
    ensures r == Resolve(e.targets, es, fuel)
    decreases fuel
  {
    var targets := e.targets;
    var resolved: seq<string> := [];
    var i := 0;
    while i < |targets|
      invariant 0 <= i <= |targets|
      invariant Resolve(targets[..i], es, fuel) == Ok(resolved)
    {
      var t := targets[i];
      assert targets[..i + 1][..i] == targets[..i];
      if IsNamed(t) {
        if t !in es || fuel == 0 {
          PrefixFailure(targets, i + 1, es, fuel);
          return if t !in es then Err(Missing(t)) else Err(RecursionLimit);
        }
        var sub := ResolveEntity(es[t], es, fuel - 1);
        if sub.Err? {
          PrefixFailure(targets, i + 1, es, fuel);
          return sub;
        }
        resolved := resolved + sub.value;
      } else {
        resolved := resolved + [t];
      }
      i := i + 1;
    }
    assert targets[..i] == targets;
    r := Ok(resolved);
  }

  /** A failure in a prefix of the targets is the failure of the whole. */
  lemma {:induction false} PrefixFailure(targets: seq<string>, k: nat, es: map<string, Entity>, fuel: nat)
    requires k <= |targets| && Resolve(targets[..k], es, fuel).Err?
    ensures Resolve(targets, es, fuel) == Resolve(targets[..k], es, fuel)
    decreases |targets| - k
  {
    if k < |targets| {
      var p := targets[..k + 1];
      assert p[..k] == targets[..k];
      PrefixFailure(targets, k + 1, es, fuel);
    } else {
      assert targets[..k] == targets;
    }
  }

  /** A resolved list holds no `named_` target. */
  lemma {:induction false} ResolvedHasNoNamed(targets: seq<string>, es: map<string, Entity>, fuel: nat)
    requires Resolve(targets, es, fuel).Ok?
    ensures forall t :: t in Resolve(targets, es, fuel).value ==> !IsNamed(t)
    decreases fuel, |targets|
  {
    if targets != [] {
      var t := targets[|targets| - 1];
      ResolvedHasNoNamed(targets[..|targets| - 1], es, fuel);
      if IsNamed(t) {
        ResolvedHasNoNamed(es[t].targets, es, fuel - 1);
      }
    }
  }

  /** An entity without `named_` targets resolves to its own targets. */
  lemma {:induction false} ResolveWithoutNamed(targets: seq<string>, es: map<string, Entity>, fuel: nat)
    requires forall t :: t in targets ==> !IsNamed(t)
    ensures Resolve(targets, es, fuel) == Ok(targets)
    decreases |targets|
  {
    if targets != [] {
      var init := targets[..|targets| - 1];
      assert forall t :: t in init ==> t in targets;
      ResolveWithoutNamed(init, es, fuel);
      assert init + [targets[|targets| - 1]] == targets;
    }
  }

  /**
   * Resolution is compositional: the resolution of `a + b` is that of `a`
   * followed by that of `b`, and a failure in `a` comes first.
   */
  lemma {:induction false} ResolveAppend(a: seq<string>, b: seq<string>, es: map<string, Entity>, fuel: nat)
    ensures Resolve(a + b, es, fuel) ==
      match Resolve(a, es, fuel)
      case Err(e) => Err(e)
      case Ok(ra) =>
        match Resolve(b, es, fuel)
        case Err(e) => Err(e)
        case Ok(rb) => Ok(ra + rb)
    decreases |b|
  {
    if b == [] {
      assert a + b == a;
      if Resolve(a, es, fuel).Ok? {
        assert Resolve(a, es, fuel).value + [] == Resolve(a, es, fuel).value;
      }
    } else {
      var b' := b[..|b| - 1];
      assert (a + b)[..|a + b| - 1] == a + b';
      assert (a + b)[|a + b| - 1] == b[|b| - 1];
      ResolveAppend(a, b', es, fuel);
      match Resolve(a, es, fuel)
      case Err(_) =>
      case Ok(ra) =>
        match Resolve(b', es, fuel)
        case Err(_) =>
        case Ok(rb') =>
          assert ra + rb' + [b[|b| - 1]] == ra + (rb' + [b[|b| - 1]]);
          var t := b[|b| - 1];
          if IsNamed(t) && t in es && fuel > 0 && Resolve(es[t].targets, es, fuel - 1).Ok? {
            var sub := Resolve(es[t].targets, es, fuel - 1).value;
            assert ra + rb' + sub == ra + (rb' + sub);
          }
    }
  }

  /** A single target resolves to itself, or to the resolution of the entity it names. */
  lemma {:induction false} ResolveOne(t: string, es: map<string, Entity>, fuel: nat)
    ensures Resolve([t], es, fuel) ==
      if !IsNamed(t) then Ok([t])
      else if t !in es then Err(Missing(t))
      else if fuel == 0 then Err(RecursionLimit)
      else Resolve(es[t].targets, es, fuel - 1)
  {
    assert [t][..0] == [];
    assert [] + [t] == [t];
    if IsNamed(t) && t in es && fuel > 0 {
      match Resolve(es[t].targets, es, fuel - 1)
      case Err(_) =>
      case Ok(sub) => assert [] + sub == sub;
    }
  }

  /**
   * References are acyclic when every entity has a rank above the ranks of
   * the entities it names; all names that occur are then keys of `es`.
   */
  ghost predicate Ranked(es: map<string, Entity>, rank: map<string, nat>) {
    && rank.Keys == es.Keys
    && forall id, t :: id in es && t in es[id].targets && IsNamed(t) ==> t in es && rank[t] < rank[id]
  }

  /** With acyclic references and enough depth, resolution succeeds. */
  lemma {:induction false} ResolveRankedSucceeds(targets: seq<string>, es: map<string, Entity>, rank: map<string, nat>, fuel: nat)
    requires Ranked(es, rank)
    requires forall t :: t in targets && IsNamed(t) ==> t in es && rank[t] < fuel
    ensures Resolve(targets, es, fuel).Ok?
    decreases fuel, |targets|
  {
    if targets != [] {
      var init := targets[..|targets| - 1];
      assert forall t :: t in init ==> t in targets;
      ResolveRankedSucceeds(init, es, rank, fuel);
      var t := targets[|targets| - 1];
      if IsNamed(t) {
        ResolveRankedSucceeds(es[t].targets, es, rank, fuel - 1);
      }
    }
  }

  /** An entity that names itself makes resolution fail at any depth (RecursionError in the source). */
  lemma {:induction false} ResolveSelfReferenceFails(id: string, es: map<string, Entity>, fuel: nat)
    requires id in es && IsNamed(id) && id in es[id].targets
    ensures Resolve(es[id].targets, es, fuel).Err?
    decreases fuel
  {
    var ts := es[id].targets;
    var k :| 0 <= k < |ts| && ts[k] == id;
    var p := ts[..k + 1];
    assert p[..k] == ts[..k] && p[k] == id;
    if fuel > 0 {
      ResolveSelfReferenceFails(id, es, fuel - 1);
    }
    PrefixFailure(ts, k + 1, es, fuel);
  }

  // ---------------------------------------------------------------------
  // resolve_entities

  /** `order` lists every key of `m` exactly once: the iteration order of a dictionary. */
  ghost predicate IsKeyOrder<V>(order: seq<string>, m: map<string, V>) {
    && (forall i, j :: 0 <= i < j < |order| ==> order[i] != order[j])
    && (forall k :: k in m <==> k in order)
  }

  /** The error of the first entity, in iteration order, whose resolution fails. */
  function FirstFailure(order: seq<string>, es: map<string, Entity>, fuel: nat): Option<ResolveError>
    requires forall k :: k in order ==> k in es
  {
    if order == [] then None
    else match Resolve(es[order[0]].targets, es, fuel)
      case Err(e) => Some(e)
      case Ok(_) => FirstFailure(order[1..], es, fuel)
  }

  /** No failure means every entity resolves; a failure is the error of the first entity that fails. */
  lemma FirstFailureMeaning(order: seq<string>, es: map<string, Entity>, fuel: nat)
    requires forall k :: k in order ==> k in es
    ensures var r := FirstFailure(order, es, fuel);
      && (r.None? <==> forall i :: 0 <= i < |order| ==> Resolve(es[order[i]].targets, es, fuel).Ok?)
      && (r.Some? ==> exists i :: (0 <= i < |order| && Resolve(es[order[i]].targets, es, fuel) == Err(r.value)
          && forall j :: 0 <= j < i ==> Resolve(es[order[j]].targets, es, fuel).Ok?))
  {
    FirstFailureNone(order, es, fuel);
    if FirstFailure(order, es, fuel).Some? {
      var i := FirstFailureAt(order, es, fuel);
    }
  }

  lemma {:induction false} FirstFailureNone(order: seq<string>, es: map<string, Entity>, fuel: nat)
    requires forall k :: k in order ==> k in es
    ensures FirstFailure(order, es, fuel).None? <==> forall i :: 0 <= i < |order| ==> Resolve(es[order[i]].targets, es, fuel).Ok?
  {
    if order != [] {
      var tail := order[1..];
      FirstFailureNone(tail, es, fuel);
      assert forall i :: 1 <= i < |order| ==> order[i] == tail[i - 1];
    }
  }

  lemma {:induction false} FirstFailureAt(order: seq<string>, es: map<string, Entity>, fuel: nat) returns (i: nat)
    requires forall k :: k in order ==> k in es
    requires FirstFailure(order, es, fuel).Some?
    ensures i < |order| && Resolve(es[order[i]].targets, es, fuel) == Err(FirstFailure(order, es, fuel).value)
    ensures forall j :: 0 <= j < i ==> Resolve(es[order[j]].targets, es, fuel).Ok?
  {
    if Resolve(es[order[0]].targets, es, fuel).Err? {
      i := 0;
    } else {
      var tail := order[1..];
      var k := FirstFailureAt(tail, es, fuel);
      i := k + 1;
      assert order[i] == tail[k];
      assert forall j :: 1 <= j < i ==> order[j] == tail[j - 1];
    }
  }

  lemma {:induction false} FirstFailureStep(order: seq<string>, i: nat, es: map<string, Entity>, fuel: nat)
    requires i < |order| && forall k :: k in order ==> k in es
    ensures FirstFailure(order[i..], es, fuel) ==
      match Resolve(es[order[i]].targets, es, fuel)
      case Err(e) => Some(e)
      case Ok(_) => FirstFailure(order[i + 1..], es, fuel)
  {
    assert order[i..][0] == order[i] && order[i..][1..] == order[i + 1..];
  }

  /** Every entity with its targets replaced by their resolution against `es`. */
  function ResolvedEntities(es: map<string, Entity>, fuel: nat): (r: map<string, Entity>)
    requires forall id :: id in es ==> Resolve(es[id].targets, es, fuel).Ok?
    ensures r.Keys == es.Keys
    ensures forall id :: id in es ==> r[id].targets == Resolve(es[id].targets, es, fuel).value
    ensures forall id :: id in es ==> r[id].(targets := es[id].targets) == es[id]
  {
    map id | id in es :: es[id].(targets := Resolve(es[id].targets, es, fuel).value)
  }

  /** What `resolve_entities` leaves in the dictionary, or the error it raises. */
  function ResolveAll(es: map<string, Entity>, order: seq<string>, fuel: nat): Result<map<string, Entity>, ResolveError>
    requires IsKeyOrder(order, es)
  {
    match FirstFailure(order, es, fuel)
    case Some(e) => Err(e)
    case None =>
      FirstFailureMeaning(order, es, fuel);
      Ok(ResolvedEntities(es, fuel))
  }

  /**
   * The comprehension `{entity_id: resolve_entity(entity, entities) ...}`:
   * every resolution, computed against the unchanged entities.
   */
  method ResolveEach(es: map<string, Entity>, order: seq<string>, fuel: nat)
      returns (r: Result<map<string, seq<string>>, ResolveError>)
    requires IsKeyOrder(order, es)
    ensures r.Err? <==> FirstFailure(order, es, fuel).Some?
    ensures r.Err? ==> FirstFailure(order, es, fuel) == Some(r.error)
    ensures r.Ok? ==> forall j :: 0 <= j < |order| ==>
      order[j] in r.value && Resolve(es[order[j]].targets, es, fuel) == Ok(r.value[order[j]])
  {
    var resolved: map<string, seq<string>> := map[];
    for i := 0 to |order|
      invariant forall j :: 0 <= j < i ==> order[j] in resolved && Resolve(es[order[j]].targets, es, fuel) == Ok(resolved[order[j]])
      invariant FirstFailure(order, es, fuel) == FirstFailure(order[i..], es, fuel)
    {
      var id := order[i];
      var res := ResolveEntity(es[id], es, fuel);
      FirstFailureStep(order, i, es, fuel);
      if res.Err? {
        return Err(res.error);
      }
      resolved := resolved[id := res.value];
    }
    assert order[|order|..] == [];
    r := Ok(resolved);
  }

  /**
   * `resolve_entities(entities)`: all resolutions are computed first, then
   * written back into the entities. The first failing entity in iteration
   * order raises.
   */
  method ResolveEntities(es: map<string, Entity>, order: seq<string>, fuel: nat)
      returns (r: Result<map<string, Entity>, ResolveError>)
    requires IsKeyOrder(order, es)
    ensures r == ResolveAll(es, order, fuel)
  {
    var each := ResolveEach(es, order, fuel);
    if each.Err? {
      return Err(each.error);
    }
    var resolved := each.value;
    var out := WriteTargets(es, order, resolved);
    WrittenBack(es, order, fuel, resolved, out);
    r := Ok(out);
  }

  /** The write-back loop of `resolve_entities`: each entity, in order, gets its resolved targets. */
  method WriteTargets(es: map<string, Entity>, order: seq<string>, resolved: map<string, seq<string>>)
      returns (out: map<string, Entity>)
    requires IsKeyOrder(order, es)
    requires forall j :: 0 <= j < |order| ==> order[j] in resolved
    ensures out.Keys == es.Keys
    ensures forall j :: 0 <= j < |order| ==> out[order[j]] == es[order[j]].(targets := resolved[order[j]])
  {
    out := es;
    for i := 0 to |order|
      invariant out.Keys == es.Keys
      invariant forall j :: 0 <= j < i ==> out[order[j]] == es[order[j]].(targets := resolved[order[j]])
      invariant forall j :: i <= j < |order| ==> out[order[j]] == es[order[j]]
    {
      out := out[order[i] := out[order[i]].(targets := resolved[order[i]])];
    }
  }

  lemma {:induction false} WrittenBack(es: map<string, Entity>, order: seq<string>, fuel: nat, resolved: map<string, seq<string>>, out: map<string, Entity>)
    requires IsKeyOrder(order, es) && out.Keys == es.Keys
    requires forall j :: 0 <= j < |order| ==> order[j] in resolved && Resolve(es[order[j]].targets, es, fuel) == Ok(resolved[order[j]])
    requires forall j :: 0 <= j < |order| ==> order[j] in resolved && out[order[j]] == es[order[j]].(targets := resolved[order[j]])
    ensures FirstFailure(order, es, fuel).None? && out == ResolvedEntities(es, fuel)
  {
    FirstFailureMeaning(order, es, fuel);
    forall id | id in es
      ensures Resolve(es[id].targets, es, fuel).Ok? && out[id] == es[id].(targets := Resolve(es[id].targets, es, fuel).value)
    {
      var j :| 0 <= j < |order| && order[j] == id;
    }
  }

  /** Resolution leaves the key set alone and changes nothing but the targets. */
  lemma {:induction false} ResolveAllChangesOnlyTargets(es: map<string, Entity>, order: seq<string>, fuel: nat)
    requires IsKeyOrder(order, es) && ResolveAll(es, order, fuel).Ok?
    ensures var out := ResolveAll(es, order, fuel).value;
      && out.Keys == es.Keys
      && (forall id :: id in es ==> out[id].(targets := es[id].targets) == es[id])
      && (forall id :: id in es ==> Resolve(es[id].targets, es, fuel).Ok? && out[id].targets == Resolve(es[id].targets, es, fuel).value)
  {
    FirstFailureMeaning(order, es, fuel);
  }

  /** With acyclic references and enough depth, `resolve_entities` succeeds. */
  lemma {:induction false} ResolveAllRankedSucceeds(es: map<string, Entity>, order: seq<string>, rank: map<string, nat>, fuel: nat)
    requires IsKeyOrder(order, es) && Ranked(es, rank)
    requires forall id :: id in rank ==> rank[id] < fuel
    ensures ResolveAll(es, order, fuel).Ok?
  {
    forall id | id in es ensures Resolve(es[id].targets, es, fuel).Ok? {
      forall t | t in es[id].targets && IsNamed(t) ensures t in es && rank[t] < fuel {
        assert t in es && rank[t] < rank[id];
      }
      ResolveRankedSucceeds(es[id].targets, es, rank, fuel);
    }
    FirstFailureMeaning(order, es, fuel);
  }

  // ---------------------------------------------------------------------
  // eliminate_overlapping_entities

  /** `any(target in over["targets"] for target in sub["targets"])` */
  predicate SharesTarget(sub: Entity, over: Entity) {
    exists i :: 0 <= i < |sub.targets| && sub.targets[i] in over.targets
  }

  lemma {:induction false} SharesTargetSymmetric(a: Entity, b: Entity)
    ensures SharesTarget(a, b) <==> SharesTarget(b, a)
  {
    if SharesTarget(a, b) {
      var i :| 0 <= i < |a.targets| && a.targets[i] in b.targets;
      var j :| 0 <= j < |b.targets| && b.targets[j] == a.targets[i];
    }
    if SharesTarget(b, a) {
      var i :| 0 <= i < |b.targets| && b.targets[i] in a.targets;
      var j :| 0 <= j < |a.targets| && a.targets[j] == b.targets[i];
    }
  }

  /** The ids of the entities among the first `n` that share a target with an earlier entity. */
  ghost function SubsumedIds(list: seq<Entity>, n: nat): set<string>
    requires n <= |list|
  {
    set j, i | 0 <= i < j < n && SharesTarget(list[j], list[i]) :: list[j].entId
  }

  /** The entities whose id is not in `drop`, in order. */
  function KeepWithout(list: seq<Entity>, drop: set<string>): (r: seq<Entity>)
    ensures forall x :: x in r <==> x in list && x.entId !in drop
  {
    if list == [] then []
    else
      var init := KeepWithout(list[..|list| - 1], drop);
      var last := list[|list| - 1];
      assert list == list[..|list| - 1] + [last];
      if last.entId in drop then init else init + [last]
  }

  lemma {:induction false} SubsumedIdsStep(list: seq<Entity>, j: nat)
    requires j < |list|
    ensures SubsumedIds(list, j + 1) ==
      SubsumedIds(list, j) + (if exists i :: 0 <= i < j && SharesTarget(list[j], list[i]) then {list[j].entId} else {})
  {
    var lhs := SubsumedIds(list, j + 1);
    var rhs := SubsumedIds(list, j) + (if exists i :: 0 <= i < j && SharesTarget(list[j], list[i]) then {list[j].entId} else {});
    forall x | x in lhs ensures x in rhs {
      var b, a :| 0 <= a < b < j + 1 && SharesTarget(list[b], list[a]) && list[b].entId == x;
      if b < j { assert x in SubsumedIds(list, j); }
    }
    forall x | x in rhs ensures x in lhs {
      if x !in SubsumedIds(list, j) {
        var a :| 0 <= a < j && SharesTarget(list[j], list[a]);
      }
    }
  }

  /** The entities `eliminate_overlapping_entities` keeps. */
  ghost function Eliminated(list: seq<Entity>): seq<Entity> {
    KeepWithout(list, SubsumedIds(list, |list|))
  }

  /** `eliminate_overlapping_entities(entities_list)`: nested loops collect the subsumed ids, a filter drops them. */
  method EliminateOverlapping(list: seq<Entity>) returns (kept: seq<Entity>)
    ensures kept == Eliminated(list)
  {
    var subsumed: set<string> := {};
    for j := 0 to |list|
      invariant subsumed == SubsumedIds(list, j)
    {
      var sub := list[j];
      for i := 0 to j
        invariant subsumed == SubsumedIds(list, j) + (if exists i' :: 0 <= i' < i && SharesTarget(sub, list[i']) then {sub.entId} else {})
      {
        if SharesTarget(sub, list[i]) {
          subsumed := subsumed + {sub.entId};
        }
      }
      SubsumedIdsStep(list, j);
    }
    kept := [];
    for k := 0 to |list|
      invariant kept == KeepWithout(list[..k], subsumed)
    {
      assert list[..k + 1][..k] == list[..k];
      if list[k].entId !in subsumed {
        kept := kept + [list[k]];
      }
    }
    assert list[..|list|] == list;
  }

  /** The positions in `list` of the entities `KeepWithout` keeps. */
  ghost function KeptPositions(list: seq<Entity>, drop: set<string>): seq<nat> {
    if list == [] then []
    else
      var init := KeptPositions(list[..|list| - 1], drop);
      if list[|list| - 1].entId in drop then init else init + [|list| - 1]
  }

  /** The kept entities are a subsequence of the input: they sit at increasing positions. */
  lemma {:induction false} KeptSubsequence(list: seq<Entity>, drop: set<string>)
    ensures var kept := KeepWithout(list, drop);
      var pos := KeptPositions(list, drop);
      && |pos| == |kept|
      && (forall k :: 0 <= k < |pos| ==> pos[k] < |list| && kept[k] == list[pos[k]] && list[pos[k]].entId !in drop)
      && (forall k, l :: 0 <= k < l < |pos| ==> pos[k] < pos[l])
  {
    if list != [] {
      var init := list[..|list| - 1];
      KeptSubsequence(init, drop);
      forall k | 0 <= k < |KeptPositions(init, drop)|
        ensures list[KeptPositions(init, drop)[k]] == init[KeptPositions(init, drop)[k]]
      {
      }
    }
  }

  /** The output of the elimination lies at increasing positions of its input. */
  lemma {:induction false} EliminatedSubsequence(list: seq<Entity>)
    ensures var kept := Eliminated(list);
      var pos := KeptPositions(list, SubsumedIds(list, |list|));
      && |pos| == |kept|
      && (forall k :: 0 <= k < |pos| ==> pos[k] < |list| && kept[k] == list[pos[k]])
      && (forall k, l :: 0 <= k < l < |pos| ==> pos[k] < pos[l])
  {
    KeptSubsequence(list, SubsumedIds(list, |list|));
  }

  /** No two surviving entities share a target. */
  lemma {:induction false} EliminatedShareNoTarget(list: seq<Entity>)
    ensures var kept := Eliminated(list);
      forall k, l :: 0 <= k < l < |kept| ==> !SharesTarget(kept[l], kept[k]) && !SharesTarget(kept[k], kept[l])
  {
    var drop := SubsumedIds(list, |list|);
    var kept := Eliminated(list);
    var pos := KeptPositions(list, drop);
    KeptSubsequence(list, drop);
    forall k, l | 0 <= k < l < |kept| ensures !SharesTarget(kept[l], kept[k]) && !SharesTarget(kept[k], kept[l]) {
      SharesTargetSymmetric(kept[k], kept[l]);
      if SharesTarget(kept[l], kept[k]) {
        assert false;
      }
    }
  }

  /** An entity sharing a target with any earlier entity is dropped, even when that earlier one was dropped too. */
  lemma {:induction false} SharingEntityDropped(list: seq<Entity>, i: nat, j: nat)
    requires i < j < |list| && SharesTarget(list[j], list[i])
    ensures list[j] !in Eliminated(list)
  {
    assert list[j].entId in SubsumedIds(list, |list|);
  }

  /** An entity is kept exactly when no entity with its id shares a target with an earlier one. */
  lemma {:induction false} EliminatedMembers(list: seq<Entity>, x: Entity)
    ensures x in Eliminated(list) <==>
      x in list && !exists i, j :: 0 <= i < j < |list| && list[j].entId == x.entId && SharesTarget(list[j], list[i])
  {
    if exists i, j :: 0 <= i < j < |list| && list[j].entId == x.entId && SharesTarget(list[j], list[i]) {
      var i, j :| 0 <= i < j < |list| && list[j].entId == x.entId && SharesTarget(list[j], list[i]);
      assert x.entId in SubsumedIds(list, |list|);
    }
  }

  /** Entity ids are distinct, as the keys of the dictionary they come from. */
  ghost predicate DistinctIds(list: seq<Entity>) {
    forall i, j :: 0 <= i < j < |list| ==> list[i].entId != list[j].entId
  }

  /** With distinct ids the first entity always survives, in first place. */
  lemma {:induction false} FirstEntityKept(list: seq<Entity>)
    requires list != [] && DistinctIds(list)
    ensures Eliminated(list) != [] && Eliminated(list)[0] == list[0]
  {
    var drop := SubsumedIds(list, |list|);
    assert list[0].entId !in drop;
    var kept := Eliminated(list);
    var pos := KeptPositions(list, drop);
    KeptSubsequence(list, drop);
    assert list[0] in kept;
    var k :| 0 <= k < |kept| && kept[k] == list[0];
    assert list[pos[k]] == list[0];
    assert pos[k] == 0;
    IncreasingFromIndex(pos);
  }

  /** A strictly increasing sequence of naturals has each element at least its index. */
  lemma {:induction false} IncreasingFromIndex(pos: seq<nat>)
    requires forall k, l :: 0 <= k < l < |pos| ==> pos[k] < pos[l]
    ensures forall k :: 0 <= k < |pos| ==> k <= pos[k]
  {
    if pos != [] {
      var init := pos[..|pos| - 1];
      IncreasingFromIndex(init);
      assert forall k :: 0 <= k < |init| ==> init[k] == pos[k];
      if |pos| >= 2 {
        assert pos[|pos| - 2] < pos[|pos| - 1];
      }
    }
  }

  // ---------------------------------------------------------------------
  // clear_entities

  const MorphPrefix := "morph_"

  /** Resolution failed, or a target has no `morph_` part (IndexError on `split("morph_")[1]`). */
  datatype ClearError = Unresolved(error: ResolveError) | NoMorphPart(target: string)

  lemma {:induction false} NoOccurrenceBefore(s: string, sub: string, j: nat)
    requires |sub| > 0 && j <= |s| && forall k: nat :: k < j ==> !OccursAt(s, sub, k)
    ensures !Contains(s[..j], sub)
  {
    forall k: nat | k <= j && OccursAt(s[..j], sub, k) ensures false {
      assert s[..j][k..k + |sub|] == s[k..k + |sub|];
      assert OccursAt(s, sub, k);
    }
  }

  /** `t.split("morph_")[1]`, or None where it raises IndexError. */
  function StripMorph(t: string): Option<string> {
    match Find(t, MorphPrefix)
    case None => None
    case Some(i) =>
      var rest := t[i + |MorphPrefix|..];
      match Find(rest, MorphPrefix)
      case None => Some(rest)
      case Some(j) => Some(rest[..j])
  }

  /**
   * Stripping fails exactly when `t` has no `morph_`; otherwise it yields the
   * text after the first `morph_`, up to the next `morph_` or the end.
   */
  lemma {:induction false} StripMorphMeaning(t: string)
    ensures StripMorph(t).None? <==> !Contains(t, MorphPrefix)
    ensures StripMorph(t).Some? ==> Find(t, MorphPrefix).Some?
    ensures StripMorph(t).Some? ==>
      var r := StripMorph(t).value;
      var after := Find(t, MorphPrefix).value + |MorphPrefix|;
      && after + |r| <= |t|
      && t[after..after + |r|] == r
      && !Contains(r, MorphPrefix)
      && (after + |r| == |t| || OccursAt(t, MorphPrefix, after + |r|))
  {
    match Find(t, MorphPrefix)
    case None =>
    case Some(i) =>
      var after := i + |MorphPrefix|;
      var rest := t[after..];
      match Find(rest, MorphPrefix)
      case None =>
        assert t[after..after + |rest|] == rest;
      case Some(j) =>
        CutBeforeNext(t, MorphPrefix, after, j);
  }

  /** The part of `t` from `after` up to the next occurrence of `sub`, which starts `j` later. */
  lemma {:induction false} CutBeforeNext(t: string, sub: string, after: nat, j: nat)
    requires |sub| > 0 && after <= |t|
    requires OccursAt(t[after..], sub, j) && forall k: nat :: k < j ==> !OccursAt(t[after..], sub, k)
    ensures after + j <= |t| && t[after..after + j] == t[after..][..j]
    ensures !Contains(t[after..][..j], sub) && OccursAt(t, sub, after + j)
  {
    var rest := t[after..];
    NoOccurrenceBefore(rest, sub, j);
    assert t[after + j..after + j + |sub|] == rest[j..j + |sub|];
  }

  /** A segment reference `morph_<id>` strips to `<id>`. */
  lemma {:induction false} StripMorphOfReference(x: string)
    requires !Contains(x, MorphPrefix)
    ensures StripMorph(MorphPrefix + x) == Some(x)
  {
    var t := MorphPrefix + x;
    assert OccursAt(t, MorphPrefix, 0);
    var rest := t[|MorphPrefix|..];
    assert rest == x;
  }

  /** `[t.split("morph_")[1] for t in targets]`, failing at the first target without `morph_`. */
  function StripTargets(targets: seq<string>): (r: Result<seq<string>, ClearError>)
    ensures r.Ok? ==> |r.value| == |targets| && forall k :: 0 <= k < |targets| ==> StripMorph(targets[k]) == Some(r.value[k])
    ensures r.Ok? <==> forall k :: 0 <= k < |targets| ==> StripMorph(targets[k]).Some?
  {
    if targets == [] then Ok([])
    else match StripMorph(targets[0])
      case None => Err(NoMorphPart(targets[0]))
      case Some(x) =>
        match StripTargets(targets[1..])
        case Err(e) => Err(e)
        case Ok(rest) =>
          assert forall k :: 1 <= k < |targets| ==> targets[k] == targets[1..][k - 1];
          Ok([x] + rest)
  }

  /** The targets of every entity stripped, in order; the first failing entity raises. */
  function StripAll(list: seq<Entity>): Result<seq<Entity>, ClearError> {
    if list == [] then Ok([])
    else
      match StripAll(list[..|list| - 1])
      case Err(e) => Err(e)
      case Ok(init) =>
        var last := list[|list| - 1];
        match StripTargets(last.targets)
        case Err(e) => Err(e)
        case Ok(ts) => Ok(init + [last.(targets := ts)])
  }

  /** `out` is `list` with every entity's targets stripped. */
  ghost predicate StrippedFrom(list: seq<Entity>, out: seq<Entity>) {
    && |out| == |list|
    && forall k :: 0 <= k < |list| ==>
      StripTargets(list[k].targets).Ok? && out[k] == list[k].(targets := StripTargets(list[k].targets).value)
  }

  lemma StrippedSnoc(init: seq<Entity>, last: Entity, done: seq<Entity>)
    requires StrippedFrom(init, done) && StripTargets(last.targets).Ok?
    ensures StrippedFrom(init + [last], done + [last.(targets := StripTargets(last.targets).value)])
  {
    var list, out := init + [last], done + [last.(targets := StripTargets(last.targets).value)];
    forall k | 0 <= k < |list|
      ensures StripTargets(list[k].targets).Ok? && out[k] == list[k].(targets := StripTargets(list[k].targets).value)
    {
      if k < |init| {
        assert list[k] == init[k] && out[k] == done[k];
      }
    }
  }

  lemma {:induction false} StripAllMeaning(list: seq<Entity>)
    requires StripAll(list).Ok?
    ensures var out := StripAll(list).value;
      && |out| == |list|
      && forall k :: 0 <= k < |list| ==>
        StripTargets(list[k].targets).Ok? && out[k] == list[k].(targets := StripTargets(list[k].targets).value)
  {
    if list != [] {
      var init := list[..|list| - 1];
      var last := list[|list| - 1];
      StripAllMeaning(init);
      var done := StripAll(init).value;
      assert StrippedFrom(init, done);
      assert StripAll(list) == Ok(done + [last.(targets := StripTargets(last.targets).value)]);
      StrippedSnoc(init, last, done);
      assert list == init + [last];
    }
    assert StrippedFrom(list, StripAll(list).value);
  }

  /** `list(entities.values())`: the entities in iteration order. */
  function ValuesIn(m: map<string, Entity>, order: seq<string>): (r: seq<Entity>)
    requires forall k :: k in order ==> k in m
    ensures |r| == |order| && forall k :: 0 <= k < |order| ==> r[k] == m[order[k]]
  {
    if order == [] then [] else [m[order[0]]] + ValuesIn(m, order[1..])
  }

  function IndexKey(e: Entity): int { e.index }

  /** What `clear_entities` returns: resolve, sort by index, eliminate overlaps, strip `morph_`. */
  ghost function Cleared(es: map<string, Entity>, order: seq<string>, fuel: nat): Result<seq<Entity>, ClearError>
    requires IsKeyOrder(order, es)
  {
    match ResolveAll(es, order, fuel)
    case Err(e) => Err(Unresolved(e))
    case Ok(resolved) => StripAll(Eliminated(SortBy(ValuesIn(resolved, order), IndexKey)))
  }

  /** `clear_entities(entities)` */
  method ClearEntities(es: map<string, Entity>, order: seq<string>, fuel: nat) returns (r: Result<seq<Entity>, ClearError>)
    requires IsKeyOrder(order, es)
    ensures r == Cleared(es, order, fuel)
  {
    var resolved := ResolveEntities(es, order, fuel);
    if resolved.Err? {
      return Err(Unresolved(resolved.error));
    }
    var listed := ValuesIn(resolved.value, order);
    var sorted := SortBy(listed, IndexKey);
    var kept := EliminateOverlapping(sorted);
    r := StripEach(kept);
  }

  /** The closing loop of `clear_entities`: strip the `morph_` prefix from every target of every entity. */
  method StripEach(kept: seq<Entity>) returns (r: Result<seq<Entity>, ClearError>)
    ensures r == StripAll(kept)
  {
    var out: seq<Entity> := [];
    for k := 0 to |kept|
      invariant StripAll(kept[..k]) == Ok(out)
    {
      StripAllStep(kept, k, out);
      var stripped := StripTargets(kept[k].targets);
      if stripped.Err? {
        StripAllPrefixFailure(kept, k + 1);
        return Err(stripped.error);
      }
      out := out + [kept[k].(targets := stripped.value)];
    }
    assert kept[..|kept|] == kept;
    r := Ok(out);
  }

  lemma StripAllStep(list: seq<Entity>, k: nat, out: seq<Entity>)
    requires k < |list| && StripAll(list[..k]) == Ok(out)
    ensures StripAll(list[..k + 1]) ==
      match StripTargets(list[k].targets)
      case Err(e) => Err(e)
      case Ok(ts) => Ok(out + [list[k].(targets := ts)])
  {
    assert list[..k + 1][..k] == list[..k];
  }

  lemma {:induction false} StripAllPrefixFailure(list: seq<Entity>, k: nat)
    requires k <= |list| && StripAll(list[..k]).Err?
    ensures StripAll(list) == StripAll(list[..k])
    decreases |list| - k
  {
    if k < |list| {
      assert list[..k + 1][..k] == list[..k];
      StripAllPrefixFailure(list, k + 1);
    } else {
      assert list[..k] == list;
    }
  }

  /** A subsequence of a sorted sequence is sorted. */
  lemma {:induction false} EliminatedSorted(list: seq<Entity>)
    requires SortedBy(list, IndexKey)
    ensures SortedBy(Eliminated(list), IndexKey)
  {
    EliminatedSubsequence(list);
    var kept := Eliminated(list);
    var pos := KeptPositions(list, SubsumedIds(list, |list|));
    forall k, l | 0 <= k < l < |kept| ensures IndexKey(kept[k]) <= IndexKey(kept[l]) {
      assert kept[k] == list[pos[k]] && kept[l] == list[pos[l]];
    }
  }

  /** `clear_entities` returns its entities in ascending `index` order, with overlaps removed and targets stripped. */
  lemma {:induction false} ClearedSortedByIndex(es: map<string, Entity>, order: seq<string>, fuel: nat)
    requires IsKeyOrder(order, es) && Cleared(es, order, fuel).Ok?
    ensures SortedBy(Cleared(es, order, fuel).value, IndexKey)
  {
    var resolved := ResolveAll(es, order, fuel).value;
    var sorted := SortBy(ValuesIn(resolved, order), IndexKey);
    SortBySorted(ValuesIn(resolved, order), IndexKey);
    EliminatedSorted(sorted);
    var kept := Eliminated(sorted);
    var out := Cleared(es, order, fuel).value;
    assert out == StripAll(kept).value;
    StripAllMeaning(kept);
    forall k, l | 0 <= k < l < |out| ensures IndexKey(out[k]) <= IndexKey(out[l]) {
      assert out[k].index == kept[k].index && out[l].index == kept[l].index;
    }
  }

  // ---------------------------------------------------------------------
  // assign_entities: the labelling loop

  /** A segment of `ann_morphosyntax.xml` as `assign_entities` records it; `ner` starts out as "O". */
  datatype Token = Token(
    segId: string, i: nat, orth: string, text: string, tag: string,
    ner: string, nerSubtype: Option<string>)

  /** A target with no token in its sentence, or an entity sentence with no segments (both KeyError). */
  datatype LabelError = NoToken(target: string) | NoSentence(par: string, sent: string)

  /** The first target that is not a token of the sentence. */
  function FirstMissing(targets: seq<string>, tokens: map<string, Token>): (r: Option<string>)
    ensures r.None? <==> forall t :: t in targets ==> t in tokens
    ensures r.Some? ==> r.value in targets && r.value !in tokens
  {
    if targets == [] then None
    else if targets[0] !in tokens then Some(targets[0])
    else FirstMissing(targets[1..], tokens)
  }

  /** The sort key `lambda x: x["i"]` applied through the token table. */
  function PositionIn(tokens: map<string, Token>): string -> int {
    t => if t in tokens then tokens[t].i else 0
  }

  /** The full label the `k`-th matching token receives: `B-<type>` first, `I-<type>` after. */
  function FullLabel(k: nat, nerType: string): string {
    (if k == 0 then "B" else "I") + "-" + nerType
  }

  /** The table after labelling the tokens `ids`, in that order. */
  function Tag(tokens: map<string, Token>, ids: seq<string>, nerType: string, subtype: Option<string>): (r: map<string, Token>)
    requires forall t :: t in ids ==> t in tokens
    ensures r.Keys == tokens.Keys
  {
    if ids == [] then tokens
    else
      var done := Tag(tokens, ids[..|ids| - 1], nerType, subtype);
      var t := ids[|ids| - 1];
      done[t := done[t].(ner := FullLabel(|ids| - 1, nerType), nerSubtype := subtype)]
  }

  /** The table after one entity of the labelling loop labels its tokens, ordered by position. */
  function LabelEntity(tokens: map<string, Token>, e: Entity): (r: Result<map<string, Token>, LabelError>)
    ensures r.Ok? ==> r.value.Keys == tokens.Keys
  {
    match FirstMissing(e.targets, tokens)
    case Some(t) => Err(NoToken(t))
    case None =>
      SortBySameElements(e.targets, PositionIn(tokens));
      Ok(Tag(tokens, SortBy(e.targets, PositionIn(tokens)), e.nerType, e.nerSubtype))
  }

  /** The table after every entity of a sentence, in order, has labelled its tokens. */
  function Labelled(tokens: map<string, Token>, ents: seq<Entity>): (r: Result<map<string, Token>, LabelError>)
    ensures r.Ok? ==> r.value.Keys == tokens.Keys
  {
    if ents == [] then Ok(tokens)
    else
      match Labelled(tokens, ents[..|ents| - 1])
      case Err(e) => Err(e)
      case Ok(done) => LabelEntity(done, ents[|ents| - 1])
  }

  /**
   * The loop `for entity in sent_entities` of `assign_entities` on one
   * sentence: each entity's tokens, sorted by position, get `B-`/`I-` labels
   * and the entity's subtype.
   */
  method LabelSentence(tokens: map<string, Token>, ents: seq<Entity>) returns (r: Result<map<string, Token>, LabelError>)
    ensures r == Labelled(tokens, ents)
  {
    var cur := tokens;
    for n := 0 to |ents|
      invariant Labelled(tokens, ents[..n]) == Ok(cur)
    {
      LabelledStep(tokens, ents, n, cur);
      var entity := ents[n];
      var missing := FirstMissing(entity.targets, cur);
      if missing.Some? {
        LabelledPrefixFailure(tokens, ents, n + 1);
        return Err(NoToken(missing.value));
      }
      SortBySameElements(entity.targets, PositionIn(cur));
      var matching := SortBy(entity.targets, PositionIn(cur));
      cur := LabelTokens(cur, matching, entity.nerType, entity.nerSubtype);
    }
    assert ents[..|ents|] == ents;
    r := Ok(cur);
  }

  lemma LabelledStep(tokens: map<string, Token>, ents: seq<Entity>, n: nat, cur: map<string, Token>)
    requires n < |ents| && Labelled(tokens, ents[..n]) == Ok(cur)
    ensures Labelled(tokens, ents[..n + 1]) == LabelEntity(cur, ents[n])
  {
    assert ents[..n + 1][..n] == ents[..n];
  }

  /** The loop `for token in matching_tokens`, with `iob` turning from "B" to "I" after the first token. */
  method LabelTokens(tokens: map<string, Token>, matching: seq<string>, nerType: string, subtype: Option<string>)
      returns (cur: map<string, Token>)
    requires forall t :: t in matching ==> t in tokens
    ensures cur == Tag(tokens, matching, nerType, subtype)
  {
    cur := tokens;
    var iob := "B";
    for k := 0 to |matching|
      invariant cur == Tag(tokens, matching[..k], nerType, subtype)
      invariant iob == if k == 0 then "B" else "I"
    {
      assert matching[..k + 1][..k] == matching[..k];
      var id := matching[k];
      cur := cur[id := cur[id].(ner := iob + "-" + nerType, nerSubtype := subtype)];
      iob := "I";
    }
    assert matching[..|matching|] == matching;
  }

  lemma {:induction false} LabelledPrefixFailure(tokens: map<string, Token>, ents: seq<Entity>, n: nat)
    requires n <= |ents| && Labelled(tokens, ents[..n]).Err?
    ensures Labelled(tokens, ents) == Labelled(tokens, ents[..n])
    decreases |ents| - n
  {
    if n < |ents| {
      assert ents[..n + 1][..n] == ents[..n];
      LabelledPrefixFailure(tokens, ents, n + 1);
    } else {
      assert ents[..n] == ents;
    }
  }

  /** Labelling leaves the tokens outside `ids` alone and changes only `ner` and `nerSubtype` of those in it. */
  lemma {:induction false} TagUntouched(tokens: map<string, Token>, ids: seq<string>, nerType: string, subtype: Option<string>)
    requires forall t :: t in ids ==> t in tokens
    ensures var r := Tag(tokens, ids, nerType, subtype);
      forall t :: t in tokens ==>
        (t !in ids ==> r[t] == tokens[t]) && r[t].(ner := tokens[t].ner, nerSubtype := tokens[t].nerSubtype) == tokens[t]
  {
    if ids != [] {
      var init := ids[..|ids| - 1];
      assert forall t :: t in init ==> t in ids;
      TagUntouched(tokens, init, nerType, subtype);
    }
  }

  /** Without repeated ids, the `k`-th id gets `FullLabel(k)` and the subtype, and nothing else changes. */
  lemma {:induction false} TagLabels(tokens: map<string, Token>, ids: seq<string>, nerType: string, subtype: Option<string>)
    requires forall t :: t in ids ==> t in tokens
    requires Distinct(ids)
    ensures var r := Tag(tokens, ids, nerType, subtype);
      forall k :: 0 <= k < |ids| ==> r[ids[k]] == tokens[ids[k]].(ner := FullLabel(k, nerType), nerSubtype := subtype)
  {
    if ids != [] {
      var init := ids[..|ids| - 1];
      assert forall t :: t in init ==> t in ids;
      TagLabels(tokens, init, nerType, subtype);
      TagUntouched(tokens, init, nerType, subtype);
      var r := Tag(tokens, ids, nerType, subtype);
      forall k | 0 <= k < |ids| ensures r[ids[k]] == tokens[ids[k]].(ner := FullLabel(k, nerType), nerSubtype := subtype) {
        if k < |init| {
          assert ids[k] == init[k] && ids[k] != ids[|ids| - 1];
        } else {
          assert ids[|ids| - 1] !in init;
        }
      }
    }
  }

  /** Tokens of a sentence sit at distinct positions, as `enumerate` numbers them. */
  ghost predicate DistinctPositions(tokens: map<string, Token>) {
    forall a, b :: a in tokens && b in tokens && a != b ==> tokens[a].i != tokens[b].i
  }

  /** The target the labelling loop reaches first: the head of the targets sorted by position. */
  function Earliest(tokens: map<string, Token>, targets: seq<string>): string
    requires targets != []
  {
    SortBy(targets, PositionIn(tokens))[0]
  }

  /** The earliest target is a target at the least position; with distinct positions, every other one lies later. */
  lemma {:induction false} EarliestIsLeast(tokens: map<string, Token>, targets: seq<string>)
    requires targets != [] && forall t :: t in targets ==> t in tokens
    ensures var f := Earliest(tokens, targets);
      && f in targets
      && (forall u :: u in targets ==> tokens[f].i <= tokens[u].i)
      && (DistinctPositions(tokens) ==> forall u :: u in targets && u != f ==> tokens[f].i < tokens[u].i)
  {
    var key := PositionIn(tokens);
    SortByFirstIsLeast(targets, key);
    SortBySameElements(targets, key);
    var f := Earliest(tokens, targets);
    forall u | u in targets ensures tokens[f].i <= tokens[u].i {
      assert key(f) <= key(u);
    }
  }

  /**
   * One entity with distinct targets, all present: its earliest target gets
   * `B-<type>`, every other target `I-<type>`, all get the subtype, and the
   * tokens it does not target are unchanged.
   */
  lemma {:induction false} LabelEntityMeaning(tokens: map<string, Token>, e: Entity)
    requires forall t :: t in e.targets ==> t in tokens
    requires Distinct(e.targets)
    ensures LabelEntity(tokens, e).Ok?
    ensures var r := LabelEntity(tokens, e).value;
      && (forall t :: t in tokens && t !in e.targets ==> r[t] == tokens[t])
      && (forall t :: t in e.targets ==>
            r[t] == tokens[t].(ner := FullLabel(if t == Earliest(tokens, e.targets) then 0 else 1, e.nerType), nerSubtype := e.nerSubtype))
  {
    var key := PositionIn(tokens);
    var m := SortBy(e.targets, key);
    SortBySameElements(e.targets, key);
    SortByKeepsDistinct(e.targets, key);
    TagFirstAndRest(tokens, m, e.targets, e.nerType, e.nerSubtype);
  }

  lemma {:induction false} TagFirstAndRest(tokens: map<string, Token>, m: seq<string>, targets: seq<string>, nerType: string, subtype: Option<string>)
    requires (forall t :: t in m <==> t in targets) && Distinct(m)
    requires forall t :: t in targets ==> t in tokens
    ensures var r := Tag(tokens, m, nerType, subtype);
      && (forall t :: t in tokens && t !in targets ==> r[t] == tokens[t])
      && (forall t :: t in targets ==>
            r[t] == tokens[t].(ner := FullLabel(if t == m[0] then 0 else 1, nerType), nerSubtype := subtype))
  {
    TagUntouched(tokens, m, nerType, subtype);
    TagLabels(tokens, m, nerType, subtype);
    var r := Tag(tokens, m, nerType, subtype);
    forall t | t in targets
      ensures r[t] == tokens[t].(ner := FullLabel(if t == m[0] then 0 else 1, nerType), nerSubtype := subtype)
    {
      var k :| 0 <= k < |m| && m[k] == t;
      if k > 0 {
        assert m[0] != m[k];
      }
    }
  }

  /** Labelling a sentence keeps every token's position. */
  lemma {:induction false} LabelledKeepsPositions(tokens: map<string, Token>, ents: seq<Entity>)
    requires Labelled(tokens, ents).Ok?
    ensures forall t :: t in tokens ==> Labelled(tokens, ents).value[t].i == tokens[t].i
  {
    if ents != [] {
      var init := ents[..|ents| - 1];
      LabelledKeepsPositions(tokens, init);
      var done := Labelled(tokens, init).value;
      var e := ents[|ents| - 1];
      SortBySameElements(e.targets, PositionIn(done));
      TagUntouched(done, SortBy(e.targets, PositionIn(done)), e.nerType, e.nerSubtype);
    }
  }

  /** One entity leaves every token it does not target as it was. */
  lemma LabelEntityKeeps(done: map<string, Token>, e: Entity, t: string)
    requires LabelEntity(done, e).Ok? && t in done && t !in e.targets
    ensures LabelEntity(done, e).value[t] == done[t]
  {
    SortBySameElements(e.targets, PositionIn(done));
    TagUntouched(done, SortBy(e.targets, PositionIn(done)), e.nerType, e.nerSubtype);
  }

  /** A token no entity targets keeps its label ("O" as built). */
  lemma {:induction false} UntargetedTokenUnchanged(tokens: map<string, Token>, ents: seq<Entity>, t: string)
    requires Labelled(tokens, ents).Ok? && t in tokens
    requires forall e :: e in ents ==> t !in e.targets
    ensures Labelled(tokens, ents).value[t] == tokens[t]
  {
    if ents != [] {
      var init := ents[..|ents| - 1];
      assert forall e :: e in init ==> e in ents;
      UntargetedTokenUnchanged(tokens, init, t);
      LabelEntityKeeps(Labelled(tokens, init).value, ents[|ents| - 1], t);
    }
  }

  /**
   * When only entity `k` targets token `t` (as after overlap elimination),
   * `t` ends with that entity's subtype and with `B-<type>` exactly when it
   * is the entity's earliest token, `I-<type>` otherwise.
   */
  lemma {:induction false} TokenLabelledByItsEntity(tokens: map<string, Token>, ents: seq<Entity>, k: nat, t: string)
    requires Labelled(tokens, ents).Ok?
    requires k < |ents| && t in ents[k].targets && Distinct(ents[k].targets)
    requires forall u :: u in ents[k].targets ==> u in tokens
    requires forall j :: 0 <= j < |ents| && j != k ==> t !in ents[j].targets
    ensures var r := Labelled(tokens, ents).value[t];
      r == tokens[t].(ner := FullLabel(if t == Earliest(tokens, ents[k].targets) then 0 else 1, ents[k].nerType),
                      nerSubtype := ents[k].nerSubtype)
  {
    var before := ents[..k];
    var upto := ents[..k + 1];
    LabelledOkPrefix(tokens, ents, k + 1);
    assert upto[..k] == before;
    LabelledOkPrefix(tokens, upto, k);
    var done := Labelled(tokens, before).value;
    var e := ents[k];
    assert forall x :: x in before ==> t !in x.targets;
    UntargetedTokenUnchanged(tokens, before, t);
    LabelledKeepsPositions(tokens, before);
    LabelEntityMeaning(done, e);
    SortByKeyAgree(e.targets, PositionIn(done), PositionIn(tokens));
    LaterEntitiesKeepToken(tokens, ents, k + 1, t);
  }

  /** Entities after position `n` that do not target `t` leave it as it was. */
  lemma {:induction false} LaterEntitiesKeepToken(tokens: map<string, Token>, ents: seq<Entity>, n: nat, t: string)
    requires n <= |ents| && Labelled(tokens, ents).Ok? && t in tokens
    requires forall j :: n <= j < |ents| ==> t !in ents[j].targets
    ensures Labelled(tokens, ents[..n]).Ok?
    ensures Labelled(tokens, ents).value[t] == Labelled(tokens, ents[..n]).value[t]
    decreases |ents| - n
  {
    if n == |ents| {
      assert ents[..n] == ents;
    } else {
      var init := ents[..|ents| - 1];
      assert init[..n] == ents[..n];
      var done := Labelled(tokens, init);
      assert done.Ok? && Labelled(tokens, ents) == LabelEntity(done.value, ents[|ents| - 1]);
      LaterEntitiesKeepToken(tokens, init, n, t);
      LabelEntityKeeps(done.value, ents[|ents| - 1], t);
    }
  }

  lemma {:induction false} LabelledOkPrefix(tokens: map<string, Token>, ents: seq<Entity>, n: nat)
    requires n <= |ents| && Labelled(tokens, ents).Ok?
    ensures Labelled(tokens, ents[..n]).Ok?
  {
    if Labelled(tokens, ents[..n]).Err? {
      LabelledPrefixFailure(tokens, ents, n);
    }
  }

  /** Tokens by paragraph id, sentence id and segment id, as the first half of `assign_entities` collects them. */
  type Segments = map<string, map<string, map<string, Token>>>

  /** Cleared entities by paragraph id and sentence id. */
  type SentenceEntities = map<string, map<string, seq<Entity>>>

  /** Every (paragraph, sentence) pair of `order` has entities. */
  ghost predicate Listed(order: seq<(string, string)>, ents: SentenceEntities) {
    forall k :: 0 <= k < |order| ==> order[k].0 in ents && order[k].1 in ents[order[k].0]
  }

  /**
   * `order` lists every (paragraph, sentence) pair with entities exactly
   * once: the nested loops `for par_key in subfolder_entities` and
   * `for sent_key in par_ents`, flattened.
   */
  ghost predicate SentenceOrder(order: seq<(string, string)>, ents: SentenceEntities) {
    && Listed(order, ents)
    && Distinct(order)
    && forall p, s :: p in ents && s in ents[p] ==> (p, s) in order
  }

  /** Some entity has a target, so the lookup `par_id_to_segs[par_key][sent_key][target]` is reached. */
  predicate HasTargets(list: seq<Entity>) {
    exists k :: 0 <= k < |list| && list[k].targets != []
  }

  /** The segments after the labelling loop has visited the sentences of `order`, in that order. */
  function AssignAll(segs: Segments, ents: SentenceEntities, order: seq<(string, string)>): Result<Segments, LabelError>
    requires Listed(order, ents)
  {
    if order == [] then Ok(segs)
    else
      match AssignAll(segs, ents, order[..|order| - 1])
      case Err(e) => Err(e)
      case Ok(cur) =>
        AssignSentence(cur, ents, order[|order| - 1].0, order[|order| - 1].1)
  }

  /**
   * The segments after the labelling loop has labelled sentence `s` of
   * paragraph `p`. A sentence missing from the segments is a KeyError only
   * once an entity with a target looks it up.
   */
  function AssignSentence(cur: Segments, ents: SentenceEntities, p: string, s: string): Result<Segments, LabelError>
    requires p in ents && s in ents[p]
  {
    if p !in cur || s !in cur[p] then
      if HasTargets(ents[p][s]) then Err(NoSentence(p, s)) else Ok(cur)
    else
      match Labelled(cur[p][s], ents[p][s])
      case Err(e) => Err(e)
      case Ok(lab) => Ok(cur[p := cur[p][s := lab]])
  }

  lemma AssignStep(segs: Segments, ents: SentenceEntities, order: seq<(string, string)>, k: nat, cur: Segments)
    requires Listed(order, ents) && k < |order| && AssignAll(segs, ents, order[..k]) == Ok(cur)
    ensures AssignAll(segs, ents, order[..k + 1]) == AssignSentence(cur, ents, order[k].0, order[k].1)
  {
    assert order[..k + 1][..k] == order[..k];
  }

  /**
   * The labelling loop of `assign_entities`: for every paragraph and sentence
   * with entities, in iteration order (`order` flattens the two nested
   * dictionary loops), label that sentence's tokens.
   */
  method AssignEntities(segs: Segments, ents: SentenceEntities, order: seq<(string, string)>)
      returns (r: Result<Segments, LabelError>)
    requires SentenceOrder(order, ents)
    ensures r == AssignAll(segs, ents, order)
  {
    var cur := segs;
    for k := 0 to |order|
      invariant AssignAll(segs, ents, order[..k]) == Ok(cur)
    {
      AssignStep(segs, ents, order, k, cur);
      var (p, s) := order[k];
      if p !in cur || s !in cur[p] {
        if HasTargets(ents[p][s]) {
          AssignPrefixFailure(segs, ents, order, k + 1);
          return Err(NoSentence(p, s));
        }
      } else {
        var lab := LabelSentence(cur[p][s], ents[p][s]);
        if lab.Err? {
          AssignPrefixFailure(segs, ents, order, k + 1);
          return Err(lab.error);
        }
        cur := cur[p := cur[p][s := lab.value]];
      }
    }
    assert order[..|order|] == order;
    r := Ok(cur);
  }

  lemma {:induction false} AssignPrefixFailure(segs: Segments, ents: SentenceEntities, order: seq<(string, string)>, n: nat)
    requires Listed(order, ents) && n <= |order| && AssignAll(segs, ents, order[..n]).Err?
    ensures AssignAll(segs, ents, order) == AssignAll(segs, ents, order[..n])
    decreases |order| - n
  {
    if n < |order| {
      assert order[..n + 1][..n] == order[..n];
      AssignPrefixFailure(segs, ents, order, n + 1);
    } else {
      assert order[..n] == order;
    }
  }

  /**
   * Sentence `s` of paragraph `p` in `out` is its tokens in `segs`, labelled
   * by its entities; a sentence absent from `segs` has no entity with a target.
   */
  ghost predicate SentenceLabelled(segs: Segments, ents: SentenceEntities, out: Segments, p: string, s: string)
    requires p in ents && s in ents[p]
  {
    if p in segs && s in segs[p] then
      && Labelled(segs[p][s], ents[p][s]).Ok?
      && p in out && s in out[p]
      && out[p][s] == Labelled(segs[p][s], ents[p][s]).value
    else !HasTargets(ents[p][s])
  }

  /** The lookup `par_id_to_segs[par_key][sent_key][target]` raises nothing for sentence `s` of `p`. */
  ghost predicate SentenceOk(segs: Segments, ents: SentenceEntities, p: string, s: string)
    requires p in ents && s in ents[p]
  {
    if p in segs && s in segs[p] then Labelled(segs[p][s], ents[p][s]).Ok? else !HasTargets(ents[p][s])
  }

  /** A successful labelling pass adds or removes no paragraph and no sentence. */
  lemma {:induction false} AssignAllShape(segs: Segments, ents: SentenceEntities, order: seq<(string, string)>)
    requires Listed(order, ents) && AssignAll(segs, ents, order).Ok?
    ensures var out := AssignAll(segs, ents, order).value;
      && out.Keys == segs.Keys
      && (forall p :: p in segs ==> out[p].Keys == segs[p].Keys)
  {
    if order != [] {
      var init := order[..|order| - 1];
      assert Listed(init, ents);
      AssignAllShape(segs, ents, init);
      var cur := AssignAll(segs, ents, init).value;
      assert AssignAll(segs, ents, order) == AssignSentence(cur, ents, order[|order| - 1].0, order[|order| - 1].1);
    }
  }

  /** A sentence the pass does not visit keeps its tokens. */
  lemma {:induction false} AssignAllUnlisted(segs: Segments, ents: SentenceEntities, order: seq<(string, string)>)
    requires Listed(order, ents) && AssignAll(segs, ents, order).Ok?
    ensures var out := AssignAll(segs, ents, order).value;
      forall p, s :: p in segs && s in segs[p] && (p, s) !in order ==> p in out && s in out[p] && out[p][s] == segs[p][s]
  {
    AssignAllShape(segs, ents, order);
    if order != [] {
      var init := order[..|order| - 1];
      assert Listed(init, ents);
      AssignAllUnlisted(segs, ents, init);
      var (p, s) := order[|order| - 1];
      var cur := AssignAll(segs, ents, init).value;
      assert AssignAll(segs, ents, order) == AssignSentence(cur, ents, p, s);
      forall q, t | q in segs && t in segs[q] && (q, t) !in order ensures (q, t) !in init && (q, t) != (p, s) {
        assert forall k :: 0 <= k < |init| ==> init[k] == order[k];
      }
    }
  }

  /** With every sentence listed once, each listed sentence ends up labelled from its own tokens. */
  lemma {:induction false} AssignAllListed(segs: Segments, ents: SentenceEntities, order: seq<(string, string)>)
    requires Listed(order, ents) && Distinct(order) && AssignAll(segs, ents, order).Ok?
    ensures var out := AssignAll(segs, ents, order).value;
      forall k :: 0 <= k < |order| ==> SentenceLabelled(segs, ents, out, order[k].0, order[k].1)
  {
    if order != [] {
      var init := order[..|order| - 1];
      assert Listed(init, ents);
      assert Distinct(init);
      AssignAllListed(segs, ents, init);
      AssignAllShape(segs, ents, init);
      AssignAllUnlisted(segs, ents, init);
      var (p, s) := order[|order| - 1];
      assert (p, s) !in init;
      var cur := AssignAll(segs, ents, init).value;
      assert AssignAll(segs, ents, order) == AssignSentence(cur, ents, p, s);
      ListedStep(segs, ents, init, p, s, cur);
      assert order == init + [(p, s)];
    }
  }

  /** Labelling one more, unlisted sentence labels it and keeps the listed ones labelled. */
  lemma ListedStep(segs: Segments, ents: SentenceEntities, init: seq<(string, string)>, p: string, s: string, cur: Segments)
    requires Listed(init, ents) && p in ents && s in ents[p] && (p, s) !in init
    requires forall k :: 0 <= k < |init| ==> SentenceLabelled(segs, ents, cur, init[k].0, init[k].1)
    requires cur.Keys == segs.Keys && forall q :: q in segs ==> cur[q].Keys == segs[q].Keys
    requires p in segs && s in segs[p] ==> cur[p][s] == segs[p][s]
    requires AssignSentence(cur, ents, p, s).Ok?
    ensures var order, out := init + [(p, s)], AssignSentence(cur, ents, p, s).value;
      forall k :: 0 <= k < |order| ==> SentenceLabelled(segs, ents, out, order[k].0, order[k].1)
  {
    var order := init + [(p, s)];
    var out := AssignSentence(cur, ents, p, s).value;
    if p in segs && s in segs[p] {
      var lab := Labelled(cur[p][s], ents[p][s]).value;
      assert out == cur[p := cur[p][s := lab]];
      assert SentenceLabelled(segs, ents, out, p, s);
      forall k | 0 <= k < |init| ensures SentenceLabelled(segs, ents, out, init[k].0, init[k].1) {
        assert init[k] in init;
        LabelledKept(segs, ents, cur, p, s, lab, init[k].0, init[k].1);
      }
    } else {
      assert out == cur;
      assert SentenceLabelled(segs, ents, out, p, s);
    }
    assert forall k :: 0 <= k < |init| ==> order[k] == init[k];
  }

  /**
   * The labelling pass fails exactly when, for some visited sentence, the
   * lookup `par_id_to_segs[par_key][sent_key][target]` raises: a target
   * missing from the sentence, or a missing sentence.
   */
  lemma {:induction false} AssignAllOkIff(segs: Segments, ents: SentenceEntities, order: seq<(string, string)>)
    requires Listed(order, ents) && Distinct(order)
    ensures AssignAll(segs, ents, order).Ok? <==>
      forall k :: 0 <= k < |order| ==> SentenceOk(segs, ents, order[k].0, order[k].1)
  {
    if order != [] {
      var init := order[..|order| - 1];
      var (p, s) := order[|order| - 1];
      assert Listed(init, ents) && Distinct(init);
      assert forall k :: 0 <= k < |init| ==> order[k] == init[k];
      AssignAllOkIff(segs, ents, init);
      if AssignAll(segs, ents, init).Ok? {
        var cur := AssignAll(segs, ents, init).value;
        assert (p, s) !in init;
        AssignAllShape(segs, ents, init);
        AssignAllUnlisted(segs, ents, init);
        assert AssignAll(segs, ents, order) == AssignSentence(cur, ents, p, s);
        assert AssignSentence(cur, ents, p, s).Ok? <==> SentenceOk(segs, ents, p, s);
      }
    }
  }

  /**
   * Over all sentences with entities: `assign_entities` raises nothing
   * exactly when every such sentence passes the lookup
   * `par_id_to_segs[par_key][sent_key][target]`.
   */
  lemma AssignAllSucceeds(segs: Segments, ents: SentenceEntities, order: seq<(string, string)>)
    requires SentenceOrder(order, ents)
    ensures AssignAll(segs, ents, order).Ok? <==>
      forall p, s :: p in ents && s in ents[p] ==> SentenceOk(segs, ents, p, s)
  {
    AssignAllOkIff(segs, ents, order);
    forall p, s | p in ents && s in ents[p] ensures exists k :: 0 <= k < |order| && order[k] == (p, s) {
      assert (p, s) in order;
    }
  }

  /**
   * A sentence missing from the segments is not an error while no entity of
   * it has a target, and is an error once one has.
   */
  lemma MissingSentence()
    ensures AssignAll(map[], map["p" := map["s" := []]], [("p", "s")]) == Ok(map[])
    ensures var e := Entity("named_1", 0, "Kraków", "placeName", None, []);
      AssignAll(map[], map["p" := map["s" := [e]]], [("p", "s")]) == Ok(map[])
    ensures var e := Entity("named_1", 0, "Kraków", "placeName", None, ["1.1"]);
      AssignAll(map[], map["p" := map["s" := [e]]], [("p", "s")]) == Err(NoSentence("p", "s"))
  {
    var e := Entity("named_1", 0, "Kraków", "placeName", None, ["1.1"]);
    assert [e][0].targets != [];
  }

  /**
   * With every sentence listed once, each sentence with entities ends up
   * labelled from its own tokens, every other sentence is unchanged, and no
   * paragraph, sentence or token is added or removed.
   */
  lemma AssignAllSentences(segs: Segments, ents: SentenceEntities, order: seq<(string, string)>)
    requires SentenceOrder(order, ents) && AssignAll(segs, ents, order).Ok?
    ensures var out := AssignAll(segs, ents, order).value;
      && out.Keys == segs.Keys
      && (forall p :: p in segs ==> out[p].Keys == segs[p].Keys)
      && (forall p, s :: p in segs && s in segs[p] && !(p in ents && s in ents[p]) ==> out[p][s] == segs[p][s])
      && (forall p, s :: p in ents && s in ents[p] ==> SentenceLabelled(segs, ents, out, p, s))
  {
    AssignAllShape(segs, ents, order);
    AssignAllUnlisted(segs, ents, order);
    AssignAllListed(segs, ents, order);
    forall p, s | p in segs && s in segs[p] && !(p in ents && s in ents[p]) ensures (p, s) !in order {
      assert forall k :: 0 <= k < |order| ==> order[k] != (p, s);
    }
    forall p, s | p in ents && s in ents[p] ensures exists k :: 0 <= k < |order| && order[k] == (p, s) {
      assert (p, s) in order;
    }
  }

  /** Labelling sentence `s` of `p` keeps every other sentence's labelling. */
  lemma LabelledKept(segs: Segments, ents: SentenceEntities, cur: Segments, p: string, s: string,
                     lab: map<string, Token>, q: string, t: string)
    requires q in ents && t in ents[q] && (q, t) != (p, s) && p in cur
    requires SentenceLabelled(segs, ents, cur, q, t)
    ensures SentenceLabelled(segs, ents, cur[p := cur[p][s := lab]], q, t)
  {
  }

  // ---------------------------------------------------------------------
  // split_dataset

  datatype Splits<T> = Splits(train: seq<T>, dev: seq<T>, test: seq<T>)

  /** The slicing of `split_dataset` for given sizes. */
  function SplitDataset<T>(dataset: seq<T>, trainSize: nat, devSize: nat): Splits<T> {
    Splits(Slice(dataset, 0, trainSize), Slice(dataset, trainSize, trainSize + devSize), SliceFrom(dataset, trainSize + devSize))
  }

  /** The three parts are consecutive, clamped slices that together give back the (shuffled) input. */
  lemma SplitDatasetMeaning<T>(dataset: seq<T>, trainSize: nat, devSize: nat)
    ensures var r := SplitDataset(dataset, trainSize, devSize);
      && r.train + r.dev + r.test == dataset
      && |r.train| == Min(trainSize, |dataset|)
      && |r.dev| == Min(devSize, |dataset| - |r.train|)
      && |r.test| == |dataset| - |r.train| - |r.dev|
  {
    var r := SplitDataset(dataset, trainSize, devSize);
    var ab := trainSize + devSize;
    SliceConcat(dataset, 0, trainSize, ab);
    if ab <= |dataset| {
      SliceConcat(dataset, 0, ab, |dataset|);
    }
    SliceBetween(dataset, 0, |dataset|);
  }
}
