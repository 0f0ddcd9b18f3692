/** The master's map from namespaces to network IDs.  Namespaces may share an
    ID, and the allocator must hold exactly the IDs in use. */
module Vnids {
  import opened Wrappers
  import opened NetID

  datatype Action = Global | Join(name: string) | Isolate

  /** The namespaces with an ID. */
  function Holders(ids: map<string, nat>, id: nat): set<string> {
    set n | n in ids && ids[n] == id
  }

  /** An ID of the range that no namespace has. */
  ghost predicate Unheld(range: NetIDRange, ids: map<string, nat>, id: nat) {
    OffsetOf(range, id).Some? && Holders(ids, id) == {}
  }

  ghost predicate AllHeld(range: NetIDRange, ids: map<string, nat>) {
    forall id: nat {:trigger Holders(ids, id)} | OffsetOf(range, id).Some? :: Holders(ids, id) != {}
  }

  /** The ID a new namespace may get. */
  ghost predicate Issued(range: NetIDRange, admins: set<string>, ids: map<string, nat>, ns: string, id: nat) {
    if ns in admins then id == GLOBAL_VNID else Unheld(range, ids, id)
  }

  ghost function HoldersAmong(ids: map<string, nat>, id: nat, names: set<string>): set<string> {
    set n | n in names && n in ids && ids[n] == id
  }

  lemma AmongNone(ids: map<string, nat>, id: nat)
    ensures HoldersAmong(ids, id, {}) == {}
  {
  }

  lemma AmongMore(ids: map<string, nat>, id: nat, names: set<string>, n: string)
    requires n in ids && n !in names
    ensures |HoldersAmong(ids, id, names + {n})| == |HoldersAmong(ids, id, names)| + if ids[n] == id then 1 else 0
  {
    assert HoldersAmong(ids, id, names + {n}) == HoldersAmong(ids, id, names) + if ids[n] == id then {n} else {};
  }

  lemma AmongAll(ids: map<string, nat>, id: nat)
    ensures HoldersAmong(ids, id, ids.Keys) == Holders(ids, id)
  {
  }

  class MasterVNIDMap {
    const manager: Allocator
    const adminNamespaces: set<string>
    var ids: map<string, nat>

    ghost predicate Ready()
      reads this, manager
    {
      manager.Valid() && Proper(manager.range)
    }

    /** The allocator holds exactly the IDs of its range that some namespace has. */
    ghost predicate Exact()
      reads this, manager
    {
      ExactBut({})
    }

    /** As `Exact`, with the IDs of `extra` set apart for a namespace. */
    ghost predicate ExactBut(extra: set<nat>)
      reads this, manager
    {
      ExactFor(manager.Taken(), manager.range, ids, extra)
    }

    ghost predicate Valid()
      reads this, manager
    {
      Ready() && Exact()
    }

    constructor ()
      ensures Valid() && ids == map[] && adminNamespaces == {"default"} && fresh(manager)
      ensures manager.range == NetIDRange(MIN_VNID, MAX_VNID - MIN_VNID + 1)
    {
      var r := MakeRange(MIN_VNID, Wrap32(MAX_VNID - MIN_VNID + 1));
      manager := new Allocator(r.value);
      adminNamespaces, ids := {"default"}, map[];
    }

    /** How many namespaces have the ID. */
    method GetVNIDCount(id: nat) returns (count: nat)
      ensures count == |Holders(ids, id)|
    {
      hide HoldersAmong;
      count := 0;
      var todo := ids.Keys;
      ghost var done: set<string> := {};
      AmongNone(ids, id);
      while todo != {}
        invariant done + todo == ids.Keys && done !! todo
        invariant count == |HoldersAmong(ids, id, done)|
      {
        var n :| n in todo;
        AmongMore(ids, id, done, n);
        todo, done := todo - {n}, done + {n};
        if ids[n] == id {
          count := count + 1;
        }
      }
      assert done == ids.Keys;
      AmongAll(ids, id);
    }

    /** Records an ID found at start-up; sharing one is expected. */
    method MarkAllocatedNetID(id: nat) returns (r: Result<(), Error>)
      requires Ready()
      modifies manager
      ensures Ready()
      ensures r.Err? <==> id != GLOBAL_VNID && OffsetOf(manager.range, id).None?
      ensures manager.Taken() == old(manager.Taken()) + if OffsetOf(manager.range, id).Some? then {id} else {}
    {
      if id == GLOBAL_VNID {
        return Ok(());
      }
      var res := manager.Allocate(id);
      match res
      case Ok(_) => return Ok(());
      case Err(Allocated) => return Ok(());
      case Err(e) => return Err(e);
    }

    /** Start-up: every listed namespace gets its recorded ID. */
    method InitNetIDAllocator(list: seq<(string, nat)>)
      requires Valid() && ids == map[] && Distinct(list)
      modifies this, manager
      ensures Valid() && ids == ListedIds(list)
    {
      for i := 0 to |list|
        invariant Valid() && ids == ListedIds(list[..i])
      {
        var r := MarkAllocatedNetID(list[i].1);
        ListedNames(list[..i], list[i].0);
        assert forall j | 0 <= j < i :: list[..i][j] == list[j];
        HoldersSet(ids, list[i].0, list[i].1);
        ids := ids[list[i].0 := list[i].1];
        assert list[..i + 1][..i] == list[..i];
      }
      assert list[..|list|] == list;
    }

    /** The namespace's ID; a new one, unlike any other's, unless it has one or is an admin namespace. */
    method AllocateNetID(ns: string) returns (r: Result<nat, Error>)
      requires Valid()
      modifies this, manager
      ensures Valid()
      ensures r.Err? ==> ids == old(ids) && manager.Taken() == old(manager.Taken())
      ensures r.Ok? ==> ids == old(ids)[ns := r.value]
      ensures r.Ok? && ns !in old(ids) && ns !in adminNamespaces ==>
                Holders(ids, r.value) == {ns} && r.value != GLOBAL_VNID
      ensures r.Ok? && ns !in old(ids) ==> Issued(manager.range, adminNamespaces, old(ids), ns, r.value)
      ensures ns in old(ids) ==> r.Ok? && ids == old(ids)
      ensures r.Err? ==> ns !in adminNamespaces && AllHeld(manager.range, ids)
    {
      if ns in ids {
        return Ok(ids[ns]);
      }
      var id := GLOBAL_VNID;
      if ns !in adminNamespaces {
        var res := manager.AllocateNext();
        if res.Err? {
          return Err(res.error);
        }
        id := res.value;
      }
      HoldersSet(ids, ns, id);
      ids := ids[ns := id];
      return Ok(id);
    }

    /** Forgets the namespace's ID, and frees the ID when nobody else has it. */
    method ReleaseNetID(ns: string, ghost extra: set<nat>) returns (r: Result<(), Error>)
      requires Ready() && ExactBut(extra) && forall id | id in extra :: Holders(ids, id) == {}
      modifies this, manager
      ensures Ready() && ExactBut(extra) && ids == old(ids) - {ns} && (r.Ok? <==> ns in old(ids))
    {
      if ns !in ids {
        assert ids - {ns} == ids;
        return Err(NotFound);
      }
      var id := ids[ns];
      assert ns in Holders(ids, id);
      HoldersUnset(ids, ns);
      ids := ids - {ns};
      if id == GLOBAL_VNID {
        return Ok(());
      }
      var count := GetVNIDCount(id);
      if count == 0 {
        manager.Release(id);
      }
      return Ok(());
    }

    /** The new ID of a namespace that has one.  `extra` holds it while it is set apart. */
    method ChooseNetID(ns: string, action: Action) returns (r: Result<nat, Error>, keep: bool, ghost extra: set<nat>)
      requires Valid() && ns in ids
      modifies manager
      ensures Ready() && ExactBut(extra) && AnswersChange(manager.range, ids, ns, action, r)
      ensures extra == {} || (r.Ok? && action.Isolate? && extra == {r.value})
      ensures extra == {} ==> manager.Taken() == old(manager.Taken())
      ensures keep <==> r.Ok? && action.Isolate? && extra == {}
      ensures (keep ==> r.value == ids[ns]) && forall x | x in extra :: Unheld(manager.range, ids, x)
    {
      var oldID := ids[ns];
      keep, extra := false, {};
      assert ns in Holders(ids, oldID);
      match action {
        case Global =>
          return Ok(GLOBAL_VNID), false, {};
        case Join(name) =>
          if name !in ids {
            return Err(NotFound), false, {};
          }
          return Ok(ids[name]), false, {};
        case Isolate =>
          if ns == "default" {
            return Err(NotAllowed), false, {};
          }
          var count := GetVNIDCount(oldID);
          if count == 1 {
            OneHolder(ids, oldID, ns);
            return Ok(oldID), true, {};
          }
          r := manager.AllocateNext();
          if r.Ok? {
            extra := {r.value};
          }
      }
    }

    /** The ID of the namespace becomes global, another's, or its own alone.  The
        allocator stays exact unless the namespace joins itself while it is the only
        one with an ID of the range. */
    method UpdateNetID(ns: string, action: Action) returns (r: Result<nat, Error>)
      requires Valid()
      modifies this, manager
      ensures Ready()
      ensures Exact() <==> !(ns in old(ids) && LosesID(manager.range, old(ids), ns, action))
      ensures if ns in old(ids) then AnswersChange(manager.range, old(ids), ns, action, r) else r.Err?
      ensures r.Err? ==> ids == old(ids) && manager.Taken() == old(manager.Taken())
      ensures r.Ok? ==> ns in old(ids) && ids == old(ids)[ns := r.value]
      ensures r.Ok? && action.Isolate? ==>
                && Holders(ids, r.value) == {ns}
                && (r.value == GLOBAL_VNID <==> old(ids)[ns] == GLOBAL_VNID && Holders(old(ids), GLOBAL_VNID) == {ns})
    {
      hide ExactFor, Holders, AnswersChange;
      if ns !in ids {
        return Err(NotFound);
      }
      ghost var extra;
      var keep;
      r, keep, extra := ChooseNetID(ns, action);
      if r.Err? {
        NoLoss(manager.range, ids, ns, action, r);
        return;
      }
      IsolatedAlone(manager.range, ids, ns, action, r.value);
      if keep {
        assert ids[ns := r.value] == ids;
        return;
      }
      var released := ReleaseNetID(ns, extra);
      assert ids[ns := r.value] == old(ids)[ns := r.value];
      KeptIff(manager.Taken(), manager.range, old(ids), ns, action, r.value, extra);
      ids := ids[ns := r.value];
    }

    /** `created` says whether the API accepted the new object; if not, everything is as before. */
    method AssignVNID(ns: string, created: bool) returns (r: Result<(), Error>)
      requires Valid()
      modifies this, manager
      ensures Valid()
      ensures r.Err? ==> ids == old(ids) && manager.Taken() == old(manager.Taken())
      ensures r.Ok? ==> ns in ids && ids == old(ids)[ns := ids[ns]]
      ensures ns in old(ids) ==> r.Ok? && ids == old(ids)
      ensures r.Ok? && ns !in old(ids) ==> created && Issued(manager.range, adminNamespaces, old(ids), ns, ids[ns])
      ensures r.Err? ==> !created || (ns !in adminNamespaces && AllHeld(manager.range, old(ids)))
    {
      var known := ns in ids;
      var res := AllocateNetID(ns);
      if res.Err? {
        return Err(res.error);
      }
      if !known {
        if !created {
          var undone := ReleaseNetID(ns, {});
          assert ids == old(ids);
          SameTaken(old(manager.Taken()), manager.Taken(), manager.range, ids);
          return Err(CreateFailed);
        }
      }
      return Ok(());
    }

    method RevokeVNID(ns: string, deleted: bool) returns (r: Result<(), Error>)
      requires Valid()
      modifies this, manager
      ensures Valid() && (r.Ok? <==> deleted && ns in old(ids))
      ensures ids == if deleted then old(ids) - {ns} else old(ids)
    {
      if !deleted {
        return Err(DeleteFailed);
      }
      r := ReleaseNetID(ns, {});
    }
  }

  /** The namespace joins itself, alone on an ID of the range. */
  ghost predicate LosesID(range: NetIDRange, ids: map<string, nat>, ns: string, action: Action)
    requires ns in ids
  {
    action == Join(ns) && OffsetOf(range, ids[ns]).Some? && Holders(ids, ids[ns]) == {ns}
  }

  lemma NoLoss(range: NetIDRange, ids: map<string, nat>, ns: string, action: Action, r: Result<nat, Error>)
    requires ns in ids && AnswersChange(range, ids, ns, action, r) && r.Err?
    ensures !LosesID(range, ids, ns, action)
  {
  }

  /** An isolated namespace is alone on its ID, which is global only if it was already so. */
  lemma IsolatedAlone(range: NetIDRange, ids: map<string, nat>, ns: string, action: Action, id: nat)
    requires ns in ids && AnswersChange(range, ids, ns, action, Ok(id)) && Proper(range)
    ensures action.Isolate? ==>
              && Holders(ids[ns := id], id) == {ns}
              && (id == GLOBAL_VNID <==> ids[ns] == GLOBAL_VNID && Holders(ids, GLOBAL_VNID) == {ns})
  {
  }

  /** Giving up the old ID and taking the new one keeps exactness iff the new ID is not lost on the way. */
  lemma KeptIff(taken: set<nat>, range: NetIDRange, ids: map<string, nat>, ns: string, action: Action, id: nat,
                extra: set<nat>)
    requires ns in ids && AnswersChange(range, ids, ns, action, Ok(id)) && Proper(range) && extra <= {id}
    requires if action.Isolate? then extra == {id} && Unheld(range, ids, id) else extra == {}
    requires ExactFor(taken, range, ids - {ns}, extra)
    ensures ExactFor(taken, range, ids[ns := id], {}) <==> !LosesID(range, ids, ns, action)
  {
    HoldersUnset(ids, ns);
    assert (ids - {ns})[ns := id] == ids[ns := id];
    ExactAfterSet(taken, range, ids - {ns}, ns, id, extra);
    match action
    case Global => assert OffsetOf(range, GLOBAL_VNID).None?;
    case Isolate => assert id in taken;
    case Join(name) =>
      assert name in Holders(ids, id) && (name != ns ==> name in Holders(ids - {ns}, id));
      assert id in taken <==> OffsetOf(range, id).Some? && Holders(ids - {ns}, id) != {};
  }

  ghost predicate ExactFor(taken: set<nat>, range: NetIDRange, ids: map<string, nat>, extra: set<nat>) {
    forall id: nat {:trigger id in taken} ::
        id in taken <==> OffsetOf(range, id).Some? && (Holders(ids, id) != {} || id in extra)
  }

  /** Handing out an ID keeps exactness iff the ID is taken or outside the range. */
  lemma ExactAfterSet(taken: set<nat>, range: NetIDRange, ids: map<string, nat>, ns: string, id: nat, extra: set<nat>)
    requires ExactFor(taken, range, ids, extra) && ns !in ids && extra <= {id}
    ensures ExactFor(taken, range, ids[ns := id], {}) <==> OffsetOf(range, id).None? || id in taken
  {
    HoldersSet(ids, ns, id);
    assert ns in Holders(ids[ns := id], id);
    if OffsetOf(range, id).Some? && id !in taken {
      assert !(id in taken <==> OffsetOf(range, id).Some? && (Holders(ids[ns := id], id) != {} || id in {}));
    }
  }

  /** Two sets that are both exact for the same IDs are equal. */
  lemma SameTaken(a: set<nat>, b: set<nat>, range: NetIDRange, ids: map<string, nat>)
    requires ExactFor(a, range, ids, {}) && ExactFor(b, range, ids, {})
    ensures a == b
  {
  }

  lemma OneHolder(ids: map<string, nat>, id: nat, ns: string)
    requires ns in Holders(ids, id) && |Holders(ids, id)| == 1
    ensures Holders(ids, id) == {ns}
  {
    assert |Holders(ids, id) - {ns}| == 0;
  }

  lemma HoldersSet(ids: map<string, nat>, ns: string, id: nat)
    requires ns !in ids
    ensures forall x: nat {:trigger Holders(ids[ns := id], x)} ::
        Holders(ids[ns := id], x) == Holders(ids, x) + if x == id then {ns} else {}
  {
  }

  lemma HoldersUnset(ids: map<string, nat>, ns: string)
    requires ns in ids
    ensures forall x: nat {:trigger Holders(ids - {ns}, x)} ::
        Holders(ids - {ns}, x) == Holders(ids, x) - if x == ids[ns] then {ns} else {}
  {
  }

  /** A namespace alone on its ID joins itself: the ID is in use and free at once. */
  method JoinItself() returns (m: MasterVNIDMap)
    ensures fresh(m) && m.Ready() && !m.Exact() && m.ids == map["a" := 10]
  {
    m := new MasterVNIDMap();
    var list := [("a", 10)];
    m.InitNetIDAllocator(list);
    assert list[..0] == [];
    assert m.ids == map["a" := 10];
    assert Holders(m.ids, 10) == {"a"};
    var r := m.UpdateNetID("a", Join("a"));
    assert r.Ok?;
  }

  /** `created` and `deleted` say whether the API call that goes with it succeeds. */
  datatype Op = Assign(ns: string, created: bool) | Revoke(ns: string, deleted: bool) | Change(ns: string,
      action: Action)

  ghost predicate AnswersAssign(range: NetIDRange, ids: map<string, nat>, ns: string, created: bool,
                                answer: Result<nat, Error>) {
    if ns in ids then answer == Ok(ids[ns])
    else if answer.Ok? then created && Issued(range, {"default"}, ids, ns, answer.value)
    else !created || (ns != "default" && AllHeld(range, ids))
  }

  ghost predicate AnswersChange(range: NetIDRange, ids: map<string, nat>, ns: string, action: Action,
                                answer: Result<nat, Error>)
    requires ns in ids
  {
    match action
    case Global => answer == Ok(GLOBAL_VNID)
    case Join(name) => if name in ids then answer == Ok(ids[name]) else answer.Err?
    case Isolate =>
      if ns == "default" then answer.Err?
      else if Holders(ids, ids[ns]) == {ns} then answer == Ok(ids[ns])
      else if answer.Ok? then Unheld(range, ids, answer.value)
      else AllHeld(range, ids)
  }

  /** What the master may answer: the ID the namespace then has or had, or an error. */
  ghost predicate Answers(range: NetIDRange, ids: map<string, nat>, op: Op, answer: Result<nat, Error>) {
    match op
    case Assign(ns, created) => AnswersAssign(range, ids, ns, created, answer)
    case Revoke(ns, deleted) => if deleted && ns in ids then answer == Ok(ids[ns]) else answer.Err?
    case Change(ns, action) => if ns in ids then AnswersChange(range, ids, ns, action, answer) else answer.Err?
  }

  /** The map after one answered operation. */
  function IdsStep(ids: map<string, nat>, op: Op, answer: Result<nat, Error>): map<string, nat> {
    if op.Revoke? then if op.deleted then ids - {op.ns} else ids
    else if answer.Ok? then ids[op.ns := answer.value]
    else ids
  }

  /** The IDs of a list; a later entry overrides an earlier one. */
  function ListedIds(list: seq<(string, nat)>): map<string, nat> {
    if list == [] then map[] else ListedIds(list[..|list| - 1])[list[|list| - 1].0 := list[|list| - 1].1]
  }

  lemma {:induction false} ListedNames(list: seq<(string, nat)>, name: string)
    ensures name in ListedIds(list) ==> exists i | 0 <= i < |list| :: list[i].0 == name
    decreases |list|
  {
    if list != [] {
      var n := |list| - 1;
      ListedNames(list[..n], name);
      assert forall i | 0 <= i < n :: list[..n][i] == list[i];
      assert list[n].0 == list[n].0;
    }
  }

  /** The map that the answers of a run add up to. */
  function IdsAfter(ids: map<string, nat>, ops: seq<Op>, answers: seq<Result<nat, Error>>): map<string, nat>
    requires |ops| == |answers|
  {
    if ops == [] then ids
    else
      var n := |ops| - 1;
      IdsStep(IdsAfter(ids, ops[..n], answers[..n]), ops[n], answers[n])
  }

  /** Over every run in which no namespace joins itself: the map is what the list and the
      answers add up to, every answer was the right one for the map of its time, and the
      allocator holds exactly the IDs of its range that the map has. */
  method Serve(list: seq<(string, nat)>, ops: seq<Op>) returns (m: MasterVNIDMap, answers: seq<Result<nat, Error>>)
    requires Distinct(list)
    requires forall i | 0 <= i < |ops| && ops[i].Change? :: ops[i].action != Join(ops[i].ns)
    ensures fresh(m) && m.Valid() && |answers| == |ops|
    ensures m.manager.range == NetIDRange(MIN_VNID, MAX_VNID - MIN_VNID + 1)
    ensures m.ids == IdsAfter(ListedIds(list), ops, answers)
    ensures forall i | 0 <= i < |ops| ::
              Answers(m.manager.range, IdsAfter(ListedIds(list), ops[..i], answers[..i]), ops[i], answers[i])
  {
    hide ExactFor, Proper, ListedIds, Answers, IdsStep, Distinct;
    m := new MasterVNIDMap();
    m.InitNetIDAllocator(list);
    answers := [];
    ghost var start := ListedIds(list);
    for i := 0 to |ops|
      invariant fresh(m) && fresh(m.manager) && m.Valid() && m.adminNamespaces == {"default"} && |answers| == i
      invariant m.manager.range == NetIDRange(MIN_VNID, MAX_VNID - MIN_VNID + 1)
      invariant m.ids == IdsAfter(start, ops[..i], answers)
      invariant forall j | 0 <= j < i ::
          Answers(m.manager.range, IdsAfter(start, ops[..j], answers[..j]), ops[j], answers[j])
    {
      var answer := Perform(m, ops[i]);
      assert ops[..i + 1][..i] == ops[..i] && (answers + [answer])[..i] == answers;
      assert forall j | 0 <= j < i :: (answers + [answer])[..j] == answers[..j];
      answers := answers + [answer];
    }
    assert ops[..|ops|] == ops && answers[..|ops|] == answers;
  }

  ghost predicate Distinct(list: seq<(string, nat)>) {
    forall i, j {:trigger list[i], list[j]} | 0 <= i < j < |list| :: list[i].0 != list[j].0
  }

  method Perform(m: MasterVNIDMap, op: Op) returns (answer: Result<nat, Error>)
    requires m.Valid() && m.adminNamespaces == {"default"} && (op.Change? ==> op.action != Join(op.ns))
    modifies m, m.manager
    ensures m.Valid() && m.ids == IdsStep(old(m.ids), op, answer) && Answers(m.manager.range, old(m.ids), op, answer)
  {
    hide ExactFor, Proper, Holders, AllHeld, Unheld;
    match op
    case Assign(ns, created) =>
      var r := m.AssignVNID(ns, created);
      answer := if r.Ok? then Ok(m.ids[ns]) else Err(r.error);
    case Revoke(ns, deleted) =>
      var known := if ns in m.ids then Ok(m.ids[ns]) else Err(NotFound);
      var r := m.RevokeVNID(ns, deleted);
      answer := if r.Ok? then known else Err(r.error);
    case Change(ns, action) =>
      answer := m.UpdateNetID(ns, action);
  }
}
