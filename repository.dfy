/** The record store: the whole todo collection, read in full and written back
    in full around every change, with its Create, Update and Delete operations. */
module Repository {
  import opened Model
  import opened Utilities

  // ---------------------------------------------------------------------------
  // Specification of the store operations, on the collection as a value
  // ---------------------------------------------------------------------------

  /** Position of the first record whose identifier is `id`, or -1 when no
      record has it. */
  function FirstIndexOf(toDos: seq<ToDo>, id: int): (k: int)
    ensures -1 <= k < |toDos|
    ensures k >= 0 ==> toDos[k].id == id && forall j :: 0 <= j < k ==> toDos[j].id != id
    ensures k == -1 <==> forall j :: 0 <= j < |toDos| ==> toDos[j].id != id
  {
    if |toDos| == 0 then -1
    else if toDos[0].id == id then 0
    else
      var k := FirstIndexOf(toDos[1..], id);
      assert forall j :: 1 <= j < |toDos| ==> toDos[j] == toDos[1..][j - 1];
      if k < 0 then -1 else k + 1
  }

  /** Every record carries one of the permitted statuses. */
  predicate AllStatusesValid(toDos: seq<ToDo>)
  {
    forall i :: 0 <= i < |toDos| ==> ValidateStatus(toDos[i].status)
  }

  /** The collection after creating a record: a new record, with a freshly
      allocated identifier and the status exactly as given, at the end. */
  function Created(toDos: seq<ToDo>, description: string, status: string): seq<ToDo>
  {
    toDos + [ToDo(NextId(toDos), description, status)]
  }

  /** The collection after an update: the first record with the identifier of
      `toDo` takes its description and status; nothing happens when that
      identifier is not positive or not present. */
  function Updated(toDos: seq<ToDo>, toDo: ToDo): seq<ToDo>
  {
    if toDo.id <= 0 then toDos
    else
      var k := FirstIndexOf(toDos, toDo.id);
      if k < 0 then toDos
      else toDos[k := toDos[k].(description := toDo.description, status := toDo.status)]
  }

  /** The collection after a delete: the first record with identifier `id` is
      cut out; nothing happens when `id` is not positive or not present. */
  function Deleted(toDos: seq<ToDo>, id: int): seq<ToDo>
  {
    if id <= 0 then toDos
    else
      var k := FirstIndexOf(toDos, id);
      if k < 0 then toDos else toDos[..k] + toDos[k + 1..]
  }

  // ---------------------------------------------------------------------------
  // The scan shared by Update and Delete
  // ---------------------------------------------------------------------------

  /** Linear scan for the first record with identifier `id`, stopping at the
      first match; -1 when there is none. */
  method IndexOf(toDos: seq<ToDo>, id: int) returns (currIndx: int)
    ensures currIndx == FirstIndexOf(toDos, id)
    ensures currIndx >= 0 <==> id in Ids(toDos)
  {
    currIndx := -1;
    var i := 0;
    while i < |toDos|
      invariant 0 <= i <= |toDos|
      invariant currIndx == -1
      invariant forall j :: 0 <= j < i ==> toDos[j].id != id
    {
      if toDos[i].id == id {
        currIndx := i;
        break;
      }
      i := i + 1;
    }
    IdsMembership(toDos, id);
  }

  /** An identifier is in the collection exactly when some record carries it. */
  lemma IdsMembership(toDos: seq<ToDo>, id: int)
    ensures id in Ids(toDos) <==> FirstIndexOf(toDos, id) >= 0
  {
    if id in Ids(toDos) {
      var j :| 0 <= j < |toDos| && toDos[j].id == id;
    }
  }

  // ---------------------------------------------------------------------------
  // Properties of Create
  // ---------------------------------------------------------------------------

  /** Create keeps the earlier records in place and in order, appends exactly
      one record whose identifier is new, and a lookup of that identifier then
      finds the record with the given description and status. */
  lemma CreatedAppendsFreshRecord(toDos: seq<ToDo>, description: string, status: string)
    ensures |Created(toDos, description, status)| == |toDos| + 1
    ensures Created(toDos, description, status)[..|toDos|] == toDos
    ensures NextId(toDos) >= 1 && NextId(toDos) !in Ids(toDos)
    ensures var k := FirstIndexOf(Created(toDos, description, status), NextId(toDos));
            k == |toDos| &&
            Created(toDos, description, status)[k] == ToDo(NextId(toDos), description, status)
  {
    NextIdFresh(toDos);
    var r := Created(toDos, description, status);
    assert forall j :: 0 <= j < |toDos| ==> r[j].id != NextId(toDos);
    assert r[|toDos|].id == NextId(toDos);
  }

  /** Create keeps identifiers unique. */
  lemma CreatedKeepsIdsUnique(toDos: seq<ToDo>, description: string, status: string)
    requires UniqueIds(toDos)
    ensures UniqueIds(Created(toDos, description, status))
  {
    NextIdFresh(toDos);
  }

  /** Create stores the status unchecked: only a caller that validated it keeps
      every stored status valid. */
  lemma CreatedKeepsStatusesValid(toDos: seq<ToDo>, description: string, status: string)
    requires AllStatusesValid(toDos)
    ensures AllStatusesValid(Created(toDos, description, status)) <==> ValidateStatus(status)
  {
    var r := Created(toDos, description, status);
    assert r[|toDos|].status == status;
  }

  // ---------------------------------------------------------------------------
  // Properties of Update
  // ---------------------------------------------------------------------------

  /** Update leaves the collection as it was when the identifier is not
      positive or is not present. */
  lemma UpdatedAbsentIsNoOp(toDos: seq<ToDo>, toDo: ToDo)
    requires toDo.id <= 0 || toDo.id !in Ids(toDos)
    ensures Updated(toDos, toDo) == toDos
  {
    IdsMembership(toDos, toDo.id);
  }

  /** Update of a present identifier rewrites the description and status of
      the first matching record only: its identifier, the length and every
      other record stay the same, and a lookup then finds the new values. */
  lemma UpdatedChangesFirstMatchOnly(toDos: seq<ToDo>, toDo: ToDo)
    requires toDo.id > 0 && toDo.id in Ids(toDos)
    ensures var k := FirstIndexOf(toDos, toDo.id);
            var r := Updated(toDos, toDo);
            0 <= k && |r| == |toDos| &&
            r[k] == ToDo(toDos[k].id, toDo.description, toDo.status) &&
            (forall j :: 0 <= j < |toDos| && j != k ==> r[j] == toDos[j]) &&
            FirstIndexOf(r, toDo.id) == k
  {
    IdsMembership(toDos, toDo.id);
  }

  /** Update never writes an identifier, so it keeps them unique. */
  lemma UpdatedKeepsIdsUnique(toDos: seq<ToDo>, toDo: ToDo)
    requires UniqueIds(toDos)
    ensures Ids(Updated(toDos, toDo)) == Ids(toDos)
    ensures UniqueIds(Updated(toDos, toDo))
  {
    var r := Updated(toDos, toDo);
    assert |r| == |toDos| && forall j :: 0 <= j < |r| ==> r[j].id == toDos[j].id;
    assert Ids(r) == Ids(toDos) by {
      forall x | x in Ids(r) ensures x in Ids(toDos) {
        var j :| 0 <= j < |r| && r[j].id == x;
      }
      forall x | x in Ids(toDos) ensures x in Ids(r) {
        var j :| 0 <= j < |toDos| && toDos[j].id == x;
      }
    }
  }

  /** An update with a valid status keeps every stored status valid. */
  lemma UpdatedKeepsStatusesValid(toDos: seq<ToDo>, toDo: ToDo)
    requires AllStatusesValid(toDos) && ValidateStatus(toDo.status)
    ensures AllStatusesValid(Updated(toDos, toDo))
  {
  }

  // ---------------------------------------------------------------------------
  // Properties of Delete
  // ---------------------------------------------------------------------------

  /** Delete leaves the collection as it was when the identifier is not
      positive or is not present. */
  lemma DeletedAbsentIsNoOp(toDos: seq<ToDo>, id: int)
    requires id <= 0 || id !in Ids(toDos)
    ensures Deleted(toDos, id) == toDos
  {
    IdsMembership(toDos, id);
  }

  /** Cutting position `k` out of a collection: position `j` of the result `r`
      is position `j` of the collection before the cut and `j + 1` from it on. */
  lemma CutIndex(toDos: seq<ToDo>, k: int, r: seq<ToDo>)
    requires 0 <= k < |toDos| && r == toDos[..k] + toDos[k + 1..]
    ensures |r| == |toDos| - 1
    ensures forall j :: 0 <= j < |r| ==> r[j] == toDos[if j < k then j else j + 1]
  {
  }

  /** Delete of a present identifier cuts out the first matching record. */
  lemma DeletedIsCut(toDos: seq<ToDo>, id: int)
    requires id > 0 && id in Ids(toDos)
    ensures var k := FirstIndexOf(toDos, id);
            0 <= k && toDos[k].id == id && Deleted(toDos, id) == toDos[..k] + toDos[k + 1..]
  {
    IdsMembership(toDos, id);
  }

  /** Delete of a present identifier removes exactly the first matching record:
      one record fewer, the others in their original order. */
  lemma DeletedRemovesFirstMatch(toDos: seq<ToDo>, id: int)
    requires id > 0 && id in Ids(toDos)
    ensures var k := FirstIndexOf(toDos, id);
            var r := Deleted(toDos, id);
            0 <= k && toDos[k].id == id && |r| == |toDos| - 1 &&
            (forall j :: 0 <= j < k ==> r[j] == toDos[j]) &&
            (forall j :: k <= j < |r| ==> r[j] == toDos[j + 1])
  {
    DeletedIsCut(toDos, id);
    CutIndex(toDos, FirstIndexOf(toDos, id), Deleted(toDos, id));
  }

  /** What Delete removes is exactly one record, the first match: the result
      together with that record is a permutation of the original. */
  lemma DeletedRemovesOneRecord(toDos: seq<ToDo>, id: int)
    requires id > 0 && id in Ids(toDos)
    ensures var k := FirstIndexOf(toDos, id);
            0 <= k && multiset(Deleted(toDos, id)) + multiset{toDos[k]} == multiset(toDos)
  {
    DeletedIsCut(toDos, id);
    var k := FirstIndexOf(toDos, id);
    assert toDos == toDos[..k] + [toDos[k]] + toDos[k + 1..];
  }

  /** Removal only shrinks the collection, so identifiers stay unique, and the
      deleted identifier is then gone. */
  lemma DeletedKeepsIdsUnique(toDos: seq<ToDo>, id: int)
    requires UniqueIds(toDos)
    ensures UniqueIds(Deleted(toDos, id))
    ensures id > 0 ==> id !in Ids(Deleted(toDos, id))
    ensures Ids(Deleted(toDos, id)) <= Ids(toDos)
  {
    if id > 0 && id in Ids(toDos) {
      DeletedIsCut(toDos, id);
      var k := FirstIndexOf(toDos, id);
      var r := toDos[..k] + toDos[k + 1..];
      CutIndex(toDos, k, r);
      assert UniqueIds(r) by {
        forall a, b | 0 <= a < b < |r| ensures r[a].id != r[b].id {
          var ma := if a < k then a else a + 1;
          var mb := if b < k then b else b + 1;
          assert r[a] == toDos[ma] && r[b] == toDos[mb] && ma < mb;
        }
      }
      assert Ids(r) <= Ids(toDos) && id !in Ids(r) by {
        forall x | x in Ids(r) ensures x in Ids(toDos) && x != id {
          var j :| 0 <= j < |r| && r[j].id == x;
          var m := if j < k then j else j + 1;
          assert toDos[m].id == x && m != k;
        }
      }
    } else {
      DeletedAbsentIsNoOp(toDos, id);
    }
  }

  /** Delete keeps every stored status valid. */
  lemma DeletedKeepsStatusesValid(toDos: seq<ToDo>, id: int)
    requires AllStatusesValid(toDos)
    ensures AllStatusesValid(Deleted(toDos, id))
  {
    if id > 0 && id in Ids(toDos) {
      DeletedIsCut(toDos, id);
      CutIndex(toDos, FirstIndexOf(toDos, id), Deleted(toDos, id));
    } else {
      DeletedAbsentIsNoOp(toDos, id);
    }
  }

  /** The worked example: delete record 1 from two records, then create one;
      the new record gets identifier 3 and the identifiers left are 2 and 3. */
  lemma DeleteThenCreateExample()
    ensures var start := [ToDo(1, "a", "STARTED"), ToDo(2, "b", "COMPLETED")];
            var afterDelete := Deleted(start, 1);
            afterDelete == [ToDo(2, "b", "COMPLETED")] &&
            Created(afterDelete, "c", "NOT STARTED") ==
              [ToDo(2, "b", "COMPLETED"), ToDo(3, "c", "NOT STARTED")]
  {
    var start := [ToDo(1, "a", "STARTED"), ToDo(2, "b", "COMPLETED")];
    assert FirstIndexOf(start, 1) == 0;
    var afterDelete := [ToDo(2, "b", "COMPLETED")];
    assert Deleted(start, 1) == afterDelete;
    assert afterDelete[..0] == [];
    assert NextId(afterDelete) == 3;
  }

  // ---------------------------------------------------------------------------
  // The store
  // ---------------------------------------------------------------------------

  /** The todo store. The field stands for the data file: loading reads it,
      saving replaces it, so an operation that does not save leaves it as it was. */
  class Store {
    var todos: seq<ToDo>

    constructor (initial: seq<ToDo>)
      ensures todos == initial
    {
      todos := initial;
    }

    /** Reads the whole collection. */
    method LoadAll() returns (toDos: seq<ToDo>)
      ensures toDos == todos
    {
      toDos := todos;
    }

    /** Overwrites the whole collection. */
    method SaveAll(toDos: seq<ToDo>)
      modifies this
      ensures todos == toDos
    {
      todos := toDos;
    }

    /** Appends a record with the next identifier and the given description
      and status, then saves. */
    method Create(description: string, status: string)
      modifies this
      ensures todos == Created(old(todos), description, status)
      ensures UniqueIds(old(todos)) ==> UniqueIds(todos)
      ensures AllStatusesValid(old(todos)) && ValidateStatus(status) ==> AllStatusesValid(todos)
    {
      var toDos := LoadAll();
      var nextId := GetNextId(toDos);
      var toDo := ToDo(nextId, description, status);
      toDos := toDos + [toDo];
      SaveAll(toDos);
      if UniqueIds(old(todos)) {
        CreatedKeepsIdsUnique(old(todos), description, status);
      }
      if AllStatusesValid(old(todos)) {
        CreatedKeepsStatusesValid(old(todos), description, status);
      }
    }

    /** Overwrites description and status of the first record with the
      identifier of `toDo`, then saves; does nothing, and saves nothing, when
      that identifier is not positive or cannot be found. */
    method Update(toDo: ToDo)
      modifies this
      ensures todos == Updated(old(todos), toDo)
      ensures toDo.id <= 0 || toDo.id !in Ids(old(todos)) ==> todos == old(todos)
      ensures UniqueIds(old(todos)) ==> UniqueIds(todos)
      ensures AllStatusesValid(old(todos)) && ValidateStatus(toDo.status) ==> AllStatusesValid(todos)
    {
      if toDo.id <= 0 {
        return;
      }
      var toDos := LoadAll();
      var currIndx := IndexOf(toDos, toDo.id);
      if currIndx > -1 {
        toDos := toDos[currIndx := toDos[currIndx].(description := toDo.description)];
        toDos := toDos[currIndx := toDos[currIndx].(status := toDo.status)];
        SaveAll(toDos);
      }
      if UniqueIds(old(todos)) {
        UpdatedKeepsIdsUnique(old(todos), toDo);
      }
    }

    /** Removes the first record with identifier `id`, keeping the others in
      order, then saves; does nothing, and saves nothing, when `id` is not
      positive or cannot be found. */
    method Delete(id: int)
      modifies this
      ensures todos == Deleted(old(todos), id)
      ensures id <= 0 || id !in Ids(old(todos)) ==> todos == old(todos)
      ensures UniqueIds(old(todos)) ==> UniqueIds(todos)
      ensures AllStatusesValid(old(todos)) ==> AllStatusesValid(todos)
    {
      if id <= 0 {
        return;
      }
      var toDos := LoadAll();
      var currIndx := IndexOf(toDos, id);
      if currIndx > -1 {
        var newToDos := toDos[..currIndx] + toDos[currIndx + 1..];
        SaveAll(newToDos);
      }
      if UniqueIds(old(todos)) {
        DeletedKeepsIdsUnique(old(todos), id);
      }
      if AllStatusesValid(old(todos)) {
        DeletedKeepsStatusesValid(old(todos), id);
      }
    }
  }
}
