/** Helpers of the store: the identifier allocator and the status check. */
module Utilities {
  import opened Model

  /** The three permitted status strings. Matching is exact, so case matters. */
  const StatusCompleted: string := "COMPLETED"
  const StatusNotStarted: string := "NOT STARTED"
  const StatusStarted: string := "STARTED"

  // ---------------------------------------------------------------------------
  // Identifier allocation
  // ---------------------------------------------------------------------------

  /** The running maximum the allocator keeps, after scanning `toDos` from the
      front; it starts at 0, so identifiers that are not positive never raise it. */
  function MaxId(toDos: seq<ToDo>): int
  {
    if |toDos| == 0 then 0
    else
      var highCount := MaxId(toDos[..|toDos| - 1]);
      if toDos[|toDos| - 1].id > highCount then toDos[|toDos| - 1].id else highCount
  }

  /** The identifier the store gives the next record it creates. */
  function NextId(toDos: seq<ToDo>): int
  {
    if |toDos| == 0 then 1 else MaxId(toDos) + 1
  }

  /** The allocator scan: one pass keeping the largest identifier seen so far. */
  method GetNextId(toDos: seq<ToDo>) returns (next: int)
    ensures next == NextId(toDos)
    ensures next >= 1
    ensures forall i :: 0 <= i < |toDos| ==> toDos[i].id < next
  {
    if |toDos| == 0 {
      return 1;
    }
    var highCount := 0;
    for i := 0 to |toDos|
      invariant highCount == MaxId(toDos[..i])
    {
      assert toDos[..i + 1][..i] == toDos[..i];
      if toDos[i].id > highCount {
        highCount := toDos[i].id;
      }
    }
    assert toDos[..|toDos|] == toDos;
    NextIdFresh(toDos);
    return highCount + 1;
  }

  /** The running maximum is at least 0, bounds every identifier, and is either
      0 or one of the identifiers. */
  lemma {:induction false} MaxIdBounds(toDos: seq<ToDo>)
    ensures MaxId(toDos) >= 0
    ensures forall i :: 0 <= i < |toDos| ==> toDos[i].id <= MaxId(toDos)
    ensures MaxId(toDos) == 0 || MaxId(toDos) in Ids(toDos)
  {
    if |toDos| > 0 {
      var front := toDos[..|toDos| - 1];
      MaxIdBounds(front);
      forall i | 0 <= i < |toDos| ensures toDos[i].id <= MaxId(toDos) {
        if i < |toDos| - 1 {
          assert toDos[i] == front[i];
        }
      }
      if MaxId(toDos) != 0 {
        if MaxId(toDos) == toDos[|toDos| - 1].id {
          assert toDos[|toDos| - 1].id in Ids(toDos);
        } else {
          var k :| 0 <= k < |front| && front[k].id == MaxId(front);
          assert toDos[k] == front[k];
          assert toDos[k].id in Ids(toDos);
        }
      }
    }
  }

  /** The new identifier is at least 1 and strictly above every identifier in
      the collection, so it never collides with an existing record. */
  lemma NextIdFresh(toDos: seq<ToDo>)
    ensures NextId(toDos) >= 1
    ensures forall i :: 0 <= i < |toDos| ==> toDos[i].id < NextId(toDos)
    ensures NextId(toDos) !in Ids(toDos)
  {
    MaxIdBounds(toDos);
  }

  /** With at least one positive identifier, the new identifier is the largest
      identifier plus one. */
  lemma NextIdIsMaxPlusOne(toDos: seq<ToDo>)
    requires exists i :: 0 <= i < |toDos| && toDos[i].id > 0
    ensures NextId(toDos) - 1 in Ids(toDos)
    ensures forall i :: 0 <= i < |toDos| ==> toDos[i].id <= NextId(toDos) - 1
  {
    MaxIdBounds(toDos);
  }

  /** When no identifier is positive (in particular for an empty collection),
      the new identifier is 1. */
  lemma NextIdWithoutPositiveIds(toDos: seq<ToDo>)
    requires forall i :: 0 <= i < |toDos| ==> toDos[i].id <= 0
    ensures NextId(toDos) == 1
  {
    MaxIdBounds(toDos);
  }

  /** The new identifier depends only on the set of identifiers, not on the
      order of the records or on repeated identifiers. */
  lemma NextIdOrderIndependent(a: seq<ToDo>, b: seq<ToDo>)
    requires Ids(a) == Ids(b)
    ensures NextId(a) == NextId(b)
  {
    assert |a| == 0 <==> |b| == 0 by {
      if |a| > 0 {
        assert a[0].id in Ids(b);
      }
      if |b| > 0 {
        assert b[0].id in Ids(a);
      }
    }
    if |a| > 0 {
      MaxIdBounds(a);
      MaxIdBounds(b);
      assert MaxId(a) <= MaxId(b) by {
        if MaxId(a) != 0 {
          var k :| 0 <= k < |b| && b[k].id == MaxId(a);
        }
      }
      assert MaxId(b) <= MaxId(a) by {
        if MaxId(b) != 0 {
          var k :| 0 <= k < |a| && a[k].id == MaxId(b);
        }
      }
    }
  }

  /** The allocator's test table: empty, ordered and unordered collections. */
  lemma NextIdTestTable()
    ensures NextId([]) == 1
    ensures NextId([ToDo(1, "description here", "COMPLETED"),
                    ToDo(2, "description here", "COMPLETED"),
                    ToDo(3, "description here", "COMPLETED")]) == 4
    ensures NextId([ToDo(3, "description here", "COMPLETED"),
                    ToDo(17, "description here", "COMPLETED"),
                    ToDo(6, "description here", "COMPLETED")]) == 18
  {
    var ordered := [ToDo(1, "description here", "COMPLETED"),
                    ToDo(2, "description here", "COMPLETED"),
                    ToDo(3, "description here", "COMPLETED")];
    assert ordered[..2][..1][..0] == [];
    assert MaxId(ordered[..2][..1]) == 1;
    assert MaxId(ordered[..2]) == 2;
    assert MaxId(ordered) == 3;
    var unordered := [ToDo(3, "description here", "COMPLETED"),
                      ToDo(17, "description here", "COMPLETED"),
                      ToDo(6, "description here", "COMPLETED")];
    assert unordered[..2][..1][..0] == [];
    assert MaxId(unordered[..2][..1]) == 3;
    assert MaxId(unordered[..2]) == 17;
    assert MaxId(unordered) == 17;
  }

  // ---------------------------------------------------------------------------
  // Status validation
  // ---------------------------------------------------------------------------

  /** True exactly for the three permitted status strings. */
  predicate ValidateStatus(status: string)
  {
    status == StatusCompleted || status == StatusNotStarted || status == StatusStarted
  }

  /** Validation accepts exactly the three permitted statuses and nothing else. */
  lemma ValidateStatusAcceptsExactly(status: string)
    ensures ValidateStatus(status) <==> status in {"COMPLETED", "NOT STARTED", "STARTED"}
  {
  }

  /** Every accepted status is written in capitals and spaces only, so a
      string holding a lower-case letter is never accepted: the check is
      case-sensitive. */
  lemma ValidateStatusCaseSensitive(status: string)
    requires ValidateStatus(status)
    ensures forall i :: 0 <= i < |status| ==> status[i] == ' ' || 'A' <= status[i] <= 'Z'
  {
    if status == StatusCompleted {
      assert status == "COMPLETED";
    } else if status == StatusNotStarted {
      assert status == "NOT STARTED";
    } else {
      assert status == "STARTED";
    }
  }

  /** The validation test table, with the mixed-case spelling the source warns about. */
  lemma ValidateStatusTestTable()
    ensures ValidateStatus("COMPLETED")
    ensures ValidateStatus("NOT STARTED")
    ensures ValidateStatus("STARTED")
    ensures !ValidateStatus("random junk")
    ensures !ValidateStatus("")
    ensures !ValidateStatus("Completed")
  {
  }
}
