/** The persisted todo item: one element of the JSON array kept in the data file. */
module Model {

  /** A todo record: identifier, free-text description and status string. */
  datatype ToDo = ToDo(id: int, description: string, status: string)

  /** The set of identifiers used in a collection (its order and multiplicity forgotten). */
  ghost function Ids(toDos: seq<ToDo>): set<int>
  {
    set i | 0 <= i < |toDos| :: toDos[i].id
  }

  /** No two records of the collection share an identifier. */
  ghost predicate UniqueIds(toDos: seq<ToDo>)
  {
    forall i, j :: 0 <= i < j < |toDos| ==> toDos[i].id != toDos[j].id
  }
}
