/**
 * Rows of the three tables the Secret Santa storage works on. Only the
 * columns the storage operations read or write are kept.
 */
module Schema {
  import opened Wrappers

  /** A Secret Santa participant; `matchedWithId` is the id of the recipient, null until a draw. */
  datatype Participant = Participant(id: int, name: string, preferences: string, matchedWithId: Option<int>)

  /** A potluck item; `assignee` is the name of the guest bringing it, if any. */
  datatype Item = Item(id: int, name: string, assignee: Option<string>)

  /** The event configuration, reduced to the draw-completed flag. */
  datatype EventConfig = EventConfig(drawCompleted: bool)

  /** No two participant rows share an id (the id column is a serial primary key). */
  predicate DistinctIds(rows: seq<Participant>) {
    forall a, b :: 0 <= a < |rows| && 0 <= b < |rows| && a != b ==> rows[a].id != rows[b].id
  }

  /** Serial ids start at 1, so no participant id is 0 (which would read as "no match"). */
  predicate PositiveIds(rows: seq<Participant>) {
    forall k :: 0 <= k < |rows| ==> rows[k].id >= 1
  }

  /** No two item rows share an id. */
  predicate DistinctItemIds(items: seq<Item>) {
    forall a, b :: 0 <= a < |items| && 0 <= b < |items| && a != b ==> items[a].id != items[b].id
  }
}
