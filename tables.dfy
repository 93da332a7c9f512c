/**
 * Queries and bulk updates over the participant and item tables, as
 * functions of the rows. The selects carry no ORDER BY, so the database
 * may return matching rows in any order; the model fixes insertion order,
 * and a `select ... where` that destructures its first row is a search for
 * the first matching row in that order. An `update ... where` rewrites
 * every matching row and leaves the others alone.
 */
module Tables {
  import opened Wrappers
  import opened Schema

  /** Position of the first participant row with the given id. */
  function IndexOfId(rows: seq<Participant>, id: int): (r: Option<nat>)
    ensures r.Some? ==> r.value < |rows| && rows[r.value].id == id
    ensures r.Some? ==> forall k :: 0 <= k < r.value ==> rows[k].id != id
    ensures r.None? <==> forall k :: 0 <= k < |rows| ==> rows[k].id != id
    decreases |rows|
  {
    if |rows| == 0 then None
    else if rows[0].id == id then Some(0)
    else match IndexOfId(rows[1..], id)
      case None => None
      case Some(k) => Some(k + 1)
  }

  /** With distinct ids, the search for a row's own id finds exactly that row. */
  lemma IndexOfRow(rows: seq<Participant>, j: nat)
    requires DistinctIds(rows) && j < |rows|
    ensures IndexOfId(rows, rows[j].id) == Some(j)
  {
  }

  /** The first participant row with the given id, if any. */
  function ParticipantById(rows: seq<Participant>, id: int): Option<Participant>
  {
    match IndexOfId(rows, id)
    case None => None
    case Some(k) => Some(rows[k])
  }

  /**
   * Position of the first participant row whose name equals `name` exactly:
   * the same linear search as `IndexOfId`, over the name column.
   */
  function IndexOfName(rows: seq<Participant>, name: string): (r: Option<nat>)
    ensures r.Some? ==> r.value < |rows| && rows[r.value].name == name
    ensures r.Some? ==> forall k :: 0 <= k < r.value ==> rows[k].name != name
    ensures r.None? <==> forall k :: 0 <= k < |rows| ==> rows[k].name != name
    decreases |rows|
  {
    if |rows| == 0 then None
    else if rows[0].name == name then Some(0)
    else match IndexOfName(rows[1..], name)
      case None => None
      case Some(k) => Some(k + 1)
  }

  /**
   * getSecretSantaParticipantByName: the first row whose name is exactly
   * `name` (case matters), or nothing when no row carries that name.
   */
  function ParticipantByName(rows: seq<Participant>, name: string): (r: Option<Participant>)
    ensures r.Some? ==> r.value in rows && r.value.name == name
    ensures r.Some? ==> exists k :: 0 <= k < |rows| && rows[k] == r.value && forall i :: 0 <= i < k ==> rows[i].name != name
    ensures r.None? <==> forall p :: p in rows ==> p.name != name
  {
    match IndexOfName(rows, name)
    case None => None
    case Some(k) => Some(rows[k])
  }

  /**
   * getSecretSantaMatch: find the giver's row by id, then the row whose id
   * is the giver's `matchedWithId`. A missing giver, or a `matchedWithId`
   * that is null or 0 (both falsy), gives nothing; so does a reference to
   * an id no row has.
   */
  function Match(rows: seq<Participant>, participantId: int): (r: Option<Participant>)
    ensures r.Some? ==> r.value in rows && r.value.id != 0
    ensures r.Some? ==> exists g :: g in rows && g.id == participantId && g.matchedWithId == Some(r.value.id)
    ensures (forall p :: p in rows ==> p.id != participantId) ==> r.None?
  {
    match ParticipantById(rows, participantId)
    case None => None
    case Some(giver) =>
      if giver.matchedWithId.None? || giver.matchedWithId.value == 0 then None
      else ParticipantById(rows, giver.matchedWithId.value)
  }

  /**
   * With distinct ids the two-step lookup is exactly: the recipient is the
   * row whose (non-zero) id the giver's `matchedWithId` holds.
   */
  lemma MatchIff(rows: seq<Participant>, participantId: int, q: Participant)
    requires DistinctIds(rows)
    ensures Match(rows, participantId) == Some(q) <==>
      exists g, k :: 0 <= g < |rows| && 0 <= k < |rows| && rows[g].id == participantId &&
        rows[g].matchedWithId == Some(q.id) && q.id != 0 && rows[k] == q
  {
    if exists g, k :: 0 <= g < |rows| && 0 <= k < |rows| && rows[g].id == participantId &&
        rows[g].matchedWithId == Some(q.id) && q.id != 0 && rows[k] == q
    {
      var g, k :| 0 <= g < |rows| && 0 <= k < |rows| && rows[g].id == participantId &&
        rows[g].matchedWithId == Some(q.id) && q.id != 0 && rows[k] == q;
      IndexOfRow(rows, g);
      IndexOfRow(rows, k);
    }
    if Match(rows, participantId) == Some(q) {
      var g := IndexOfId(rows, participantId).value;
      var k := IndexOfId(rows, q.id).value;
      assert rows[g].id == participantId && rows[g].matchedWithId == Some(q.id) && rows[k] == q;
    }
  }

  /** `update ... set matchedWithId = receiverId where id = giverId`. */
  function SetMatch(rows: seq<Participant>, giverId: int, receiverId: int): seq<Participant>
  {
    seq(|rows|, j requires 0 <= j < |rows| =>
      if rows[j].id == giverId then rows[j].(matchedWithId := Some(receiverId)) else rows[j])
  }

  /** `update ... set matchedWithId = null` on every participant row. */
  function Cleared(rows: seq<Participant>): seq<Participant>
  {
    seq(|rows|, j requires 0 <= j < |rows| => rows[j].(matchedWithId := None))
  }

  /** Clearing keeps every row, id, name and preference, and clearing twice is clearing once. */
  lemma ClearedKeepsRows(rows: seq<Participant>)
    ensures |Cleared(rows)| == |rows|
    ensures forall j :: 0 <= j < |rows| ==>
      Cleared(rows)[j].id == rows[j].id && Cleared(rows)[j].name == rows[j].name &&
      Cleared(rows)[j].preferences == rows[j].preferences && Cleared(rows)[j].matchedWithId.None?
    ensures Cleared(Cleared(rows)) == Cleared(rows)
  {
  }

  /** After clearing, the match lookup finds nothing for any id. */
  lemma ClearedHasNoMatch(rows: seq<Participant>, participantId: int)
    ensures Match(Cleared(rows), participantId) == None
  {
    var c := Cleared(rows);
    match IndexOfId(c, participantId)
    case None =>
    case Some(k) =>
      assert c[k].matchedWithId == None;
  }

  /** A row appended with no match (a late joiner) has no match, whatever the table holds. */
  lemma NewRowUnmatched(rows: seq<Participant>, p: Participant)
    requires forall q :: q in rows ==> q.id != p.id
    requires p.matchedWithId == None
    ensures Match(rows + [p], p.id) == None
  {
    IndexOfNewRow(rows, p);
  }

  lemma IndexOfNewRow(rows: seq<Participant>, p: Participant)
    requires forall q :: q in rows ==> q.id != p.id
    ensures IndexOfId(rows + [p], p.id) == Some(|rows|)
  {
    var all := rows + [p];
    assert all[|rows|].id == p.id;
    assert forall k :: 0 <= k < |rows| ==> all[k] == rows[k];
  }

  /** A row appended under a name no earlier row has is the one the name lookup finds. */
  lemma IndexOfNameAppended(rows: seq<Participant>, p: Participant)
    requires forall q :: q in rows ==> q.name != p.name
    ensures IndexOfName(rows + [p], p.name) == Some(|rows|)
  {
    var all := rows + [p];
    assert all[|rows|].name == p.name;
    assert forall k :: 0 <= k < |rows| ==> all[k] == rows[k];
  }

  /** The first item row with the given id, if any: the same linear search as `IndexOfId`, over the item table. */
  function ItemById(items: seq<Item>, id: int): (r: Option<Item>)
    ensures r.Some? ==> r.value in items && r.value.id == id
    ensures r.None? <==> forall k :: 0 <= k < |items| ==> items[k].id != id
    decreases |items|
  {
    if |items| == 0 then None
    else if items[0].id == id then Some(items[0])
    else ItemById(items[1..], id)
  }

  /** An item appended under a fresh id is the one the id lookup finds. */
  lemma {:induction false} ItemByIdAppended(items: seq<Item>, item: Item)
    requires forall x :: x in items ==> x.id != item.id
    ensures ItemById(items + [item], item.id) == Some(item)
    decreases |items|
  {
    if |items| > 0 {
      assert (items + [item])[1..] == items[1..] + [item];
      ItemByIdAppended(items[1..], item);
    }
  }

  /**
   * deleteItem's `delete ... where id = ?`: every row with that id goes,
   * every other row stays, and a lookup of any other id is unaffected.
   */
  function WithoutItem(items: seq<Item>, id: int): (r: seq<Item>)
    ensures forall x :: x in r <==> x in items && x.id != id
    ensures ItemById(r, id) == None
    ensures forall other :: other != id ==> ItemById(r, other) == ItemById(items, other)
    decreases |items|
  {
    if |items| == 0 then []
    else if items[0].id == id then WithoutItem(items[1..], id)
    else [items[0]] + WithoutItem(items[1..], id)
  }

  /** Deleting rows keeps item ids distinct. */
  lemma {:induction false} WithoutItemKeepsDistinct(items: seq<Item>, id: int)
    requires DistinctItemIds(items)
    ensures DistinctItemIds(WithoutItem(items, id))
    decreases |items|
  {
    if |items| > 0 {
      assert DistinctItemIds(items[1..]) by {
        forall a, b | 0 <= a < |items| - 1 && 0 <= b < |items| - 1 && a != b
          ensures items[1..][a].id != items[1..][b].id
        {
          assert items[1..][a] == items[a + 1] && items[1..][b] == items[b + 1];
        }
      }
      WithoutItemKeepsDistinct(items[1..], id);
      var rest := WithoutItem(items[1..], id);
      if items[0].id != id {
        forall x | x in rest ensures x.id != items[0].id {
          assert x in items[1..];
          var k :| 0 <= k < |items| - 1 && items[1..][k] == x;
          assert items[k + 1] == x;
        }
        var r := [items[0]] + rest;
        forall a, b | 0 <= a < |r| && 0 <= b < |r| && a != b ensures r[a].id != r[b].id {
          if a > 0 && b > 0 {
            assert r[a] == rest[a - 1] && r[b] == rest[b - 1];
          } else if a == 0 {
            assert r[b] in rest;
          } else {
            assert r[a] in rest;
          }
        }
      }
    }
  }

  /**
   * updateItemAssignee's `update ... set assignee = ? where id = ?`: only
   * the assignee of the rows with that id changes; lookups of other ids
   * are unaffected.
   */
  function WithAssignee(items: seq<Item>, id: int, assignee: Option<string>): (r: seq<Item>)
    ensures |r| == |items|
    ensures forall k :: 0 <= k < |items| ==>
      r[k] == if items[k].id == id then items[k].(assignee := assignee) else items[k]
    ensures ItemById(r, id) == match ItemById(items, id)
      case None => None
      case Some(it) => Some(it.(assignee := assignee))
    ensures forall other :: other != id ==> ItemById(r, other) == ItemById(items, other)
    decreases |items|
  {
    if |items| == 0 then []
    else
      var head := if items[0].id == id then items[0].(assignee := assignee) else items[0];
      [head] + WithAssignee(items[1..], id, assignee)
  }
}
