/**
 * The storage object behind the REST handlers, reduced to the Secret
 * Santa participants, the potluck items and the event configuration. Each
 * table is a sequence of rows in insertion order, which the model takes
 * as the order unordered selects return rows in; the serial id columns
 * are modelled by unbounded counters that hand out 1, 2, 3, ...
 */
module Storage {
  import opened Wrappers
  import opened Schema
  import opened Tables
  import opened Draw

  class DatabaseStorage {
    var participants: seq<Participant>
    var items: seq<Item>
    var config: Option<EventConfig>
    var nextParticipantId: int
    var nextItemId: int

    /** Serial ids: every id is positive, below the next one to be handed out, and unique. */
    ghost predicate Valid()
      reads this`participants, this`items, this`nextParticipantId, this`nextItemId
    {
      && 1 <= nextParticipantId && 1 <= nextItemId
      && DistinctIds(participants) && PositiveIds(participants)
      && (forall k :: 0 <= k < |participants| ==> participants[k].id < nextParticipantId)
      && DistinctItemIds(items)
      && (forall k :: 0 <= k < |items| ==> 1 <= items[k].id < nextItemId)
    }

    /** Empty tables, no configuration row yet. */
    constructor ()
      ensures Valid()
      ensures participants == [] && items == [] && config == None
    {
      participants := [];
      items := [];
      config := None;
      nextParticipantId := 1;
      nextItemId := 1;
    }

    /** getEventConfig: the configuration row, inserted with its defaults (flag false) when there is none. */
    method GetEventConfig() returns (c: EventConfig)
      modifies this`config
      ensures config == Some(c)
      ensures old(config).Some? ==> c == old(config).value
      ensures old(config).None? ==> c == EventConfig(false)
    {
      if config.None? {
        config := Some(EventConfig(false));
      }
      c := config.value;
    }

    /**
     * updateEventConfig with a partial update of the flag: an absent flag
     * keeps the stored (or default) value.
     */
    method UpdateEventConfig(drawCompleted: Option<bool>) returns (c: EventConfig)
      modifies this`config
      ensures config == Some(c)
      ensures drawCompleted.Some? ==> c.drawCompleted == drawCompleted.value
      ensures drawCompleted.None? ==> c.drawCompleted == (old(config).Some? && old(config).value.drawCompleted)
    {
      var existing := GetEventConfig();
      c := if drawCompleted.Some? then existing.(drawCompleted := drawCompleted.value) else existing;
      config := Some(c);
    }

    /** createItem: appends a row with the next serial id and returns it. */
    method CreateItem(name: string, assignee: Option<string>) returns (item: Item)
      requires Valid()
      modifies this`items, this`nextItemId
      ensures Valid()
      ensures item == Item(old(nextItemId), name, assignee)
      ensures items == old(items) + [item] && nextItemId == old(nextItemId) + 1
      ensures ItemById(items, item.id) == Some(item)
    {
      item := Item(nextItemId, name, assignee);
      items := items + [item];
      nextItemId := nextItemId + 1;
      ItemByIdAppended(old(items), item);
    }

    /** deleteItem: removes the row with that id, and only that row. */
    method DeleteItem(id: int)
      requires Valid()
      modifies this`items
      ensures Valid()
      ensures items == WithoutItem(old(items), id)
    {
      items := WithoutItem(items, id);
      WithoutItemKeepsDistinct(old(items), id);
    }

    /**
     * updateItemAssignee: sets the assignee of the row with that id and
     * returns the updated row, or nothing when no row has that id.
     */
    method UpdateItemAssignee(id: int, assignee: Option<string>) returns (updated: Option<Item>)
      requires Valid()
      modifies this`items
      ensures Valid()
      ensures items == WithAssignee(old(items), id, assignee)
      ensures updated == ItemById(items, id)
      ensures updated.Some? <==> exists k :: 0 <= k < |old(items)| && old(items)[k].id == id
    {
      items := WithAssignee(items, id, assignee);
      updated := ItemById(items, id);
    }

    /** createSecretSantaParticipant: appends a row with the next serial id and returns it. */
    method CreateSecretSantaParticipant(name: string, preferences: string, matchedWithId: Option<int>)
      returns (p: Participant)
      requires Valid()
      modifies this`participants, this`nextParticipantId
      ensures Valid()
      ensures p == Participant(old(nextParticipantId), name, preferences, matchedWithId)
      ensures participants == old(participants) + [p] && nextParticipantId == old(nextParticipantId) + 1
      ensures ParticipantByName(old(participants), name).None? ==> ParticipantByName(participants, name) == Some(p)
      ensures matchedWithId == None ==> Match(participants, p.id) == None
    {
      p := Participant(nextParticipantId, name, preferences, matchedWithId);
      participants := participants + [p];
      nextParticipantId := nextParticipantId + 1;
      if matchedWithId == None {
        NewRowUnmatched(old(participants), p);
      }
      if ParticipantByName(old(participants), name).None? {
        IndexOfNameAppended(old(participants), p);
      }
    }

    /**
     * performSecretSantaDraw, with the random shuffle given as `shuffled`:
     * with fewer than two participants nothing changes and the answer is
     * false; otherwise each `shuffled[i]` is matched with
     * `shuffled[(i + 1) % n]`, the flag is set and the answer is true.
     */
    method PerformSecretSantaDraw(shuffled: seq<Participant>) returns (ok: bool)
      requires Valid()
      requires IsShuffleOf(shuffled, participants)
      modifies this`participants, this`config
      ensures Valid()
      ensures ok <==> 2 <= |old(participants)|
      ensures !ok ==> participants == old(participants) && config == old(config)
      ensures ok ==> participants == Drawn(old(participants), shuffled) && config == Some(EventConfig(true))
      ensures |participants| == |old(participants)|
      ensures forall j :: 0 <= j < |participants| ==>
        participants[j] == old(participants)[j].(matchedWithId := participants[j].matchedWithId)
      ensures ok ==> forall j :: 0 <= j < |participants| ==>
        participants[j].matchedWithId.Some? && participants[j].matchedWithId != Some(participants[j].id)
      ensures ok ==> forall i {:trigger Match(participants, shuffled[i].id)} :: 0 <= i < |shuffled| ==>
        Match(participants, shuffled[i].id).Some? &&
        Match(participants, shuffled[i].id).value.id == shuffled[(i + 1) % |shuffled|].id
    {
      var rows := participants;
      if |rows| < 2 {
        return false;
      }
      ShuffleFacts(rows, shuffled);
      var n := |shuffled|;
      for i := 0 to n
        invariant |participants| == |rows|
        invariant forall j :: 0 <= j < |rows| ==>
          participants[j] == if IndexOfId(shuffled, rows[j].id).value < i then Drawn(rows, shuffled)[j] else rows[j]
      {
        var giver := shuffled[i];
        var receiver := shuffled[(i + 1) % n];
        NextIndexIsMod(i, n);
        participants := SetMatch(participants, giver.id, receiver.id);
      }
      assert participants == Drawn(rows, shuffled);
      DrawnSummary(rows, shuffled);
      var _ := UpdateEventConfig(Some(true));
      return true;
    }

    /** resetSecretSantaDraw: clears every match and the flag; no row is added or removed. */
    method ResetSecretSantaDraw()
      requires Valid()
      modifies this`participants, this`config
      ensures Valid()
      ensures participants == Cleared(old(participants)) && config == Some(EventConfig(false))
      ensures forall id :: Match(participants, id) == None
    {
      participants := Cleared(participants);
      ClearedKeepsRows(old(participants));
      forall id ensures Match(participants, id) == None {
        ClearedHasNoMatch(old(participants), id);
      }
      var _ := UpdateEventConfig(Some(false));
    }
  }
}
