/**
 * The Secret Santa draw as a function of the participant rows and the
 * shuffled copy of them: each giver `shuffled[i]` is matched with
 * `shuffled[(i + 1) % n]`. The lemmas show that for n >= 2 this is a
 * derangement, a bijection, and one single cycle through everybody.
 */
module Draw {
  import opened Wrappers
  import opened Schema
  import opened Tables

  /** `shuffled` holds exactly the rows of the table, in some order. */
  predicate IsShuffleOf(shuffled: seq<Participant>, rows: seq<Participant>) {
    multiset(shuffled) == multiset(rows)
  }

  /** The position after `k` in a circle of `n`: `(k + 1) % n`, written without the remainder. */
  function NextIndex(k: nat, n: nat): nat
    requires k < n
  {
    if k + 1 < n then k + 1 else 0
  }

  /** The circular successor is the source's `(k + 1) % n`, and for n >= 2 it is never `k` itself. */
  lemma NextIndexIsMod(k: nat, n: nat)
    requires k < n
    ensures NextIndex(k, n) == (k + 1) % n
    ensures 2 <= n ==> NextIndex(k, n) != k
  {
  }

  /** The id the giver with id `giverId` is matched with: the next one in `shuffled`, wrapping round. */
  function Successor(shuffled: seq<Participant>, giverId: int): Option<int>
  {
    match IndexOfId(shuffled, giverId)
    case None => None
    case Some(k) => Some(shuffled[NextIndex(k, |shuffled|)].id)
  }

  /** The participant table once the draw loop has run over all of `shuffled`. */
  function Drawn(rows: seq<Participant>, shuffled: seq<Participant>): seq<Participant>
  {
    seq(|rows|, j requires 0 <= j < |rows| => rows[j].(matchedWithId := Successor(shuffled, rows[j].id)))
  }

  /** Following matches `m` times from the participant with id `id` (getSecretSantaMatch repeated). */
  function Walk(rows: seq<Participant>, id: int, m: nat): Option<int>
    decreases m
  {
    if m == 0 then Some(id)
    else match Walk(rows, id, m - 1)
      case None => None
      case Some(x) =>
        match Match(rows, x)
        case None => None
        case Some(q) => Some(q.id)
  }

  lemma {:induction false} DistinctRowsCountOnce(rows: seq<Participant>, x: Participant)
    requires DistinctIds(rows)
    ensures multiset(rows)[x] <= 1
    decreases |rows|
  {
    if |rows| > 0 {
      var last := rows[|rows| - 1];
      var init := rows[..|rows| - 1];
      assert rows == init + [last];
      DistinctRowsCountOnce(init, x);
      if x == last {
        assert forall k :: 0 <= k < |init| ==> init[k].id != last.id;
        assert x !in init;
      }
    }
  }

  lemma RepeatCountsTwice(s: seq<Participant>, a: nat, b: nat)
    requires a < b < |s|
    ensures s[a] == s[b] ==> multiset(s)[s[a]] >= 2
  {
    assert s == s[..b] + [s[b]] + s[b + 1..];
    assert s[..b][a] == s[a];
  }

  /**
   * A shuffle of a table with distinct ids has the same length and distinct
   * ids, and each row of either sequence is found, by its id, in the other.
   */
  lemma ShuffleFacts(rows: seq<Participant>, shuffled: seq<Participant>)
    requires IsShuffleOf(shuffled, rows) && DistinctIds(rows)
    ensures |shuffled| == |rows|
    ensures DistinctIds(shuffled)
    ensures forall j {:trigger IndexOfId(shuffled, rows[j].id)} :: 0 <= j < |rows| ==>
      IndexOfId(shuffled, rows[j].id).Some? && shuffled[IndexOfId(shuffled, rows[j].id).value] == rows[j]
    ensures forall k {:trigger IndexOfId(rows, shuffled[k].id)} :: 0 <= k < |shuffled| ==>
      IndexOfId(rows, shuffled[k].id).Some? && rows[IndexOfId(rows, shuffled[k].id).value] == shuffled[k]
    ensures forall k {:trigger IndexOfId(shuffled, shuffled[k].id)} :: 0 <= k < |shuffled| ==>
      IndexOfId(shuffled, shuffled[k].id) == Some(k)
    ensures forall j {:trigger IndexOfId(rows, rows[j].id)} :: 0 <= j < |rows| ==>
      IndexOfId(rows, rows[j].id) == Some(j)
  {
    assert |multiset(shuffled)| == |shuffled| && |multiset(rows)| == |rows|;
    assert forall x :: x in shuffled <==> x in multiset(shuffled);
    assert forall x :: x in rows <==> x in multiset(rows);
    forall a, b | 0 <= a < |shuffled| && 0 <= b < |shuffled| && a != b
      ensures shuffled[a].id != shuffled[b].id
    {
      DistinctRowsCountOnce(rows, shuffled[a]);
      if a < b { RepeatCountsTwice(shuffled, a, b); } else { RepeatCountsTwice(shuffled, b, a); }
      assert shuffled[a] != shuffled[b];
      assert shuffled[a] in rows && shuffled[b] in rows;
    }
    forall k | 0 <= k < |shuffled| ensures IndexOfId(shuffled, shuffled[k].id) == Some(k) {
      IndexOfRow(shuffled, k);
    }
    forall j | 0 <= j < |rows| ensures IndexOfId(rows, rows[j].id) == Some(j) {
      IndexOfRow(rows, j);
    }
    forall j | 0 <= j < |rows|
      ensures IndexOfId(shuffled, rows[j].id).Some? && shuffled[IndexOfId(shuffled, rows[j].id).value] == rows[j]
    {
      assert rows[j] in shuffled;
      var k :| 0 <= k < |shuffled| && shuffled[k] == rows[j];
      assert IndexOfId(shuffled, shuffled[k].id) == Some(k);
    }
    forall k | 0 <= k < |shuffled|
      ensures IndexOfId(rows, shuffled[k].id).Some? && rows[IndexOfId(rows, shuffled[k].id).value] == shuffled[k]
    {
      assert shuffled[k] in rows;
      var j :| 0 <= j < |rows| && rows[j] == shuffled[k];
      assert IndexOfId(rows, rows[j].id) == Some(j);
    }
  }

  /** The draw changes only `matchedWithId`: same rows, ids, names and preferences. */
  lemma DrawnKeepsRows(rows: seq<Participant>, shuffled: seq<Participant>)
    ensures |Drawn(rows, shuffled)| == |rows|
    ensures forall j :: 0 <= j < |rows| ==>
      Drawn(rows, shuffled)[j] == rows[j].(matchedWithId := Drawn(rows, shuffled)[j].matchedWithId)
    ensures DistinctIds(rows) ==> DistinctIds(Drawn(rows, shuffled))
    ensures PositiveIds(rows) ==> PositiveIds(Drawn(rows, shuffled))
  {
  }

  /**
   * Each giver `shuffled[k]`'s row in the new table is `shuffled[k]` with
   * `matchedWithId` set to the id of `shuffled[(k + 1) % n]`; the last
   * giver wraps round to the first.
   */
  lemma DrawnFollowsShuffle(rows: seq<Participant>, shuffled: seq<Participant>)
    requires IsShuffleOf(shuffled, rows) && DistinctIds(rows)
    ensures forall k {:trigger ParticipantById(Drawn(rows, shuffled), shuffled[k].id)} :: 0 <= k < |shuffled| ==>
      ParticipantById(Drawn(rows, shuffled), shuffled[k].id) ==
        Some(shuffled[k].(matchedWithId := Some(shuffled[(k + 1) % |shuffled|].id)))
  {
    ShuffleFacts(rows, shuffled);
    DrawnKeepsRows(rows, shuffled);
    var d := Drawn(rows, shuffled);
    forall k | 0 <= k < |shuffled|
      ensures ParticipantById(d, shuffled[k].id) == Some(shuffled[k].(matchedWithId := Some(shuffled[(k + 1) % |shuffled|].id)))
    {
      var j := IndexOfId(rows, shuffled[k].id).value;
      IndexOfRow(d, j);
      NextIndexIsMod(k, |shuffled|);
    }
  }

  /**
   * After a draw over n >= 2 participants, every participant is matched,
   * never with itself, and always with the id of a participant of the table.
   */
  lemma DrawnIsDerangement(rows: seq<Participant>, shuffled: seq<Participant>)
    requires IsShuffleOf(shuffled, rows) && DistinctIds(rows) && 2 <= |rows|
    ensures forall j :: 0 <= j < |rows| ==>
      && Drawn(rows, shuffled)[j].matchedWithId.Some?
      && Drawn(rows, shuffled)[j].matchedWithId != Some(rows[j].id)
      && exists r :: 0 <= r < |rows| && Drawn(rows, shuffled)[j].matchedWithId == Some(rows[r].id)
  {
    ShuffleFacts(rows, shuffled);
    var n := |rows|;
    forall j | 0 <= j < n
      ensures Drawn(rows, shuffled)[j].matchedWithId.Some?
      ensures Drawn(rows, shuffled)[j].matchedWithId != Some(rows[j].id)
      ensures exists r :: 0 <= r < |rows| && Drawn(rows, shuffled)[j].matchedWithId == Some(rows[r].id)
    {
      var k := IndexOfId(shuffled, rows[j].id).value;
      var next := NextIndex(k, n);
      NextIndexIsMod(k, n);
      assert shuffled[next].id != shuffled[k].id;
      var r := IndexOfId(rows, shuffled[next].id).value;
      assert rows[r] == shuffled[next];
      assert 0 <= r < |rows| && Drawn(rows, shuffled)[j].matchedWithId == Some(rows[r].id);
    }
  }

  /**
   * After a draw, every participant is the recipient of exactly one giver:
   * some row is matched with it, and no two rows share a recipient.
   */
  lemma DrawnIsBijection(rows: seq<Participant>, shuffled: seq<Participant>)
    requires IsShuffleOf(shuffled, rows) && DistinctIds(rows)
    ensures forall p :: p in rows ==> exists g :: g in Drawn(rows, shuffled) && g.matchedWithId == Some(p.id)
    ensures forall g1, g2 :: 0 <= g1 < |rows| && 0 <= g2 < |rows| && g1 != g2 ==>
      Drawn(rows, shuffled)[g1].matchedWithId != Drawn(rows, shuffled)[g2].matchedWithId
  {
    ShuffleFacts(rows, shuffled);
    var n := |rows|;
    var d := Drawn(rows, shuffled);
    forall p | p in rows
      ensures exists g :: g in d && g.matchedWithId == Some(p.id)
    {
      var k := IndexOfId(shuffled, p.id).value;
      var prev := if k == 0 then n - 1 else k - 1;
      var g := IndexOfId(rows, shuffled[prev].id).value;
      assert rows[g] == shuffled[prev];
      assert IndexOfId(shuffled, rows[g].id) == Some(prev);
      assert NextIndex(prev, n) == k;
      assert d[g] in d && d[g].matchedWithId == Some(p.id);
    }
    forall g1, g2 | 0 <= g1 < n && 0 <= g2 < n && g1 != g2
      ensures d[g1].matchedWithId != d[g2].matchedWithId
    {
      var k1 := IndexOfId(shuffled, rows[g1].id).value;
      var k2 := IndexOfId(shuffled, rows[g2].id).value;
      assert k1 != k2;
      assert NextIndex(k1, n) != NextIndex(k2, n);
      assert d[g1].matchedWithId == Some(shuffled[NextIndex(k1, n)].id);
      assert d[g2].matchedWithId == Some(shuffled[NextIndex(k2, n)].id);
    }
  }

  /** One step of the reveal after a draw: the giver `shuffled[k]` finds the row of `shuffled[(k + 1) % n]`. */
  lemma DrawnMatchStep(rows: seq<Participant>, shuffled: seq<Participant>, k: nat)
    requires IsShuffleOf(shuffled, rows) && DistinctIds(rows) && PositiveIds(rows)
    requires k < |shuffled|
    ensures Match(Drawn(rows, shuffled), shuffled[k].id) ==
      Some(shuffled[NextIndex(k, |shuffled|)].(matchedWithId := Successor(shuffled, shuffled[NextIndex(k, |shuffled|)].id)))
  {
    ShuffleFacts(rows, shuffled);
    DrawnKeepsRows(rows, shuffled);
    var n := |shuffled|;
    var d := Drawn(rows, shuffled);
    var next := NextIndex(k, n);
    var j := IndexOfId(rows, shuffled[k].id).value;
    var p := IndexOfId(rows, shuffled[next].id).value;
    IndexOfRow(d, j);
    IndexOfRow(d, p);
    assert d[j].matchedWithId == Some(shuffled[next].id);
    assert d[p] == shuffled[next].(matchedWithId := Successor(shuffled, shuffled[next].id));
  }

  /** The id-only part of one reveal step. */
  lemma DrawnMatchStepId(rows: seq<Participant>, shuffled: seq<Participant>, k: nat)
    requires IsShuffleOf(shuffled, rows) && DistinctIds(rows) && PositiveIds(rows)
    requires k < |shuffled|
    ensures Match(Drawn(rows, shuffled), shuffled[k].id).Some?
    ensures Match(Drawn(rows, shuffled), shuffled[k].id).value.id == shuffled[NextIndex(k, |shuffled|)].id
  {
    DrawnMatchStep(rows, shuffled, k);
  }

  /** After a draw, revealing the match of each giver `shuffled[i]` yields `shuffled[(i + 1) % n]`. */
  lemma DrawnReveals(rows: seq<Participant>, shuffled: seq<Participant>)
    requires IsShuffleOf(shuffled, rows) && DistinctIds(rows) && PositiveIds(rows)
    ensures forall i {:trigger Match(Drawn(rows, shuffled), shuffled[i].id)} :: 0 <= i < |shuffled| ==>
      Match(Drawn(rows, shuffled), shuffled[i].id).Some? &&
      Match(Drawn(rows, shuffled), shuffled[i].id).value.id == shuffled[(i + 1) % |shuffled|].id
  {
    forall i | 0 <= i < |shuffled|
      ensures Match(Drawn(rows, shuffled), shuffled[i].id).Some?
      ensures Match(Drawn(rows, shuffled), shuffled[i].id).value.id == shuffled[(i + 1) % |shuffled|].id
    {
      DrawnMatchStepId(rows, shuffled, i);
      NextIndexIsMod(i, |shuffled|);
    }
  }

  /** In table `d`, each `shuffled[c]` reveals `shuffled[(c + 1) % n]`. */
  predicate RevealsCircularly(d: seq<Participant>, shuffled: seq<Participant>) {
    forall c {:trigger Match(d, shuffled[c].id)} :: 0 <= c < |shuffled| ==>
      Match(d, shuffled[c].id).Some? && Match(d, shuffled[c].id).value.id == shuffled[NextIndex(c, |shuffled|)].id
  }

  /** Along such a table, m <= n reveal steps from `shuffled[k]` reach `shuffled[(k + m) % n]`. */
  lemma {:induction false} WalkAlongCycle(d: seq<Participant>, shuffled: seq<Participant>, k: nat, m: nat)
    requires RevealsCircularly(d, shuffled)
    requires k < |shuffled| && m <= |shuffled|
    ensures Walk(d, shuffled[k].id, m) == Some(shuffled[if k + m < |shuffled| then k + m else k + m - |shuffled|].id)
    decreases m
  {
    if m > 0 {
      var n := |shuffled|;
      WalkAlongCycle(d, shuffled, k, m - 1);
      var c := if k + m - 1 < n then k + m - 1 else k + m - 1 - n;
      assert Walk(d, shuffled[k].id, m - 1) == Some(shuffled[c].id);
      assert Match(d, shuffled[c].id).value.id == shuffled[if k + m < n then k + m else k + m - n].id;
    }
  }

  /** Starting from `shuffled[k]` after a draw, m <= n reveal steps reach `shuffled[(k + m) % n]`. */
  lemma DrawnWalk(rows: seq<Participant>, shuffled: seq<Participant>, k: nat, m: nat)
    requires IsShuffleOf(shuffled, rows) && DistinctIds(rows) && PositiveIds(rows)
    requires k < |shuffled| && m <= |shuffled|
    ensures Walk(Drawn(rows, shuffled), shuffled[k].id, m) ==
      Some(shuffled[if k + m < |shuffled| then k + m else k + m - |shuffled|].id)
  {
    forall c | 0 <= c < |shuffled|
      ensures Match(Drawn(rows, shuffled), shuffled[c].id).Some?
      ensures Match(Drawn(rows, shuffled), shuffled[c].id).value.id == shuffled[NextIndex(c, |shuffled|)].id
    {
      DrawnMatchStepId(rows, shuffled, c);
    }
    WalkAlongCycle(Drawn(rows, shuffled), shuffled, k, m);
  }

  /** Following the matches of a draw n times from any participant comes back to it. */
  lemma DrawnCycleCloses(rows: seq<Participant>, shuffled: seq<Participant>)
    requires IsShuffleOf(shuffled, rows) && DistinctIds(rows) && PositiveIds(rows)
    ensures forall p :: p in rows ==> Walk(Drawn(rows, shuffled), p.id, |rows|) == Some(p.id)
  {
    ShuffleFacts(rows, shuffled);
    forall p | p in rows ensures Walk(Drawn(rows, shuffled), p.id, |rows|) == Some(p.id) {
      var k := IndexOfId(shuffled, p.id).value;
      DrawnWalk(rows, shuffled, k, |rows|);
    }
  }

  /** Following the matches of a draw fewer than n times (but at least once) never comes back. */
  lemma DrawnCycleHasNoShortcut(rows: seq<Participant>, shuffled: seq<Participant>)
    requires IsShuffleOf(shuffled, rows) && DistinctIds(rows) && PositiveIds(rows)
    ensures forall p, m :: p in rows && 0 < m < |rows| ==> Walk(Drawn(rows, shuffled), p.id, m) != Some(p.id)
  {
    ShuffleFacts(rows, shuffled);
    var n := |rows|;
    forall p, m | p in rows && 0 < m < n ensures Walk(Drawn(rows, shuffled), p.id, m) != Some(p.id) {
      var k := IndexOfId(shuffled, p.id).value;
      DrawnWalk(rows, shuffled, k, m);
      var c := if k + m < n then k + m else k + m - n;
      assert c != k;
      assert shuffled[c].id != shuffled[k].id;
    }
  }

  /** How many places after `fromId` the id `toId` sits in the circle `shuffled`. */
  function CycleDistance(shuffled: seq<Participant>, fromId: int, toId: int): nat
  {
    match (IndexOfId(shuffled, fromId), IndexOfId(shuffled, toId))
    case (Some(k), Some(kt)) => if k <= kt then kt - k else kt + |shuffled| - k
    case _ => 0
  }

  /**
   * Following the matches of a draw from any participant reaches every
   * participant, after fewer than n steps: exactly as many as separate the
   * two in the shuffled order.
   */
  lemma DrawnCycleReachesAll(rows: seq<Participant>, shuffled: seq<Participant>)
    requires IsShuffleOf(shuffled, rows) && DistinctIds(rows) && PositiveIds(rows)
    ensures forall p, q :: p in rows && q in rows ==>
      CycleDistance(shuffled, p.id, q.id) < |rows| &&
      Walk(Drawn(rows, shuffled), p.id, CycleDistance(shuffled, p.id, q.id)) == Some(q.id)
  {
    ShuffleFacts(rows, shuffled);
    var n := |rows|;
    forall p, q | p in rows && q in rows
      ensures CycleDistance(shuffled, p.id, q.id) < n
      ensures Walk(Drawn(rows, shuffled), p.id, CycleDistance(shuffled, p.id, q.id)) == Some(q.id)
    {
      var k := IndexOfId(shuffled, p.id).value;
      DrawnWalk(rows, shuffled, k, CycleDistance(shuffled, p.id, q.id));
    }
  }

  /** What a successful draw promises about the new table, in one place. */
  lemma DrawnSummary(rows: seq<Participant>, shuffled: seq<Participant>)
    requires IsShuffleOf(shuffled, rows) && DistinctIds(rows) && PositiveIds(rows) && 2 <= |rows|
    ensures |Drawn(rows, shuffled)| == |rows|
    ensures DistinctIds(Drawn(rows, shuffled)) && PositiveIds(Drawn(rows, shuffled))
    ensures forall j :: 0 <= j < |rows| ==>
      Drawn(rows, shuffled)[j] == rows[j].(matchedWithId := Drawn(rows, shuffled)[j].matchedWithId)
    ensures forall j :: 0 <= j < |rows| ==>
      Drawn(rows, shuffled)[j].matchedWithId.Some? && Drawn(rows, shuffled)[j].matchedWithId != Some(rows[j].id)
    ensures forall i {:trigger Match(Drawn(rows, shuffled), shuffled[i].id)} :: 0 <= i < |shuffled| ==>
      Match(Drawn(rows, shuffled), shuffled[i].id).Some? &&
      Match(Drawn(rows, shuffled), shuffled[i].id).value.id == shuffled[(i + 1) % |shuffled|].id
  {
    DrawnKeepsRows(rows, shuffled);
    DrawnIsDerangement(rows, shuffled);
    DrawnReveals(rows, shuffled);
  }

  /** With exactly two participants, each is matched with the other. */
  lemma TwoParticipantsSwap(rows: seq<Participant>, shuffled: seq<Participant>)
    requires IsShuffleOf(shuffled, rows) && DistinctIds(rows) && |rows| == 2
    ensures Drawn(rows, shuffled)[0].matchedWithId == Some(rows[1].id)
    ensures Drawn(rows, shuffled)[1].matchedWithId == Some(rows[0].id)
  {
    DrawnIsDerangement(rows, shuffled);
  }
}
