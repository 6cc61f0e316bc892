/**
  The task list as a value: the first-match scan shared by `mark_task_complete`
  and `delete_task`, reference definitions of what each does to the list, and
  the ordering invariant on ids that every operation keeps.
 */
module TaskList {
  import opened Wrappers
  import opened Tasks

  /** Ids strictly ascending in list order, hence pairwise distinct. */
  predicate IdsAscending(ts: seq<Task>) {
    forall i, j :: 0 <= i < j < |ts| ==> ts[i].id < ts[j].id
  }

  /** Every id in the list lies in [1, bound). */
  predicate IdsWithin(ts: seq<Task>, bound: int) {
    forall i :: 0 <= i < |ts| ==> 1 <= ts[i].id < bound
  }

  /** The index of the first task carrying `id`, scanning from the front. */
  function FindFirst(ts: seq<Task>, id: int): (r: Option<nat>)
    ensures r.Some? ==> r.value < |ts| && ts[r.value].id == id
    ensures r.Some? ==> forall j :: 0 <= j < r.value ==> ts[j].id != id
    ensures r.None? <==> forall j :: 0 <= j < |ts| ==> ts[j].id != id
  {
    if ts == [] then None
    else if ts[0].id == id then Some(0)
    else match FindFirst(ts[1..], id)
      case None => None
      case Some(k) => Some(k + 1)
  }

  /** Reference definition: the list after completing the first task carrying `id`. */
  function CompleteFirst(ts: seq<Task>, id: int): seq<Task> {
    if ts == [] then []
    else if ts[0].id == id then [MarkComplete(ts[0])] + ts[1..]
    else [ts[0]] + CompleteFirst(ts[1..], id)
  }

  /** Reference definition: the list after removing the first task carrying `id`. */
  function RemoveFirst(ts: seq<Task>, id: int): seq<Task> {
    if ts == [] then []
    else if ts[0].id == id then ts[1..]
    else [ts[0]] + RemoveFirst(ts[1..], id)
  }

  /**
    Completing touches only the first match: length and order are kept, the
    matching task is completed in place, and an absent id changes nothing.
   */
  lemma {:induction false} CompleteFirstEffect(ts: seq<Task>, id: int)
    ensures |CompleteFirst(ts, id)| == |ts|
    ensures FindFirst(ts, id).None? ==> CompleteFirst(ts, id) == ts
    ensures FindFirst(ts, id).Some? ==>
      var k := FindFirst(ts, id).value;
      CompleteFirst(ts, id) == ts[k := MarkComplete(ts[k])]
  {
    if ts != [] && ts[0].id != id {
      CompleteFirstEffect(ts[1..], id);
      var rest := FindFirst(ts[1..], id);
      if rest.Some? {
        var k := rest.value;
        assert [ts[0]] + ts[1..][k := MarkComplete(ts[1..][k])] == ts[k + 1 := MarkComplete(ts[k + 1])];
      } else {
        assert [ts[0]] + ts[1..] == ts;
      }
    }
  }

  /** Completing the same id twice is the same as completing it once. */
  lemma {:induction false} CompleteFirstIdempotent(ts: seq<Task>, id: int)
    ensures CompleteFirst(CompleteFirst(ts, id), id) == CompleteFirst(ts, id)
  {
    if ts != [] && ts[0].id != id {
      CompleteFirstIdempotent(ts[1..], id);
      assert (CompleteFirst(ts, id))[1..] == CompleteFirst(ts[1..], id);
    }
  }

  /** Completing never changes an id, so the list's id invariants survive it. */
  lemma {:induction false} CompleteFirstKeepsIds(ts: seq<Task>, id: int, bound: int)
    ensures |CompleteFirst(ts, id)| == |ts|
    ensures forall i :: 0 <= i < |ts| ==> CompleteFirst(ts, id)[i].id == ts[i].id
    ensures IdsAscending(ts) ==> IdsAscending(CompleteFirst(ts, id))
    ensures IdsWithin(ts, bound) ==> IdsWithin(CompleteFirst(ts, id), bound)
  {
    CompleteFirstEffect(ts, id);
  }

  /** Removing when the first match is at `k`: the element at `k` goes, the rest keep their order. */
  lemma {:induction false} RemoveFirstAt(ts: seq<Task>, id: int, k: nat)
    requires k < |ts| && ts[k].id == id
    requires forall j :: 0 <= j < k ==> ts[j].id != id
    ensures RemoveFirst(ts, id) == ts[..k] + ts[k + 1..]
  {
    if k > 0 {
      var tail := ts[1..];
      RemoveFirstAt(tail, id, k - 1);
      assert ts[..k] == [ts[0]] + tail[..k - 1];
      assert ts[k + 1..] == tail[k..];
    }
  }

  /** Removing an id no task carries changes nothing. */
  lemma {:induction false} RemoveFirstAbsent(ts: seq<Task>, id: int)
    requires forall j :: 0 <= j < |ts| ==> ts[j].id != id
    ensures RemoveFirst(ts, id) == ts
  {
    if ts != [] {
      RemoveFirstAbsent(ts[1..], id);
      assert [ts[0]] + ts[1..] == ts;
    }
  }

  /**
    Removing deletes exactly the first match: the length drops by one and the
    remaining tasks keep their order; an absent id changes nothing.
   */
  lemma {:induction false} RemoveFirstEffect(ts: seq<Task>, id: int)
    ensures FindFirst(ts, id).None? ==> RemoveFirst(ts, id) == ts
    ensures FindFirst(ts, id).Some? ==>
      var k := FindFirst(ts, id).value;
      RemoveFirst(ts, id) == ts[..k] + ts[k + 1..] && |RemoveFirst(ts, id)| == |ts| - 1
  {
    match FindFirst(ts, id)
    case None => RemoveFirstAbsent(ts, id);
    case Some(k) => RemoveFirstAt(ts, id, k);
  }

  /** Dropping one element keeps the ids ascending and within their bound. */
  lemma RemoveAtKeepsIds(ts: seq<Task>, k: nat, bound: int)
    requires k < |ts|
    ensures IdsAscending(ts) ==> IdsAscending(ts[..k] + ts[k + 1..])
    ensures IdsWithin(ts, bound) ==> IdsWithin(ts[..k] + ts[k + 1..], bound)
  {
    var r := ts[..k] + ts[k + 1..];
    assert forall i :: 0 <= i < |r| ==> r[i] == ts[if i < k then i else i + 1];
  }

  /**
    With ids unique (ascending), removing the first task carrying `id` leaves
    no task carrying it.
   */
  lemma {:induction false} RemoveFirstDropsId(ts: seq<Task>, id: int)
    requires IdsAscending(ts)
    ensures forall t :: t in RemoveFirst(ts, id) ==> t.id != id
  {
    RemoveFirstEffect(ts, id);
    var found := FindFirst(ts, id);
    if found.Some? {
      var k := found.value;
      forall t | t in ts[..k] + ts[k + 1..]
        ensures t.id != id
      {
        if t in ts[..k] {
          var j :| 0 <= j < k && ts[j] == t;
        } else {
          var j :| k + 1 <= j < |ts| && ts[j] == t;
        }
      }
    }
  }
}
