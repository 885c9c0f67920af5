/** The frontend's local copy of a memo list and the two ways a page edits
    it after the server has answered: dropping a memo by id (after a delete,
    a restore or a permanent delete) and swapping in the server's updated
    memo (after an update). */
module MemoList {
  import opened Wrappers
  import opened Primitives
  import opened Seqs

  /** A memo as the frontend receives it. Timestamps are the instants the
      ISO strings denote. */
  datatype Memo = Memo(id: Id, content: string, createdAt: Instant, updatedAt: Instant,
                       deletedAt: Option<Instant>)

  /** The ids of the list, in list order. */
  function IdsOf(ms: seq<Memo>): (r: seq<Id>)
    ensures |r| == |ms|
    ensures forall i | 0 <= i < |ms| :: r[i] == ms[i].id
  {
    seq(|ms|, i requires 0 <= i < |ms| => ms[i].id)
  }

  /** `memos.find(memo => memo.id === id)`: the first memo with the id. */
  function FindById(ms: seq<Memo>, id: Id): (r: Option<Memo>)
    ensures r.None? <==> forall i | 0 <= i < |ms| :: ms[i].id != id
    ensures r.Some? ==> exists i | 0 <= i < |ms| :: && ms[i] == r.value && ms[i].id == id
                                                  && forall j | 0 <= j < i :: ms[j].id != id
  {
    if ms == [] then None
    else if ms[0].id == id then Some(ms[0])
    else
      var r := FindById(ms[1..], id);
      if r.Some? then
        var i :| 0 <= i < |ms| - 1 && ms[1..][i] == r.value && ms[1..][i].id == id
                 && forall j | 0 <= j < i :: ms[1..][j].id != id;
        assert ms[i + 1] == r.value && forall j | 0 <= j < i + 1 :: ms[j].id != id;
        r
      else r
  }

  /** `prev.filter(memo => memo.id !== id)`. */
  function RemoveById(ms: seq<Memo>, id: Id): (r: seq<Memo>)
    ensures forall m :: m in r <==> m in ms && m.id != id
    ensures forall m :: multiset(r)[m] == if m.id == id then 0 else multiset(ms)[m]
    ensures IsSubsequence(r, ms)
    ensures |r| <= |ms|
  {
    Filter(ms, (m: Memo) => m.id != id)
  }

  /** `prev.map(memo => memo.id === id ? updated : memo)`. */
  function ReplaceById(ms: seq<Memo>, id: Id, updated: Memo): (r: seq<Memo>)
    ensures |r| == |ms|
    ensures forall i | 0 <= i < |ms| && ms[i].id != id :: r[i] == ms[i]
    ensures forall i | 0 <= i < |ms| && ms[i].id == id :: r[i] == updated
    ensures updated.id == id ==> IdsOf(r) == IdsOf(ms)
  {
    seq(|ms|, i requires 0 <= i < |ms| => if ms[i].id == id then updated else ms[i])
  }

  /** Removing an id twice is removing it once. */
  lemma {:induction false} RemoveByIdIdempotent(ms: seq<Memo>, id: Id)
    ensures RemoveById(RemoveById(ms, id), id) == RemoveById(ms, id)
  {
    var r := RemoveById(ms, id);
    assert forall i | 0 <= i < |r| :: r[i] in r;
    FilterKeepsAll(r, (m: Memo) => m.id != id);
  }

  /** A list without the id is left alone by both operations. */
  lemma AbsentIdChangesNothing(ms: seq<Memo>, id: Id, updated: Memo)
    requires forall i | 0 <= i < |ms| :: ms[i].id != id
    ensures RemoveById(ms, id) == ms
    ensures ReplaceById(ms, id, updated) == ms
  {
    FilterKeepsAll(ms, (m: Memo) => m.id != id);
  }

  /** Removal, one element at a time. */
  lemma RemoveByIdCons(ms: seq<Memo>, id: Id)
    requires ms != []
    ensures RemoveById(ms, id) == (if ms[0].id != id then [ms[0]] else []) + RemoveById(ms[1..], id)
  {
  }

  /** Updating a memo and then deleting it leaves the list a plain delete
      would: the update leaves no trace. */
  lemma {:induction false} ReplaceThenRemove(ms: seq<Memo>, id: Id, updated: Memo)
    requires updated.id == id
    ensures RemoveById(ReplaceById(ms, id, updated), id) == RemoveById(ms, id)
  {
    if ms != [] {
      var r := ReplaceById(ms, id, updated);
      assert r[1..] == ReplaceById(ms[1..], id, updated);
      ReplaceThenRemove(ms[1..], id, updated);
      RemoveByIdCons(r, id);
      RemoveByIdCons(ms, id);
    }
  }

  /** Under unique ids, swapping in the memo the list already holds is no
      change at all. */
  lemma ReplaceWithSameIsIdentity(ms: seq<Memo>, i: nat)
    requires i < |ms|
    requires forall j, k | 0 <= j < k < |ms| :: ms[j].id != ms[k].id
    ensures ReplaceById(ms, ms[i].id, ms[i]) == ms
  {
  }
}
