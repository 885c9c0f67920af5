/** Persistence of memos: the `quick_memos` row (`QuickMemoEntity`) with its
    domain mapping, the repository implementation over the table, and the
    two trash-aware queries declared on the JPA repository. */
module QuickMemoRepository {
  import opened Wrappers
  import opened Primitives
  import opened Errors
  import opened QuickMemos
  import opened Seqs
  import Tables

  /** A row of `quick_memos`. The entity has no `deletedAt` column. */
  datatype QuickMemoEntity = QuickMemoEntity(id: Id, content: string, createdAt: Instant, updatedAt: Instant)

  function EntityId(e: QuickMemoEntity): Id
  {
    e.id
  }

  /** `fromDomain`: copies every column, with no re-trimming; the trash
      marker has nowhere to go. */
  function FromDomain(m: QuickMemo): (e: QuickMemoEntity)
    ensures e.id == m.id && e.content == m.content
    ensures e.createdAt == m.createdAt && e.updatedAt == m.updatedAt
  {
    QuickMemoEntity(m.id, m.content, m.createdAt, m.updatedAt)
  }

  /** `toDomain`: runs the `QuickMemo` constructor on the columns, so it
      fails on blank or over-long content, and the result is always active. */
  function ToDomain(e: QuickMemoEntity): (r: Result<QuickMemo, Error>)
    ensures r.Ok? <==> ValidContent(e.content)
    ensures r.Ok? ==> && r.value.id == e.id && r.value.content == e.content
                      && r.value.createdAt == e.createdAt && r.value.updatedAt == e.updatedAt
                      && r.value.deletedAt == None
  {
    New(e.id, e.content, e.createdAt, e.updatedAt, None)
  }

  /** Domain -> entity -> domain gives the memo back with its trash marker
      cleared. */
  lemma DomainRoundTrip(m: QuickMemo)
    requires Valid(m)
    ensures ToDomain(FromDomain(m)) == Ok(m.(deletedAt := None))
  {
  }

  /** Entity -> domain -> entity is the identity on convertible rows. */
  lemma EntityRoundTrip(e: QuickMemoEntity)
    requires ValidContent(e.content)
    ensures FromDomain(ToDomain(e).value) == e
  {
  }

  type Table = seq<QuickMemoEntity>

  /** Every row converts to a domain memo. */
  predicate AllValid(t: Table)
  {
    forall i | 0 <= i < |t| :: ValidContent(t[i].content)
  }

  /** The table's invariant: one row per id, each convertible. */
  predicate WellFormed(t: Table)
  {
    Tables.UniqueKeys(t, EntityId) && AllValid(t)
  }

  function Ids(t: Table): set<Id>
  {
    Tables.Keys(t, EntityId)
  }

  /** `findById`: the stored memo, converted, or `None`. */
  function FindById(t: Table, id: Id): (r: Option<QuickMemo>)
    requires WellFormed(t)
    ensures r.Some? <==> id in Ids(t)
    ensures r.Some? ==> Valid(r.value) && r.value.id == id && !IsDeleted(r.value)
    ensures r.Some? ==> FromDomain(r.value) in t
  {
    match Tables.Find(t, EntityId, id)
    case None => None
    case Some(e) => Some(ToDomain(e).value)
  }

  /** `existsById`: a primary-key check. */
  function ExistsById(t: Table, id: Id): (b: bool)
    requires WellFormed(t)
    ensures b <==> FindById(t, id).Some?
  {
    Tables.Find(t, EntityId, id).Some?
  }

  /** `save`: stores the entity form of `m`, overwriting the row with the
      same id, and returns the saved entity converted back. The `created_at`
      column is not updatable, so an overwritten row keeps its creation
      time. */
  function Save(t: Table, m: QuickMemo): (r: (QuickMemo, Table))
    requires WellFormed(t) && Valid(m)
    ensures r.0 == m.(deletedAt := None)
    ensures WellFormed(r.1)
    ensures Ids(r.1) == Ids(t) + {m.id}
    ensures FindById(t, m.id).None? ==> FindById(r.1, m.id) == Some(r.0)
    ensures FindById(t, m.id).Some? ==>
              FindById(r.1, m.id) == Some(r.0.(createdAt := FindById(t, m.id).value.createdAt))
    ensures forall id | id != m.id :: FindById(r.1, id) == FindById(t, id)
  {
    var e := FromDomain(m);
    var stored := match Tables.Find(t, EntityId, m.id)
                  case Some(row) => e.(createdAt := row.createdAt)
                  case None => e;
    var t' := Tables.Upsert(t, EntityId, stored);
    assert AllValid(t');
    Tables.FindAfterUpsert(t, EntityId, stored, m.id);
    assert forall id | id != m.id :: FindById(t', id) == FindById(t, id) by {
      forall id | id != m.id
        ensures FindById(t', id) == FindById(t, id)
      {
        Tables.FindAfterUpsert(t, EntityId, stored, id);
      }
    }
    (ToDomain(e).value, t')
  }

  /** Saving a memo read from the table with an unchanged creation time, as
      every service does, is then read back as saved, without its trash
      marker. */
  lemma SaveThenFind(t: Table, m: QuickMemo)
    requires WellFormed(t) && Valid(m)
    requires FindById(t, m.id).Some? ==> FindById(t, m.id).value.createdAt == m.createdAt
    ensures FindById(Save(t, m).1, m.id) == Some(m.(deletedAt := None))
  {
  }

  /** `delete`: removes the row with this id, if any; others stay. */
  function Delete(t: Table, id: Id): (r: Table)
    requires WellFormed(t)
    ensures WellFormed(r)
    ensures Ids(r) == Ids(t) - {id}
    ensures FindById(r, id) == None
    ensures forall other | other != id :: FindById(r, other) == FindById(t, other)
  {
    Tables.Delete(t, EntityId, id)
  }

  /** Every row as a domain memo, in table order. */
  function Domains(t: Table): seq<QuickMemo>
    requires AllValid(t)
  {
    Tables.ConvertAll(t, ToDomain)
  }

  /** `ORDER BY createdAt DESC` / `sortedByDescending { it.createdAt }`. */
  predicate NewerOrSame(a: QuickMemo, b: QuickMemo)
  {
    a.createdAt >= b.createdAt
  }

  /** `ORDER BY deletedAt DESC` (applied only to trashed memos). */
  predicate DeletedMoreRecently(a: QuickMemo, b: QuickMemo)
  {
    DeletedKey(a) >= DeletedKey(b)
  }

  function DeletedKey(m: QuickMemo): Instant
  {
    match m.deletedAt
    case Some(t) => t
    case None => 0
  }

  predicate IsActive(m: QuickMemo)
  {
    !IsDeleted(m)
  }

  lemma NewestFirstIsPreorder()
    ensures TotalPreorder(NewerOrSame)
  {
  }

  lemma DeletedFirstIsPreorder()
    ensures TotalPreorder(DeletedMoreRecently)
  {
  }

  /** `findAll`: every stored memo, converted, newest first. */
  function FindAll(t: Table): (r: seq<QuickMemo>)
    requires WellFormed(t)
    ensures SortedBy(r, NewerOrSame)
    ensures multiset(r) == multiset(Domains(t))
    ensures |r| == |t|
  {
    NewestFirstIsPreorder();
    Sort(Domains(t), NewerOrSame)
  }

  /** `findAllActive`: the memos without a trash marker, newest first. */
  function FindAllActive(ms: seq<QuickMemo>): (r: seq<QuickMemo>)
    ensures SortedBy(r, NewerOrSame)
    ensures forall m :: multiset(r)[m] == if IsDeleted(m) then 0 else multiset(ms)[m]
  {
    NewestFirstIsPreorder();
    Sort(Filter(ms, IsActive), NewerOrSame)
  }

  /** `findAllDeleted`: the trashed memos, most recently trashed first. */
  function FindAllDeleted(ms: seq<QuickMemo>): (r: seq<QuickMemo>)
    ensures SortedBy(r, DeletedMoreRecently)
    ensures forall m :: multiset(r)[m] == if IsDeleted(m) then multiset(ms)[m] else 0
  {
    DeletedFirstIsPreorder();
    Sort(Filter(ms, IsDeleted), DeletedMoreRecently)
  }

  /** The two queries split the memos: no memo is in both, and together they
      hold every memo exactly once. */
  lemma ActiveAndTrashPartition(ms: seq<QuickMemo>)
    ensures multiset(FindAllActive(ms)) + multiset(FindAllDeleted(ms)) == multiset(ms)
    ensures forall m :: !(m in FindAllActive(ms) && m in FindAllDeleted(ms))
  {
    var a, d := FindAllActive(ms), FindAllDeleted(ms);
    assert forall m :: (multiset(a) + multiset(d))[m] == multiset(ms)[m];
    forall m
      ensures !(m in a && m in d)
    {
      if m in a {
        assert multiset(a)[m] > 0;
      }
    }
  }

  /** What the queries return over the table as declared: the entity keeps no
      trash marker, so the trash query finds nothing and the active query
      lists the same memos as `findAll`. */
  lemma StoredMemosAreNeverTrashed(t: Table)
    requires WellFormed(t)
    ensures FindAllDeleted(Domains(t)) == []
    ensures FindAllActive(Domains(t)) == FindAll(t)
  {
    var ms := Domains(t);
    FilterKeepsAll(ms, IsActive);
    FilterDropsAll(ms, IsDeleted);
  }
}
