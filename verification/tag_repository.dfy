/** Persistence of tags: the `tags` row (`TagEntity`) with its domain
    mapping and the repository implementation over the table. The `name`
    column is unique, so a write that would give two rows the same name is
    refused by the database. */
module TagRepository {
  import opened Wrappers
  import opened Primitives
  import opened Errors
  import opened Tags
  import opened Text
  import opened Seqs
  import Tables

  /** A row of `tags`. */
  datatype TagEntity = TagEntity(id: Id, name: string, createdAt: Instant)

  /** The value the no-argument constructor JPA needs produces: the nil
      UUID, an empty name and the epoch. */
  const DefaultEntity: TagEntity := TagEntity("00000000-0000-0000-0000-000000000000", "", 0)

  function EntityId(e: TagEntity): Id
  {
    e.id
  }

  function EntityName(e: TagEntity): string
  {
    e.name
  }

  function FromDomain(tag: Tag): (e: TagEntity)
    ensures e.id == tag.id && e.name == tag.name && e.createdAt == tag.createdAt
  {
    TagEntity(tag.id, tag.name, tag.createdAt)
  }

  /** `toDomain` runs the `Tag` constructor, so it fails on a blank or
      over-long name. */
  function ToDomain(e: TagEntity): (r: Result<Tag, Error>)
    ensures r.Ok? <==> ValidName(e.name)
    ensures r.Ok? ==> r.value.id == e.id && r.value.name == e.name && r.value.createdAt == e.createdAt
  {
    New(e.id, e.name, e.createdAt)
  }

  lemma DomainRoundTrip(tag: Tag)
    requires Valid(tag)
    ensures ToDomain(FromDomain(tag)) == Ok(tag)
  {
  }

  lemma EntityRoundTrip(e: TagEntity)
    requires ValidName(e.name)
    ensures FromDomain(ToDomain(e).value) == e
  {
  }

  /** A default-constructed row cannot be turned into a `Tag`: its name is
      blank. */
  lemma DefaultEntityIsNotATag()
    ensures ToDomain(DefaultEntity) == Err(IllegalArgument(Some(BlankNameMessage)))
  {
  }

  type Table = seq<TagEntity>

  predicate AllValid(t: Table)
  {
    forall i | 0 <= i < |t| :: ValidName(t[i].name)
  }

  /** One row per id, one row per name, every name a valid tag name (which
      also keeps it within the column's 100 characters). */
  predicate WellFormed(t: Table)
  {
    Tables.UniqueKeys(t, EntityId) && Tables.UniqueKeys(t, EntityName) && AllValid(t)
  }

  function Ids(t: Table): set<Id>
  {
    Tables.Keys(t, EntityId)
  }

  function Names(t: Table): set<string>
  {
    Tables.Keys(t, EntityName)
  }

  function FindById(t: Table, id: Id): (r: Option<Tag>)
    requires WellFormed(t)
    ensures r.Some? <==> id in Ids(t)
    ensures r.Some? ==> Valid(r.value) && r.value.id == id && FromDomain(r.value) in t
  {
    match Tables.Find(t, EntityId, id)
    case None => None
    case Some(e) => Some(ToDomain(e).value)
  }

  /** `findByName`: the tag whose stored name equals `name` exactly (case and
      whitespace included). Names are unique, so there is at most one. */
  function FindByName(t: Table, name: string): (r: Option<Tag>)
    requires WellFormed(t)
    ensures r.Some? <==> name in Names(t)
    ensures r.Some? ==> Valid(r.value) && r.value.name == name && FromDomain(r.value) in t
    ensures forall i | 0 <= i < |t| && t[i].name == name :: r == Some(ToDomain(t[i]).value)
  {
    match Tables.Find(t, EntityName, name)
    case None => None
    case Some(e) => Some(ToDomain(e).value)
  }

  /** Some row other than `id`'s already holds `name`. */
  predicate NameTakenByOther(t: Table, name: string, id: Id)
  {
    exists i | 0 <= i < |t| :: t[i].name == name && t[i].id != id
  }

  /** `save`: inserts the row, or overwrites the row with the same id (its
      `created_at` is not updatable and stays). A name held by another row
      violates the unique constraint: nothing is written. */
  function Save(t: Table, tag: Tag): (r: Step<Tag, Table>)
    requires WellFormed(t) && Valid(tag)
    ensures r.result.Err? <==> NameTakenByOther(t, tag.name, tag.id)
    ensures r.result.Err? ==> r.result.error == DataIntegrityViolation && r.state == t
    ensures r.result.Ok? ==> r.result.value == tag && r.state == Write(t, tag)
  {
    var holder := Tables.Find(t, EntityName, tag.name);
    if holder.Some? && holder.value.id != tag.id then
      Step(Err(DataIntegrityViolation), t)
    else
      Step(Ok(ToDomain(FromDomain(tag)).value), Write(t, tag))
  }

  /** The write `save` performs once the name is known to be free. */
  function Write(t: Table, tag: Tag): (r: Table)
    requires WellFormed(t) && Valid(tag)
    requires !NameTakenByOther(t, tag.name, tag.id)
    ensures WellFormed(r)
    ensures Ids(r) == Ids(t) + {tag.id}
    ensures Names(r) <= Names(t) + {tag.name}
    ensures FindByName(r, tag.name).Some? && FindByName(r, tag.name).value.id == tag.id
    ensures FindById(t, tag.id).None? ==> FindById(r, tag.id) == Some(tag)
    ensures FindById(t, tag.id).Some? ==>
              FindById(r, tag.id) == Some(tag.(createdAt := FindById(t, tag.id).value.createdAt))
    ensures forall id | id != tag.id :: FindById(r, id) == FindById(t, id)
  {
    WriteIsWellFormed(t, tag);
    WriteFindsTheTag(t, tag);
    WriteKeepsOthers(t, tag);
    Tables.Upsert(t, EntityId, StoredRow(t, tag))
  }

  /** The row `save` writes: the tag, under the `createdAt` already stored
      for its id, since that column is not updatable. */
  function StoredRow(t: Table, tag: Tag): (e: TagEntity)
    ensures e.id == tag.id && e.name == tag.name
  {
    var e := FromDomain(tag);
    match Tables.Find(t, EntityId, tag.id)
    case Some(row) => e.(createdAt := row.createdAt)
    case None => e
  }

  lemma WriteIsWellFormed(t: Table, tag: Tag)
    requires WellFormed(t) && Valid(tag)
    requires !NameTakenByOther(t, tag.name, tag.id)
    ensures var t' := Tables.Upsert(t, EntityId, StoredRow(t, tag));
            && WellFormed(t')
            && Ids(t') == Ids(t) + {tag.id}
            && Names(t') <= Names(t) + {tag.name}
  {
    var stored := StoredRow(t, tag);
    var t' := Tables.Upsert(t, EntityId, stored);
    Tables.UpsertKeepsUnique(t, EntityId, EntityName, stored);
    Tables.UpsertColumnValues(t, EntityId, EntityName, stored);
    forall i | 0 <= i < |t'| ensures ValidName(t'[i].name) {
      if t'[i] != stored {
        var j :| 0 <= j < |t| && t[j] == t'[i];
      }
    }
  }

  lemma WriteFindsTheTag(t: Table, tag: Tag)
    requires WellFormed(t) && Valid(tag)
    requires WellFormed(Tables.Upsert(t, EntityId, StoredRow(t, tag)))
    ensures var t' := Tables.Upsert(t, EntityId, StoredRow(t, tag));
            && FindByName(t', tag.name).Some? && FindByName(t', tag.name).value.id == tag.id
            && (FindById(t, tag.id).None? ==> FindById(t', tag.id) == Some(tag))
            && (FindById(t, tag.id).Some? ==>
                  FindById(t', tag.id) == Some(tag.(createdAt := FindById(t, tag.id).value.createdAt)))
  {
    var stored := StoredRow(t, tag);
    var t' := Tables.Upsert(t, EntityId, stored);
    Tables.FindAfterUpsert(t, EntityId, stored, tag.id);
    var i :| 0 <= i < |t'| && EntityId(t'[i]) == tag.id;
    assert t'[i] == stored;
  }

  lemma WriteKeepsOthers(t: Table, tag: Tag)
    requires WellFormed(t) && Valid(tag)
    requires WellFormed(Tables.Upsert(t, EntityId, StoredRow(t, tag)))
    ensures forall id | id != tag.id :: FindById(Tables.Upsert(t, EntityId, StoredRow(t, tag)), id) == FindById(t, id)
  {
    forall id | id != tag.id
      ensures FindById(Tables.Upsert(t, EntityId, StoredRow(t, tag)), id) == FindById(t, id)
    {
      Tables.FindAfterUpsert(t, EntityId, StoredRow(t, tag), id);
    }
  }

  /** `delete`: removes the row with this id, if any. */
  function Delete(t: Table, id: Id): (r: Table)
    requires WellFormed(t)
    ensures WellFormed(r)
    ensures Ids(r) == Ids(t) - {id}
    ensures FindById(r, id) == None
    ensures forall other | other != id :: FindById(r, other) == FindById(t, other)
  {
    Tables.DeleteKeepsUnique(t, EntityId, EntityName, id);
    Tables.Delete(t, EntityId, id)
  }

  function Domains(t: Table): seq<Tag>
    requires AllValid(t)
  {
    Tables.ConvertAll(t, ToDomain)
  }

  /** `ORDER BY name ASC`. */
  predicate NameAscending(a: Tag, b: Tag)
  {
    StrLe(a.name, b.name)
  }

  lemma NameAscendingIsPreorder()
    ensures TotalPreorder(NameAscending)
  {
    forall a: Tag, b: Tag
      ensures NameAscending(a, b) || NameAscending(b, a)
    {
      StrLeTotal(a.name, b.name);
    }
    forall a: Tag, b: Tag, c: Tag | NameAscending(a, b) && NameAscending(b, c)
      ensures NameAscending(a, c)
    {
      StrLeTransitive(a.name, b.name, c.name);
    }
  }

  /** `findAll` (`findAllByOrderByNameAsc`): every stored tag, converted, in
      ascending name order. */
  function FindAll(t: Table): (r: seq<Tag>)
    requires WellFormed(t)
    ensures SortedBy(r, NameAscending)
    ensures multiset(r) == multiset(Domains(t))
  {
    NameAscendingIsPreorder();
    Sort(Domains(t), NameAscending)
  }
}
