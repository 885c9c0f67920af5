/** The `memo_tags` association table and the repository over it. A row is
    the pair `(memoId, tagId)`, which is also its composite primary key, so
    the table is a set of pairs: saving a pair that is already there changes
    nothing. The id queries return lists in the database's order; here they
    return the set of ids they hold. */
module MemoTagRepository {
  import opened Wrappers
  import opened Primitives
  import opened Tags
  import TagRepository

  /** `(memoId, tagId)`. */
  type Pair = (Id, Id)
  type Pairs = set<Pair>

  /** `findByMemoId`: the rows of one memo. */
  function FindByMemoId(p: Pairs, memo: Id): (r: Pairs)
    ensures forall x :: x in r <==> x in p && x.0 == memo
  {
    set x | x in p && x.0 == memo
  }

  /** `findTagIdsByMemoId`: the tags a memo carries. */
  function FindTagIdsByMemoId(p: Pairs, memo: Id): (r: set<Id>)
    ensures forall tag :: tag in r <==> (memo, tag) in p
  {
    set x | x in p && x.0 == memo :: x.1
  }

  /** `findMemoIdsByTagId` (and `getMemosWithTag`, which returns it): the
      memos carrying a tag. */
  function FindMemoIdsByTagId(p: Pairs, tag: Id): (r: set<Id>)
    ensures forall memo :: memo in r <==> (memo, tag) in p
  {
    set x | x in p && x.1 == tag :: x.0
  }

  /** The two id queries read the same relation from either end. */
  lemma LookupsAgree(p: Pairs, memo: Id, tag: Id)
    ensures tag in FindTagIdsByMemoId(p, memo) <==> memo in FindMemoIdsByTagId(p, tag)
  {
  }

  /** `deleteByMemoId` (and `removeAllTagsFromMemo`): drops every row of the
      memo and no other row. */
  function DeleteByMemoId(p: Pairs, memo: Id): (r: Pairs)
    ensures forall x :: x in r <==> x in p && x.0 != memo
    ensures FindTagIdsByMemoId(r, memo) == {}
  {
    p - FindByMemoId(p, memo)
  }

  /** `addTagToMemo`: saves the pair; an existing pair is left as it is. */
  function Add(p: Pairs, memo: Id, tag: Id): (r: Pairs)
    ensures (memo, tag) in r
    ensures forall x | x != (memo, tag) :: x in r <==> x in p
    ensures (memo, tag) in p ==> r == p
  {
    p + {(memo, tag)}
  }

  /** `removeTagFromMemo`: deletes the pair by its key; a missing pair is not
      an error. */
  function Remove(p: Pairs, memo: Id, tag: Id): (r: Pairs)
    ensures (memo, tag) !in r
    ensures forall x | x != (memo, tag) :: x in r <==> x in p
    ensures (memo, tag) !in p ==> r == p
  {
    p - {(memo, tag)}
  }

  /** Adding and then removing a pair that was absent restores the table. */
  lemma RemoveUndoesAdd(p: Pairs, memo: Id, tag: Id)
    requires (memo, tag) !in p
    ensures Remove(Add(p, memo, tag), memo, tag) == p
  {
  }

  /** The `forEach` of `setTagsForMemo`: adds `(memo, tag)` for each tag id in
      turn. */
  function AddAll(p: Pairs, memo: Id, tags: seq<Id>): (r: Pairs)
    ensures forall x :: x in r <==> x in p || (x.0 == memo && x.1 in tags)
    decreases |tags|
  {
    if tags == [] then p else AddAll(Add(p, memo, tags[0]), memo, tags[1..])
  }

  /** `setTagsForMemo`: replaces the memo's tags with the listed ones.
      Duplicates in the list collapse; other memos' rows are untouched. */
  function SetTagsForMemo(p: Pairs, memo: Id, tags: seq<Id>): (r: Pairs)
    ensures FindTagIdsByMemoId(r, memo) == set tag | tag in tags
    ensures forall x: Pair | x.0 != memo :: x in r <==> x in p
  {
    AddAll(DeleteByMemoId(p, memo), memo, tags)
  }

  /** Every other memo keeps exactly the tags it had. */
  lemma SetTagsLeavesOtherMemos(p: Pairs, memo: Id, tags: seq<Id>, other: Id)
    requires other != memo
    ensures FindTagIdsByMemoId(SetTagsForMemo(p, memo, tags), other) == FindTagIdsByMemoId(p, other)
  {
  }

  /** Setting the same tags twice is setting them once. */
  lemma SetTagsIdempotent(p: Pairs, memo: Id, tags: seq<Id>)
    ensures SetTagsForMemo(SetTagsForMemo(p, memo, tags), memo, tags) == SetTagsForMemo(p, memo, tags)
  {
    var once := SetTagsForMemo(p, memo, tags);
    var twice := SetTagsForMemo(once, memo, tags);
    forall x ensures x in twice <==> x in once {
      if x.0 == memo {
        assert x in twice <==> x.1 in FindTagIdsByMemoId(twice, memo);
        assert x in once <==> x.1 in FindTagIdsByMemoId(once, memo);
      }
    }
  }

  /** Setting the empty list removes all of the memo's tags. */
  lemma SetNoTagsIsRemoveAll(p: Pairs, memo: Id)
    ensures SetTagsForMemo(p, memo, []) == DeleteByMemoId(p, memo)
  {
  }

  /** `getTagsForMemo`: the memo's tag ids, each looked up in the tag table;
      an id whose tag no longer exists is dropped. */
  function GetTagsForMemo(p: Pairs, tags: TagRepository.Table, memo: Id): (r: set<Tag>)
    requires TagRepository.WellFormed(tags)
    ensures forall tag :: tag in r <==> (memo, tag.id) in p && TagRepository.FindById(tags, tag.id) == Some(tag)
    ensures forall tag | tag in r :: Valid(tag)
  {
    set id | id in FindTagIdsByMemoId(p, memo) && TagRepository.FindById(tags, id).Some?
      :: TagRepository.FindById(tags, id).value
  }

  /** A pair whose tag is missing from the tag table contributes nothing. */
  lemma DanglingPairsAreDropped(p: Pairs, tags: TagRepository.Table, memo: Id, tag: Id)
    requires TagRepository.WellFormed(tags)
    requires tag !in TagRepository.Ids(tags)
    ensures GetTagsForMemo(p + {(memo, tag)}, tags, memo) == GetTagsForMemo(p, tags, memo)
  {
    var a, b := GetTagsForMemo(p + {(memo, tag)}, tags, memo), GetTagsForMemo(p, tags, memo);
    forall x ensures x in a <==> x in b {
      if x.id == tag {
        assert TagRepository.FindById(tags, tag) == None;
      }
    }
  }
}
