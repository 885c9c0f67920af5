# womery: a verified model of the memo and tag core

womery is a note-taking application. Its Kotlin/Spring backend stores quick memos (short notes), tags, and the pairs that attach tags to memos. Its Next.js frontend has three pages:

- a quick-input page for capturing notes;
- an inbox for reading, editing and deleting them;
- a trash page.

This project models the backend core and the frontend's pure decision logic in Dafny, and proves properties of the model.

What is modelled, bottom up:

- **Domain values** (`QuickMemos`, `Tags`). The memo and tag constructors trim their text and check it; each failure is a `Result` error carrying the constructor's message. The memo's transitions are `updateContent`, `softDelete` and `restore`.
- **Stores** (`Tables`, `QuickMemoRepository`, `TagRepository`, `MemoTagRepository`).
  - The memo and tag tables are sequences of entity rows with unique primary keys, in the order the database returns them. The tag table also keeps its name column unique.
  - The memo–tag table is a set of `(memoId, tagId)` pairs.
  - Every repository method is a pure function from the table to its result and the new table.
  - The entity↔domain mappings are proved to round-trip. The memo entity has no `deletedAt` column, so the memo mapping drops the trash marker.
  - `save` keeps the stored `createdAt` of an existing row, because that column is declared not updatable.
- **Services** (`QuickMemoService`, `TagService`). Each service call takes the store and returns a `Step`: the result and the store it leaves behind. A failed call leaves the store unchanged, as its transaction rollback does.
- **HTTP layer** (`Requests`, `ExceptionHandler`, `QuickMemoController`).
  - Request-body validation (`@NotBlank`, `@Size`, `@NotEmpty`) and UUID path binding.
  - The exception handler's mapping from error kind to status, error text and message.
  - Each controller endpoint as a composition of these, including the "memo must exist" guard in front of the tag endpoints.
- **Frontend** (`MemoList`, `RelativeTime`, `QuickInputPage`, `InboxPage`, `TrashPage`). The pages' handlers are split at their requests. One function says what happens before the request and which request, if any, is sent; another applies the server's answer. Also modelled: the relative-time labels, the trash search, and the list updates by id.

Inputs and their models:

- The clock and the UUID generator are parameters: `now: int` in milliseconds and a fresh `id`. The user's answer to a `confirm()` dialog is a parameter too. Ids are the lower-case UUID text that `UUID.toString` prints.
- Whitespace is modelled exactly, once per platform that decides it. Each is a `Text.Platform`:
  - Kotlin's `isWhitespace`, used by the domain's `trim()` and `isBlank()`;
  - Java's `String.trim()`, which strips every char up to U+0020 and is what Hibernate's `@NotBlank` uses;
  - JavaScript's `trim()`, used by the frontend.

Where the main code and its tests disagree, or the code departs from what it evidently intends, the model follows the main code:

- Deleting a memo removes it for good. There is no service-level soft delete, restore or trash listing; only the domain transitions exist.
- Deleting a memo leaves its tag pairs in the pair table, and so does deleting a tag. A pair whose tag is gone stops showing because the tag lookup fails. `TagService.DeleteTagHidesItsPairs` proves that each memo's visible tags lose exactly that tag.
- `createTag` looks up the name as given but saves it trimmed. A padded duplicate therefore reaches the unique constraint instead of raising "already exists".
- `setTagsForMemo` looks up the tags one id at a time and reports the first missing id. It does not do a single bulk lookup.
- The exception handler has no handler for the tag exceptions or for unique-constraint violations, so these become the generic 500 rather than a 4xx response.
- The exception handler's not-found handler is declared for `com.example.womery.exception.QuickMemoNotFoundException`, but the service throws its own `QuickMemoNotFoundException` (QuickMemoService.kt:46). As written, every memo not-found therefore becomes the generic 500, while the tests expect 404. This is listed under Findings. `ExceptionHandler.HandleAsWritten` models the mapping as written; the rest of the model uses the intended 404.
- `findAllActive` and `findAllDeleted` are JPQL queries on `e.deletedAt`, an attribute `QuickMemoEntity` does not declare. Spring Data validates such queries when it creates the repository, so as written the repository cannot be created at all. The model evaluates the queries as intended, over domain memos.
- The inbox page deletes through `quickMemosApi.delete(id)` (frontend/src/app/inbox/page.tsx:42), but the client object defines no `delete`; it has `softDelete`, `restore` and `permanentlyDelete` (frontend/src/lib/quickMemos.ts:37-47). TypeScript's type check rejects the call. Where the page runs regardless, the call throws before any request is sent, and every confirmed delete ends in "Failed to delete memo". This is listed under Findings. `InboxPage.HandleDeleteAsWritten` models the page as written; `InboxPage.FinishDelete` and the rows built on it describe the intended success path.
- The trash page's requests have no backend mapping. The controller maps no `/trash`, `/{id}/restore` or `/{id}/permanent` route. `GET /api/quick-memos/trash` therefore reaches `GET /{id}` with "trash" as the id and is answered 400 (`QuickMemoController.TrashListingIsABadId`). The trash page's load, restore and permanent-delete handlers take the server's answer as a parameter. Their success branches, and the rows built on them, describe the intended path; against this backend, every such request gets a non-success status, which the client turns into a thrown error (frontend/src/lib/api.ts:13-20), so the page takes its failure branch.
- `formatDate` appears twice, in frontend/src/app/inbox/page.tsx:98-115 and frontend/src/app/trash/page.tsx:82-99, with identical text. `RelativeTime` models it once, and the rows below cite the inbox copy.

## Model

| member | source | states |
|---|---|---|
| Text.Trim | backend/src/main/kotlin/com/example/womery/domain/model/QuickMemo.kt:30 | Kotlin's `trim()` removes exactly the leading and trailing whitespace: the result is a slice of the input whose ends are not whitespace, and it is empty exactly when the input is blank |
| QuickMemos.New | backend/src/main/kotlin/com/example/womery/domain/model/QuickMemo.kt:20-23 | The constructor accepts exactly non-blank content of at most 1000 characters. Blank content fails with "Content cannot be blank", checked first; over-long content fails with "Content cannot exceed 1000 characters" |
| QuickMemos.Create | backend/src/main/kotlin/com/example/womery/domain/model/QuickMemo.kt:26-34 | Succeeds exactly when the content is non-blank and its trimmed form has at most 1000 characters; the memo holds the trimmed content, the given id, createdAt = updatedAt = now and no deletedAt; each failure carries its message |
| QuickMemos.CreateLimitIsInclusive | backend/src/main/kotlin/com/example/womery/domain/model/QuickMemo.kt:22 | 1000 characters are accepted and 1001 fail with the too-long message |
| QuickMemos.CreateCountsTrimmedLength | backend/src/main/kotlin/com/example/womery/domain/model/QuickMemo.kt:30 | Whitespace around the text does not count towards the limit, because the trimmed text is what the constructor sees |
| QuickMemos.UpdateContent | backend/src/main/kotlin/com/example/womery/domain/model/QuickMemo.kt:40-45 | Succeeds under the same rule as `create`; only the content (trimmed) and updatedAt (now) change; id, createdAt and deletedAt are kept |
| QuickMemos.UpdateAgreesWithCreate | backend/src/main/kotlin/com/example/womery/domain/model/QuickMemo.kt:40-45 | An edit succeeds exactly when creating a memo from the same text would, and it stores the same text |
| QuickMemos.UpdateWithOwnContent | backend/src/main/kotlin/com/example/womery/domain/model/QuickMemo.kt:40-45 | Re-saving a memo's own (already trimmed) text changes only updatedAt |
| QuickMemos.SoftDelete | backend/src/main/kotlin/com/example/womery/domain/model/QuickMemo.kt:47-51 | The memo is in the trash with deletedAt = now; every other field is unchanged |
| QuickMemos.Restore | backend/src/main/kotlin/com/example/womery/domain/model/QuickMemo.kt:53-57 | The memo is out of the trash; every other field is unchanged |
| QuickMemos.RestoreUndoesSoftDelete | backend/src/main/kotlin/com/example/womery/domain/model/QuickMemo.kt:47-57 | Restoring an active memo right after trashing it gives back the same memo |
| Tags.New | backend/src/main/kotlin/com/example/womery/domain/model/Tag.kt:17-20 | The constructor accepts exactly non-blank names of at most 100 characters, with the blank check first and each failure carrying its message |
| Tags.Create | backend/src/main/kotlin/com/example/womery/domain/model/Tag.kt:23-30 | Succeeds exactly when the name is non-blank and its trimmed form has at most 100 characters; the tag holds the trimmed name, the given id and createdAt = now |
| Tags.CreateIsStable | backend/src/main/kotlin/com/example/womery/domain/model/Tag.kt:27 | Building a tag from a created tag's name yields the same tag, since the stored name is already trimmed |
| QuickMemoRepository.FromDomain | backend/src/main/kotlin/com/example/womery/repository/jpa/QuickMemoEntity.kt:34-40 | The row copies id, content, createdAt and updatedAt unchanged (the entity has no deletedAt column) |
| QuickMemoRepository.ToDomain | backend/src/main/kotlin/com/example/womery/repository/jpa/QuickMemoEntity.kt:27-32 | Converting a row succeeds exactly when the constructor accepts its content; the result copies the columns and is never in the trash |
| QuickMemoRepository.DomainRoundTrip | backend/src/main/kotlin/com/example/womery/repository/jpa/QuickMemoEntity.kt:13-40 | Domain to entity to domain returns the memo with deletedAt dropped |
| QuickMemoRepository.EntityRoundTrip | backend/src/main/kotlin/com/example/womery/repository/jpa/QuickMemoEntity.kt:27-40 | Entity to domain to entity is the identity on convertible rows |
| QuickMemoRepository.FindById | backend/src/main/kotlin/com/example/womery/repository/jpa/QuickMemoRepositoryImpl.kt:18-20 | Finds a memo exactly when its id is stored; the result is valid, has that id, is active, and its row is in the table |
| QuickMemoRepository.ExistsById | backend/src/main/kotlin/com/example/womery/repository/jpa/QuickMemoRepositoryImpl.kt:32-34 | True exactly when `findById` finds the id |
| QuickMemoRepository.Save | backend/src/main/kotlin/com/example/womery/repository/jpa/QuickMemoRepositoryImpl.kt:13-16 | Returns the memo without deletedAt; afterwards the id is stored and every other id reads as before. A new id reads back as saved; an existing id keeps its stored createdAt, since the column is not updatable (QuickMemoEntity.kt:21) |
| QuickMemoRepository.SaveThenFind | backend/src/main/kotlin/com/example/womery/repository/jpa/QuickMemoRepositoryImpl.kt:13-20 | A memo saved with an unchanged creation time is found afterwards exactly as saved, minus its trash marker |
| QuickMemoRepository.Delete | backend/src/main/kotlin/com/example/womery/repository/jpa/QuickMemoRepositoryImpl.kt:28-30 | Removes the id (a missing id is not an error); every other id reads as before; the table stays well formed |
| QuickMemoRepository.NewestFirstIsPreorder | backend/src/main/kotlin/com/example/womery/repository/jpa/QuickMemoRepositoryImpl.kt:25 | Ordering by createdAt descending is a total preorder |
| QuickMemoRepository.DeletedFirstIsPreorder | backend/src/main/kotlin/com/example/womery/repository/jpa/JpaQuickMemoRepository.kt:13 | Ordering by deletedAt descending is a total preorder |
| QuickMemoRepository.FindAll | backend/src/main/kotlin/com/example/womery/repository/jpa/QuickMemoRepositoryImpl.kt:22-26 | Returns every stored memo, converted, exactly once (a permutation of the rows), sorted newest first |
| QuickMemoRepository.FindAllActive | backend/src/main/kotlin/com/example/womery/repository/jpa/JpaQuickMemoRepository.kt:10-11 | Returns the memos without deletedAt, each as often as in the input, newest first |
| QuickMemoRepository.FindAllDeleted | backend/src/main/kotlin/com/example/womery/repository/jpa/JpaQuickMemoRepository.kt:13-14 | Returns the memos with deletedAt, each as often as in the input, most recently deleted first |
| QuickMemoRepository.ActiveAndTrashPartition | backend/src/main/kotlin/com/example/womery/repository/jpa/JpaQuickMemoRepository.kt:10-14 | The two queries share no memo, and together they return every memo exactly once |
| QuickMemoRepository.StoredMemosAreNeverTrashed | backend/src/main/kotlin/com/example/womery/repository/jpa/QuickMemoEntity.kt:13-26 | With the queries evaluated as intended over memos read back from stored rows, where a missing trash marker reads as null, the trash query is empty and the active query equals `findAll` |
| TagRepository.FromDomain | backend/src/main/kotlin/com/example/womery/repository/jpa/TagEntity.kt:30-35 | The row copies id, name and createdAt unchanged |
| TagRepository.ToDomain | backend/src/main/kotlin/com/example/womery/repository/jpa/TagEntity.kt:24-28 | Converting a row succeeds exactly when the `Tag` constructor accepts its name, and copies the columns |
| TagRepository.DomainRoundTrip | backend/src/main/kotlin/com/example/womery/repository/jpa/TagEntity.kt:24-35 | Domain to entity to domain is the identity on valid tags |
| TagRepository.EntityRoundTrip | backend/src/main/kotlin/com/example/womery/repository/jpa/TagEntity.kt:24-35 | Entity to domain to entity is the identity on convertible rows |
| TagRepository.DefaultEntityIsNotATag | backend/src/main/kotlin/com/example/womery/repository/jpa/TagEntity.kt:16-22 | The default-constructed row (nil UUID, empty name, epoch) cannot become a tag: it fails with the blank-name message |
| TagRepository.FindById | backend/src/main/kotlin/com/example/womery/repository/jpa/TagRepositoryImpl.kt:18-20 | Finds a tag exactly when its id is stored; the result is valid, has that id, and its row is in the table |
| TagRepository.FindByName | backend/src/main/kotlin/com/example/womery/repository/jpa/JpaTagRepository.kt:10 | Finds a tag exactly when some row holds that exact name (no trimming or case folding), and then it is that row's tag |
| TagRepository.Save | backend/src/main/kotlin/com/example/womery/repository/jpa/TagRepositoryImpl.kt:13-16 | Fails with a data-integrity violation, leaving the table unchanged, exactly when another id already holds the name (the unique column, TagEntity.kt:18); otherwise returns the tag and performs `Write` |
| TagRepository.Write | backend/src/main/kotlin/com/example/womery/repository/jpa/TagRepositoryImpl.kt:13-16 | After the write, names and ids stay unique, the id is stored, the name now finds this id, and the name set grows by at most this name. A new id reads back as saved; an existing id keeps its stored createdAt; every other id reads as before |
| TagRepository.Delete | backend/src/main/kotlin/com/example/womery/repository/jpa/TagRepositoryImpl.kt:31-33 | Removes the id (a missing id is not an error); every other id reads as before; names stay unique |
| TagRepository.NameAscendingIsPreorder | backend/src/main/kotlin/com/example/womery/repository/jpa/JpaTagRepository.kt:9 | Ordering by name ascending is a total preorder |
| TagRepository.FindAll | backend/src/main/kotlin/com/example/womery/repository/jpa/TagRepositoryImpl.kt:22-25 | Returns every stored tag exactly once (a permutation of the rows), in ascending name order |
| MemoTagRepository.FindByMemoId | backend/src/main/kotlin/com/example/womery/repository/jpa/JpaMemoTagRepository.kt:11 | Returns exactly the pairs whose memo is the given one |
| MemoTagRepository.FindTagIdsByMemoId | backend/src/main/kotlin/com/example/womery/repository/jpa/JpaMemoTagRepository.kt:13-14 | A tag id is in the result exactly when the memo is paired with it |
| MemoTagRepository.FindMemoIdsByTagId | backend/src/main/kotlin/com/example/womery/repository/jpa/MemoTagRepositoryImpl.kt:39-41 | A memo id is in the result exactly when the tag is paired with it |
| MemoTagRepository.LookupsAgree | backend/src/main/kotlin/com/example/womery/repository/jpa/JpaMemoTagRepository.kt:13-17 | The two id queries read the same relation from either end |
| MemoTagRepository.DeleteByMemoId | backend/src/main/kotlin/com/example/womery/repository/jpa/MemoTagRepositoryImpl.kt:43-45 | Drops every pair of the memo and no other pair |
| MemoTagRepository.Add | backend/src/main/kotlin/com/example/womery/repository/jpa/MemoTagRepositoryImpl.kt:20-23 | The pair is present afterwards and nothing else changes; saving an existing pair is a no-op |
| MemoTagRepository.Remove | backend/src/main/kotlin/com/example/womery/repository/jpa/MemoTagRepositoryImpl.kt:25-28 | The pair is absent afterwards and nothing else changes; removing a missing pair is a no-op |
| MemoTagRepository.RemoveUndoesAdd | backend/src/main/kotlin/com/example/womery/repository/jpa/MemoTagRepositoryImpl.kt:20-28 | Adding a pair that was absent and then removing it restores the table |
| MemoTagRepository.AddAll | backend/src/main/kotlin/com/example/womery/repository/jpa/MemoTagRepositoryImpl.kt:34-36 | After adding each listed tag in turn, a pair is present exactly when it was before or it pairs the memo with a listed tag |
| MemoTagRepository.SetTagsForMemo | backend/src/main/kotlin/com/example/womery/repository/jpa/MemoTagRepositoryImpl.kt:30-37 | The memo's tag ids become exactly the listed ids (duplicates collapse); pairs of other memos are untouched |
| MemoTagRepository.SetTagsLeavesOtherMemos | backend/src/main/kotlin/com/example/womery/repository/jpa/MemoTagRepositoryImpl.kt:30-37 | Every other memo keeps exactly the tag ids it had |
| MemoTagRepository.SetTagsIdempotent | backend/src/main/kotlin/com/example/womery/repository/jpa/MemoTagRepositoryImpl.kt:30-37 | Setting the same list twice has the effect of setting it once |
| MemoTagRepository.SetNoTagsIsRemoveAll | backend/src/main/kotlin/com/example/womery/repository/jpa/MemoTagRepositoryImpl.kt:30-45 | Setting the empty list is the same as removing all of the memo's tags |
| MemoTagRepository.GetTagsForMemo | backend/src/main/kotlin/com/example/womery/repository/jpa/MemoTagRepositoryImpl.kt:15-18 | A tag is in the result exactly when the memo is paired with its id and the tag table finds that id; ids without a tag are dropped |
| MemoTagRepository.DanglingPairsAreDropped | backend/src/main/kotlin/com/example/womery/repository/jpa/MemoTagRepositoryImpl.kt:17 | Adding a pair whose tag does not exist does not change the memo's tags |
| QuickMemoService.CreateQuickMemo | backend/src/main/kotlin/com/example/womery/service/QuickMemoService.kt:14-17 | Succeeds exactly when the memo constructor accepts the content, and then returns a new active memo (trimmed content, id, now) that is stored while other ids are untouched. On failure it returns the constructor's error and the table is unchanged |
| QuickMemoService.GetQuickMemo | backend/src/main/kotlin/com/example/womery/service/QuickMemoService.kt:19-23 | Returns the stored memo exactly when the id is stored; otherwise the not-found error naming the id |
| QuickMemoService.GetAllQuickMemos | backend/src/main/kotlin/com/example/womery/service/QuickMemoService.kt:25-28 | Returns the repository listing: every memo, newest first |
| QuickMemoService.UpdateQuickMemo | backend/src/main/kotlin/com/example/womery/service/QuickMemoService.kt:30-36 | An unknown id gives not-found, and rejected content gives `updateContent`'s error: "Content cannot be blank" for blank content, else "Content cannot exceed 1000 characters"; both leave the table unchanged. On success the stored memo differs from before only in its trimmed content and updatedAt = now, and other ids are untouched |
| QuickMemoService.DeleteQuickMemo | backend/src/main/kotlin/com/example/womery/service/QuickMemoService.kt:38-43 | An unknown id gives not-found with the table unchanged; otherwise the id is removed and other ids are untouched |
| QuickMemoService.CreateThenGet | backend/src/main/kotlin/com/example/womery/service/QuickMemoService.kt:14-23 | A memo created under a fresh id is then returned by `getQuickMemo` |
| QuickMemoService.UpdateThenGet | backend/src/main/kotlin/com/example/womery/service/QuickMemoService.kt:20-36 | What `updateQuickMemo` returns is what `getQuickMemo` then returns |
| QuickMemoService.DeleteThenGet | backend/src/main/kotlin/com/example/womery/service/QuickMemoService.kt:20-43 | After a delete, both get and a second delete of the id are not-found |
| TagService.CreateTag | backend/src/main/kotlin/com/example/womery/service/TagService.kt:18-26 | A name stored exactly as given gives "Tag already exists: <name>". Otherwise the constructor's error, if any, is returned; a valid trimmed name held by another tag is a unique-constraint violation. On success the stored tag carries the trimmed name, the id and now; the ids grow by exactly the new id, every other id finds what it found before, and the pairs are untouched. Every failure leaves the store unchanged |
| TagService.PaddedDuplicateReachesTheDatabase | backend/src/main/kotlin/com/example/womery/service/TagService.kt:18-26 | A padded copy of a stored name passes the exact-name lookup and fails on the unique constraint (a 500 after the exception mapping), not with "already exists" |
| TagService.GetAllTags | backend/src/main/kotlin/com/example/womery/service/TagService.kt:28-31 | Returns every tag in ascending name order |
| TagService.GetTag | backend/src/main/kotlin/com/example/womery/service/TagService.kt:33-37 | Returns the stored tag exactly when the id is stored; otherwise "Tag not found: <id>" |
| TagService.GetTagsForMemo | backend/src/main/kotlin/com/example/womery/service/TagService.kt:39-42 | Returns exactly the existing tags paired with the memo |
| TagService.AddTagToMemo | backend/src/main/kotlin/com/example/womery/service/TagService.kt:44-50 | Succeeds exactly when the tag exists, and then adds the pair (the memo is not checked); otherwise not-found for the tag id, with the store unchanged |
| TagService.FirstMissing | backend/src/main/kotlin/com/example/womery/service/TagService.kt:54-57 | Gives the position of the first listed id that is not a stored tag, or none when every id is stored |
| TagService.SetTagsForMemo | backend/src/main/kotlin/com/example/womery/service/TagService.kt:52-60 | Succeeds exactly when every listed id is a stored tag, and the memo's tag ids then become the listed ones. Otherwise it fails naming the first missing id in list order and changes nothing |
| TagService.SetTagsThenGet | backend/src/main/kotlin/com/example/womery/service/TagService.kt:40-60 | After a successful set, the memo shows exactly the stored tags whose ids were listed |
| TagService.RemoveTagFromMemo | backend/src/main/kotlin/com/example/womery/service/TagService.kt:62-64 | Always succeeds; only that pair is gone, and the tag no longer shows for the memo |
| TagService.DeleteTag | backend/src/main/kotlin/com/example/womery/service/TagService.kt:66-71 | An unknown id gives not-found with the store unchanged. Otherwise the tag row is removed while its pairs stay, and the tag no longer shows for any memo |
| TagService.DeleteTagHidesItsPairs | backend/src/main/kotlin/com/example/womery/service/TagService.kt:66-71 | After deleting a tag, each memo shows the tags it showed before minus that one, while the pair table still lists the memos |
| TagService.GetOrCreateTag | backend/src/main/kotlin/com/example/womery/service/TagService.kt:73-78 | As written: a tag stored under exactly the given name is returned unchanged; otherwise it behaves as creation. It never reports "already exists" |
| TagService.GetOrCreateTwiceTrimmed | backend/src/main/kotlin/com/example/womery/service/TagService.kt:73-78 | For an already-trimmed name, asking twice returns the same tag and the second call changes nothing |
| TagService.GetOrCreateTwicePadded | backend/src/main/kotlin/com/example/womery/service/TagService.kt:73-78 | For a padded name, a second call fails with a data-integrity violation (see Findings) |
| TagService.GetOrCreateTagTrimmed | backend/src/main/kotlin/com/example/womery/service/TagService.kt:73-78 | Corrected lookup by the trimmed name: a stored tag with that name is returned; a created tag's name is the trimmed name |
| TagService.GetOrCreateTrimmedTwice | backend/src/main/kotlin/com/example/womery/service/TagService.kt:73-78 | With the corrected lookup, asking twice returns the same tag for every name, padded or not |
| Requests.NotBlankAndSize | backend/src/main/kotlin/com/example/womery/api/dto/request/CreateQuickMemoRequest.kt:7-8 | Reports no violation exactly when the value is non-blank after Java's trim and has at most `max` characters before trimming; each violation names the field |
| Requests.ValidateCreateQuickMemo | backend/src/main/kotlin/com/example/womery/api/dto/request/CreateQuickMemoRequest.kt:6-10 | The body is accepted exactly when the content is non-blank in Java's sense and has at most 1000 raw characters; otherwise a validation error that includes "Content is required" exactly when it is blank |
| Requests.ValidateUpdateQuickMemo | backend/src/main/kotlin/com/example/womery/api/QuickMemoController.kt:61 | The update body passes exactly when its content is not blank after Java's trim and has at most 1000 raw characters; a failure lists violations of the content field only |
| Requests.ValidateCreateTag | backend/src/main/kotlin/com/example/womery/api/dto/request/CreateTagRequest.kt:6-10 | The body is accepted exactly when the name is non-blank in Java's sense and has at most 100 raw characters |
| Requests.JavaSpaceIsKotlinSpace | backend/src/main/kotlin/com/example/womery/api/dto/request/CreateQuickMemoRequest.kt:7 | Among the characters Java's trim strips, the ones Kotlin also treats as whitespace are exactly the listed ten |
| Requests.ValidatedContentMeetsDomain | backend/src/main/kotlin/com/example/womery/api/dto/request/CreateQuickMemoRequest.kt:7-8 | Content the request accepts can be refused by the memo only for Kotlin blankness (with the blank message), never for length |
| Requests.NoBreakSpacePassesRequestButNotDomain | backend/src/main/kotlin/com/example/womery/api/dto/request/CreateQuickMemoRequest.kt:7 | Example, for one input (the rule for all inputs is `Requests.ValidatedContentMeetsDomain`): a lone no-break space passes the request check and is refused by the memo constructor |
| Requests.SizeCountsPadding | backend/src/main/kotlin/com/example/womery/api/dto/request/CreateQuickMemoRequest.kt:8 | 1000 characters plus a leading space are refused by the request but accepted by the memo |
| Requests.ParseUuid | backend/src/main/kotlin/com/example/womery/api/QuickMemoController.kt:52 | A path id parses exactly when it is canonical UUID text, either case, and denotes its lower-case form |
| Requests.ParseUuidIgnoresCase | backend/src/main/kotlin/com/example/womery/api/QuickMemoController.kt:52 | Upper- and lower-case spellings of a UUID parse to the same id |
| Requests.BindPathId | backend/src/main/kotlin/com/example/womery/api/QuickMemoController.kt:52 | A path id that is not a UUID is a type mismatch |
| Requests.ParseUuids | backend/src/main/kotlin/com/example/womery/api/dto/request/SetTagsRequest.kt:9 | A list parses exactly when every element is a UUID, element by element |
| Requests.BindSetTags | backend/src/main/kotlin/com/example/womery/api/dto/request/SetTagsRequest.kt:6-10 | A non-UUID element, a blank one included, makes the body unreadable; an empty list is the "tagIds: Tag IDs cannot be empty" violation; otherwise returns the parsed ids in order |
| Requests.BlankTagIdIsRefused | backend/src/main/kotlin/com/example/womery/api/dto/request/SetTagsRequest.kt:9 | Example, for two inputs (the rule for all inputs is `Requests.BindSetTags`): a blank element makes the body unreadable, answered 400 as QuickMemoControllerTest.kt:565-580 expects; this outcome follows the test, not a reading of the JSON binding |
| ExceptionHandler.Join | backend/src/main/kotlin/com/example/womery/api/GlobalExceptionHandler.kt:24-25 | The joined message is empty exactly when there are no violations, and a single violation reads `field: message` |
| ExceptionHandler.JoinMentionsEach | backend/src/main/kotlin/com/example/womery/api/GlobalExceptionHandler.kt:24-25 | Every violation appears, rendered, in the joined message |
| ExceptionHandler.Handle | backend/src/main/kotlin/com/example/womery/api/GlobalExceptionHandler.kt:15-58 | Memo-not-found gives 404 "Not Found" with its message, or "Resource not found" without one. Validation errors give 400 "Validation Error" with the violations joined by ", ". An unreadable body gives 400 "Bad Request" "Malformed JSON request"; a type mismatch gives 400 "Bad Request" "Invalid parameter type"; an illegal argument gives 400 "Bad Request" with its message or "Invalid request". Every other kind (tag not found, tag already exists, data-integrity violation) gives 500 "Internal Server Error" "An unexpected error occurred" |
| ExceptionHandler.ErrorTextDeterminesStatus | backend/src/main/kotlin/com/example/womery/api/GlobalExceptionHandler.kt:15-58 | Two responses with the same error text have the same status; "Validation Error" comes only from validation errors and "Not Found" only from memo-not-found |
| ExceptionHandler.HandleAsWritten | backend/src/main/kotlin/com/example/womery/api/GlobalExceptionHandler.kt:3-20 | As written, the service's memo-not-found reaches the generic handler and gives the 500 response; no error gives 404; every other kind is answered as by `Handle` (see Findings) |
| ExceptionHandler.SingleViolationMessage | backend/src/main/kotlin/com/example/womery/api/GlobalExceptionHandler.kt:22-30 | One violation gives 400 "Validation Error" with message `field: message` |
| ExceptionHandler.TagErrorsAreIndistinguishable | backend/src/main/kotlin/com/example/womery/api/GlobalExceptionHandler.kt:53-58 | Tag-not-found, tag-already-exists and unique violations all produce the same 500 response |
| QuickMemoController.CreateQuickMemo | backend/src/main/kotlin/com/example/womery/api/QuickMemoController.kt:31-39 | Answers 201 with the created memo (trimmed content, the id) exactly when the request check and the memo constructor both accept the content; otherwise 400 with the system unchanged |
| QuickMemoController.GetAllQuickMemos | backend/src/main/kotlin/com/example/womery/api/QuickMemoController.kt:41-49 | Answers 200 with every memo in the service's order, each with its current tags; nothing changes |
| QuickMemoController.GetQuickMemo | backend/src/main/kotlin/com/example/womery/api/QuickMemoController.kt:51-56 | A non-UUID path gives 400. Otherwise 200 with the memo and its tags exactly when it is stored, else 404 "Not Found" "QuickMemo not found: <id>"; nothing changes |
| QuickMemoController.GetQuickMemoAsWritten | backend/src/main/kotlin/com/example/womery/api/QuickMemoController.kt:51-56 | With the handler as written, GET succeeds exactly as with the intended handler, and a failure for a UUID path is the generic 500 response (see Findings) |
| QuickMemoController.UnknownIdAnswers500AsWritten | backend/src/main/kotlin/com/example/womery/api/GlobalExceptionHandler.kt:3-20 | For a UUID that is not stored, GET answers 500 "Internal Server Error" as written and 404 "Not Found" with the intended mapping |
| QuickMemoController.TrashListingIsABadId | frontend/src/lib/quickMemos.ts:18-20 | The trash listing's `GET /api/quick-memos/trash` reaches `GET /{id}` with "trash" as the id and is answered 400 "Invalid parameter type", under both handler mappings |
| QuickMemoController.UpdateQuickMemo | backend/src/main/kotlin/com/example/womery/api/QuickMemoController.kt:58-66 | The path is bound first (non-UUID: 400), then the body is validated (blank or over 1000 chars: 400 "Validation Error", also for an unknown id), then the memo is looked up (unknown: 404 "Not Found" naming the id). It succeeds exactly when all three pass and the content is not Kotlin-blank; every failure leaves the system unchanged. Success returns the trimmed content with updatedAt = now, and a following GET returns the same response |
| QuickMemoController.BlankUpdateIsValidationError | backend/src/main/kotlin/com/example/womery/api/QuickMemoController.kt:61 | Updating any UUID path with `"   "` answers "Validation Error" and changes nothing, whether or not the memo exists |
| QuickMemoController.DeleteQuickMemo | backend/src/main/kotlin/com/example/womery/api/QuickMemoController.kt:68-72 | A non-UUID path gives 400; an unknown id gives 404. Otherwise 204 and the id is gone, while the tag pairs are untouched |
| QuickMemoController.MemoGuard | backend/src/main/kotlin/com/example/womery/api/QuickMemoController.kt:76 | The memo-existence check passes exactly when the memo is stored, and its failure maps to 404 |
| QuickMemoController.GetMemoTags | backend/src/main/kotlin/com/example/womery/api/QuickMemoController.kt:74-79 | A non-UUID path gives 400. Otherwise 200 with the memo's tags exactly when it is stored, else 404 |
| QuickMemoController.SetMemoTags | backend/src/main/kotlin/com/example/womery/api/QuickMemoController.kt:81-90 | Succeeds exactly when the path is a UUID, the body binds, the memo is stored and every listed tag is stored. Errors come in order: the path, then the body (unreadable or empty list), then the memo guard (404), then the first missing tag, answered as that tag's not-found; each leaves the system unchanged. On success the memo's tag ids are exactly the listed ones, never empty, and the answer is its tags |
| QuickMemoController.AddTagToMemo | backend/src/main/kotlin/com/example/womery/api/QuickMemoController.kt:92-101 | Succeeds exactly when both paths are UUIDs and the memo and the tag are stored. Bad ids give 400 and an unknown memo 404; a stored memo with an unknown tag gets the tag's not-found answer. On success the pair is added, and the answer contains the tag and equals the memo's tags |
| QuickMemoController.RemoveTagFromMemo | backend/src/main/kotlin/com/example/womery/api/QuickMemoController.kt:103-112 | Bad ids give 400. Otherwise it succeeds exactly when the memo is stored, then the pair is removed and the answer lacks the tag |
| QuickMemoController.TagEndpointsGuardTheMemo | backend/src/main/kotlin/com/example/womery/api/QuickMemoController.kt:74-112 | Every tag endpoint aimed at a missing memo fails and changes nothing |
| MemoList.FindById | frontend/src/app/inbox/page.tsx:67 | Returns the first memo with the id, or none when no memo has it |
| MemoList.RemoveById | frontend/src/app/inbox/page.tsx:43 | Keeps exactly the memos with other ids, each as often as before and in the same order |
| MemoList.ReplaceById | frontend/src/app/inbox/page.tsx:77 | Same length; memos with the id become the updated one, all others are unchanged; ids are preserved when the updated memo has the id |
| MemoList.RemoveByIdIdempotent | frontend/src/app/inbox/page.tsx:43 | Removing an id twice is removing it once |
| MemoList.AbsentIdChangesNothing | frontend/src/app/inbox/page.tsx:43 | A list without the id is left unchanged by removal and by replacement |
| MemoList.ReplaceThenRemove | frontend/src/app/inbox/page.tsx:43 | Replacing a memo and then removing its id leaves what a plain removal leaves |
| MemoList.ReplaceWithSameIsIdentity | frontend/src/app/inbox/page.tsx:77 | Under unique ids, replacing a memo by itself changes nothing |
| RelativeTime.Floor | frontend/src/app/inbox/page.tsx:102-104 | The quotient is the floor: q * unit <= diff < (q + 1) * unit, for negative differences too |
| RelativeTime.Classify | frontend/src/app/inbox/page.tsx:98-109 | Under a minute (or in the future) gives JustNow; then whole minutes in 1..59 below an hour, whole hours in 1..23 below a day, whole days in 1..6 below a week, and the calendar date from seven days on |
| RelativeTime.FormatDate | frontend/src/app/inbox/page.tsx:106-114 | Under a minute the text is "Just now" and from seven days on it is the locale date. Otherwise it is a decimal count followed by "m ago", "h ago" or "d ago", and the count reads back as the label's |
| RelativeTime.LaterNeverLooksNewer | frontend/src/app/inbox/page.tsx:98-109 | As `now` advances, the label never moves to a finer bucket, and within a bucket the count never decreases |
| RelativeTime.Boundaries | frontend/src/app/inbox/page.tsx:106-109 | At each bucket edge, the millisecond just before and the millisecond at the edge receive the expected labels |
| RelativeTime.FutureIsJustNow | frontend/src/app/inbox/page.tsx:101-106 | A date in the future reads "Just now" |
| QuickInputPage.Submit | frontend/src/app/quick-input/page.tsx:11-28 | Nothing is sent exactly when the content is blank ("Content is required") or longer than 1000 raw characters ("Content cannot exceed 1000 characters"). Otherwise the JavaScript-trimmed content is sent, non-empty and at most 1000 characters, with saving set and the notice cleared |
| QuickInputPage.Complete | frontend/src/app/quick-input/page.tsx:29-36 | Success clears the input and shows "Memo saved!"; failure keeps the input and shows "Failed to save memo"; saving ends either way |
| QuickInputPage.Counter | frontend/src/app/quick-input/page.tsx:40-42 | The counter is red from 1000 characters, yellow from 901 to 999, grey up to 900 |
| QuickInputPage.DisabledMeansSaveOrEmpty | frontend/src/app/quick-input/page.tsx:103 | The button is disabled exactly when saving or when a submit would be refused as empty; over-long content keeps it enabled, and submitting then shows the too-long notice |
| QuickInputPage.RedCounterStillSends | frontend/src/app/quick-input/page.tsx:19-42 | At exactly 1000 characters the counter is red and the content is still sent |
| QuickInputPage.SubmitThenSucceed | frontend/src/app/quick-input/page.tsx:14-30 | A sent submission followed by success leaves an empty form with the saved notice |
| QuickInputPage.SentContentMeetsRequestSize | frontend/src/app/quick-input/page.tsx:19-28 | What the page sends fits the request's size limit, so the server refuses it only as blank in Java's sense |
| QuickInputPage.ControlCharPassesPageButNotServer | frontend/src/app/quick-input/page.tsx:14 | Example, for one input: U+0001 is sent by the page and refused by the server's `@NotBlank` check |
| QuickInputPage.MixedSpacesReachTheMemo | frontend/src/app/quick-input/page.tsx:14-28 | Example, for one input: U+001C U+00A0 U+001C is sent by the page and accepted by the request check, but refused by the memo constructor |
| InboxPage.StartDelete | frontend/src/app/inbox/page.tsx:34-39 | A declined confirmation changes nothing and sends nothing; a confirmed one marks the id as deleting and sends the delete. The list, error, editor and updating mark are unchanged either way |
| InboxPage.FinishDelete | frontend/src/app/inbox/page.tsx:41-49 | Success removes the id from the list; failure keeps the list and shows "Failed to delete memo"; the deleting mark is cleared either way. Success is the intended path: as written the call never succeeds (see `InboxPage.HandleDeleteAsWritten`) |
| InboxPage.HandleDeleteAsWritten | frontend/src/app/inbox/page.tsx:34-50 | As written, with `delete` missing from the client: a declined confirmation changes nothing; a confirmed one keeps the list, the editor and the updating mark, clears the deleting mark and shows "Failed to delete memo" |
| InboxPage.HandleDelete | frontend/src/app/inbox/page.tsx:34-50 | The handler as intended, with the server's answer as a parameter: a declined confirmation changes nothing; a confirmed successful delete removes exactly that id and keeps the error; a failed one ends as the as-written handler does; the deleting mark is cleared after a confirmation |
| InboxPage.DeleteAlwaysFailsAsWritten | frontend/src/app/inbox/page.tsx:42 | For every memo in the list, the as-written handler keeps it after a confirmed delete, while the intended handler with a successful answer removes it |
| InboxPage.StartEdit | frontend/src/app/inbox/page.tsx:266 | Opens the editor on the memo with its content; the list, error and both in-flight marks are unchanged |
| InboxPage.Type | frontend/src/app/inbox/page.tsx:191 | Typing changes the open editor's text; with no editor open nothing changes. The list, error and both in-flight marks are unchanged |
| InboxPage.EditCancel | frontend/src/app/inbox/page.tsx:52-58 | Cancel is ignored while an update is in flight; otherwise it closes the editor and changes nothing else |
| InboxPage.StartSave | frontend/src/app/inbox/page.tsx:60-73 | Blank or absent editor text shows "Content cannot be empty" and sends nothing. Text equal to the first memo with the id is a cancel and sends nothing. Otherwise the untrimmed text is sent for that id and the id is marked updating |
| InboxPage.FinishSave | frontend/src/app/inbox/page.tsx:75-85 | Success puts the server's memo in place of the id and closes the editor only if it still shows that memo. Failure shows "Failed to update memo" and keeps list and editor. The updating mark is cleared either way |
| InboxPage.SaveWithoutTypingIsCancel | frontend/src/app/inbox/page.tsx:67-71 | Opening a memo's editor and saving at once sends nothing and closes the editor |
| InboxPage.PaddingOnlyEditIsSent | frontend/src/app/inbox/page.tsx:68 | An edit that only adds padding is sent, though the server's trim stores the same text again |
| InboxPage.EditorStaysOpenWhileUpdating | frontend/src/app/inbox/page.tsx:54-56 | While an update is in flight, neither cancel nor an unchanged save closes the editor |
| InboxPage.SaveThenDelete | frontend/src/app/inbox/page.tsx:43-77 | An update followed by a delete of the same memo leaves the list a plain delete leaves. The delete is the intended successful one; as written it never succeeds |
| TrashPage.FilteredMemos | frontend/src/app/trash/page.tsx:17-25 | A blank query shows the list unchanged. Otherwise a memo is shown exactly when its lower-cased content contains the lower-cased, untrimmed query. The result is an order-preserving subsequence of the list |
| TrashPage.LowerKeepsBlankness | frontend/src/app/trash/page.tsx:18-21 | Lower-casing a query does not change whether it is blank |
| TrashPage.SearchIgnoresQueryCase | frontend/src/app/trash/page.tsx:21-23 | Searching for the lower-cased query gives the same result as searching for the query |
| TrashPage.QueryPaddingIsSearched | frontend/src/app/trash/page.tsx:21-23 | The query is not trimmed: " a" finds "b a" but not "a" |
| TrashPage.RemovalCommutesWithSearch | frontend/src/app/trash/page.tsx:46-76 | After a restore or a permanent delete removes an id, the search shows the previous result without that id. This is the intended success path; the backend maps neither route |
| TrashPage.FilterCommutes | frontend/src/app/trash/page.tsx:22-24 | Removing an id and filtering by a predicate commute |
| TrashPage.Load | frontend/src/app/trash/page.tsx:31-44 | A list answer replaces the memos and leaves no error; a failure keeps the memos and shows "Failed to load trash". The in-flight marks and the query are unchanged |
| TrashPage.StartRestore | frontend/src/app/trash/page.tsx:46-50 | Without a confirmation, marks the id as restoring and sends its restore; the list, error, deleting mark and query are unchanged |
| TrashPage.FinishRestore | frontend/src/app/trash/page.tsx:49-57 | Success removes the id from the list and keeps the error; failure keeps the list and shows "Failed to restore memo"; the restoring mark is cleared either way |
| TrashPage.StartPermanentDelete | frontend/src/app/trash/page.tsx:60-68 | A declined confirmation changes nothing and sends nothing; a confirmed one marks the id as deleting and sends the delete. The list, error, restoring mark and query are unchanged |
| TrashPage.FinishPermanentDelete | frontend/src/app/trash/page.tsx:67-75 | Success removes the id from the list and keeps the error; failure keeps the list and shows "Failed to delete memo"; the deleting mark is cleared either way |
| TrashPage.ClearSearch | frontend/src/app/trash/page.tsx:78-80 | Empties the query and changes nothing else |
| TrashPage.ClearedSearchShowsAll | frontend/src/app/trash/page.tsx:17-20 | After the search is cleared, every loaded memo is shown |
| TrashPage.RemovalHandlersUpdateWhatIsShown | frontend/src/app/trash/page.tsx:46-76 | A restore and a confirmed permanent delete with the same answer leave the same list. After success, what the page shows is what it showed before without the id; after failure it shows the same |

## Left out

- String length counts chars. Kotlin, Java and JavaScript count UTF-16 code units, so a character outside the Basic Multilingual Plane counts once here and twice in the system.
- Lower-casing covers the ASCII letters only. JavaScript's full Unicode `toLowerCase` is not modelled.
- `toLocaleDateString` is the parameter `localeDate` of `RelativeTime.FormatDate`. Its output is not modelled.
- Date parsing in `new Date(dateString)` is not modelled: dates are given as instants in milliseconds. Invalid dates (NaN) are not modelled.
- UUID parsing accepts exactly the canonical 36-character form. `UUID.fromString`'s leniency towards shorter groups is not modelled.
- Query results that the database returns as lists of ids (the memo–tag queries) are sets. Their order is not specified by the queries.
- The order in which bean validation reports the violations of one body follows declaration order. Hibernate leaves that order unspecified.
- The JSON parsing of request bodies is not modelled. A body that is not valid JSON is not modelled either; only the non-UUID tag id case yields "Malformed JSON request".
- Transactions, concurrency and the check-then-write race between `findByName` and `save` are not modelled. Each service call is modelled as atomic.
- The persistence context's first-level cache and the write-back of managed entities are not modelled.
- Service-level soft delete, restore and the trash listing are not modelled, because the service contains no such operations; only its tests call them. The same holds for the bulk `findAllByIds` lookup and its "Tags not found" message.
- The start-up failure caused by the `deletedAt` queries is not modelled. `findAllActive` and `findAllDeleted` are modelled over domain memos, as the queries intend. `QuickMemoRepository.StoredMemosAreNeverTrashed` describes the queries as the model evaluates them over memos read back from stored rows: a missing trash marker reads as null.
- The `com.example.womery.exception` package is not part of this model. Apart from `ExceptionHandler.HandleAsWritten` and `QuickMemoController.GetQuickMemoAsWritten`, the model treats both not-found classes as one error kind that maps to 404.
- `UpdateQuickMemoRequest` is not part of this model. The update endpoint validates it with `@Valid` (QuickMemoController.kt:61). `Requests.ValidateUpdateQuickMemo` gives it the `@NotBlank` / `@Size(max = 1000)` pair of the create request, which the controller tests imply.
- QuickMemoController.UpdateQuickMemo: its contract promises "Validation Error" with some violation of the content field for blank or over-long content, but not the violation messages, because the update request's declaration is not part of this model.
- The two-argument `QuickMemoResponse.from` that the controller calls is not part of this model. The response DTOs are pure field copies, so responses carry the domain memo and its set of tags.
- TagController is routing only: it delegates each endpoint to `TagService` and has no logic of its own.
- The frontend HTTP wrappers, React state hooks, `setTimeout`, async sequencing and loading flags are not modelled.
- Tag names are ordered by code point (`Text.StrLe`). The database collation is not modelled.
- QuickMemoController.GetAllQuickMemos: each memo's tags are a set, not the list in database order.
- Requests.BlankTagIdIsRefused: the outcome for a blank element, an unreadable body answered 400, is taken from QuickMemoControllerTest.kt:565-580. How Jackson coerces an empty string into a `UUID` list element, possibly to null with a later failure, is not modelled.
- Requests.BindSetTags: every element that is not a canonical UUID, a blank one included, is modelled as an unreadable body. Jackson's coercion of blank strings is not modelled. Neither is the 24-character base64 form of a UUID, which Jackson's `UUIDDeserializer` accepts in a request body and the model treats as unreadable.
- The status the server gives the unmapped `/{id}/restore` and `/{id}/permanent` routes is not modelled. Only the trash listing's 400 is proved, by `QuickMemoController.TrashListingIsABadId`.
- The `@Column(length = …)` limits are not modelled as separate checks, because the constructors' length checks imply them.

## Findings

| source | as written | input that shows it | evidently intended | confidence | as-written member | corrected member |
|---|---|---|---|---|---|---|
| backend/src/main/kotlin/com/example/womery/service/TagService.kt:73-78 | `getOrCreateTag` looks the name up as given but saves `Tag.create(name)`, whose name is trimmed | call twice with `" work"` on a store without `"work"`: the first call saves `"work"`; the second misses `" work"`, tries to save `"work"` again and fails on the unique name column | look up the trimmed name, so that asking twice returns the same tag and never fails with a constraint violation | not executed | TagService.GetOrCreateTwicePadded | TagService.GetOrCreateTrimmedTwice |
| backend/src/main/kotlin/com/example/womery/api/GlobalExceptionHandler.kt:3-20 | the not-found handler is declared for `com.example.womery.exception.QuickMemoNotFoundException`, while the service throws `com.example.womery.service.QuickMemoNotFoundException` (QuickMemoService.kt:46), so no not-found ever reaches it | `GET /api/quick-memos/{id}` with a UUID that is not stored: the exception falls to the generic handler, and the answer is 500 "Internal Server Error" | answer 404 "Not Found" with the exception's message, as QuickMemoControllerTest.kt:305-319 expects | not executed | QuickMemoController.UnknownIdAnswers500AsWritten | QuickMemoController.GetQuickMemo |
| frontend/src/app/inbox/page.tsx:42 | `handleDelete` calls `quickMemosApi.delete(id)`, a method the client object does not define (frontend/src/lib/quickMemos.ts:13-65) | confirm the deletion of any memo in the inbox: the call throws, the memo stays in the list and "Failed to delete memo" is shown | call the client's `softDelete(id)`, so that a successful answer removes the memo from the list | not executed | InboxPage.DeleteAlwaysFailsAsWritten | InboxPage.HandleDelete |
