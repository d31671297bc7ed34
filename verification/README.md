# Stakeholder mapping back end: the bulk upload engine

This project is a Dafny model of the core of a NestJS/TypeORM service. The service keeps, per project, these tables:

- departments (a tree, with a manager);
- positions;
- stakeholders, with their department/position assignments and project role;
- influencers of a future process, with their influence types (SME, PKL, SKL, MAPPER, INFLUENCER);
- sprints.

Its core is the **bulk upload engine**. For each of the four uploadable kinds (departments, positions, stakeholders, influencers) an uploaded CSV file goes through four steps:

1. It is turned into a file DTO of rows.
2. It is **validated**: every check appends messages to its row's error list, and `hasErrors` is raised when some row has messages.
3. It is **stopped** with a report of every row when `hasErrors` is set.
4. Otherwise it is **applied** phase by phase: inserts, then updates, then deletions, against a store where removal is a soft delete.

Around that engine the model covers:

- the stakeholder code allocator (`generateCode`);
- the `splitDepartments` mini-parser and the record-to-row mapping of each upload service;
- the sprint rules (create, update, remove, recommended sprint);
- the serializers that group, de-duplicate or reduce relations.

## Layout

| module | file | what it holds |
|---|---|---|
| `Wrappers` | wrappers.dfy | `Option` and `Result` |
| `Collections` | collections.dfy | `getCountMap`, `Array.from(new Set(..))`, saving a list of loaded rows |
| `Text` | text.dfy | `split`/`join`, `includes`, `parseInt`, the `<` order on strings, ASCII case mapping |
| `Messages` | messages.dfy | every validation message as a datatype constructor |
| `Store` | store.dfy | the entities (a table is a sequence, an id is an index), `findOne` lookups |
| `UploadDto` | upload_dto.dfy | the file DTOs, row buckets, error report, outcomes |
| `UploadMapping` | upload_mapping.dfy | file precondition, record-to-row mapping, `splitDepartments` |
| `FileValidation` | file_validation.dfy | `validate-file.service.ts` |
| `DepartmentValidation`, `PositionValidation`, `StakeholderValidation`, `InfluencerValidation` | *_validation.dfy | the store checks of each kind |
| `DepartmentLookup` | department_lookup.dfy | what a department row's code and parent cells find |
| `DepartmentService`, `PositionService`, `StakeholderService`, `InfluencerService` | *_service.dfy | the apply phases and the `process*` entry points |
| `SprintService` | sprint_service.dfy | the sprint rules |
| `Serializers` | serializers.dfy | the grouping, de-duplicating and reducing serializers |

### Modelling choices

**Store and lookups**
- A TypeORM `findOne` is the first live row that matches, in table order.
- Soft removal sets the row's `deleted` flag.
- A phase looks rows up in the store as it was when the phase started, and saves all its writes at the end, as the source does with its single `save` per phase. `Collections.ApplyWrites` models that save: the last write aimed at a row wins.

**Values**
- `parseInt` without a radix is written out: it skips leading ECMAScript white space and line terminators, reads an optional sign, then the longest run of hexadecimal digits after a `0x` or `0X` prefix, or of decimal digits otherwise. `None` stands for NaN, and NaN equals nothing under `===`.
- `isNumber` and `isValidEmail` come from a helper file that is not part of this model. They are the two fields of a `Utils` record, so every property holds for every choice of them.
- A null cell is never numeric.
- The row actions are the strings "A", "U" and "D".

**Outcomes**
- Every `process*` entry point ends in one of three outcomes:
  - `Rejected(report)`: validation found errors.
  - `Failed`: an exception was raised while applying, and the store is unchanged.
  - `Applied(db, response)`: the new store and the bucket sizes.
- A NaN code in an Add row of a department or position file makes the insert `save` fail. That save is the first write of the upload, so nothing is persisted.
- A lookup handed NaN makes the MySQL statement fail. Most lookups run behind an `isNumber` guard. Two do not: the department cell of a stakeholder row (stakeholder-validate.service.ts:121-126) and the stakeholder code of an influencer row (influencer-validate-file.service.ts:74-76). A cell there that `parseInt` rejects makes validation throw; the model ends such an upload in `Failed`, with no report.
- The stakeholder phases run in one transaction. A manager cell that finds no department, or an Update row whose stakeholder has no role, makes the source read a property of null, and the transaction rolls back. Validation guarantees that every Update row of an accepted file finds its stakeholder (stakeholder-validate.service.ts:97-105); the model treats a miss as a rollback as well.

## Model

| member | source | states |
|---|---|---|
| Collections.CountMap | src/modules/upload-file/validate-file.service.ts:43-48 | the count map has exactly the list's values as keys, each mapped to its number of occurrences |
| Collections.Distinct | src/serializers/stakeholder-survey-detail.serializer.ts:20-24 | `Array.from(new Set(xs))` holds every value of `xs` once and nothing else, in the order of first occurrence |
| Collections.DistinctSize | src/modules/influencer/influencer-validate-file.service.ts:117-121 | the set of a list is never larger than the list, and is as large exactly when no value repeats (the "must be unique" test) |
| Collections.LastWrite | src/modules/department/department.service.ts:186-207 | the value saved for a row is carried by some write aimed at it, and there is none exactly when no write aims at that row |
| Collections.LastWriteAfter | src/modules/department/department.service.ts:186-207 | a write that every later write to the same row repeats is the value that row ends with |
| Collections.ApplyWrites | src/modules/department/department.service.ts:206 | saving a list of loaded rows changes each written row to its last written value and leaves every other row as it was |
| Collections.FilterCount | src/modules/department/department.service.ts:126-134 | `filter` keeps each element with the key as often as the list holds it, and no other element |
| Collections.FilterAppend | src/modules/department/department.service.ts:126-134 | `filter` keeps the list's order: filtering a concatenation concatenates the filtered parts |
| Collections.FilterPartition | src/modules/department/department.service.ts:126-145 | filters by three distinct keys that cover every element split the list, so their sizes add up to its length |
| Text.Split | src/modules/stakeholder/stakeholder-upload-file.service.ts:124-128 | `split` gives at least one piece, and no piece holds the separator |
| Text.JoinSplit | src/modules/stakeholder/stakeholder-upload-file.service.ts:124-128 | joining the pieces of a split gives back the split string |
| Text.SplitJoin | src/modules/stakeholder/stakeholder-upload-file.service.ts:124-128 | splitting the join of separator-free pieces gives back the pieces |
| Text.Includes | src/modules/influencer/influencer-validate-file.service.ts:164 | `includes` is true exactly when the text occurs at some position of the string |
| Text.SplitIncludes | src/modules/influencer/influencer-validate-file.service.ts:148-170 | every token of a split occurs in the raw string, so a row counted as a MAPPER claim also matches the raw substring test |
| Text.StrLessAt | src/modules/sprint/sprint.service.ts:67 | the string `<` used by the sprint date check holds exactly when the strings first differ at a smaller character of the left one, or the left one is a proper prefix of the right one |
| Text.StrLessTrichotomy | src/modules/sprint/sprint.service.ts:67 | for any two strings exactly one of left-before-right, equal and right-before-left holds |
| Text.StrLessTrans | src/modules/sprint/sprint.service.ts:67 | the string order is transitive |
| Text.ParseIntShow | src/modules/department/department.service.ts:166-177 | `parseInt` reads back the decimal text of every natural number, so a code written out as digits is stored as that number |
| Messages.When | src/modules/upload-file/validate-file.service.ts:111-121 | a conditional push adds its message exactly when the condition holds, and nothing else |
| Messages.ExtendsTrans | src/modules/upload-file/validate-file.service.ts:50-58 | checks that only append compose into a pass that only appends, and the messages of the two passes line up in order |
| Store.DepartmentByCode | src/modules/department/department-validate.service.ts:78-81 | the lookup finds the first live department of the project with the code, and nothing exactly when no live department of the project has it |
| Store.DepartmentByName | src/modules/department/department-validate.service.ts:52-69 | the lookup finds the first live department of the project with the name, and nothing when there is none |
| Store.DepartmentManagedBy | src/modules/stakeholder/stakeholder.service.ts:340-353 | the lookup finds the first live department of the project the stakeholder manages |
| Store.ChildrenOf | src/modules/department/department-validate.service.ts:93-96 | the loaded `children` relation is exactly the live departments whose parent is the department, in table order |
| Store.PositionByCode | src/modules/position/positions-validate.service.ts:58-83 | the lookup finds the first live position of the project with the external id, and nothing exactly when none has it |
| Store.PositionByName | src/modules/position/positions-validate.service.ts:37-56 | the lookup finds the first live position of the project with the name |
| Store.AssignmentsOfPosition | src/modules/position/positions-validate.service.ts:75-81 | the loaded assignment relation of a position is exactly its live assignments |
| Store.StakeholderByCode | src/modules/stakeholder/stakeholder-validate.service.ts:85-106 | the lookup finds the first live stakeholder of the project with the code, and nothing exactly when none has it |
| Store.StakeholderByEmail | src/modules/stakeholder/stakeholder-validate.service.ts:62-83 | the lookup finds the first live stakeholder of the project with the email |
| Store.InfluencerByStakeholder | src/modules/influencer/influencer-validate-file.service.ts:81-99 | the lookup finds the first live influencer of the stakeholder for the future process |
| Store.RoleByName | src/modules/stakeholder/stakeholder-validate.service.ts:46-60 | the role found is a live role with the name, and none is found exactly when no live role has it |
| UploadDto.OfAction | src/modules/department/department.service.ts:126-134 | a bucket holds only rows with its action, and every such row of the file |
| UploadDto.OfActionCount | src/modules/department/department.service.ts:126-134 | a bucket holds each row with its action exactly as often as the file does, and no other row, so its length is the number of such rows |
| UploadDto.OfActionAppend | src/modules/department/department.service.ts:126-134 | the buckets keep file order: the bucket of two parts read one after the other is the first part's bucket followed by the second's |
| UploadDto.ActionsSplit | src/modules/department/department.service.ts:126-145 | when every action is A, U or D, the three reported counts add up to the number of rows |
| UploadDto.FileReport | src/modules/department/department.service.ts:116-124 | the report has one line per row, rows without messages included, with the row number and its messages |
| UploadDto.StakeholderReport | src/modules/stakeholder/stakeholder.service.ts:214-222 | the report has one line per row with its number and messages |
| UploadDto.InfluencerReport | src/modules/influencer/influencer.service.ts:61-69 | the report has one line per row with its number and messages |
| UploadMapping.Admit | src/modules/department/department-upload-file.service.ts:15-23 | a file passes exactly when it is present with a buffer, the `text/csv` type, a non-zero size and a matching header |
| UploadMapping.Names | src/modules/department/department-upload-file.service.ts:93-95 | the names column has one entry per row, empty names included, in row order |
| UploadMapping.Codes | src/modules/department/department-upload-file.service.ts:93-95 | the codes column has one entry per row, in row order |
| UploadMapping.DepartmentRow | src/modules/department/department-upload-file.service.ts:84-92 | an empty parent cell becomes null; a missing name, manager or action becomes ""; the code is the cell; there are no errors |
| UploadMapping.DepartmentRowRoundTrip | src/modules/department/department-upload-file.service.ts:84-92 | mapping a full record to a row and back gives the record, and a fresh row whose parent is not "" written out and read back is that row |
| UploadMapping.ParseDepartments | src/modules/department/department-upload-file.service.ts:71-106 | a rejected file fails with its reason, a file without data rows fails as empty, and otherwise rows are numbered 1, 2, ... with the columns collected row by row |
| UploadMapping.PositionRow | src/modules/position/positions-upload-file.service.ts:82-88 | the columns are name, code, action; a missing name or action becomes "" |
| UploadMapping.PositionRowRoundTrip | src/modules/position/positions-upload-file.service.ts:82-88 | mapping a full record to a row and back gives the record, and a fresh row written out and read back is that row |
| UploadMapping.ParsePositions | src/modules/position/positions-upload-file.service.ts:70-100 | a rejected file fails with its reason, a file without data rows fails as empty, and otherwise rows are numbered from 1 with the columns collected |
| UploadMapping.InfluencerRow | src/modules/influencer/influencer-upload-file.service.ts:80-87 | a missing stakeholder code becomes ""; influence, excluded and action are the cells; no stakeholder id is resolved yet |
| UploadMapping.InfluencerRowRoundTrip | src/modules/influencer/influencer-upload-file.service.ts:80-87 | mapping a full record to a row and back gives the record, and a fresh row with no stakeholder id written out and read back is that row |
| UploadMapping.ParseInfluencers | src/modules/influencer/influencer-upload-file.service.ts:70-100 | a rejected file fails with its reason, an empty one fails as empty, and otherwise `stakeholderIds` holds every row's code, one per row, rows numbered from 1 |
| UploadMapping.Entry | src/modules/stakeholder/stakeholder-upload-file.service.ts:127-129 | a segment without a colon has no positions field and cannot be read; otherwise the department is the text before the first colon and the positions are the second field split on '-' |
| UploadMapping.Entries | src/modules/stakeholder/stakeholder-upload-file.service.ts:126-130 | the segments read as entries one by one, and reading fails exactly when some segment cannot be read |
| UploadMapping.SplitDepartments | src/modules/stakeholder/stakeholder-upload-file.service.ts:120-132 | the empty cell gives no entry; otherwise there is one entry per '\|' segment |
| UploadMapping.SplitDepartmentsFails | src/modules/stakeholder/stakeholder-upload-file.service.ts:124-131 | parsing fails exactly when the cell is not empty and some segment has no colon |
| UploadMapping.SegmentEntry | src/modules/stakeholder/stakeholder-upload-file.service.ts:127-128 | a well-formed entry written as a segment reads back as that entry |
| UploadMapping.SplitFormat | src/modules/stakeholder/stakeholder-upload-file.service.ts:120-132 | `splitDepartments` reads back every list of well-formed entries written out as a cell |
| UploadMapping.SplitWellFormed | src/modules/stakeholder/stakeholder-upload-file.service.ts:124-131 | every entry `splitDepartments` produces is well formed, so parsing and writing out are inverse on its image |
| UploadMapping.IdCell | src/modules/stakeholder/stakeholder-upload-file.service.ts:93 | the literal cell "null" becomes null, and any other cell is kept |
| UploadMapping.StakeholderRow | src/modules/stakeholder/stakeholder-upload-file.service.ts:91-101 | the columns are id, name, email, departments, manager, project role, action; a missing action becomes "" |
| UploadMapping.ListedIds | src/modules/stakeholder/stakeholder-upload-file.service.ts:102-104 | `stakeholderIds` holds exactly the ids that are neither null nor empty |
| UploadMapping.ListedIdsCount | src/modules/stakeholder/stakeholder-upload-file.service.ts:102-104 | each non-empty id occurs in `stakeholderIds` exactly as many times as rows carry it, so the duplicate count sees every repetition |
| UploadMapping.NullIdsNotListed | src/modules/stakeholder/stakeholder-upload-file.service.ts:93-104 | neither the literal "null" nor an empty id ever reaches `stakeholderIds` |
| UploadMapping.ParseStakeholders | src/modules/stakeholder/stakeholder-upload-file.service.ts:77-132 | a rejected file fails with its reason, an unreadable department cell fails the parse, an empty file fails as empty, and otherwise rows are numbered from 1 and every row's email is collected |
| FileValidation.ItemMessages | src/modules/upload-file/validate-file.service.ts:50-58 | a department or position row gets the action, duplicated-name, short-name, duplicated-code and non-numeric-code messages exactly when each condition holds, and no other message; a 3-character name passes |
| FileValidation.ValidateItem | src/modules/upload-file/validate-file.service.ts:50-58 | a row's duplication flags come from the file's count maps; its error list gains exactly the messages above and nothing else of it changes |
| FileValidation.RepeatedCount | src/modules/upload-file/validate-file.service.ts:111-116 | a value is flagged as duplicated exactly when it occurs more than once in the column, whatever the row's action |
| FileValidation.ValidateFile | src/modules/upload-file/validate-file.service.ts:31-41 | every row is checked against the file's name and code counts; `hasErrors` ends true exactly when it was already set or some row has messages |
| FileValidation.CheckPositions | src/modules/upload-file/validate-file.service.ts:95-107 | an entry's positions give a non-numeric message when one is not numeric, and a repeated message when one repeats within the entry |
| FileValidation.CheckEntry | src/modules/upload-file/validate-file.service.ts:83-109 | one entry gives a non-numeric message for its department, a repeated message when an earlier entry named it, and a non-numeric and a repeated message for its positions, each exactly when its condition holds, and nothing else |
| FileValidation.CheckDepartmentColumn | src/modules/upload-file/validate-file.service.ts:83-109 | the column gets each message exactly when some entry has a non-numeric department, two entries share a department, an entry has a non-numeric position, or an entry repeats a position; the same position under two departments is allowed; no other message is given |
| FileValidation.RowMessages | src/modules/upload-file/validate-file.service.ts:140-155 | a non-empty manager gets a message when it is not numeric, and another when it is none of the row's departments; the action and name checks apply too |
| FileValidation.IdentityMessages | src/modules/upload-file/validate-file.service.ts:60-82 | a duplicated email, an invalid email and a duplicated id give messages; the numeric id check applies only to rows that are not Add rows |
| FileValidation.ValidateStakeholderItem | src/modules/upload-file/validate-file.service.ts:50-58 | a stakeholder row gets exactly its file-level messages (row, identity and department-column checks, including the non-numeric position message), appended, no other message, and nothing else of it changes |
| FileValidation.ValidateStakeholderFile | src/modules/upload-file/validate-file.service.ts:14-29 | every row is checked against the id and email counts; `hasErrors` ends true exactly when it was set or some row has messages |
| DepartmentValidation.ValidateName | src/modules/department/department-validate.service.ts:52-69 | an Add row whose name the project already has, and an Update row whose name belongs to a department with another code, get a message |
| DepartmentValidation.ChildCodes | src/modules/department/department-validate.service.ts:94-96 | the child codes are the codes of the department's live children, one per child |
| DepartmentValidation.ScanRows | src/modules/department/department-validate.service.ts:98-114 | the loop stops exactly when some batch row that is not a Delete names the department as parent; otherwise it counts the Delete rows of its children |
| DepartmentValidation.ValidateCode | src/modules/department/department-validate.service.ts:71-121 | a non-numeric code gets nothing; Add of a known code and Update or Delete of an unknown one get a message; a Delete gets one message when a batch row keeps a child, otherwise one when the children deleted are not all of them |
| DepartmentValidation.ValidateParent | src/modules/department/department-validate.service.ts:123-149 | a row that is its own parent, a non-numeric parent, and an Add or Update parent that is neither a code of the batch nor in the store each get a message |
| DepartmentValidation.ValidateDepartmentItem | src/modules/department/department-validate.service.ts:41-50 | only store messages are appended, each exactly when its check says: the name messages come before the code messages, which come before the parent messages; nothing else of the row changes |
| DepartmentValidation.StagesInOrder | src/modules/department/department-validate.service.ts:41-50 | name messages followed by code messages followed by parent messages are store messages whose stage never goes back |
| DepartmentValidation.ValidateDepartment | src/modules/department/department-validate.service.ts:20-39 | the file checks come first, then the store checks of each row; `hasErrors` ends true exactly when some row has messages or it was set |
| PositionValidation.ValidateName | src/modules/position/positions-validate.service.ts:37-56 | an Add row whose name the project already has, and an Update row whose name belongs to a position with another external id, get a message |
| PositionValidation.ValidateCode | src/modules/position/positions-validate.service.ts:58-83 | a non-numeric code gets nothing; Add of a known code and Update or Delete of an unknown one get a message; a Delete of a position with live assignments gets one |
| PositionValidation.ValidatePositionItem | src/modules/position/positions-validate.service.ts:32-35 | only the name and code messages are appended, each exactly when its check says, the name messages first; nothing else of the row changes |
| PositionValidation.StagesInOrder | src/modules/position/positions-validate.service.ts:32-35 | name messages followed by code messages are store messages whose stage never goes back |
| PositionValidation.ValidatePosition | src/modules/position/positions-validate.service.ts:19-30 | the file checks come first, then the store checks; `hasErrors` ends true exactly when some row has messages or it was set |
| StakeholderValidation.ValidateEmail | src/modules/stakeholder/stakeholder-validate.service.ts:62-83 | an Add row whose email is taken, a row that is not an Add row with an unknown email, and one whose email belongs to a stakeholder with another code each get a message |
| StakeholderValidation.ValidateStakeholderId | src/modules/stakeholder/stakeholder-validate.service.ts:85-106 | a non-numeric id gets nothing; Add of a known id and Update or Delete of an unknown one get a message |
| StakeholderValidation.CheckAssignment | src/modules/stakeholder/stakeholder-validate.service.ts:113-137 | a department cell that does not parse fails the check (the unguarded lookup throws); otherwise an entry gets one message for a missing department and one when none of its positions exists; a single known position is enough |
| StakeholderValidation.FindPosition | src/modules/stakeholder/stakeholder-validate.service.ts:115-120 | the search finds a live position of the project whose code is one of the listed ones, and finds none exactly when no listed code is known |
| StakeholderValidation.ValidateDepartmentAndPosition | src/modules/stakeholder/stakeholder-validate.service.ts:108-139 | a Delete row gets nothing; otherwise the check fails exactly when some department cell does not parse, and else the department and position messages occur once per entry missing them |
| StakeholderValidation.EntryMessages | src/modules/stakeholder/stakeholder-validate.service.ts:112-138 | the entry loop fails exactly when some department cell does not parse; otherwise it gives one department message per entry whose department is missing and one position message per entry none of whose positions exists |
| StakeholderValidation.ValidateManager | src/modules/stakeholder/stakeholder-validate.service.ts:141-153 | a numeric manager cell that finds no department of the project gets a message |
| StakeholderValidation.ValidateStoreItem | src/modules/stakeholder/stakeholder-validate.service.ts:39-44 | the row fails exactly when a department lookup fails; otherwise the email, id, department/position and manager messages are appended, each as its check says, and nothing else of the row changes |
| StakeholderValidation.RoleName | src/modules/stakeholder/stakeholder-validate.service.ts:50-52 | an empty role cell asks for the default role; any other cell asks for itself |
| StakeholderValidation.ResolveRole | src/modules/stakeholder/stakeholder-validate.service.ts:46-60 | a Delete row is untouched; an unknown role gets a message; a known role sets the row's role id to that role |
| StakeholderValidation.ValidateProjectRole | src/modules/stakeholder/stakeholder-validate.service.ts:46-60 | every row is resolved as above, and no row loses a message |
| StakeholderValidation.ErrorsStay | src/modules/stakeholder/stakeholder-validate.service.ts:28-37 | a pass that only appends cannot turn a file with errors into one without |
| StakeholderValidation.CheckRows | src/modules/stakeholder/stakeholder-validate.service.ts:30-33 | the rows fail exactly when some row's department lookup fails; otherwise every row gets its store checks, and no row loses a message |
| StakeholderValidation.ValidateStakeholder | src/modules/stakeholder/stakeholder-validate.service.ts:28-37 | file checks, then store checks, then the role pass; validation fails exactly when some department cell of a row that is not a Delete does not parse; otherwise `hasErrors` ends true exactly when some row has messages or it was set |
| StakeholderValidation.LookupFailsKept | src/modules/stakeholder/stakeholder-validate.service.ts:28-32 | the file checks only append messages, so they cannot change whether a department lookup will fail |
| InfluencerValidation.ValidateAction | src/modules/influencer/influencer-validate-file.service.ts:102-107 | only A and D pass; U gets a message |
| InfluencerValidation.ValidateExcluded | src/modules/influencer/influencer-validate-file.service.ts:132-137 | only the exact strings TRUE and FALSE pass |
| InfluencerValidation.KeepUnknownOrder | src/modules/influencer/influencer-validate-file.service.ts:123-129 | keeping the unknown tokens of the set keeps them distinct and in first-seen order |
| InfluencerValidation.UnknownTokens | src/modules/influencer/influencer-validate-file.service.ts:118-129 | the unknown tokens are each unknown token of the cell once, in order of first occurrence |
| InfluencerValidation.ValidateInfluence | src/modules/influencer/influencer-validate-file.service.ts:109-130 | a repeated token gives one "must be unique" message, first; each distinct token outside the five types gives one message naming it |
| InfluencerValidation.LookupStakeholder | src/modules/influencer/influencer-validate-file.service.ts:74-99 | the lookup fails exactly when the code does not parse (NaN reaches the query); otherwise the stakeholder is found exactly when the code is known, and an unknown code, a Delete without an influencer and an Add with one each get a message |
| InfluencerValidation.CheckCells | src/modules/influencer/influencer-validate-file.service.ts:49-51 | the action, influence and excluded messages appear exactly as their checks say |
| InfluencerValidation.CheckStakeholder | src/modules/influencer/influencer-validate-file.service.ts:60-100 | the check fails exactly when the code does not parse, even after the non-numeric message; otherwise a code repeated in the file, a non-numeric code and the lookup outcomes each give their message, and a found stakeholder's id is recorded |
| InfluencerValidation.ValidateRow | src/modules/influencer/influencer-validate-file.service.ts:43-58 | the row fails exactly when its code does not parse; otherwise it gets the cell messages, then the stakeholder messages, and its stakeholder id when found |
| InfluencerValidation.FindMapper | src/modules/influencer/influencer-validate-file.service.ts:141-147 | the query finds something exactly when the future process already has a live MAPPER influence |
| InfluencerValidation.MapperClaims | src/modules/influencer/influencer-validate-file.service.ts:148-160 | the count is zero exactly when no row that is not a Delete lists MAPPER among its tokens |
| InfluencerValidation.MapperClaimsKept | src/modules/influencer/influencer-validate-file.service.ts:148-160 | the claim count depends only on the actions and influence cells, so the row checks cannot change it |
| InfluencerValidation.FirstPass | src/modules/influencer/influencer-validate-file.service.ts:148-160 | the first loop counts the MAPPER claims and flags each claim when the process already has a mapper |
| InfluencerValidation.SecondPass | src/modules/influencer/influencer-validate-file.service.ts:162-170 | with more than one claim, every row whose raw cell contains "MAPPER" is flagged, Delete rows included |
| InfluencerValidation.ValidateMapper | src/modules/influencer/influencer-validate-file.service.ts:139-171 | each row ends as the two passes say, given the process's mapper and the file's claim count |
| InfluencerValidation.MapperRefused | src/modules/influencer/influencer-validate-file.service.ts:139-171 | every row claiming MAPPER ends with a message when the process has a mapper or more than one row claims it |
| InfluencerValidation.CheckRows | src/modules/influencer/influencer-validate-file.service.ts:27-29 | the rows fail exactly when some row's code does not parse; otherwise every row gets its row checks, in file order |
| InfluencerValidation.ValidateInfluencerFile | src/modules/influencer/influencer-validate-file.service.ts:20-34 | validation fails exactly when some row's code does not parse; otherwise the row checks run with the file's code counts, then the MAPPER passes, and `hasErrors` ends true exactly when some row has messages or it was set |
| DepartmentLookup.ParentOf | src/modules/department/department.service.ts:209-213 | a parent cell resolves to the first live department of the project with that code, and to null when the cell is null or finds nothing |
| DepartmentService.UpdateWrite | src/modules/department/department.service.ts:192-205 | a row writes exactly when its code finds a live department, and the write gives that department the row's name and resolved parent |
| DepartmentService.UpdateWritesEffect | src/modules/department/department.service.ts:186-207 | after the phase's save a department some row found holds the last such row's name and parent, and any other department is unchanged |
| DepartmentService.UntouchedNoWrite | src/modules/department/department.service.ts:186-207 | no write is aimed at a department exactly when no row's code finds it |
| DepartmentService.LastWriteWins | src/modules/department/department.service.ts:186-207 | the value saved for a department comes from the last row of the phase that finds it |
| DepartmentService.UpdateDepartments | src/modules/department/department.service.ts:186-207 | only name and parent change, the manager is never applied, unknown codes are skipped, and the last row finding a department decides it |
| DepartmentService.NewDepartments | src/modules/department/department.service.ts:166-177 | each Add row becomes one department with code `parseInt(code)`, its name, the project, no parent and no manager |
| DepartmentService.WithParent | src/modules/department/department.service.ts:178-183 | the second pass visits exactly the Add rows whose parent cell is not null |
| DepartmentService.InsertDepartments | src/modules/department/department.service.ts:160-184 | an empty bucket changes nothing; the insert fails exactly when some code is NaN; otherwise one department per row is appended with the project, the row's code, no manager and not deleted, the second pass changes only names and parents, and no other table changes |
| DepartmentService.Saved | src/modules/department/department.service.ts:166-177 | the first pass appends the new departments after the old ones and changes nothing else |
| DepartmentService.FoundAfterSave | src/modules/department/department.service.ts:178-183 | after the first pass a new code that no earlier row repeats finds the department its row inserted |
| DepartmentService.ForwardReference | src/modules/department/department.service.ts:160-184 | in a fresh batch a parent cell naming a code of the batch, even of a later row, ends as that row's new department |
| DepartmentService.ParentCellFresh | src/modules/department/department.service.ts:209-213 | in a fresh batch a parent cell naming a row's code resolves to that row's new department |
| DepartmentService.OwnRowWinsFresh | src/modules/department/department.service.ts:178-183 | in the second pass of a fresh batch each new department takes the parent its own row names |
| DepartmentService.OwnRowWins | src/modules/department/department.service.ts:178-183 | a department found by a single row of the second pass takes that row's name and resolved parent |
| DepartmentService.NoParentUntouched | src/modules/department/department.service.ts:178-183 | a department found only by a row without a parent cell is left alone by the second pass |
| DepartmentService.InsertedFresh | src/modules/department/department.service.ts:160-184 | in a fresh batch each new department ends the insert with its row's name and the parent its cell names in the saved store, none for a null cell |
| DepartmentService.InsertKeepsOldFresh | src/modules/department/department.service.ts:160-184 | in a fresh batch the insert leaves every earlier department as it was |
| DepartmentService.OnlyOwnFinds | src/modules/department/department.service.ts:178-183 | in a fresh batch no other row finds a row's new department |
| DepartmentService.SameCodeSameRow | src/modules/department/department.service.ts:178-183 | in a fresh batch a row that finds a new department is the row that inserted it |
| DepartmentService.DeleteDepartments | src/modules/department/department.service.ts:215-230 | exactly the departments some row's code finds are soft-removed; missing codes are skipped and children are not cascaded |
| DepartmentService.DeleteRemovesCodes | src/modules/department/department.service.ts:215-230 | when codes are unique in the project, no live department keeps a deleted row's code |
| DepartmentService.ApplyDepartments | src/modules/department/department.service.ts:126-138 | the phases run insert, update, delete on the buckets; the upload fails exactly when a non-empty Add bucket has a NaN code |
| DepartmentService.ProcessDepartments | src/modules/department/department.service.ts:108-146 | an upload with errors is rejected with the report of every row and nothing applied; otherwise the phases are applied and the response counts the three buckets |
| PositionService.NewPositions | src/modules/position/position.service.ts:165-182 | each Add row becomes one position with external id `parseInt(code)`, its name and the project |
| PositionService.InsertPositions | src/modules/position/position.service.ts:165-182 | an empty bucket writes nothing; a NaN code fails the save; otherwise one position per row is appended in row order |
| PositionService.InsertMakesKnown | src/modules/position/position.service.ts:165-182 | after an insert every row's code names a live position of the project |
| PositionService.UpdateWrite | src/modules/position/position.service.ts:147-163 | a row writes exactly when its code finds a live position, and the write changes only the name |
| PositionService.UntouchedNoWrite | src/modules/position/position.service.ts:147-163 | no write is aimed at a position exactly when no row's code finds it |
| PositionService.LastWriteWins | src/modules/position/position.service.ts:147-163 | the saved value of a position comes from the last row that finds it |
| PositionService.UpdatePositions | src/modules/position/position.service.ts:147-163 | a position some row finds takes the last such row's name and nothing else changes; missing codes are skipped |
| PositionService.UpdateKeepsCodes | src/modules/position/position.service.ts:147-163 | an update keeps every position's external id, project and liveness |
| PositionService.DeletePositions | src/modules/position/position.service.ts:184-199 | exactly the positions some row's code finds are soft-removed; missing ones are skipped |
| PositionService.DeleteRemovesCodes | src/modules/position/position.service.ts:184-199 | when external ids are unique in the project, a deleted row's code is no longer known |
| PositionService.ApplyPositions | src/modules/position/position.service.ts:125-137 | insert, update and delete on the buckets; the upload fails exactly when an Add code is NaN; only the position table changes |
| PositionService.NothingToApply | src/modules/position/position.service.ts:125-137 | a file without Add, Update or Delete rows leaves the store as it was |
| PositionService.ProcessPositions | src/modules/position/position.service.ts:107-145 | an upload with errors is rejected with the report of every row; otherwise the phases are applied and the response is the file name and the three bucket sizes |
| StakeholderService.MaxCode | src/modules/stakeholder/stakeholder.service.ts:389-403 | the greatest code of a non-empty table is the code of some stakeholder and at least every code |
| StakeholderService.GenerateCode | src/modules/stakeholder/stakeholder.service.ts:389-403 | the code is 10000 for an empty table and otherwise one more than the greatest code of every stakeholder of every project, soft-deleted ones included |
| StakeholderService.EntryPlacements | src/modules/stakeholder/stakeholder.service.ts:354-387 | an entry gives one assignment per listed position, in the entry's department |
| StakeholderService.Placements | src/modules/stakeholder/stakeholder.service.ts:354-387 | a row gives one assignment per (department, position) pair, all live and of the row's stakeholder |
| StakeholderService.PlacementAt | src/modules/stakeholder/stakeholder.service.ts:354-387 | the j-th position of the e-th entry becomes the assignment after those of the earlier entries |
| StakeholderService.AddPlacementsCount | src/modules/stakeholder/stakeholder.service.ts:281-326 | the Add rows create as many assignments as the pairs they list, Σ\|positions\| in total |
| StakeholderService.SetManager | src/modules/stakeholder/stakeholder.service.ts:327-338 | the department the manager cell's code finds gets the stakeholder as manager |
| StakeholderService.UnsetManager | src/modules/stakeholder/stakeholder.service.ts:340-353 | the first department of the project the stakeholder manages loses its manager, and nothing is written when there is none |
| StakeholderService.NewStakeholders | src/modules/stakeholder/stakeholder.service.ts:287-308 | row k becomes a stakeholder with code base + k |
| StakeholderService.InsertManagerWrites | src/modules/stakeholder/stakeholder.service.ts:310-319 | an Add row writes a department exactly when its manager cell is not empty, setting its own new stakeholder as manager |
| StakeholderService.InsertStakeholders | src/modules/stakeholder/stakeholder.service.ts:281-326 | row k becomes a new stakeholder with code `generateCode() + k` and its assignments; the phase fails exactly when a manager cell finds no department |
| StakeholderService.InsertKeepsCodesUnique | src/modules/stakeholder/stakeholder.service.ts:287-308 | consecutive codes above every existing code keep codes unique over the whole table, as the global UNIQUE index requires |
| StakeholderService.InsertSetsManager | src/modules/stakeholder/stakeholder.service.ts:310-325 | the last Add row naming a department in its manager cell makes its stakeholder that department's manager |
| StakeholderService.InsertLeavesOtherDepartments | src/modules/stakeholder/stakeholder.service.ts:281-326 | a department no manager cell names keeps its manager |
| StakeholderService.Unassigned | src/modules/stakeholder/stakeholder.service.ts:425-427 | the update hard-deletes exactly the assignments of the stakeholders the rows name |
| StakeholderService.UpdatePlacements | src/modules/stakeholder/stakeholder.service.ts:428-433 | the new assignments of the update all belong to stakeholders the rows name |
| StakeholderService.Renamed | src/modules/stakeholder/stakeholder.service.ts:420-424 | an Update row changes only its stakeholder's name and project role |
| StakeholderService.UpdateManagerWrite | src/modules/stakeholder/stakeholder.service.ts:434-449 | a manager cell sets the manager; an empty cell clears a department the stakeholder manages |
| StakeholderService.UpdateStakeholders | src/modules/stakeholder/stakeholder.service.ts:404-457 | an empty bucket changes nothing; otherwise the phase fails exactly when a row does not resolve, and it renames, re-assigns and re-manages |
| StakeholderService.UpdateRenames | src/modules/stakeholder/stakeholder.service.ts:420-424 | the last Update row naming a stakeholder decides its name and project role |
| StakeholderService.RenameWins | src/modules/stakeholder/stakeholder.service.ts:420-424 | the last rename of a stakeholder is the write saved for it |
| StakeholderService.UpdateReplacesAssignments | src/modules/stakeholder/stakeholder.service.ts:425-433 | after the update a named stakeholder holds exactly the assignments the rows list for it |
| StakeholderService.ClearedDepartment | src/modules/stakeholder/stakeholder.service.ts:340-353 | the department to clear is one the row's stakeholder manages in the project |
| StakeholderService.UpdateClearsManager | src/modules/stakeholder/stakeholder.service.ts:434-449 | an Update row with an empty manager cell leaves the department its stakeholder managed without a manager, unless a later row sets one |
| StakeholderService.UpdateWriteClears | src/modules/stakeholder/stakeholder.service.ts:434-449 | the clearing write is the one saved for that department |
| StakeholderService.DeleteManagerWrites | src/modules/stakeholder/stakeholder.service.ts:459-489 | each found stakeholder of a Delete row clears the department it manages |
| StakeholderService.DeleteStakeholders | src/modules/stakeholder/stakeholder.service.ts:459-489 | found stakeholders are soft-removed with their assignments, and their managed department is cleared; missing codes are skipped |
| StakeholderService.DeleteHidesStakeholder | src/modules/stakeholder/stakeholder.service.ts:459-489 | a deleted stakeholder can no longer be found by its code |
| StakeholderService.DeleteRetiresAssignments | src/modules/stakeholder/stakeholder.service.ts:459-489 | none of a deleted stakeholder's assignments stays live |
| StakeholderService.DeleteClearsManager | src/modules/stakeholder/stakeholder.service.ts:459-489 | the department a deleted stakeholder managed ends with no manager |
| StakeholderService.Bucket | src/modules/stakeholder/stakeholder.service.ts:223-231 | a bucket holds only rows with its action, and every such row of the file |
| StakeholderService.BucketCount | src/modules/stakeholder/stakeholder.service.ts:223-231 | a bucket holds each row with its action exactly as often as the file does, and no other row |
| StakeholderService.BucketAppend | src/modules/stakeholder/stakeholder.service.ts:223-231 | the buckets keep file order across a split of the file |
| StakeholderService.BucketsSplit | src/modules/stakeholder/stakeholder.service.ts:223-263 | when every action is A, U or D, the three reported counts add up to the number of rows |
| StakeholderService.UsersToProvision | src/modules/stakeholder/stakeholder.service.ts:240-249 | the provisioning call gets the Add rows' name and email, then the Update rows', in file order |
| StakeholderService.ApplyStakeholders | src/modules/stakeholder/stakeholder.service.ts:233-251 | insert, then update, then delete inside one transaction; any failing phase fails the whole |
| StakeholderService.ProcessStakeholders | src/modules/stakeholder/stakeholder.service.ts:205-264 | an upload with a department cell that does not parse fails with no report; an upload with errors is rejected with the report of every row; a failed phase or provisioning call leaves the store unchanged; otherwise the response counts the three buckets |
| StakeholderService.AllDepartmentIds | src/modules/stakeholder/stakeholder.service.ts:667-690 | only live departments of the project are returned, and every requested live one is among them |
| StakeholderService.ChildrenIncluded | src/modules/stakeholder/stakeholder.service.ts:667-690 | a live child of a requested department is returned too |
| InfluencerService.NewInfluencer | src/modules/influencer/influencer.service.ts:98-112 | a new influencer is excluded exactly when the cell is TRUE, belongs to the future process and the project, and points at the row's stakeholder |
| InfluencerService.TokenInfluences | src/modules/influencer/influencer.service.ts:123-137 | one live influence per token, in token order |
| InfluencerService.InsertInfluencers | src/modules/influencer/influencer.service.ts:89-121 | every Add row appends one influencer and its influences; the older rows are unchanged |
| InfluencerService.TypesOfListed | src/modules/influencer/influencer.service.ts:123-137 | the influences created for a token list belong to its own influencer and carry exactly its tokens |
| InfluencerService.InsertedInfluences | src/modules/influencer/influencer.service.ts:89-137 | the influencer an Add row creates has exactly one influence per token of its cell, in order |
| InfluencerService.DeleteTarget | src/modules/influencer/influencer.service.ts:139-163 | a Delete row targets the first live influencer of its stakeholder for the future process |
| InfluencerService.DeleteInfluencers | src/modules/influencer/influencer.service.ts:139-163 | found influencers are soft-removed with their influences; missing ones are skipped |
| InfluencerService.DeleteEmptiesInfluencer | src/modules/influencer/influencer.service.ts:139-163 | after a deletion the influencer found has no live influence |
| InfluencerService.Bucket | src/modules/influencer/influencer.service.ts:71-76 | a bucket holds only rows with its action, and every such row of the file |
| InfluencerService.BucketCount | src/modules/influencer/influencer.service.ts:71-76 | a bucket holds each row with its action exactly as often as the file does, and no other row |
| InfluencerService.BucketAppend | src/modules/influencer/influencer.service.ts:71-76 | the buckets keep file order across a split of the file |
| InfluencerService.BucketsSplit | src/modules/influencer/influencer.service.ts:71-86 | when every action is A, U or D, the Add, Update and Delete buckets add up to the file, so the Update rows are exactly what the two reported counts leave out |
| InfluencerService.ApplyInfluencers | src/modules/influencer/influencer.service.ts:71-79 | the Add rows are inserted, then the Delete rows deleted; Update rows are never applied |
| InfluencerService.ProcessInfluencers | src/modules/influencer/influencer.service.ts:55-87 | a missing future process fails; a stakeholder cell that does not parse fails with no report; errors reject with the report; otherwise the response counts Add and Delete rows, and `updates` is 0 |
| InfluencerService.FirstMapper | src/modules/influencer/influencer.service.ts:229-244 | the search finds the first live MAPPER influence of a live influencer of the future process, and none exactly when there is none |
| InfluencerService.Remaining | src/modules/influencer/influencer.service.ts:246-269 | exactly the live influences of the influencer whose flag is false are removed |
| InfluencerService.AddIfMissing | src/modules/influencer/influencer.service.ts:256-262 | a key adds its upper-cased type exactly when its flag is true and the influencer lacked it |
| InfluencerService.UpdateProcessInfluences | src/modules/influencer/influencer.service.ts:189-210 | a missing influencer is refused; asking for mapper when another influencer holds it is refused; otherwise `isExcluded` is overwritten and the influences edited |
| InfluencerService.FlagOfType | src/modules/influencer/influencer.service.ts:246-269 | for each of the five types, its lower-cased key's flag is exactly whether the type is wanted |
| InfluencerService.AdditionsWanted | src/modules/influencer/influencer.service.ts:256-262 | every added influence is live, of the influencer, wanted and new to it |
| InfluencerService.WantedAdded | src/modules/influencer/influencer.service.ts:256-262 | a wanted type the influencer lacked is added |
| InfluencerService.EditedTypes | src/modules/influencer/influencer.service.ts:246-269 | after the edit the influencer has a live influence of a type exactly when its flag asks for it |
| InfluencerService.AdditionsFresh | src/modules/influencer/influencer.service.ts:256-262 | no type is added twice, and none the influencer already had |
| SprintService.SprintByCode | src/modules/sprint/sprint.service.ts:73-75 | the lookup finds the first live sprint of the project with the code, and nothing when there is none |
| SprintService.Create | src/modules/sprint/sprint.service.ts:64-91 | a start that sorts after the end as a string is refused (the body is not transformed, so the dates are the request's ISO strings), equal dates pass; a code the project's live sprints use is refused; otherwise one sprint with due date = end date is appended and nothing else changes |
| SprintService.EqualDatesAccepted | src/modules/sprint/sprint.service.ts:67-71 | equal start and end dates never trip the date check |
| SprintService.OffsetStartRefused | src/modules/sprint/sprint.service.ts:67-71 | a start of 01:00 UTC written with a +05:00 offset is refused against an end of 02:00 UTC: the check orders the strings, not the instants |
| SprintService.CreateKeepsCodesUnique | src/modules/sprint/sprint.service.ts:73-78 | a creation keeps live codes unique within each project |
| SprintService.CreateThenFind | src/modules/sprint/sprint.service.ts:73-90 | the created sprint is the one its code now finds |
| SprintService.Update | src/modules/sprint/sprint.service.ts:103-134 | the date check, on the strings as in Create, comes first, then the sprint must exist; the code is checked only when it changes; code, name, start and due date are overwritten |
| SprintService.UpdateKeepsCodesUnique | src/modules/sprint/sprint.service.ts:114-131 | an edit through the sprint's own project keeps live codes unique |
| SprintService.Remove | src/modules/sprint/sprint.service.ts:93-101 | a missing or removed sprint is NotFound; otherwise only that sprint is soft-removed |
| SprintService.RemoveKeepsCodesUnique | src/modules/sprint/sprint.service.ts:93-101 | removal keeps live codes unique |
| SprintService.Recommended | src/modules/sprint/sprint.service.ts:183-188 | the recommended sprint is a live sprint of the project with the greatest code, and none exactly when the project has none |
| SprintService.CreatedRecommended | src/modules/sprint/sprint.service.ts:64-91 | a created sprint whose code beats every live sprint of the project becomes the recommended one |
| Serializers.Positions | src/serializers/stakeholder-list.serializer.ts:14-20 | the positions are the position names of the assignments, each once, in the order of first occurrence |
| Serializers.AllTypes | src/serializers/stakeholder-survey-detail.serializer.ts:26-32 | the flattened types are exactly the types of some influencer |
| Serializers.GroupedIds | src/serializers/stakeholder-detail.serializer.ts:6-25 | there is one department entry per distinct department id (null included), in first-seen order |
| Serializers.GroupedPositions | src/serializers/stakeholder-detail.serializer.ts:22 | an entry's positions are the position names of all that department's assignments, in order, repeats kept |
| Serializers.GroupIdsDistinct | src/serializers/stakeholder-detail.serializer.ts:13-21 | no two entries share a department id |
| Serializers.GroupedHeads | src/serializers/stakeholder-detail.serializer.ts:12-20 | an entry's name and manager flag come from the first assignment of its department; the flag is true exactly when that department's manager is the stakeholder |
| Serializers.GroupsCoverAssignments | src/serializers/stakeholder-detail.serializer.ts:6-25 | the entries' positions together count every assignment exactly once |
| Serializers.SerializeStakeholderDetail | src/serializers/stakeholder-detail.serializer.ts:27-37 | the fields are copied, `isUser` comes from the user link or is null, and the entries are grouped as above |
| Serializers.SurveyDepartments | src/serializers/stakeholder-survey-detail.serializer.ts:6-18 | the departments are distinct by id, in first-seen order, each named after its first assignment |
| Serializers.SurveyMatchesDetail | src/serializers/stakeholder-survey-detail.serializer.ts:6-18 | the survey departments are the detail entries without positions and flags |
| Serializers.SerializeSurveyDetail | src/serializers/stakeholder-survey-detail.serializer.ts:34-41 | the project role is always null; positions and influence types are each listed once and cover the loaded ones |
| Serializers.SerializeAnswers | src/serializers/stakeholder-answers.serializer.ts:6-37 | one department per assignment, in order, with the manager flag exactly when its manager is the stakeholder; positions and influence types are each listed once; `userId` comes from the user link |
| Serializers.SerializeStakeholderList | src/serializers/stakeholder-list.serializer.ts:6-32 | one department per assignment with its name or null and the manager flag; positions listed once; id, code, name, email and role are copied |
| Serializers.SetFlag | src/serializers/influencer-detail.serializer.ts:14-16 | setting a key raises exactly that key's flag, or records it once as an extra key |
| Serializers.FlagsMentioned | src/serializers/influencer-detail.serializer.ts:13-25 | the five keys are always present, each true exactly when some type lower-cases to it; any other lower-cased type is an extra key, once |
| Serializers.SerializeInfluencerDetail | src/serializers/influencer-detail.serializer.ts:6-43 | `excluded` is `isExcluded`, the stakeholder fields are copied, positions are distinct, and the flag record reflects the types |
| Serializers.SerializeInfluencerList | src/serializers/influencer-list.serializer.ts:6-39 | one department name or null per assignment; positions distinct; influences the distinct types in first-seen order; `excluded` is `isExcluded` |
| Serializers.SerializeDepartment | src/serializers/department-detail.serializer.ts:5-23 | id, code, name and manager are copied; the parent is serialized exactly when loaded; children are serialized one per loaded child, and [] when not loaded |
| Serializers.ReloadSerialized | src/serializers/department-detail.serializer.ts:5-23 | serializing a fully loaded department tree loses nothing: the tree can be rebuilt from the output |
| Serializers.SerializeReloaded | src/serializers/department-detail.serializer.ts:5-23 | every serialized tree is the serialization of the tree it describes |

## Left out

**Services and framework**
- CSV stream decoding and the header DTO checks (csv-parser, class-validator): a file arrives as decoded records with a `headerOk` flag.
- TypeORM query building, filters, sorting and pagination: SQL text, not logic.
- The HTTP clients. The identity-provisioning call is a parameter `provision` that may fail. The future-process check is a boolean `processExists`. `addStakholderUsers`, which runs after the transaction, is not modelled.
- Concurrency: one writer is assumed, so the max+1 race of `generateCode` between simultaneous uploads is not modelled.
- Controllers, modules, guards, the migration DDL and the field-copy serializers (stakeholder, sprint, sprint-recommended, position-list, project-roles, upload-file, influence-types, department-list).
- uuid generation, timestamps and `toISOString`. Ids are table indices. Sprint dates are kept as the request's ISO strings; MySQL's conversion of them to `DATETIME` on save is not modelled. The string order compares characters, where JavaScript compares UTF-16 code units; the two differ only beyond the Basic Multilingual Plane, which an ISO date string never reaches.
- `isNumber`, `isValidEmail` and `UploadFileAction` are not part of this model. The first two are uninterpreted (the `Utils` record); the actions are taken as "A", "U" and "D".
- Atomicity is claimed only for stakeholders. For departments and positions, the only failure modelled is a NaN code in the insert save. That save is the first write of the upload, so nothing is persisted before it.
- Cells without a default in the source (the department code and parent, the position code, the influencer influence/excluded/action cells, all stakeholder cells but the action) must be present. The source would carry `undefined` there.

**Weaker or narrower contracts**
- Store.DepartmentByCode: a NaN code finds nothing here, where the MySQL query would fail. The unguarded caller, the department cell of a stakeholder row, tests for NaN first and fails the upload. Every other caller runs behind `isNumber` or after validation, so NaN reaches this lookup only when the uninterpreted `isNumber` accepts a cell that `parseInt` rejects.
- Store.PositionByCode: a NaN code finds nothing, where the query would fail; every caller runs behind `isNumber` or after validation, so this differs only when `isNumber` accepts a cell that `parseInt` rejects.
- Store.StakeholderByCode: a NaN code finds nothing, where the query would fail. The unguarded caller, the stakeholder cell of an influencer row, tests for NaN first and fails the upload; the other callers run behind `isNumber`.
- Store.DepartmentByName: names are compared with exact equality. MySQL compares under the column's collation; the migration sets none, so under a case-insensitive server default "sales" would also match "Sales".
- Store.PositionByName: exact equality of names, not the collation MySQL applies (see Store.DepartmentByName).
- Store.StakeholderByEmail: exact equality of emails, not the collation MySQL applies (see Store.DepartmentByName).
- DepartmentValidation.ValidateName: uses the exact equality of Store.DepartmentByName, so under a case-insensitive collation the source flags an Add of "Sales" next to "sales" and the model does not.
- PositionValidation.ValidateName: uses the exact equality of Store.PositionByName, with the same difference.
- StakeholderValidation.ValidateEmail: uses the exact equality of Store.StakeholderByEmail, with the same difference.
- StakeholderValidation.FindPosition: reads each position cell with `parseInt`. The source's `In(item.positions)` sends the strings, and MySQL converts them its own way ('abc' becomes 0, '1e3' becomes 1000), so such a cell can match a position the model does not find.
- Collections.CountMap: any string is a key. The source's count map is a plain `{}`, where a key such as "constructor", "toString" or "__proto__" first reads an inherited member; its count then becomes a string and `> 1` never holds. The parent check's `countCodes[item.parent] === undefined` has the same quirk.
- FileValidation.RepeatedCount: inherits that difference: two rows whose value is "constructor" are flagged by the model and not by the source.
- FileValidation.ItemMessages: `field.length < 3` counts UTF-16 code units while the model counts characters, so a name such as "a😀" passes the source's test and gets the short-name message here. The stakeholder name check in FileValidation.RowMessages has the same difference.
- Text.ParseInt: the result is an unbounded integer. JavaScript's `parseInt` returns a double, which rounds values above 2^53.
- DepartmentService.InsertDepartments: `code` is a 32-bit `int` column, and the model does not bound it. A code such as "3000000000" fails the source's insert as out of range (in strict SQL mode); the model inserts it.
- PositionService.InsertPositions: `external_id` is a 32-bit `int` column; an out-of-range code such as "3000000000" fails the source's insert, and the model inserts it.
- UploadMapping.ParseStakeholders: the source throws a TypeError from `splitDepartments` when a segment has no colon. The model turns that into the `MalformedDepartments` failure.
- StakeholderService.AllDepartmentIds: a parent cycle makes the source recurse forever. The walk carries a fuel bound. The contract states only membership (live, project, requested ids and their children), not the preorder of the output.
- StakeholderService.UpdateStakeholders: an Update row that finds no stakeholder is a rollback here. In the source, such a row skips the rename, runs the assignment delete and insert with a null stakeholder and throws only when its manager cell is empty (`stakeholder.id` in `unsetStakeholderManager`); with a manager cell it sets that department's manager to null. Validation refuses such a row, so no accepted file reaches this case.
- Text.ToLower: maps the ASCII letters only. JavaScript's `toLowerCase` maps all of Unicode ("É" becomes "é"), so a non-ASCII influence token is lower-cased by the source and kept here.
- Text.ToUpper: maps the ASCII letters only, where `toUpperCase` maps all of Unicode ("ſ" becomes "S", "ß" becomes "SS").
- SprintService.UpdateKeepsCodesUnique: `update` checks the new code against the project of the route, not the sprint's own project. The lemma states uniqueness only when the two are the same.
- InfluencerService.UpdateProcessInfluences: the keys of the flag record are the five influence keys. The order in which JavaScript visits an object's keys only changes the order in which additions are appended.
- Serializers.SerializeAnswers: the source reads `stakeholderUser.userId` without a null check and throws for a stakeholder with no user link. The model requires the link.
- Serializers.SerializeStakeholderDetail: assignments are assumed to have their position loaded. The source throws on a null position.
- Serializers.SerializeDepartment: a loaded tree in Dafny is finite and acyclic, so the source's infinite recursion on a parent/child cycle loaded both ways cannot occur. The manager is kept as the id and name the serializer reads.
