# TierList core in Dafny

A model of the logic behind the TierList web application, a Flask site that
ranks game characters. Each character carries four letter grades (weapon,
skill, passive, ultimate) on the scale D < C < B < A < S < SS < SSS, plus a
list of skills. The model covers:

- **Overall tier** (`Models`): the grades are mapped to ranks 1..7. Unknown
  or missing grades are dropped. The mean of the remaining ranks is rounded
  to the nearest rank, the lower one on a tie. With no recognised grade,
  there is no tier.
- **Tier list page** (`TierList`, `SqlLike`, `Grouping`):
  - the characters are filtered by class, by faction and by a
    case-insensitive name search (`ILIKE '%term%'`);
  - they are put into the eight buckets `SSS` … `D`, `Unranked`;
  - each bucket is sorted by name.
- **Character page** (`SkillsByType`): skills are grouped by type. An empty
  or missing type counts as `Other`. Groups come in first-seen order.
- **Image field** (`ImageName`): the submitted file name is stripped and
  loses its extension, as `os.path.splitext` splits it.
- **Skill form** (`SkillsForm`): the parallel per-field lists of the
  character form become skill payloads. Rows with a blank name are dropped.
- **Saving skills** (`SkillSync`): the payloads are reconciled with the
  character's skill rows.
  - A payload whose id names an existing row overwrites that row in place.
    A later payload with the same id wins.
  - Every other payload creates a new row.
  - Every existing row that no payload names is deleted.

  The rows are ORM objects mutated in place, so they are a `class` with a
  `modifies` frame. What the view does to them is specified against
  functions on their values (`UpdatedAll`, `Created`, `Deleted`).

`PyStr` holds the Python built-ins the code relies on: `str.strip()`,
`str(int)` for ids, and the string order that `sorted` uses.

The submitted `difficulty` is only stored as given (app.py:204, 260), and the
admin list is always ordered by name (app.py:187); neither is modelled.

## Model

| member | source | states |
|---|---|---|
| PyStr.Strip | app.py:42-51 | `s.strip()`: leading and trailing characters that `str.isspace()` accepts removed; never longer than `s` (its contents are stated by `StripIsMiddle`, its ends by `StripMeaning`) |
| PyStr.StripIsMiddle | app.py:42-51 | `s.strip()` is the slice of `s` from some index on, and every character of `s` before that slice or after it is whitespace |
| PyStr.StripMeaning | app.py:42 | `s.strip()` is empty exactly when every character of `s` is whitespace; otherwise the result neither starts nor ends with whitespace |
| PyStr.StripIdempotent | app.py:46-51 | stripping a stripped value changes nothing |
| PyStr.Decimal | app.py:269 | `str(id)` for a non-negative id: never empty; its digits and value are stated by `DecimalDigits` and `DecimalMeaning` |
| PyStr.DecimalMeaning | app.py:269 | `str(id)` read back as a decimal numeral is `id`, and it starts with `0` only for `id` 0, so a zero-padded `skill_id` such as `"012"` is not the key of row 12 |
| PyStr.DecimalInjective | app.py:269 | different ids print differently under `str(id)`, so keying `existing_by_id` by the printed id merges no rows |
| PyStr.LessEq | app.py:139 | the order `sorted` compares `str` keys by: lexicographic by code point, a prefix first (a total order, by the three lemmas below) |
| PyStr.LessEqTotal | app.py:139 | any two names are comparable under the order `sorted` uses |
| PyStr.LessEqTransitive | app.py:139 | that order is transitive |
| PyStr.LessEqAntisymmetric | app.py:139 | two names each at most the other are equal |
| Models.ScaleIsBijection | models.py:44-53 | `map_letter` and `map_back` are inverse bijections between the seven letters and the ranks 1..7 |
| Models.RankOf | models.py:55-60 | a grade has a rank exactly when it is one of the seven letters; the rank lies in 1..7 |
| Models.Ranks | models.py:55-61 | `vals`: the ranks of the recognised grades, in column order, each in 1..7 and no more of them than grades |
| Models.RanksEmpty | models.py:61-63 | the list of ranks is empty exactly when no grade is recognised |
| Models.ClosestIndex | models.py:66 | `min(..., key=...)` returns a key at minimal distance, and no earlier key is at that distance |
| Models.Closest | models.py:66 | the chosen rank is in 1..7, no rank is closer to the mean, and every lower rank is strictly farther |
| Models.Aggregate | models.py:55-67 | no tier exactly when no grade is recognised; otherwise one of the seven letters |
| Models.OverallTier | models.py:41-67 | the same for the four grade columns of a character |
| Models.NearestToMean | models.py:65-67 | the chosen rank is within one half of the mean of the recognised ranks |
| Models.TieGoesToLowerRank | models.py:66 | no rank is closer to the mean than the chosen one, and a rank at the same distance is not lower |
| Models.WithinRecognisedRange | models.py:55-67 | the chosen rank lies between the lowest and the highest recognised rank |
| Models.UniformGrades | models.py:55-67 | when every recognised grade is the same letter, that letter is the tier |
| Models.OverallTierPermutation | models.py:55-67 | the tier does not depend on which of the four columns holds which grade |
| Models.ExactMean | models.py:65-67 | a mean that is exactly a rank gives that rank's letter |
| Models.ClosestHalfway | models.py:66 | a mean exactly half-way between two neighbouring ranks goes to the lower one |
| Models.HalfwayMean | models.py:65-67 | the same, for the letter the grades receive |
| SqlLike.Like | app.py:116-117 | `s LIKE p` as SQLite evaluates it: `%` matches any run, `_` any one character, other characters themselves after ASCII folding (characterised by `LikePrefix`, `LikeSuffix`, `SearchIsSubstring`) |
| SqlLike.LikePrefix | app.py:116-117 | with a wildcard-free term `q`, the pattern `q%` matches exactly the names that start with `q`, ignoring ASCII case |
| SqlLike.LikeSuffix | app.py:116-117 | `%r` matches exactly the names with a suffix that `r` matches |
| SqlLike.SearchIsSubstring | app.py:115-117 | with a term free of `%` and `_`, `name ILIKE '%term%'` holds exactly when the term occurs in the name, ignoring ASCII case |
| ImageName.SplitExt | app.py:28 | `splitext` gives a root and an extension that concatenate back to the path; the extension is empty or one dot followed by no dot or slash; an extension is only cut when the last component has a non-dot character before it |
| ImageName.RootNonEmpty | app.py:28-29 | a non-empty path never has an empty root, so `base or None` never yields `None` there |
| ImageName.NormalizeImageName | app.py:20-29 | `None` exactly for a missing, empty or all-whitespace name; otherwise a non-empty prefix of the stripped name, the rest being an extension |
| ImageName.SplitJoined | app.py:28 | `splitext(base + ext)` gives back `base` and `ext` for a single extension `ext` |
| ImageName.StoresBase | app.py:20-29 | a name whose stripped form is `base.ext`, surrounding whitespace allowed, is stored as `base` |
| ImageName.StoresSplitRoot | app.py:20-29 | a name that is not blank is stored as exactly the root `splitext` gives for the stripped name |
| ImageName.NoExtensionKeepsName | app.py:20-29 | a name with no dot after the first character of its last component is stored whole, stripped |
| SkillsForm.Blank | app.py:42 | a name made only of whitespace, the empty name included (equivalent to the source's test by `BlankIffStripsEmpty`) |
| SkillsForm.BlankIffStripsEmpty | app.py:42 | the row test `not name or not name.strip()` holds exactly for names made only of whitespace |
| SkillsForm.Field | app.py:47-51 | a field is present exactly when its list reaches the row |
| SkillsForm.FieldStripped | app.py:47-51 | a present field is stripped |
| SkillsForm.Row | app.py:44-52 | the payload of row `idx`: the id verbatim or `""`, the stripped name, each other field stripped or `None` (see `Field`, `FieldStripped`, `PayloadNames`) |
| SkillsForm.KeptRowsInOrder | app.py:40-52 | the rows kept come in increasing row order |
| SkillsForm.KeptRowsNonBlank | app.py:41-43 | every row kept has a non-blank name |
| SkillsForm.KeptRowsComplete | app.py:41-44 | every row with a non-blank name is kept |
| SkillsForm.KeptRows | app.py:40-43 | the row indexes the loop keeps: no more of them than rows, each a valid row index |
| SkillsForm.ParsedAt | app.py:41-52 | the `k`-th payload is built from the `k`-th kept row |
| SkillsForm.PayloadNames | app.py:42-46 | every payload name is non-empty and carries no surrounding whitespace |
| SkillsForm.ParseSkillsForm | app.py:31-53 | the loop returns one payload per kept row, in row order: the id verbatim or `""`, the stripped name, each other field stripped or `None` past the end of its list; never more payloads than names |
| TierList.Matches | app.py:111-117 | the conditions the query adds: class and faction equality when given (a NULL column equals nothing), `name ILIKE '%search%'` when a search term is given |
| TierList.Select | app.py:109-119 | `query.all()`: the matching characters in table order, no more of them than rows (membership by `SelectMembers`) |
| TierList.SelectMembers | app.py:109-119 | a character is selected exactly when it is in the table and passes the class, faction and search conditions that were given |
| TierList.SelectAll | app.py:109-119 | with no parameter given, every character is listed, in table order |
| TierList.SearchMeansSubstring | app.py:111-117 | with a wildcard-free search term, a character passes exactly when its class and faction match those given and its name contains the term, ignoring ASCII case |
| TierList.EmptySearchIgnored | app.py:115-117 | a missing or empty `search` parameter adds no condition: only the class and faction conditions remain |
| TierList.TierKeysAreLetters | app.py:121-130 | the eight bucket keys are distinct, and apart from `Unranked` they are exactly the letters of the scale |
| TierList.BucketKey | app.py:131-136 | a character goes to the bucket of its overall tier, or to `Unranked` exactly when it has none |
| TierList.KeyIsBucketKey | app.py:132-136 | the view's test `t in tiers` on the dictionary picks the same bucket |
| TierList.Buckets | app.py:121-136 | the dictionary keeps its eight keys as characters are appended |
| TierList.BucketsAreGroups | app.py:131-136 | each bucket holds exactly the characters of its tier, in their order |
| TierList.Bucket | app.py:121-136 | the loop leaves the eight keys, each bucket being the characters of that tier in table order |
| TierList.BucketsPartition | app.py:131-136 | the bucket sizes add up to the number of characters |
| TierList.SortByName | app.py:139 | `sorted` by name returns an ordered permutation of the bucket |
| TierList.SortIsStable | app.py:139 | characters with equal names keep their relative order |
| TierList.SortBuckets | app.py:138-139 | the loop replaces every bucket by its sorted copy and keeps the keys |
| TierList.TierListing | app.py:109-139 | the page shows the eight buckets in the dictionary literal's order, `SSS` first and `Unranked` last; each bucket is the sorted list of the selected characters of its tier: ordered by name, equal names in table order |
| TierList.ListedOnce | app.py:109-139 | a character is listed in a bucket exactly when it is selected and that bucket is its tier |
| Grouping.OfKey | app.py:131-136 | the elements of a sequence whose key is `k`, in their order: never more than the sequence holds |
| Grouping.OfKeyMembers | app.py:131-136 | an element is in the group of a key exactly when it is in the sequence and has that key |
| Grouping.FirstSeen | app.py:172-174 | the dictionary's keys, in insertion order, have no duplicates |
| Grouping.FirstSeenMembers | app.py:172-174 | a key is listed exactly when some element carries it |
| Grouping.Grouped | app.py:172-174 | the dictionary `setdefault(key, []).append(x)` fills: its keys are exactly the keys seen |
| Grouping.GroupedAreGroups | app.py:172-174 | each group `setdefault(...).append` builds holds exactly the elements of its key, in order |
| Grouping.Partition | app.py:131-136 | groups named by distinct keys that cover every element have sizes adding up to the number of elements |
| SkillsByType.TypeKey | app.py:174 | a skill's group is `Other` exactly when its type is missing, empty or `Other`, otherwise its type |
| SkillsByType.GroupByType | app.py:172-174 | the loop yields the types in first-seen order and, for each, the skills of that type in their order |
| SkillsByType.GroupsPartition | app.py:172-174 | every skill is shown exactly once: the group sizes add up to the number of skills |
| SkillsByType.UntypedJoinsOther | app.py:174 | a skill without a type and a skill typed `Other` share one group |
| SkillSync.SkillRow.constructor | app.py:278 | a new row has no id and no values yet |
| SkillSync.SkillRow.Assign | app.py:281-286 | the six assignments give the row the payload's text and keep its id |
| SkillSync.IdKeys | app.py:269 | the keys of `existing_by_id`: `str(id)` of every row that has an id |
| SkillSync.ByKey | app.py:269 | `existing_by_id`: each printed id mapped to its row, no more entries than rows (keys by `ByKeyKeys`, the row by `OnlyOneRowPerKey`) |
| SkillSync.Matched | app.py:274 | the test `skill_id and skill_id in existing_by_id` |
| SkillSync.LastFor | app.py:272-286 | the payload found for an id is one of the payloads and carries that id |
| SkillSync.Updated | app.py:272-286 | an existing row after the payload loop: the text of the last payload carrying its id, or unchanged; its id never changes |
| SkillSync.UpdatedAll | app.py:272-286 | every existing row so updated, one per row, in order |
| SkillSync.Created | app.py:277-286 | the rows the loop creates, one per unmatched payload, in payload order, never more than the payloads (without id, by `CreatedUnflushed`) |
| SkillSync.KeptIds | app.py:270-276 | `kept_ids`: the ids of the payloads that matched (characterised by `KeptIdsMeaning`) |
| SkillSync.KeptIdsMeaning | app.py:270-276 | an id is in `kept_ids` exactly when it is a key of `existing_by_id` and some payload carries it |
| SkillSync.Deleted | app.py:288-290 | an existing row the delete loop removes: it has an id and no payload carries it (equivalent to the source's test by `DeletedIff`) |
| SkillSync.Doomed | app.py:289 | the delete loop's test on a row object: an id, not in `kept_ids`, in `existing_by_id` |
| SkillSync.DeletedIff | app.py:288-290 | the delete test holds of an existing row exactly when the row has an id and no payload carries it |
| SkillSync.LastWins | app.py:272-286 | of several payloads naming one row, the last one's text stays |
| SkillSync.CreatedUnflushed | app.py:277-279 | every row the payload loop creates has no id |
| SkillSync.ResaveKeepsRows | app.py:268-290 | re-submitting the form as rendered overwrites each row with its own payload, creates nothing and deletes nothing |
| SkillSync.Surviving | app.py:288-290 | the values of the rows not passed to `delete`, in row order, never more than the rows |
| SkillSync.ReconcileLeavesAfterSave | app.py:268-290 | from what `Reconcile` ensures, the rows it does not delete hold exactly `AfterSave`: the existing rows no payload names removed, the others as updated, then the created rows |
| SkillSync.FreshFormReplacesRows | app.py:268-290 | a form naming no existing row creates one row per payload, in order, and deletes every row that has an id |
| SkillSync.ByKeyKeys | app.py:269 | the keys of `existing_by_id` are the printed ids of the rows that have one |
| SkillSync.OnlyOneRowPerKey | app.py:269-275 | under unique ids, the row `existing_by_id[key]` is the only row whose id prints as `key` |
| SkillSync.ExistingById | app.py:269 | the loop builds `existing_by_id` for the current rows |
| SkillSync.FindOrCreate | app.py:273-279 | a payload whose id is a key of `existing_by_id` gets the row with that id; any other payload gets a fresh, empty row, appended to the new rows, which stay distinct objects none of which is an existing row |
| SkillSync.NoteKept | app.py:274-276 | `kept_ids.add(skill_id)` on a match moves `kept_ids` one payload on |
| SkillSync.AssignAmong | app.py:281-286 | assigning one row changes that row's values only |
| SkillSync.AssignTurn | app.py:281-286 | after one payload's assignments, the existing rows and the new rows are as after one more payload |
| SkillSync.ApplyPayload | app.py:272-286 | one turn of the payload loop moves the rows, the new rows and `kept_ids` one payload on |
| SkillSync.ApplyPayloads | app.py:272-286 | after the loop, each existing row carries the text of the last payload naming it, one new row exists per unmatched payload, in order, each a distinct object and none an existing row, and `kept_ids` holds the matched ids |
| SkillSync.CollectDeleted | app.py:288-290 | the rows passed to `delete` are exactly those with an id that is in `existing_by_id` and not in `kept_ids`; values are untouched |
| SkillSync.DoomedRows | app.py:288-290 | after the payload loop, the delete test picks exactly the existing rows no payload names, and no new row |
| SkillSync.SavePayloads | app.py:269-286 | the first half of the save leaves the rows updated and the new rows appended, with the new rows distinct objects and the delete test picking exactly the unnamed existing rows |
| SkillSync.Reconcile | app.py:268-290 | the whole save: existing rows overwritten by the last payload naming them, a new row per unmatched payload after them, no row object occurring twice, exactly the existing rows no payload names deleted, and the rows left after the deletes holding `AfterSave` |

## Left out

- Flask routing, templates, sessions, authentication (`auth.py`), configuration, database set-up and the migration scripts. These are I/O and plumbing, not logic.
- `image_sources` (app.py:55 on). It lists files in the static folder, which is file-system I/O.
- `available_classes` and `available_factions` (app.py:141-158). These are `SELECT DISTINCT … ORDER BY` queries run by the database.
- The skill creation in `admin_new_character` (app.py:228-236). It appends one new row per payload, which is the unmatched case of `FindOrCreate`, and is not modelled separately.
- Row order from the database: `query.all()` and `ch.skills` are taken to return rows in table order, given as the input sequence.
- Models.Aggregate: the mean is compared exactly (`|k * n - sum|` against `n`) rather than as a float. With at most four ranks in 1..7, the float mean is exact at every half-way tie. Otherwise the distances differ by far more than a rounding error, so the chosen rank is the same.
- SqlLike.Lower: SQLite's built-in `lower()` folds only ASCII letters. Case folding of other scripts (ICU) is not modelled. `%` and `_` typed into the search box act as wildcards, as they do in the code, but only wildcard-free terms are characterised as substring search.
- ImageName.SplitExt: POSIX `splitext` only (`/` as the sole separator). The Windows variant with `\` and drive letters is not modelled.
- SkillSync.SkillRow.constructor: the unset name of a new row (`None` in Python) is modelled as the empty string. Every path through the view assigns a name right away.
- SkillSync.Reconcile: states that the new rows are distinct objects, from each other and from the existing rows, rather than newly allocated; `FindOrCreate` states the freshness of each row it creates.
- SkillSync.Reconcile: `db.session.add`, `delete` and `commit` are not modelled as database effects. The rows passed to `delete` are returned instead; `ReconcileLeavesAfterSave` proves that the rows not deleted hold `AfterSave`.
- Skill ids are assumed unique (the table's primary key), which is `UniqueIds`.
