# Prompts updater for Remote Settings, modelled in Dafny

The updater publishes the prompts of the AI window to a Remote Settings
collection. It has two halves:

- **Building the desired records.** A prompts tree holds
  `feature/version/<model>.json` metadata files, each with a `<model>.md`
  prompt text. Each metadata file becomes one flat record (`get_item`):
  - the metadata keys are kept;
  - the prompt text is stored under `prompts`;
  - `parameters` is replaced by its serialised text;
  - `id` is set to `feature--model--version`, with the dots of the model
    name replaced by `-` and the version taken as the directory's stem.

  The walk over the tree (`collect_prompts_and_params`) skips the `.md`
  files and collects one record per other file.
- **Synchronising the collection** (`sync_collection`). The updater:
  1. fetches the stored records;
  2. diffs them against the desired records by `id`;
  3. in one batch, sends every create, then every update (stripped of the
     store's `last_modified` stamp), then every delete (by id alone);
  4. requests a review. On `dev`, it also approves its own changes.

  It answers 0 on success or when there is nothing to do, and 1 when the
  fetch, the batch or the review step fails.

The model has these modules:

- `Paths` is pathlib's `stem` and `suffix`, as Python up to 3.13 computes
  them.
- `Json` holds JSON values. `json.load`, `json.dumps` and Python's `str` are
  abstract functions of a `Codec`.
- `Records` holds the identifier, `get_item` (the `Item` function plus the
  `GetItem` method) and the tree walk. The walk is a specification function
  `Collect`, and its three nested loops are the methods
  `CollectPromptsAndParams`, `AppendFeatureItems` and `AppendVersionItems`.
- `Diff` is the collection difference, keyed by `id`.
- `Sync` holds:
  - a `Client` class whose `trace` records every call made on it;
  - the `SyncCollection` method, proved against the function `SyncOutcome`
    (its part after the fetch is the method `ApplyChanges`, proved against
    `ChangesOutcome`);
  - lemmas about the call sequence.
- `Store` is what the calls do to the stored collection. Its main result
  is the round trip: when the desired records carry distinct identifiers,
  once a committed run's calls are applied, the next run finds nothing to
  do. Without distinct identifiers the modelled difference has no round
  trip: with two desired records of one identifier and different content,
  every later run whose fetch succeeds goes on past the fetch
  (`Store.DuplicateIdsNeverConverge`). The walk can produce such records,
  as the identifier collisions below show.
- `RecordCases` and `SyncCases` state the scenarios of `test.py` on the
  model.

The environment (`ENVIRONMENT`), the store's answers and the JSON functions
are parameters.

**Identifiers are not injective.** One might expect an identifier to
determine its (feature, model, version), but the code's identifiers do not:

- `chat`/`claude.3.5` and `chat`/`claude-3-5` give the same id
  (`Records.IdNotInjectiveInModel`);
- version directories `v1.0` and `v1.1` both give the stem `v1`
  (`Records.VersionStemsCollide`);
- feature `a--b` with model `c` and feature `a` with model `b--c` give the
  same id (`Records.SeparatorCollides`).

Only the weaker property holds: with the feature and the model fixed,
distinct version stems give distinct ids (`Records.IdDeterminesVersion`,
`Records.DistinctStemsDistinctIds`).

## Model

| member | source | states |
|---|---|---|
| Paths.LastDot | script.py:120 | the position found holds a '.', and no '.' comes after it; None means the name has no '.' |
| Paths.SuffixShape | script.py:120-122 | the suffix is a tail of the name: either empty, or a '.' followed by at least one character and no other '.' |
| Paths.StemSuffixSplit | script.py:120-122 | stem followed by suffix gives back the name; a non-empty name has a non-empty stem |
| Paths.MarkdownSuffix | script.py:120 | a file is skipped as a prompt text exactly when its name ends in `.md` and is longer than that |
| Paths.NameWithExtension | script.py:122 | `base.ext`, with `ext` non-empty and free of dots, has stem `base` and suffix `.ext` (so `claude.3.5.json` gives the model name `claude.3.5`) |
| Paths.NameWithoutDot | script.py:109 | a version directory name without a dot is its own stem |
| Records.ReplaceDots | script.py:109 | the model name keeps its length, every '.' becomes '-', every other character is kept, and no '.' is left |
| Records.MakeId | script.py:109 | the identifier is as long as its three parts and two separators, starts with the feature and ends with the version stem |
| Records.IdFormat | script.py:109 | the identifier is the feature, `--`, the dot-replaced model, `--` and the version stem, position by position |
| Records.IdDeterminesVersion | script.py:109 | with feature and model fixed, equal identifiers mean equal version stems |
| Records.ReplaceDotsIdempotent | script.py:109 | replacing the dots twice is the same as replacing them once |
| Records.IdNotInjectiveInModel | script.py:109 | a model name with a dot and its dot-replaced form are different but give the same identifier |
| Records.VersionStemsCollide | script.py:109 | the version directories `v1.0` and `v1.1` both give the stem `v1` |
| Records.SeparatorCollides | script.py:109 | a feature name that contains `--` collides with a shorter feature whose model name starts with the rest |
| Records.ExampleId | test.py:115-120 | the fixture's feature `chat`, model `claude.3.5` and version `v1` give `chat--claude-3-5--v1` |
| Records.Lookup | script.py:100-103 | opening a file finds some file of that name in the directory and its content; None exactly when no file has the name |
| Records.LookupUnique | script.py:100-103 | in a directory with distinct file names, opening a file yields that file's content |
| Records.BuildRecord | script.py:105-112 | errors for metadata that is not an object and for a missing `feature` or `model` (in that order), and for a model that is not a string; success exactly when `parameters` is also present; the record then has the metadata keys plus `prompts` and `id`, the prompt text, the identifier built from the formatted feature, the model and the stem, and `parameters` as serialised text; every other key is kept unchanged |
| Records.ItemFileErrors | script.py:100-103 | a missing metadata file fails with that file's name; unparseable metadata fails as invalid JSON; a missing prompt text fails |
| Records.ItemRecord | script.py:99-112 | a built record holds the content of `<model>.md` under `prompts` and the keys of the parsed `<model>.json` plus `prompts` and `id`; its id ends with the directory's stem |
| Records.ItemId | script.py:109 | a built record's identifier is made from its own `feature` and `model` values and the directory's stem |
| Records.DistinctStemsDistinctIds | script.py:99-112 | records of one feature and model from version directories with different stems have different identifiers |
| Records.GetItem | script.py:99-112 | the method reads the pair and fills the record key by key, and its result is the `Item` outcome |
| Records.AppendVersionItems | script.py:119-122 | the innermost loop appends the records of the directory's non-markdown files, in order, to those already collected, or stops at the first failure |
| Records.AppendFeatureItems | script.py:118-122 | the middle loop appends the records of every version directory of the feature, in order, or stops at the first failure |
| Records.CollectPromptsAndParams | script.py:115-123 | the walk's result is `Collect` of the tree: the records of every visited file, in visiting order, or the first failure |
| Records.ItemsOf | script.py:115-123 | a successful walk over some files yields exactly one record per file |
| Records.Collect | script.py:115-123 | a successful walk over a tree yields exactly one record per non-`.md` file it visits |
| Records.ItemsOfOk | script.py:115-123 | the walk succeeds exactly when every visited file's record can be built; it then yields one record per visited file, the k-th being the k-th file's |
| Records.ItemsOfErr | script.py:115-123 | a failed walk reports the error of the first file whose record cannot be built, all earlier files having succeeded |
| Records.FileEntriesMembers | script.py:119-121 | a version directory contributes exactly its files that are not `.md` files |
| Records.TreeEntriesMembers | script.py:117-121 | the walk visits exactly the non-`.md` files of the version directories of the feature directories |
| Records.CollectSucceeds | script.py:115-123 | the walk succeeds exactly when `get_item` succeeds for every non-`.md` file of the tree |
| Records.CollectRecords | script.py:115-123 | a successful walk yields as many records as visited files; every such file's record is among them, and every record is some such file's record |
| Records.CollectFails | script.py:115-123 | a failed walk's error is the `get_item` error of some non-`.md` file of the tree |
| RecordCases.GetItemCase | test.py:115-127 | the fixture (temperature 0.7, max_tokens 1000) gives id `chat--claude-3-5--v1`, feature `chat`, model `claude.3.5`, the prompt text, and the parameters as text that loads back to an object with `temperature` 0.7 and `max_tokens` 1000 |
| RecordCases.CollectCase | test.py:131-136 | the fixture tree yields exactly one record, with id `chat--claude-3-5--v1` and feature `chat` |
| RecordCases.CollectTwoVersions | test.py:139-159 | a feature with two version directories, whatever their parameters, yields two records, in order, whose ids end with each directory's stem |
| RecordCases.CollectTwoVersionsCase | test.py:139-159 | the fixture tree with `v1` (temperature 0.7, max_tokens 1000) and `v2` (temperature 0.5, prompt `Updated prompt`) yields two records, with ids `chat--claude-3-5--v1` and `chat--claude-3-5--v2` |
| Diff.SameContentFields | script.py:135 | two records have the same content exactly when they hold the same keys other than `last_modified`, with the same values |
| Diff.Index | script.py:135 | the index has exactly the records' identifiers as keys, and maps each to a record carrying it |
| Diff.Unmatched | script.py:135 | the records left unmatched are exactly those whose identifier the index lacks: the desired records to create against the stored index, the stored records to delete against the desired index |
| Diff.Updates | script.py:135 | the pairs to update are exactly the (stored, desired) pairs with one identifier whose content differs apart from `last_modified` |
| Diff.CollectionDiff | script.py:135 | a desired record is created exactly when its id is not stored; a stored record is deleted exactly when its id is not desired; every update pairs a stored and a desired record of one id whose content differs |
| Diff.UpdatesExactly | script.py:135 | a desired record is updated exactly when a stored record with its id differs from it apart from the stamp, and the pair carries that stored record |
| Diff.SourcePartition | script.py:135 | every desired record is exactly one of created, updated, or already stored with the same content |
| Diff.EmptyDiff | script.py:135-140 | nothing needs doing exactly when both sides have the same identifiers and every desired record matches its stored one apart from the stamp |
| Diff.DuplicatesEachCreated | script.py:135 | two desired records sharing an identifier, against an empty store, are both created, in order |
| Diff.SelfDiffEmpty | script.py:135-140 | a collection whose identifiers are distinct, compared with itself, needs nothing |
| Diff.StampIgnored | script.py:135-140 | a stored record that differs from the desired one only by `last_modified` needs no update |
| Sync.StripStamp | script.py:150 | the stripped record has the keys of the original except `last_modified`, with the same values |
| Sync.CreateCalls | script.py:147-148 | one create per record to create, in order, carrying that record |
| Sync.UpdateCalls | script.py:149-151 | one update per pair, in order, carrying the desired record without `last_modified` |
| Sync.DeleteCalls | script.py:152-153 | one delete per record to delete, in order, carrying only its identifier |
| Sync.Client.constructor | script.py:126 | a client answers as its behaviour says and has made no call yet |
| Sync.Client.GetRecords | script.py:129 | returns the stored records, or None when the fetch fails, and logs the call |
| Sync.Client.OpenBatch | script.py:146 | reports whether the batch opens and logs the call |
| Sync.Client.CreateRecord | script.py:148 | logs one create carrying the record |
| Sync.Client.UpdateRecord | script.py:151 | logs one update carrying the record |
| Sync.Client.DeleteRecord | script.py:153 | logs one delete carrying the identifier |
| Sync.Client.CommitBatch | script.py:146-154 | reports whether the batch is sent successfully when the block ends, and logs the call |
| Sync.Client.RequestReview | script.py:163 | reports whether the review request succeeds and logs it with its message |
| Sync.Client.ApproveChanges | script.py:164 | reports whether the approval succeeds and logs the call |
| Sync.IssueCreates | script.py:147-148 | the loop logs exactly the creates of `CreateCalls`, in order, after the earlier calls |
| Sync.IssueUpdates | script.py:149-151 | the loop logs exactly the stripped updates of `UpdateCalls`, in order, after the earlier calls |
| Sync.IssueDeletes | script.py:152-153 | the loop logs exactly the deletes of `DeleteCalls`, in order, after the earlier calls |
| Sync.SendBatch | script.py:146-154 | the body of the `with` block logs the batch for the difference and then its sending, and reports whether the sending succeeded |
| Sync.SyncOutcome | script.py:126-174 | the answer is 0 or 1, the fetch is always the first call, and a failed fetch answers 1 with no other call |
| Sync.ChangesOutcome | script.py:134-174 | after the fetch the answer is 0 or 1; the fetch is the only call exactly when nothing differs, and then the answer is 0 |
| Sync.SyncCollection | script.py:126-174 | the method's answer and the calls it adds to the client's log are those of `SyncOutcome` for the environment, the desired records and the store's behaviour |
| Sync.ApplyChanges | script.py:134-174 | after a successful fetch, the answer and the calls logged are those of `ChangesOutcome` for the difference, after the fetch |
| Sync.ResultCode | script.py:126-174 | the answer is 0 or 1; it is 0 exactly when the fetch succeeded and either nothing differs or the batch opened and was sent, the review request succeeded and, on dev, the approval succeeded |
| Sync.NothingToDo | script.py:128-140 | when the fetch fails (answer 1) or nothing differs (answer 0), the fetch is the only call |
| Sync.CallsInStageOrder | script.py:126-174 | calls come in stage order: fetch, batch opening, creates, updates, deletes, batch sending, review request, approval |
| Sync.ReviewCalls | script.py:160-172 | a review is requested exactly when the batch was sent; approval is asked exactly when, on dev, the review request also succeeded; the message is always `r?` |
| Sync.CreateCallsMembers | script.py:147-148 | a call is among the creates exactly when it is a create carrying a record to create |
| Sync.UpdateCallsMembers | script.py:149-151 | a call is among the updates exactly when it is an update carrying the stripped desired record of some pair |
| Sync.DeleteCallsMembers | script.py:152-153 | a call is among the deletes exactly when it is a delete carrying the identifier of a record to delete |
| Sync.BatchCalls | script.py:146-153 | the batch holds one call per create, update and delete, and nothing but creates, updates and deletes |
| Sync.BatchCallsMembers | script.py:146-153 | the batch holds exactly those creates, updates and deletes |
| Sync.BatchOfApplied | script.py:145-172 | among the calls up to the sending of the batch, with or without the review request and approval after it, the creates, updates and deletes are exactly those of the batch |
| Sync.BatchOfOutcome | script.py:145-158 | a create, update or delete is made exactly when the fetch succeeded, something differs, the batch opened, and the call belongs to the batch for the difference |
| Sync.BatchPayloads | script.py:145-153 | each create carries a desired record the store lacks; each update carries a differing desired record without `last_modified`; each delete carries only the id of a stored record nobody desires |
| Sync.BatchCallMade | script.py:145-153 | once the batch opens, every call of the batch for the difference is made |
| Sync.BatchComplete | script.py:145-153 | once the batch opens, every missing record is created, every differing record is updated without its stamp, and every undesired record is deleted by id |
| Store.ApplyCall | script.py:146-153 | a create or update leaves its identifier holding the payload's content under that identifier; a delete removes its identifier; every other identifier keeps its record or its absence |
| Store.Apply | script.py:146-153 | an identifier no call names keeps its record, or its absence |
| Store.ApplyWritesKeys | script.py:146-151 | after creates and updates, the store holds its earlier identifiers and the written ones |
| Store.ApplyWritesValues | script.py:146-151 | after creates and updates that agree per identifier, each written identifier holds its payload with the new stamp |
| Store.ApplyDeletes | script.py:152-153 | after deletes, exactly the deleted identifiers are gone |
| Store.DeletedIds | script.py:152-153 | the batch's deletes name exactly the stored identifiers no desired record has |
| Store.BatchWritesKeyed | script.py:147-151 | with unique desired identifiers, two creates or updates of the batch that name one identifier are the same call |
| Store.BatchDeletes | script.py:152-153 | the batch's deletes remove exactly the stored identifiers no desired record has |
| Store.BatchConverges | script.py:134-153 | when the desired records carry distinct identifiers, after the batch for the difference the store holds exactly the desired identifiers, each with its desired content apart from the stamp |
| Store.RunApplies | script.py:126-174 | once the batch is sent, the calls a run makes change the store exactly as its batch does |
| Store.SyncConverges | script.py:126-174 | when the desired records carry distinct identifiers, after a run whose batch was sent the store lists the desired records, so the next run only fetches and answers 0 |
| Store.DuplicateIdsNeverConverge | script.py:135-140 | in the modelled difference, two desired records with one identifier and different content leave a difference against every listing, so every run with a successful fetch goes on past the fetch |
| SyncCases.NoChangesCase | test.py:188-198 | a store already holding the desired record: answer 0, the fetch is the only call and no review is requested |
| SyncCases.CreatesCase | test.py:201-215 | an empty store: the record is created once, the review is requested once, answer 0 |
| SyncCases.UpdatesCase | test.py:218-234 | a stored record with other data and a stamp: one update whose payload has no `last_modified`, answer 0 |
| SyncCases.DeletesCase | test.py:237-250 | nothing desired: one delete with id `test-1`, answer 0 |
| SyncCases.DevApproveCase | test.py:253-270 | on dev: the review is requested and the changes approved, answer 0 |
| SyncCases.FetchErrorCase | test.py:273-281 | a failing fetch: answer 1 and no other call |
| SyncCases.BatchErrorCase | test.py:284-297 | a batch that fails to open: answer 1 and no review |
| SyncCases.ReviewErrorCase | test.py:300-316 | a failing review request: answer 1 |
| SyncCases.DevRun | test.py:253-270 | the method on dev against an empty store answers 0, and the client logs the create, the review request and the approval |

## Left out

- `clone_repo`, `fetch_current_prompts` and `main` are not modelled, nor the
  module-level configuration (environment variables, server URL, Sentry,
  dry run, the check that the environment name is valid). They are
  subprocess, file-system and network glue. The environment reaches the
  model as an `Env` parameter, already validated and lower-cased.
- File contents are text as `open(..., "r").read()` returns it, decoded
  with the locale's encoding and with universal newlines applied; the
  bytes on disk, the decoding and its errors are not modelled. `prompts`
  is that text.
- Paths.Suffix: follows pathlib up to Python 3.13, where a name ending in a
  single '.' has no suffix; a later Python that counts that trailing '.' as
  a suffix would give a different stem for such a name.
- `json.load`, `json.dumps` and the text an f-string gives a non-string
  feature value are abstract functions of a `Codec`. No JSON syntax is
  modelled, and numbers keep their literal text. So values are compared
  as written: in the model `1` and `1.0` (or `1` and `true`) differ, where
  Python's `==` on the parsed values would call them equal, and a record
  differing only so is updated in the model where a comparison with `==`
  would leave it alone.
- The difference is a model of `kinto_http.utils.collection_diff`, whose
  code is not part of this model. It compares records apart from
  `last_modified` only. The desired records are compared one by one, so
  each of two desired records with one identifier is created or updated
  on its own; only the lookups use an index by identifier, which keeps the
  last record for an identifier. The lemmas that need unique identifiers
  on a side say so in their preconditions.
- How `collection_diff` treats two desired records with one identifier is
  not known here, since its code is not part of this model; the lemmas
  about such records (`Store.DuplicateIdsNeverConverge`) are about the
  modelled difference.
- The order of `iterdir` is unspecified. The model walks each directory's
  entries in the order given, and its lemmas hold for every order.
- Files found at the wrong level of the tree are not modelled: a file
  directly under the prompts directory or directly under a feature
  directory. In the program these raise when `iterdir` is called on them.
  In the model every level has its own type.
- Directories at the file level are not modelled either. The program does
  not skip them: it calls `get_item(major_version_dir, d.stem)` on such a
  directory `d`, which fails opening `<stem>.json`, or, when that file and
  `<stem>.md` exist, adds a second record for them.
- JSON objects are maps, so the key order that `json.dumps` follows is
  lost. In the program, a stored record whose `parameters` text lists the
  same keys in another order differs from the desired one and is updated;
  in the model, `dumps` is a function of the value alone.
- Printing, including the count of `batch.results()`, is left out.
  Exceptions are answers: `Result` errors in `Records`, and the
  `Behaviour` flags of the store in `Sync`. Only `KintoException` is caught
  by `sync_collection`; a flag stands for that exception at its step. The
  KintoException raised when entering the batch block is `batchOpens`; one
  raised when the block ends and the batch is sent is `batchCommits`.
- Other exceptions from the client (a network error that is not a
  `KintoException`, say) escape `sync_collection` without an answer; the
  model has no such outcome.
- Sync.SyncCollection: `record.pop("last_modified", None)` mutates the
  desired record in the caller's list. The model sends
  `StripStamp(desired)` and leaves the caller's records unchanged, so this
  aliasing is not captured.
- The store's revision stamp is a single `stamp` parameter, the same for
  every record of a batch. The server's concurrency checks are not
  modelled.
