# Linter extension: lint-error store, recording job, category registry and submission API

A Dafny model of the core of MediaWiki's Linter extension. This is the part
that takes the lint errors Parsoid reports for a page revision and keeps
them in the `linter` table. It has four parts:

- **`Database`** (`database.dfy`) is the per-page store.
  - `getForPage` reads a page's errors keyed by their identity `id()`.
  - `setForPage` reconciles them with a newly proposed list. It has four
    branches:
    - nothing stored and nothing proposed;
    - only inserts;
    - a single delete of every row of the page, which returns PHP's `true`;
    - a diff that deletes stale rows by `linter_id` and inserts new ones.
  - `serializeError`, `makeLintError` and `getFromId` are modelled as well.
  - The table is a sequence of rows with an auto-increment counter.
  - `setForPage` returns its writes as a plan, which `Apply` executes. This
    makes both the database calls and their effect statable.
  - The main proved properties:
    - convergence: after the call, the page holds exactly the proposed
      identities;
    - preservation of the table invariant `Valid`;
    - other pages' rows are untouched;
    - idempotence;
    - the test sequence {a,b} → {a} → {b} → {} with counts (0,2), (1,0),
      (1,1), (true,0).
- **`RecordLintJob`** (`record_lint_job.dfy`) is the deferred job.
  - It has a freshness guard on the revision.
  - It groups errors by category and, within a category, by identity. The
    last error submitted under an identity wins.
  - Each group is cut to its first `MAX_PER_CAT` identities.
  - The groups are merged with `array_merge` and handed to `setForPage`.
  - The job then sends the statsd gauges of `updateStats`.
- **`CategoryManager`** (`category_manager.dfy`, with `sorting.dfy` for PHP's
  `sort`) covers:
  - the configuration-driven split of enabled categories into sorted
    `errors` and `warnings`;
  - `getVisibleCategories`;
  - the hard-coded name↔id table with `isKnownCategory`,
    `getCategoryId`, `getCategoryName` (through `array_flip`) and
    `getCategoryIds`, and their exceptions.
- **`ApiRecordLint`** (`api_record_lint.dfy`) is `execute`.
  - It runs the IP, data and title checks in the source's order.
  - Its per-entry loop drops unknown types and entries without `dsr`, logging
    a warning for the latter.
  - The loop sets `location` to the first two `dsr` elements and copies a
    truthy `templateInfo` into `params`.

## Supporting modules

- `ordered_maps.dfy` models PHP arrays as ordered sequences of key/value
  pairs:
  - `Put` is `$a[$k] = $v`, which replaces in place or appends;
  - `Merge` is `array_merge`, `Flip` is `array_flip`, and `Take` is the
    `array_slice` prefix.
- `php_values.dfy` models decoded JSON values:
  - truthiness and `isset`;
  - `array_slice` on a value;
  - nested assignment with auto-vivification.
- `lint_error.dfy` holds the `LintError` record.
  - The `LintError` class and its `id()` are not part of this model.
  - The identity is a parameter `id: LintError -> K` of every operation that
    needs it.
  - Two hypotheses are assumed where a property needs them:
    - `IdentityOf(id)`: equal content gives an equal identity;
    - `IdDeterminesCategory(id)`: the category is part of the identity.

## Notes on the code

- **The cap comes after deduplication.** `run` groups and deduplicates
  first (`RecordLintJob.php:44-54`) and applies the cap afterwards
  (`RecordLintJob.php:57-61`).
- **Severities.** `CategoryManager` splits categories by `severity` into
  `error` and `warning`, and drops any other severity.
- **Where the model departs from the code**, "## Left out" says so on a
  line that starts with the member's name (`Database.SerializeError`).

## Model

| member | source | states |
|---|---|---|
| OrderedMaps.Get | includes/CategoryManager.php:140-141 | a lookup succeeds exactly when the key is present, and then returns the value stored with it |
| OrderedMaps.Put | includes/RecordLintJob.php:53 | assigning a key makes it map to the new value, appends the key only if it was new, and leaves every other key's lookup unchanged |
| OrderedMaps.Merge | includes/RecordLintJob.php:62 | `array_merge` keeps the arrays well formed and its keys are exactly those of either argument |
| OrderedMaps.MergeDisjoint | includes/RecordLintJob.php:62 | merging an array whose keys are all new is plain concatenation |
| OrderedMaps.Flip | includes/CategoryManager.php:111 | the keys of `array_flip` are the original values, each once, in order of first occurrence |
| OrderedMaps.FlipTo | includes/CategoryManager.php:111-113 | when values are distinct, looking a value up in the flipped array finds the key it was stored under |
| OrderedMaps.FlipFrom | includes/CategoryManager.php:111-113 | whatever the flipped array returns for a value is a key that held that value |
| PhpValues.ArraySlice | includes/ApiRecordLint.php:74 | `array_slice( v, 0, n )` of an array is an array of its first `n` values, and of anything else is null |
| PhpValues.Assign | includes/ApiRecordLint.php:76 | a nested assignment sets the field on an array, null or false (auto-vivification), leaves every other field alone, and leaves other scalars unchanged |
| Database.SerializeError | includes/Database.php:113-125 | an error with a row id is written as that id alone; otherwise the row is on the store's page and, because the model also keeps the location, reading it back gives the same error |
| Database.GetFromId | includes/Database.php:50-66 | the lookup fails exactly when no row of the page has that id; otherwise it returns that row's error, carrying the id |
| Database.GetForPage | includes/Database.php:88-104 | the keys are exactly the identities of the page's rows (duplicates collapse), and each value is a stored error of the page with that identity |
| Database.GetForPageStored | includes/Database.php:97-103 | in a valid table every row of the page is what `getForPage` returns under its identity |
| Database.ToDelete | includes/Database.php:150-160 | the errors to delete are the stored ones whose identity is not proposed, unchanged |
| Database.ToInsert | includes/Database.php:150-160 | an error is inserted exactly when it is proposed and its identity is not stored, as many times as it is proposed, so the reported insert count is the number of such proposals |
| Database.SetForPage | includes/Database.php:134-189 | the four branches: no write and (0,0); one insert of every error and (0, count); one page-wide delete and (true, 0); in the mixed case (number of stale identities, number of inserts) |
| Database.TargetedIffNotProposed | includes/Database.php:163-175 | a stored row of the page is targeted by the id delete exactly when its identity is not proposed |
| Database.KeptIds | includes/Database.php:163-175 | after the id delete the page holds exactly the stored identities that are also proposed |
| Database.ToInsertIds | includes/Database.php:149-161 | the inserted identities are the proposed ones minus the stored ones |
| Database.InsertFresh | includes/Database.php:177-183 | inserting fresh errors appends one row per error with consecutive new ids |
| Database.InsertFreshIds | includes/Database.php:177-183 | after the insert the page's identities are the old ones plus the inserted ones |
| Database.ConvergesMixed | includes/Database.php:149-183 | in the mixed branch, delete-then-insert leaves exactly the proposed identities |
| Database.SetForPageConverges | includes/Database.php:134-189 | in every branch, after `setForPage(E)` the keys `getForPage` returns are exactly the identities of `E` |
| Database.ValidInsertFresh | includes/Database.php:177-183 | inserting fresh errors with new, distinct identities keeps row ids unique and in range and one row per identity per page |
| Database.ToInsertDistinct | includes/Database.php:153-159 | the errors to insert keep the proposed list's distinct identities |
| Database.SetForPageValid | includes/Database.php:134-189 | `setForPage` with fresh errors of distinct identities preserves the table invariant |
| Database.SetForPageOtherPages | includes/Database.php:134-189 | a row of another page is in the table after the call exactly when it was before |
| Database.NothingToChange | includes/Database.php:149-188 | when the stored identities are exactly the proposed ones the call plans no write and returns (0, 0) |
| Database.SetForPageIdempotent | includes/Database.php:134-189 | calling `setForPage` again with the same list plans no write and returns (0, 0) |
| Database.SaveBoth | tests/phpunit/DatabaseTest.php:68-70 | saving two fresh errors on an empty page returns (0, 2) and leaves both identities stored |
| Database.KeepFirst | tests/phpunit/DatabaseTest.php:72-75 | keeping the first of two stored errors returns (1, 0) and leaves only its identity |
| Database.ReplaceByOther | tests/phpunit/DatabaseTest.php:77-80 | replacing the stored error by the other one returns (1, 1) and leaves only the other identity |
| Database.ClearPage | tests/phpunit/DatabaseTest.php:82-85 | saving nothing on a page that holds an error returns (true, 0), which loosely equals 1 deleted, and leaves the page empty |
| Database.DropOne | tests/phpunit/DatabaseTest.php:72-75 | keeping one of two stored errors returns (1, 0) |
| Database.SwapOne | tests/phpunit/DatabaseTest.php:77-80 | replacing the one stored error by another returns (1, 1) |
| Database.SetForPageSequence | tests/phpunit/DatabaseTest.php:65-86 | for any two fresh errors of different identity, the sequence {a,b}, {a}, {b}, {} returns (0,2), (1,0), (1,1), (true,0) and leaves exactly those identities after each call |
| Database.TestSetForPage | tests/phpunit/DatabaseTest.php:37-86 | the test's two errors give those counts, and the final `true` loosely equals the expected 1 |
| Sorting.LexLeTotal | includes/CategoryManager.php:67-68 | any two names are comparable in the order `sort` uses |
| Sorting.LexLeAntisym | includes/CategoryManager.php:67-68 | names that sort no later than each other are equal |
| Sorting.Sort | includes/CategoryManager.php:67-68 | `sort` returns an ascending permutation of its input |
| Sorting.SortedUnique | includes/CategoryManager.php:67-68 | any two ascending permutations of the same names are equal, so the sorted list is determined by its contents |
| CategoryManager.Collect | includes/CategoryManager.php:58-66 | a name is collected for a severity exactly when the configuration lists it as enabled with that severity |
| CategoryManager.NewManager | includes/CategoryManager.php:56-69 | `getErrors` and `getWarnings` are sorted, contain exactly the enabled categories of severity `error` and `warning`, and are permutations of the collected lists |
| CategoryManager.ErrorsAndWarningsDisjoint | includes/CategoryManager.php:58-66 | no category is both an error and a warning |
| CategoryManager.VisibleCategories | includes/CategoryManager.php:90-92 | the visible categories are the errors followed by the warnings |
| CategoryManager.VisibleIffEnabled | includes/CategoryManager.php:90-92 | a name is visible exactly when it is enabled with either severity |
| CategoryManager.GetCategoryId | includes/CategoryManager.php:139-145 | succeeds exactly for a known name, with the id the table gives it, and otherwise fails naming it |
| CategoryManager.GetCategoryName | includes/CategoryManager.php:110-117 | succeeds exactly for an id of the table, and otherwise fails naming the id |
| CategoryManager.CategoryIdsDistinct | includes/CategoryManager.php:37-44 | the hard-coded names and the hard-coded ids are each distinct |
| CategoryManager.CategoryNameIdRoundTrip | includes/CategoryManager.php:110-145 | `getCategoryId(n) == i` exactly when `getCategoryName(i) == n` |
| CategoryManager.CategoryIdRange | includes/CategoryManager.php:37-44 | the ids with a name are exactly 1 to 6 |
| CategoryManager.GetCategoryIds | includes/CategoryManager.php:123-130 | succeeds exactly when every name is known, keyed by the distinct names in order, each with its id; otherwise fails on the first unknown name |
| RecordLintJob.AddError | includes/RecordLintJob.php:53 | one error goes into its category's group under its identity; other groups are untouched |
| RecordLintJob.IdsWith | includes/RecordLintJob.php:44-54 | the identities listed for a category are exactly those of its submitted errors |
| RecordLintJob.GroupKeys | includes/RecordLintJob.php:44-54 | the groups are keyed by the submitted categories, each once, in order of first occurrence |
| RecordLintJob.GroupInnerKeys | includes/RecordLintJob.php:44-54 | a category's group is keyed by its distinct identities in order of first occurrence, so exact duplicates collapse |
| RecordLintJob.GroupInnerValues | includes/RecordLintJob.php:44-54 | each identity holds the last error submitted with it |
| RecordLintJob.GroupSound | includes/RecordLintJob.php:44-54 | every grouped error was submitted, is in its own category's group and sits under its own identity |
| RecordLintJob.MergeGroups | includes/RecordLintJob.php:56-63 | the merge loop keeps the keys distinct |
| RecordLintJob.MergeGroupsKeys | includes/RecordLintJob.php:56-63 | an identity is saved exactly when it is among the first `MAX_PER_CAT` of some group |
| RecordLintJob.MergeGroupsConcat | includes/RecordLintJob.php:56-63 | when identities determine categories no two groups share a key, so the merge is the concatenation of the trimmed groups |
| RecordLintJob.ToSetValues | includes/RecordLintJob.php:56-65 | the errors handed to `setForPage` have distinct identities, were all submitted, and are fresh when the submitted ones are |
| RecordLintJob.ToSetConcat | includes/RecordLintJob.php:56-63 | `$toSet` is the trimmed groups one after the other |
| RecordLintJob.ToSetOfCategory | includes/RecordLintJob.php:57-61 | the errors saved for a category are its first `MAX_PER_CAT` distinct identities in submission order, so at most `MAX_PER_CAT`, and no group is otherwise altered |
| RecordLintJob.ToSetComplete | includes/RecordLintJob.php:44-63 | when no category exceeds the cap, the saved identities are exactly the submitted ones |
| RecordLintJob.Submitted | includes/RecordLintJob.php:45-51 | one fresh error per submitted entry, with its type, location and params |
| RecordLintJob.UpdateStats | includes/RecordLintJob.php:76-94 | no gauge when disabled, when the factor is below 1 or when the draw is not 1; otherwise one gauge per category total followed by `linter.totals` |
| RecordLintJob.CategoryGaugesSum | includes/RecordLintJob.php:86-93 | the per-category gauge values add up to `array_sum` of the totals |
| RecordLintJob.StatsTotalIsSum | includes/RecordLintJob.php:86-93 | whenever gauges are sent, the last is `linter.totals` with the sum of the category gauges before it, each named `linter.category.<name>` |
| RecordLintJob.Run | includes/RecordLintJob.php:37-69 | `run` returns true on every path; a stale job changes nothing and sends no stats; the last gauge is the sum of the totals |
| RecordLintJob.RunConverges | includes/RecordLintJob.php:56-65 | a current job keeps the table valid and leaves the page holding exactly the identities it saves, all of them submitted |
| RecordLintJob.RunStoresAll | includes/RecordLintJob.php:44-65 | with no category over the cap, a current job leaves exactly the submitted identities |
| RecordLintJob.RunOtherPages | includes/RecordLintJob.php:55-65 | a run leaves every other page's rows as they were |
| RecordLintJob.RunIdempotent | includes/RecordLintJob.php:56-65 | after a run, saving the same list again plans no write |
| RecordLintJob.SaveOne | includes/RecordLintJob.php:44-63 | a job of one error saves exactly that error |
| RecordLintJob.TestRun | tests/phpunit/RecordLintJobTest.php:113-135 | the job test's single `fostered` error is stored once, with its category, location and params |
| ApiRecordLint.Transform | includes/ApiRecordLint.php:74-77 | a kept entry gets `location` = first two `dsr` elements and `params.templateInfo` only when `templateInfo` is truthy; every other key of an array `params` and every other field of the entry stay as they were |
| ApiRecordLint.Filtered | includes/ApiRecordLint.php:59-79 | every entry forwarded is the transform of a kept input entry |
| ApiRecordLint.MissingDsr | includes/ApiRecordLint.php:60-73 | exactly one warning per entry of known type without `dsr`, in input order, the `k`-th naming the type of the `k`-th such entry, and every logged type is a known category |
| ApiRecordLint.DroppedIndices | includes/ApiRecordLint.php:60-73 | the positions of the entries dropped with a warning are exactly those of known type without `dsr`, in increasing order |
| ApiRecordLint.KeptIndices | includes/ApiRecordLint.php:59-79 | the kept positions are increasing and are exactly the entries with a known type and a `dsr` |
| ApiRecordLint.FilteredAtIndices | includes/ApiRecordLint.php:51-79 | the forwarded list is an order-preserving subsequence: its k-th element is the transform of the entry at the k-th kept position |
| ApiRecordLint.QueuedErrors | includes/ApiRecordLint.php:59-79 | each queued error has a known category equal to its entry's type and the location cut from its `dsr` |
| ApiRecordLint.SavedCategoriesKnown | includes/ApiRecordLint.php:60-62 | whatever the job keeps of a queued submission has categories with a database id |
| ApiRecordLint.Execute | includes/ApiRecordLint.php:36-87 | dies with invalid-ip, then invalid-data, then invalid-title in that order; otherwise queues the filtered, transformed entries with the revision and logs the missing-`dsr` warnings |

## Left out

- **SQL and its options.** Actual SQL, `wfGetDB`, replica/primary selection
  and the `DBAccessObjectUtils` read flags are left out. The table is an
  in-memory row sequence, and the store's page id is a parameter.
- **JSON.** `FormatJson::encode` of `params` and `FormatJson::decode` of the
  submitted data are left out.
  - Rows hold the value itself.
  - `Execute` receives the decoded value. A string that does not decode is
    any value that is not an array.
- **The `LintError` class and `id()`.** These are not part of this model.
  `id()` is the parameter `id`.
- **Undefined members of `Database`.**
  - `Database::MAX_PER_CAT` is the parameter `max`.
  - `Database::getTotals` is the parameter `totals`, a function of the
    table.
  - Neither is defined in `Database.php`. `getTotalsForPage` is
    not modelled for the same reason.
- **Randomness and metrics.**
  - The result of `mt_rand` is the parameter `draw`.
  - The statsd calls are the returned list of gauges.
  - PHP 8's `ValueError` for a factor below 1 is not modelled. PHP 7
    returns `false`, which is what the model follows.
- **Plumbing.**
  - The IP allow-list (`IPSet`) is the boolean `submitterAllowed`.
  - `Title::newFromText` is an optional `PageTitle`.
  - The job-queue push and the API's `success` result are the returned
    `Submission`.
- **Integer-like keys.** PHP turns integer-like string keys into integers,
  and `array_merge` and `array_slice` renumber those. The model treats
  identities and category names as plain keys. So an `id()` that looked like
  an integer would be renumbered by the source and not by the model.
- **Numeric strings in `sort`.** `SORT_REGULAR` compares two numeric strings
  numerically. The model orders names by character code, which is the same
  for the non-numeric category names.
- `Database.SerializeError`: writes the error's `location` into its row,
  and `MakeLintError` reads it back. This departs from the code.
  - `Database.php:119-123` writes only the page, the category and the
    JSON-encoded params.
  - `makeLintError` (`Database.php:74-80`) builds the error from category,
    params and row id. It passes these to a three-argument constructor that
    `RecordLintJob.php` calls with type, location and params.
  - The model keeps the location so that a stored error reads back with the
    content the job stored, as `tests/phpunit/RecordLintJobTest.php:113-135`
    expects. The model therefore does not reproduce the loss of the
    location, nor the shifted constructor arguments.
- `Database.GetForPage`: states that each value is a stored error of the
  page with that identity, not which of several rows sharing an identity is
  returned (the last one read).
- `ApiRecordLint.Transform`: states the `templateInfo` copy only when
  `params` is an array, null or false.
  - For other scalars the model leaves `params` unchanged.
  - PHP 7 writes into a non-empty string `params` through a string offset.
    This is not modelled.
- `ApiRecordLint.MissingDsr`: records only the lint type of each warning.
  The page name and revision in the message are not modelled.
- `RecordLintJob.RunStoresAll` and `RecordLintJob.ToSetComplete`: hold only
  when no category exceeds the cap. Otherwise `RecordLintJob.ToSetOfCategory`
  says which identities survive.
- `RecordLintJob.Run`: its contract covers the stale path and the stats. The
  applied path is stated by `RecordLintJob.RunConverges`,
  `RecordLintJob.RunOtherPages` and `RecordLintJob.RunIdempotent`.
