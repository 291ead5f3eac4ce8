# AudioSet class selection, modelled in Dafny

This project models the selection logic of `utils.py` from the
audioset-processing scripts. The scripts take one or more AudioSet class
names and pick the matching segments. The selection has four steps:

1. **Label resolution** (`get_label_id`). A class name is matched against
   the label-index table (ordinal, label id, display name). In strict mode
   the two names must be equal ignoring case. Otherwise the lowercased class
   name must be a substring of the lowercased display name. The ids come
   back in table order.
2. **Row selection** (`create_csv`). A row of the segment table is kept once
   for every resolved id that occurs in its raw label field, and not at all
   when a blacklisted id occurs there.
3. **Grouping** (`get_yt_ids`). Each requested label id is mapped to the
   media ids of the rows whose label field contains it, in row order.
   Labels without clips are then dropped.
4. **File assignment** (`sort_files`). A file is copied into a label's
   directory when one of that label's media ids is a substring of the file
   name. The destination root defaults to the source directory.

Every step is a pure function over sequences of strings. The CSV files, the
directory listing and the copies are inputs and outputs of these functions.
Python's `x in s` on strings is `Text.Contains`. `str.lower()` is an ASCII
case fold, `Text.Lower`. A Python dict is a sequence of `Grouping.Group`s in
key-insertion order, which is the order Python iterates it in.

Modules, leaves first:

- `seqs.dfy` (`Seqs`): subsequences, duplicate-free sequences,
  first-occurrence de-duplication, flattening and repetition.
- `text.dfy` (`Text`): case fold, substring test, last path component.
- `outcome.dfy` (`Outcome`): `Result` with the Python exceptions that can
  occur, and `Option`.
- `labels.dfy` (`LabelIndex`): label resolution.
- `dataset.dfy` (`Dataset`): row selection and the blacklist.
- `grouping.dfy` (`Grouping`): grouping of media ids by label, and the
  clean-up step.
- `sorting.dfy` (`Sorting`): assignment of files to labels and the copy plan.

Three places in the code do not do what the code evidently intends (see
Findings). For each, the model has an `AsWritten` member with the behaviour
as written and a counterexample. The rest of the model uses the intended
behaviour.

## Model

| member | source | states |
|---|---|---|
| `Text.Lower` | utils.py:97 | The case fold keeps the length. Each ASCII capital becomes its small letter, and every other character is kept. |
| `Text.ContainsIffOccurs` | utils.py:100 | `Contains(s, sub)`, Python's `sub in s`, holds iff `sub` occurs in `s` at some position. |
| `Text.FileNameOfJoin` | utils.py:167-168 | Joining a directory and a name without '/' gives back that name as the last path component. |
| `LabelIndex.Matches` | utils.py:96-100 | A strict match is exactly as long as the display name, and a non-strict match is no longer than it. The empty class name matches every entry when not strict. |
| `LabelIndex.GetLabelId` | utils.py:96-100 | An id is returned iff some table entry with that id matches: strictly, equal ignoring case; otherwise, containing the class name ignoring case. The result is a subsequence of the id column, so table order is kept. |
| `LabelIndex.StrictWithinLoose` | utils.py:96-100 | The strict result is a subsequence of the non-strict result for the same class name and table. |
| `LabelIndex.ResolvedIdsDistinct` | utils.py:96-100 | When the table's ids are distinct, the resolved ids are distinct in either mode. |
| `LabelIndex.CaseInsensitive` | utils.py:96-100 | Lowercasing the class name first does not change the result. |
| `LabelIndex.EmptyNameMatchesAll` | utils.py:99-100 | The empty class name is a substring of every display name, so non-strict resolution returns the whole id column. |
| `LabelIndex.FemaleSpeechExample` | utils.py:79-83 | "female speech" finds "Female speech, woman speaking" only when not strict, and never finds "Speech". |
| `LabelIndex.SpeechExample` | utils.py:84 | "speech" finds both "Speech" and "Female speech, woman speaking" when not strict, and only "Speech" when strict. |
| `LabelIndex.GetLabelIdAsWritten` | utils.py:102-112 | As written, the call returns only when at least two ids match. With zero or one match it raises TypeError. |
| `LabelIndex.SingleMatchCounterexample` | utils.py:102-112 | As written, "female speech" raises TypeError because it has exactly one match. "speech" returns its two ids. |
| `Dataset.HitCount` | utils.py:63 | The number of wanted ids in a label field is at most the number of wanted ids. It is zero iff no wanted id occurs in the field. |
| `Dataset.Copies` | utils.py:63 | A row is written at most once per wanted id. It is written not at all iff its field holds no wanted id or holds a blacklisted id. |
| `Dataset.SelectRows` | utils.py:63 | With no wanted id, or with the wanted ids also blacklisted, no row is written. |
| `Dataset.SelectRowsMembership` | utils.py:63 | A row is written iff it is in the table, holds some wanted id and holds no blacklisted id. |
| `Dataset.SelectRowsAppend` | utils.py:63 | Selecting from two parts of the table gives the first part's rows followed by the second part's, so row order is kept. |
| `Dataset.SelectRowsMultiplicity` | utils.py:63 | A row is written (occurrences in the table) × (wanted ids in its field) times, and zero times when it is blacklisted. |
| `Dataset.SelectRowsSubseq` | utils.py:63 | When no row holds two wanted ids, the output is a subsequence of the table. |
| `Dataset.BlacklistCoversWanted` | utils.py:63 | When every field holding a wanted id also holds a blacklisted id, nothing is written. |
| `Dataset.SelectRowsAsWritten` | utils.py:63 | As written, the blacklist excludes nothing. The call raises, always TypeError, iff the blacklist is non-empty and some row holds a wanted id. Otherwise it returns the selection without a blacklist. |
| `Dataset.AsWrittenBlacklistNeverFilters` | utils.py:63 | As written, a non-empty blacklist returns only an empty output. Otherwise it raises. |
| `Dataset.BlacklistCounterexample` | utils.py:63 | For row `abc123` with labels "/m/09x0r,/m/0dgw9r", wanting "/m/09x0r" and blacklisting "/m/0dgw9r": the code as written raises TypeError, and the intended selection writes nothing. Without a blacklist the row is written. |
| `Dataset.ResolveAll` | utils.py:56 | One list per blacklisted class. Each list holds exactly the ids of the entries that match that class. |
| `Dataset.HasAnyFlatten` | utils.py:56 | A field holds an id of the flattened lists iff it holds an id of one of the lists. |
| `Dataset.BlacklistResolved` | utils.py:56 | A field holds a resolved blacklisted id iff some blacklisted class resolves to an id in that field. |
| `Dataset.CreateCsvRows` | utils.py:55-63 | Every written row is a row of the table that holds an id the class resolves to. |
| `Dataset.CreateCsvRowsMembership` | utils.py:55-63 | `create_csv` writes a row iff the class resolves to an id in its field and no blacklisted class does. |
| `Dataset.CreateCsvRowsAsWritten` | utils.py:55-63 | As written, with no blacklist it writes the intended rows. It raises, always TypeError, iff the blacklist is non-empty and some row holds an id of the class. A non-empty blacklist that does not raise writes nothing. |
| `Dataset.SelfBlacklistedClassIsEmpty` | utils.py:55-63 | A class that is on its own blacklist gets no rows. |
| `Grouping.MediaIdsWith` | utils.py:130 | The reference list for a label is a subsequence of the media-id column. |
| `Grouping.MediaIdsWithMembership` | utils.py:130 | A media id is in a label's reference list iff some row with that id contains the label. |
| `Grouping.Collect` | utils.py:124-130 | A key that never occurs in `label_ids` collects nothing. |
| `Grouping.CollectOnce` | utils.py:124-130 | A key requested once collects exactly the media ids of the rows that contain it, in row order. |
| `Grouping.CollectMultiplicity` | utils.py:124-130 | A key requested t times collects each matching media id t times as often as the rows provide it. |
| `Seqs.DedupOrder` | utils.py:124 | De-duplication keeps first occurrences: each key occurs in the requested list before any occurrence of a later key. This is the key order of a dict built from a list. |
| `Grouping.CollectAll` | utils.py:124-130 | The dictionary's keys are the requested ids, each once, in first-occurrence order. A key requested t times holds each media id t times as often as rows containing the key carry that id. |
| `Grouping.CollectMembership` | utils.py:124-130 | A media id is collected for a key iff the key is requested and some row with that id contains it. |
| `Grouping.DropEmpty` | utils.py:132-135 | After the clean-up no list is empty. The surviving groups keep their order. |
| `Grouping.DropEmptyLabels` | utils.py:132-135 | The surviving keys keep their dictionary order. |
| `Grouping.DropEmptyMembership` | utils.py:132-135 | A group survives the clean-up iff its list is non-empty. |
| `Grouping.DropEmptyIdentity` | utils.py:132-135 | The clean-up changes the dictionary iff some list is empty. |
| `Grouping.GetYtIds` | utils.py:123-141 | No returned label maps to an empty list. Every key is a requested id, and no key occurs twice. |
| `Grouping.KeptGroup` | utils.py:124-135 | A returned group's key is a requested id, and its list is that key's collected list. |
| `Grouping.GetYtIdsMembers` | utils.py:124-135 | A media id is in a returned label's list iff some row with that id contains the label. |
| `Grouping.GetYtIdsOnce` | utils.py:124-135 | For a label requested once, the returned list is exactly the media ids of the rows containing it, in row order. |
| `Grouping.GetYtIdsDistinct` | utils.py:124-135 | When the requested ids are distinct, every returned list is exactly the `row[0]` values of the rows containing its label, in row order. |
| `Grouping.CollectAllEmptyGroup` | utils.py:124-130 | A collected label's list is empty exactly when no row's label field contains it. |
| `Grouping.CollectAllHasEmpty` | utils.py:124-135 | The collected dictionary has an empty list exactly when some requested label is held by no row. |
| `Grouping.GetYtIdsKeeps` | utils.py:124-135 | A row contributes its media id to every requested label that its field contains, and that label is kept. |
| `Grouping.GetYtIdsDrops` | utils.py:132-135 | A requested label that no row contains is not in the result. |
| `Grouping.CleanupAsWritten` | utils.py:132-138 | As written, the clean-up returns the dictionary unchanged when no list is empty. Otherwise it raises KeyError. |
| `Grouping.GetYtIdsAsWritten` | utils.py:123-141 | The code as written raises exactly when some requested label is held by no row, and the error is KeyError. Otherwise it returns, and its result equals the intended one. |
| `Grouping.CleanupCounterexample` | utils.py:132-138 | Requesting "/m/09x0r" and "/m/0dgw9r" with one row labelled "/m/09x0r": as written this raises KeyError. The intended result is the single group "/m/09x0r" → ["abc123"]. |
| `Sorting.Root` | utils.py:156 | With no destination the root is the source directory. Otherwise it is the given directory. |
| `Sorting.AnyIn` | utils.py:166 | A label with no media ids matches no file. An empty media id, or one equal to the file name, matches the file. |
| `Sorting.FilePairs` | utils.py:165-166 | One file gives at most one pair per dictionary entry. |
| `Sorting.Assignments` | utils.py:164-166 | There are at most (files × labels) copies. |
| `Sorting.FilePairsMembership` | utils.py:165-166 | For one file, (label, file) is produced iff some entry with that label has a media id in the file name. |
| `Sorting.AssignmentsMembership` | utils.py:164-166 | (label, file) is a copy pair iff the file is listed and some media id of that label occurs in its name. |
| `Sorting.AssignmentsAppend` | utils.py:164-166 | Files are handled one after another in listing order. |
| `Sorting.SortFiles` | utils.py:155-169 | The plan makes one directory `<root>/<label>` per label, where the root is the given destination or else the source directory. For every (label, file) assignment it copies `<source>/<file>` to `<root>/<label>/<file>`, and it makes no other copy. |
| `Sorting.AssignedFilesListed` | utils.py:164 | Every assigned file comes from the directory listing. |
| `Sorting.CopiesLandInLabelDirs` | utils.py:158-169 | Each copy reads a listed file from the source directory. It writes a file of the same name into the directory made for a label whose list matches that name. |
| `Sorting.DefaultDestinationIsSource` | utils.py:156 | Leaving out the destination is the same as passing the source directory. The label directories are then `<source>/<label>`. |
| `Sorting.SpeechClipExample` | utils.py:155-169 | With group "Speech" → ["abc123"], `abc123_0.wav` is copied from `raw/` to `dest/Speech/abc123_0.wav`, after `dest/Speech` is ensured. |
| `Sorting.SharedFileExample` | utils.py:164-169 | A file whose name holds media ids of two labels is copied into both directories, in dictionary order. |

## Left out

- CSV reading and writing: `open`, `csv.reader`/`DictReader` with `skipinitialspace`, and the header names read at line 94. Both tables are passed in already parsed. A segment row has exactly four fields. A short line, such as a header comment of the segment table, raises IndexError at `row[3]` in the source; that is outside the model.
- The fixed table path at line 92, the output path and the overwrite notice at lines 47-53, and all `print` diagnostics. These are file-system and console I/O.
- The directory listing (`os.listdir`), `os.path.exists`/`os.makedirs` and `copyfile`. These are file-system effects. `Sorting.SortFiles` returns the directories to ensure and the copies to make. Whether a directory already exists is not modelled, because the effect is the same either way.
- `download` (lines 27-39). It runs `ffmpeg`/`youtube-dl` as a shell command over the network.
- `find` (lines 18-24) and the `__main__` block (lines 174-202). The `__main__` block parses the command line. Both call `get_label_id` with one argument, which raises TypeError.
- Unicode semantics of `str.lower()`. `Text.Lower` folds only ASCII capitals.
- `Dataset.CreateCsvRowsAsWritten` models only the line-63 defect. It resolves the class and the blacklist with the intended `GetLabelId`, not with `GetLabelIdAsWritten`.
- Idempotence of a re-run of `sort_files` over an existing destination tree. The model has no file-system state. The plan depends only on its inputs.

## Findings

| source | as written | input that shows it | evidently intended | confidence | as-written member | corrected member |
|---|---|---|---|---|---|---|
| utils.py:63 | `set(row[3]).intersection(blacklisted_ids)` intersects the characters of the label field with a list of lists, and hashing a list raises TypeError | blacklist resolved to `[["/m/0dgw9r"]]`, wanted `["/m/09x0r"]`, row `("abc123","0","10","/m/09x0r,/m/0dgw9r")`. The resolved lists assume the line-110 defect below is fixed. As written, a blacklisted class must match two or more entries to reach line 63, e.g. "speech". | the row is excluded because it holds a blacklisted id | high, not executed | `Dataset.SelectRowsAsWritten`, `Dataset.BlacklistCounterexample` | `Dataset.SelectRows` |
| utils.py:132-138 | an empty key is popped during iteration, and then `yt_ids[label]` is read, which raises KeyError | label ids `["/m/09x0r","/m/0dgw9r"]`, one row `("abc123","0","10","/m/09x0r")` | the empty key is dropped and the rest is returned | high, not executed | `Grouping.CleanupAsWritten`, `Grouping.CleanupCounterexample` | `Grouping.GetYtIds` |
| utils.py:102-110 | `label_ids is None` is never true, and line 110 adds a list to a string, which raises TypeError | class name "female speech" over the entries "Speech" and "Female speech, woman speaking" | the single matching id `["/m/02zsn"]` is returned | high, not executed | `LabelIndex.GetLabelIdAsWritten`, `LabelIndex.SingleMatchCounterexample` | `LabelIndex.GetLabelId` |
