# FLX Data Analyzer — database index repair, modelled in Dafny

The FLX Data Analyzer keeps its imported capture files in one HDF5
container. The container holds a JSON *file index* at
`metadata/file_index`, which maps each entry id to a *FileRecord*
dictionary, and one group `files/{id}` per entry. The repair utility
(`database_repair_utility.py`, `repair_database_metadata`) rebuilds the
records whose `original_path` is missing, empty or the sentinel
`"Unknown"`:

- It selects those records.
- For each selected record whose id has a group, it adopts the first
  string attribute of the group that looks like a path. The test is: the
  value holds `/` or `\`, and holds a `.`. The record gets that path as
  `original_path`, its basename as `file_name`, and a `file_type` inferred
  case-insensitively from the extension.
- Failing that, it falls back on the group's `raw_data`. This gives a
  placeholder path `recovered_file_{id}` (with `.flz` when `photon_data`
  is present) and sets `status` to `recovered`.
- It counts the repairs and writes the index back only when the count is
  above zero.

The model has four modules:

- `Wrappers` (`wrappers.dfy`): `Option` and `Result`.
- `PathNames` (`path_names.dfy`): the Windows path helpers the pass uses.
  `basename` is the suffix after the last `/` or `\`. `splitext` takes the
  extension from the last dot of the basename, ignoring leading dots, and
  keeps the dot. There is also the path-like test and an ASCII lower-casing.
- `FileIndex` (`file_index.dfy`): record values, record fields, groups and
  attributes. It also holds the repair of one record (`RepairEntry`), with
  its two branches `AdoptPath` and `Recover`.
- `RepairUtility` (`repair.dfy`):
  - the pass as a left fold, in dictionary order, over what repairing each
    record on its own gives (`Outcomes`, `Accumulate`, `RepairIndex`);
  - the imperative code itself: the `for` loop (`RepairPass`) and a
    `Database` class whose method `RepairDatabaseMetadata` runs it and does
    the conditional write-back;
  - the lemmas about the pass.

Python exceptions become `Failure` values. Line 74 reads
`file_info['original_path']` and takes its basename. When no attribute was
adopted and there is no `raw_data`, this raises in two cases:

- KeyError (`MissingOriginalPath`) when the field is missing;
- TypeError (`OriginalPathNotText`) when it holds a non-string falsy value
  such as `null`, `0`, `false` or `[]`.

Either exception aborts the whole pass, and nothing is written.

Three behaviours of the code are worth stating plainly:

- A second run is not a no-op in its count. A record with a group that
  offers neither a path-like attribute nor `raw_data` keeps its `"Unknown"`
  (or empty) `original_path`. It is then selected and counted again on
  every run, and every such run rewrites the index. `SecondPass` states
  exactly which records are counted again, and `KeptSentinelCountsEveryRun`
  gives a concrete one. On records, a second pass is a fixpoint: it changes
  nothing.
- The type `flz` in the fallback depends only on whether the key
  `photon_data` exists in `raw_data`, not on what it holds.
- Entries are looked up under `files/{id}`.

## Model

| member | source | states |
|---|---|---|
| `PathNames.BasenameIsLastComponent` | database_repair_utility.py:47 | `os.path.basename` on Windows: the result is a suffix of the path, contains no `/` or `\`, and whatever precedes it ends in a separator |
| `PathNames.BasenameOfPlainName` | database_repair_utility.py:74 | a path without separators is its own basename (so `"Unknown"` and `"recovered_file_{id}"` keep their names) |
| `PathNames.NameExtensionIsLastDotSuffix` | database_repair_utility.py:50 | `splitext` of a file name: the extension is empty exactly when every dot of the name is preceded only by dots; otherwise it is the suffix from the last dot, holds no other dot, and something other than a dot precedes it |
| `PathNames.ExtensionIsSuffixOfBasename` | database_repair_utility.py:50 | the extension of a path starts with a dot, is a suffix of both the path and its basename, and crosses no separator |
| `FileIndex.FirstPathAttribute` | database_repair_utility.py:37-60 | the adopted value is None exactly when no attribute is a string that looks like a path; otherwise it is the value of a path-like string attribute that no other path-like one precedes (the first wins, later ones are ignored) |
| `FileIndex.TypeForExtension` | database_repair_utility.py:50-56 | compared after lower-casing, `.flz` and `.fld` give `flz`, `.flr` gives `flr`, `.flb` gives `flb`, and every other extension gives no type (the field is left alone); only a four-character extension gives a type |
| `FileIndex.TypeIgnoresCase` | database_repair_utility.py:50 | an extension gives the same type as its lower-cased form |
| `FileIndex.UpperCaseExtensions` | database_repair_utility.py:50-56 | concretely, `.FLD` and `.FLZ` give `flz`, `.Flr` gives `flr`, `.FLB` gives `flb`, and `.FL` gives nothing |
| `FileIndex.AdoptPathFields` | database_repair_utility.py:46-56 | adopting a path sets `original_path` to it and `file_name` to its basename; `file_type` becomes the type of the lower-cased extension (`.flz`/`.fld`→`flz`, `.flr`→`flr`, `.flb`→`flb`) or stays exactly as it was; no other field changes and none is removed |
| `FileIndex.PlaceholderPath` | database_repair_utility.py:65-72 | the placeholder is exactly `recovered_file_{id}` without `photon_data`, and exactly `recovered_file_{id}.flz` with it: it starts with the prefix, continues with the id, has the length of the two plus four for `.flz`, and ends in `.flz` when `photon_data` is present |
| `FileIndex.RecoverFields` | database_repair_utility.py:63-76 | the fallback always succeeds when `raw_data` exists. It sets the placeholder path and a type of `flz` (photon data present) or `unknown`. Without `raw_data`, `original_path` is kept, and the fallback raises exactly when that field is missing (KeyError) or is not a string (TypeError). On success `file_name` is the basename of `original_path` and `status` is `recovered`; no other field changes |
| `FileIndex.RepairEntryOutcome` | database_repair_utility.py:28-77 | a record counts exactly when it is damaged and has a group. Records that do not count come out identical. No field is removed. Only the fallback without `raw_data` can raise |
| `FileIndex.RepairEntryIdempotent` | database_repair_utility.py:28-76 | repairing an already repaired record changes nothing; a damaged record with a group is selected again exactly when neither an attribute nor `raw_data` rebuilt it |
| `RepairUtility.IdsAreKeys` | database_repair_utility.py:20-24 | the ids the loop visits are exactly the keys of the decoded index |
| `RepairUtility.ScanAttributes` | database_repair_utility.py:37-60 | the attribute loop with its `break` returns the first path-like string attribute |
| `RepairUtility.FirstPathAttributeAt` | database_repair_utility.py:44-60 | a path-like attribute with no path-like one before it is the one adopted, whatever follows |
| `RepairUtility.RepairRecord` | database_repair_utility.py:26-77 | the loop body for one record (the `needs_repair` flag, the attribute scan, the fallback, the count) computes exactly `RepairEntry` |
| `RepairUtility.Database.constructor` | database_repair_utility.py:18-20 | the container's stored index and groups are the given ones |
| `RepairUtility.Database.RepairDatabaseMetadata` | database_repair_utility.py:14-86 | on an exception nothing is written and the error is returned. Otherwise it returns `repaired_count` and whether it wrote, where it writes exactly when the count is above zero. The stored index afterwards has the same ids in the same order, with the repaired records, and is again a well-formed index |
| `RepairUtility.RepairPass` | database_repair_utility.py:22-77 | the `for` loop over the index, with its running count and its exit on the first exception, computes the fold of the records' own repairs in index order |
| `RepairUtility.AccumulateAt` | database_repair_utility.py:24-34 | when the loop reaches a record, that record is still the one the index was loaded with |
| `RepairUtility.AccumulateFrame` | database_repair_utility.py:24-77 | the pass adds and removes no id, leaves records it has not reached untouched, and counts at most one repair per record reached |
| `RepairUtility.AccumulateFailureIsFinal` | database_repair_utility.py:24-77 | once a record's repair raises, the whole pass ends with that exception |
| `RepairUtility.AccumulatePointwise` | database_repair_utility.py:24-77 | after a successful pass each id reached holds the record its own repair produced |
| `RepairUtility.AccumulateCount` | database_repair_utility.py:22-76 | `repaired_count` equals the number of distinct ids reached whose repair counted |
| `RepairUtility.AccumulateFailure` | database_repair_utility.py:24-77 | the pass succeeds exactly when no repair it reaches raises; when it fails, it carries the error of the first raising record in index order |
| `RepairUtility.AccumulateUncountedKeepsRecords` | database_repair_utility.py:80-84 | when repairs that do not count leave their records alone, a pass with a zero count changes no record |
| `RepairUtility.AccumulateUnchangedKeepsRecords` | database_repair_utility.py:24-77 | when every repair leaves its record as it was, the pass raises nowhere and changes nothing |
| `RepairUtility.NoRepairLeavesRecords` | database_repair_utility.py:80-84 | a pass that counts nothing changes no record, so skipping the write-back loses nothing |
| `RepairUtility.RepairIndexPointwise` | database_repair_utility.py:22-77 | whole pass: the set of ids is unchanged, and every record is its own repair, counted exactly when it was damaged and had a group |
| `RepairUtility.RepairIndexCount` | database_repair_utility.py:22-76 | whole pass: `repaired_count` is the size of the set of damaged ids that have a group |
| `RepairUtility.RepairIndexFailure` | database_repair_utility.py:24-77 | whole pass: it succeeds exactly when no record's repair raises; when it fails, it carries the error of the first raising record in index order |
| `RepairUtility.FixpointPassChangesNothing` | database_repair_utility.py:28-77 | a pass over an index that repair leaves unchanged record by record raises nowhere and changes nothing |
| `RepairUtility.RepairedIndexIsFixpoint` | database_repair_utility.py:28-76 | the repaired index has the same ids and is left unchanged by repair record by record; a record of it is selected and counted again exactly when it was damaged and grouped but had neither a path-like attribute nor `raw_data` |
| `RepairUtility.SecondPass` | database_repair_utility.py:28-76 | a second pass over the repaired index raises nowhere and changes no record. Its count is the number of damaged, grouped records that had neither a path-like attribute nor `raw_data` |
| `RepairUtility.SinglePass` | database_repair_utility.py:24-77 | the pass over an index of one record raises exactly when that record's repair raises, and otherwise stores its repair and counts it once when it counted |
| `RepairUtility.KeptSentinelCountsEveryRun` | database_repair_utility.py:63-76 | concretely, an `"Unknown"` record whose group offers no path and no `raw_data` gets `file_name` `"Unknown"` and `status` `recovered`, and is counted on the first run and again on the second |
| `RepairUtility.MissingPathOutcomes` | database_repair_utility.py:65-76 | concretely, a record without `original_path` raises KeyError when its group has neither a path-like attribute nor `raw_data`. With `raw_data` holding `photon_data`, it gets `recovered_file_a.flz`, type `flz` and status `recovered` |

## Left out

- Opening the HDF5 file, reading and writing the `metadata/file_index` dataset, and JSON decoding and encoding. The index is the decoded value `Index`, and the write-back is the assignment to `Database.fileIndex`.
- The `print` logging, the `__main__` command line, and its file-existence check. These are I/O.
- The UTF-8 decoding of `bytes` attributes with `errors='ignore'`. Attribute values arrive as already-decoded strings (`Text`) or as non-strings (`NonText`).
- The order of attributes is taken as given. h5py iterates attributes in name order unless creation order is tracked, and that choice belongs to the container.
- JSON values other than strings are kept only by their Python truth value (`NonStr(truthy)`). That is all the pass reads from them, and it never changes them. The order of keys inside a record, which only affects the JSON text written back, is not modelled.
- The index is taken to be a JSON object of JSON objects, and `files/{id}` and `raw_data` to be groups. A non-dictionary record (AttributeError on `.get`) and dataset-valued `files/{id}` or `raw_data` are not modelled.
- `PathNames.BasenameIsLastComponent`: does not model the drive handling of `ntpath.basename`, for UNC prefixes and for `X:` prefixes. For `//server/share.flz` the whole value counts as a drive, and Python gives an empty basename; for `C:foo` Python gives `foo`. The model gives the text after the last `/` or `\` in both cases.
- `FileIndex.TypeForExtension`: lower-cases ASCII letters only. For comparing against `.flz`, `.fld`, `.flr` and `.flb` this gives the same answers as Python's `str.lower`, because no non-ASCII character lower-cases to one of those letters.
- The rest of the repository is not part of this model: the pandas CSV wrapper `src/core/data_manager.py`, the floating-point analysis in `src/analysis/`, plugin loading, the UI, and the demo and test scripts. The demo and test scripts also call store methods that the shown data manager does not define.
