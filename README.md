# Ensemble / MR-Tandem cluster launcher — a Dafny model

This project models the core of the Ensemble Cloud Army (ECA) and MR-Tandem
cluster launchers. These Python programs start compute clusters on Amazon EC2
(or on a local or Hadoop system), ship a job configuration to them, and run R
or X!Tandem jobs there. The model covers five things:

- **The configuration store** (`eca_launch_helper.py`, `mapreduce_helper.py`):
  - a core dictionary, a stack of per-job dictionaries, and a cursor;
  - the lookup rules of `getConfig` (Ensemble and MapReduce variants);
  - writes with eviction (`setConfig`, `setCoreConfig`);
  - `tidyConfigStack`, which drops redundant entries, promotes common keys
    and gives each job a unique name;
  - the loaders `load_commented_json` and `load_json_string`;
  - the credential scrub `scrubAndPreserveJobConfig`.
- **Path and name mangling** (`drivecaps`, `tidypath`, `S3CompatibleString`,
  `my_abspath`, `pathToTargetFileSystemPath`, `filenameToPath`,
  `attemptGZip`) and the transfer decisions of `uploadFile` and
  `get_contents_to_filename`.
- **The RMPI launcher's cluster watch** (`eca_launch_rmpi.py`):
  - the status letters P/B/R/T;
  - the booter processes started when an instance starts running;
  - the pipe messages;
  - the exit test of the polling loop and the teardown;
  - each booter's retry loop, with its de-duplicating log and its chunked
    output streaming.
- **The node-side start script** (`start_node.py`):
  - flattening the configuration stack into one job per entry;
  - the launch index and head/client role;
  - `checkedBucketRead`'s verified download with retries;
  - the waits for clients, pings and SSH under a ten-minute budget;
  - the MPI hosts file;
  - `myexit`.
- **Oracles for I/O.** The file system, S3, instance metadata and the
  subprocess outcomes are parameters (functions or sequences of outcomes).
  Sleeps are counted rather than taken.

Files:

| file | models |
|---|---|
| common.dfy | `Option`, `Result`, the configuration `Value`, `Entry`, eviction from a stack |
| text.dfy | string helpers the source takes from Python (`replace`, `split`, `strip`, `rfind`, `basename`, `%d`) |
| paths.dfy | the Ensemble helper's path and S3 name helpers |
| target_paths.dfy | the MapReduce helper's target-path encoding and gzip choice |
| config_text.dfy | comment stripping, inline-array splitting, file-list classification, flag normalisation |
| config_tidy.dfy | the deduplication and promotion passes of `tidyConfigStack` |
| unique_names.dfy | the unique-name pass of `tidyConfigStack` |
| ensemble_store.dfy | the Ensemble configuration store (`EnsembleStore` class) |
| mapreduce_store.dfy | the MapReduce configuration store (`MapReduceStore` class) |
| data_stager.dfy | `uploadFile` and `get_contents_to_filename` |
| boot_transport.dfy | the `startNode` booter process (`BootReporter` class) |
| launch_monitor.dfy | the launcher's polling loop (`LaunchMonitor` class) |
| node_side.dfy | `start_node.py` |

## Model

| member | source | states |
|---|---|---|
| Text.Split | mrtandam-ica-code/ensemble/src/cluster_infrastructure/start_node.py:204 | a split yields at least one part, and no part holds the separator |
| Text.JoinSplit | mrtandam-ica-code/ensemble/src/cluster_infrastructure/start_node.py:204 | joining the parts of a split with its separator gives back the original string |
| Text.Basename | mrtandam-ica-code/ensemble/src/eca_launch_helper.py:494 | `os.path.basename`: the result has no `/`, is a suffix of the path, and a name without `/` is its own base name |
| Text.NatToStringInjective | mrtandam-ica-code/ensemble/src/cluster_infrastructure/start_node.py:777 | distinct numbers print as distinct decimal strings |
| Paths.DriveCapsOnlyTouchesDriveLetter | mrtandam-ica-code/ensemble/src/eca_launch_helper.py:168-174 | only the first character of a drive path (`X:` then more) changes, to lower case; any other name is unchanged; applying it twice is the same as once |
| Paths.TidyPathSpec | mrtandam-ica-code/ensemble/src/eca_launch_helper.py:214-217 | a tidied path has no backslash, and a path with no backslash or `//` is already tidy |
| Paths.S3CompatibleStringSpec | mrtandam-ica-code/ensemble/src/eca_launch_helper.py:674-691 | when run locally, the name is unchanged; otherwise the S3 form is the drive-capped name mapped character by character, so it has no `:` or `\`, and a bucket name also has no `_` or capital |
| TargetPaths.S3CompatibleStringSpec | mrtandam-ica-code/mr-tandem/mapreduce_helper.py:596-606 | the MapReduce S3 form: unchanged locally; otherwise it has no `:`, and a bucket name has no `_` or capital |
| TargetPaths.MyAbspath | mrtandam-ica-code/mr-tandem/mapreduce_helper.py:640-656 | the absolute path has no backslash |
| TargetPaths.ReplacePassesAreEncodeChars | mrtandam-ica-code/mr-tandem/mapreduce_helper.py:658-667 | the three replace passes of the flattening equal one character-by-character encoding (`:` to `__cln__`, both separators to `__sl__`) |
| TargetPaths.DecodeTargetPathRoundTrip | mrtandam-ica-code/mr-tandem/mapreduce_helper.py:658-672 | a left-to-right decoder gives back the absolute path from its flattened name whenever the path has no `__` |
| TargetPaths.FilenameToPathMisreadsClnDirectory | mrtandam-ica-code/mr-tandem/mapreduce_helper.py:669-672 | the path `/cln/` flattens to `__sl__cln__sl__`, which `filenameToPath` reads back as `__sl:sl__` and the left-to-right decoder as `/cln/` |
| TargetPaths.AttemptGZipSpec | mrtandam-ica-code/mr-tandem/mapreduce_helper.py:717-738 | the transferred file is the input or its `.gz` sibling; it ends in `.gz` iff the input did or a gzip copy exists or could be made; gzipping a gzip name again changes nothing |
| ConfigText.StripCommentSpec | mrtandam-ica-code/ensemble/src/eca_launch_helper.py:145-146 | a stripped line is a prefix of the line, ends at a `#` or newline or at the end, and holds neither |
| ConfigText.JoinStrippedLines | mrtandam-ica-code/ensemble/src/eca_launch_helper.py:145-147 | the joined configuration text is the concatenation of the stripped lines, and holds no `#` or newline |
| ConfigText.StrippedTextOfPlainLines | mrtandam-ica-code/ensemble/src/eca_launch_helper.py:145-147 | for lines without comments, stripping the newline-terminated lines and joining them gives back their concatenation |
| ConfigText.SplitInlineArray | mrtandam-ica-code/ensemble/src/eca_launch_helper.py:83-96 | the loop that splits `[{…},{…}]` on `},{` and re-wraps each piece computes the piece list `InlinePieces` |
| ConfigText.InlinePiecesAreObjects | mrtandam-ica-code/ensemble/src/eca_launch_helper.py:84-96 | a non-empty text gives at least one piece, and every piece starts with `{` and ends with `}` |
| ConfigText.InlinePiecesOfArray | mrtandam-ica-code/ensemble/src/eca_launch_helper.py:84-96 | for an array of flat objects, the split gives back exactly the objects written |
| ConfigText.ListedPaths | mrtandam-ica-code/ensemble/src/eca_launch_helper.py:111-123 | every path kept is a non-empty, non-comment stripped line whose file exists, or does not, as asked |
| ConfigText.ClassifyConfigLines | mrtandam-ica-code/ensemble/src/eca_launch_helper.py:111-131 | a single `[` line is an inline array; otherwise more than one existing file makes a file list, which is an error when any listed file is missing, and anything else is one configuration |
| ConfigText.NormaliseFlagSpec | mrtandam-ica-code/ensemble/src/eca_launch_helper.py:154-162 | any capitalisation of "true" or "false" becomes "True" or "False", everything else is unchanged, and normalising twice is the same as once |
| ConfigTidy.DropRedundantEntries | mrtandam-ica-code/ensemble/src/eca_launch_helper.py:460-468 | the first pass deletes from each entry exactly the keys whose value equals the core's (except the empty key) |
| ConfigTidy.HeldByAll | mrtandam-ica-code/ensemble/src/eca_launch_helper.py:474-478 | the inner scan reports consistent iff every entry holds the key with the same value |
| ConfigTidy.ConsiderKey | mrtandam-ica-code/ensemble/src/eca_launch_helper.py:473-483 | one key of the promotion scan is added to the dead keys (and its value to the core) exactly when it is promotable |
| ConfigTidy.DeleteKeys | mrtandam-ica-code/ensemble/src/eca_launch_helper.py:484-487 | the promoted keys (except the empty key) are deleted from every entry and nothing else changes |
| ConfigTidy.PromoteCommonKeys | mrtandam-ica-code/ensemble/src/eca_launch_helper.py:470-487 | the promotion pass moves to the core exactly the keys every entry shares with one value not contradicted by the core |
| ConfigTidy.TidyKeepsCore | mrtandam-ica-code/ensemble/src/eca_launch_helper.py:459-487 | tidying never changes or removes a core value, and only removes keys from entries |
| ConfigTidy.TidyNewCoreKeys | mrtandam-ica-code/ensemble/src/eca_launch_helper.py:470-487 | a key new to the core was held by every entry with that value |
| ConfigTidy.TidyKeepsMergedView | mrtandam-ica-code/ensemble/src/eca_launch_helper.py:459-487 | each job's merged view (its entry over the core) is the same before and after tidying |
| ConfigTidy.TidyLeavesNoRedundancy | mrtandam-ica-code/ensemble/src/eca_launch_helper.py:459-487 | after tidying, no entry repeats a core value (except the empty key) |
| ConfigTidy.TidyPromotesShared | mrtandam-ica-code/ensemble/src/eca_launch_helper.py:470-487 | a key that all entries share with one value, not contradicted by the core, ends up in the core and in no entry |
| ConfigTidy.TidySingleEntry | mrtandam-ica-code/ensemble/src/eca_launch_helper.py:459-487 | with one job, the core absorbs the entry, and the entry keeps only the empty key and its overrides of the core |
| ConfigTidy.TidyThenDropIsIdentity | mrtandam-ica-code/ensemble/src/eca_launch_helper.py:459-487 | the deduplication pass does nothing on a tidied configuration |
| ConfigTidy.TidyThenNothingPromotable | mrtandam-ica-code/ensemble/src/eca_launch_helper.py:459-487 | nothing but the empty key is promotable in a tidied configuration |
| ConfigTidy.TidyIdempotent | mrtandam-ica-code/ensemble/src/eca_launch_helper.py:459-487 | tidying a tidied configuration changes nothing |
| UniqueNames.CountsDecideDistinct | mrtandam-ica-code/ensemble/src/eca_launch_helper.py:495-503 | every name occurs exactly once iff the names are pairwise distinct, which is the test the uniqueness loop makes |
| UniqueNames.RelabelAsWrittenKeepsCollision | mrtandam-ica-code/ensemble/src/eca_launch_helper.py:504-506 | renaming only the last entry leaves any collision between two earlier entries in place |
| UniqueNames.RelabelAsWrittenThreeAlike | mrtandam-ica-code/ensemble/src/eca_launch_helper.py:504-506 | three jobs with one name come out as `run.json`, `run.json`, `cfg2`, which is still not unique |
| UniqueNames.RelabelAsIntendedIsDistinct | mrtandam-ica-code/ensemble/src/eca_launch_helper.py:504-506 | numbering every entry by position gives distinct names, and names that were already distinct are kept |
| EnsembleConfig.Read | mrtandam-ica-code/ensemble/src/eca_launch_helper.py:511-524 | a non-`None` value in the selected entry wins; then the core's (when the core is consulted); with neither, a non-`None` default is returned, a required key is the "no value given" error, and anything else reads `None` |
| EnsembleConfig.ReadFollowsMergedView | mrtandam-ica-code/ensemble/src/eca_launch_helper.py:511-524 | a read depends only on the merged view, given that keys were only moved between entry and core |
| EnsembleConfig.TidyKeepsReads | mrtandam-ica-code/ensemble/src/eca_launch_helper.py:459-524 | `tidyConfigStack`'s first two passes change no job's read of any key |
| EnsembleConfig.CoreWriteSeenByAll | mrtandam-ica-code/ensemble/src/eca_launch_helper.py:584-591 | after `setCoreConfig` with a non-`None` value, every job reads that value |
| EnsembleConfig.BlankCredentials | mrtandam-ica-code/ensemble/src/eca_launch_helper.py:628-631 | the four credential keys read "xxxx", and every other core value is kept |
| EnsembleConfig.StripCredentials | mrtandam-ica-code/ensemble/src/eca_launch_helper.py:628-631 | every entry loses the four credential keys, and nothing else |
| EnsembleConfig.RestoreAsWrittenDropsOverride | mrtandam-ica-code/ensemble/src/eca_launch_helper.py:643-645 | restoring a saved core key through `setCoreConfig` deletes every job's own override of it, so the job then reads the core value |
| EnsembleConfig.RestoreAsWrittenExample | mrtandam-ica-code/ensemble/src/eca_launch_helper.py:643-645 | a job overriding `threads` to 8 over a core of 2 reads 2 after the scrub |
| EnsembleConfig.RestoreAsIntendedKeepsReads | mrtandam-ica-code/ensemble/src/eca_launch_helper.py:623-647 | writing the saved values back into the core only changes no job's read of a non-credential key |
| EnsembleConfig.ScrubSnapshotFacts | mrtandam-ica-code/ensemble/src/eca_launch_helper.py:623-640 | the written configuration has the credentials blanked in the core, absent from every job, and every other core value kept |
| EnsembleConfig.ScrubRestoreFacts | mrtandam-ica-code/ensemble/src/eca_launch_helper.py:643-647 | after the restore and the `savedAs` write, the core has every old value back (credentials missing before stay "xxxx") and records the file name, and no job holds a credential, `savedAs` or any other key the core held |
| EnsembleConfig.EnsembleStore.constructor | mrtandam-ica-code/ensemble/src/eca_launch_helper.py:48-50 | the store starts with the version key in the core, an empty stack and the core selected |
| EnsembleConfig.EnsembleStore.PushConfig | mrtandam-ica-code/ensemble/src/eca_launch_helper.py:57-59 | an empty entry is appended; nothing else changes |
| EnsembleConfig.EnsembleStore.SelectConfig | mrtandam-ica-code/ensemble/src/eca_launch_helper.py:62-70 | the cursor moves to the given configuration, which is returned |
| EnsembleConfig.EnsembleStore.SetCoreConfig | mrtandam-ica-code/ensemble/src/eca_launch_helper.py:584-591 | the core gets the value and every entry loses the key |
| EnsembleConfig.EnsembleStore.SetConfig | mrtandam-ica-code/ensemble/src/eca_launch_helper.py:574-582 | the selected configuration gets the value (a core write evicts), and the next read returns any non-`None` value written |
| EnsembleConfig.EnsembleStore.CountMatches | mrtandam-ica-code/ensemble/src/eca_launch_helper.py:497-503 | the counting loop returns how often entry n's name occurs among all names |
| EnsembleConfig.EnsembleStore.NamesUnique | mrtandam-ica-code/ensemble/src/eca_launch_helper.py:495-503 | the outer loop reports all-unique iff the names are distinct |
| EnsembleConfig.EnsembleStore.LabelWithBaseNames | mrtandam-ica-code/ensemble/src/eca_launch_helper.py:490-494 | each entry is labelled with its configuration file's base name, and the pass stops at the first entry without one |
| EnsembleConfig.EnsembleStore.LabelOne | mrtandam-ica-code/ensemble/src/eca_launch_helper.py:492-494 | one step of the labelling selects the entry and writes its file's base name as its label exactly when the entry has a configuration name; otherwise nothing changes |
| EnsembleConfig.EnsembleStore.RelabelSelected | mrtandam-ica-code/ensemble/src/eca_launch_helper.py:504-506 | the renaming writes the numbered label into the selected (last) entry only |
| EnsembleConfig.EnsembleStore.NumberOnCollision | mrtandam-ica-code/ensemble/src/eca_launch_helper.py:495-506 | after the uniqueness scan, the labels become the as-written renaming of the base names: kept when distinct, otherwise numbered into the last entry |
| EnsembleConfig.RelabelledStack | mrtandam-ica-code/ensemble/src/eca_launch_helper.py:495-506 | distinct labels are left alone by the renaming, and a collision implies there are jobs to rename |
| EnsembleConfig.EnsembleStore.TidyPasses | mrtandam-ica-code/ensemble/src/eca_launch_helper.py:459-487 | the first two passes leave the store at `TidyCore`/`TidyStack` of its old state |
| EnsembleConfig.EnsembleStore.LabelConfigs | mrtandam-ica-code/ensemble/src/eca_launch_helper.py:489-507 | when every job has a name, the labels are the base names after the as-written renaming; otherwise the pass fails where labelling stopped |
| EnsembleConfig.EnsembleStore.TidyConfigStack | mrtandam-ica-code/ensemble/src/eca_launch_helper.py:459-507 | the whole tidy: the core is tidied, and the jobs are tidied and labelled, or the pass fails at the first unnamed job |
| EnsembleConfig.EnsembleStore.LoadJsonString | mrtandam-ica-code/ensemble/src/eca_launch_helper.py:151-165 | the new core and stack are `JsonLoaded` of the old ones: the parsed, flag-normalised pairs go into the selected configuration, or into the core with eviction from every entry when the core is selected |
| EnsembleConfig.EnsembleStore.LoadInlineArray | mrtandam-ica-code/ensemble/src/eca_launch_helper.py:81-103 | one blank configuration is pushed per inline object, then configurations 0, 1, ... of the stack receive the objects in turn (the new ones only when the stack was empty); the core is unchanged and the cursor is left on the last one loaded |
| EnsembleConfig.EnsembleStore.LoadEach | mrtandam-ica-code/ensemble/src/eca_launch_helper.py:100-102 | configuration `n` of the stack receives the flag-normalised pairs of piece `n`, for every piece in turn; the core and the other configurations are unchanged and the last one loaded is left selected |
| EnsembleConfig.EnsembleStore.LoadCommentedJson | mrtandam-ica-code/ensemble/src/eca_launch_helper.py:75-149 | per input form, the count and the new store: an inline object is `JsonLoaded` into the selection, an inline array is `InlineLoaded` with the core unchanged, a file read without multi-configuration support loads its comment-stripped text into the selection, and a file with it follows `LoadParameterFile` |
| EnsembleConfig.EnsembleStore.LoadParameterFile | mrtandam-ica-code/ensemble/src/eca_launch_helper.py:104-149 | a lone `[` line is loaded as an inline array; a list with missing files raises, naming them, with only `coreBaseName` recorded; a single configuration is pushed, named after the file (and `coreBaseName` recorded when one listed file exists) and loaded from the stripped text; a file list counts its names |
| EnsembleConfig.EnsembleStore.LoadNamedConfig | mrtandam-ica-code/ensemble/src/eca_launch_helper.py:139-149 | the new store is a blank configuration pushed, `eca_cfgName` set through `setConfig` on the selection, then the stripped text loaded into the selection |
| EnsembleConfig.EnsembleStore.LoadFileList | mrtandam-ica-code/ensemble/src/eca_launch_helper.py:130-138 | loading a list of files keeps the store valid, never shrinks the stack, and on success reports one configuration per listed name |
| EnsembleConfig.EnsembleStore.ScrubCredentials | mrtandam-ica-code/ensemble/src/eca_launch_helper.py:628-631 | the credentials are blanked in the core and removed from every entry |
| EnsembleConfig.EnsembleStore.Serialise | mrtandam-ica-code/ensemble/src/eca_launch_helper.py:526-542 | the text is written after a tidy; it holds the core and the selected job, or all jobs |
| EnsembleConfig.EnsembleStore.RestoreCore | mrtandam-ica-code/ensemble/src/eca_launch_helper.py:643-645 | every saved key but the empty one is written back through `setCoreConfig`, which also deletes it from every entry |
| EnsembleConfig.EnsembleStore.ScrubAndSerialise | mrtandam-ica-code/ensemble/src/eca_launch_helper.py:623-640 | the first half of the scrub: the store becomes `ScrubbedStore` of the old one (tidied and labelled, credentials blanked in the core and deleted from every job, tidied and labelled again) and the snapshot is that store's core with the selected job or all jobs; credentials read "xxxx" in the core and every other tidied core value stays |
| EnsembleConfig.EnsembleStore.ScrubAndPreserveJobConfig | mrtandam-ica-code/ensemble/src/eca_launch_helper.py:623-647 | the saved snapshot is the `ScrubbedStore` core with the selected or all jobs; afterwards the core is that core with the saved values restored and `savedAs` set, and the stack has every saved key and `savedAs` evicted, so no entry holds a credential |
| EnsembleConfig.ScrubKeepsReads | mrtandam-ica-code/ensemble/src/eca_launch_helper.py:623-640 | in the scrubbed store every job reads, for every key but the credentials and `eca_uniqueName`, exactly what it read before the scrub |
| MapReduceConfig.Lookup | mrtandam-ica-code/mr-tandem/mapreduce_helper.py:413-423 | any value the selected entry holds wins, `None` included; then a non-`None` core value; with neither, a non-`None` default is returned, a required key is the "no value given" error, and anything else reads `None` |
| MapReduceConfig.LookupMatchesEnsembleRead | mrtandam-ica-code/mr-tandem/mapreduce_helper.py:413-423 | the two stores' lookups agree except where the selected entry holds `None` |
| MapReduceConfig.NullEntryShadowsCore | mrtandam-ica-code/mr-tandem/mapreduce_helper.py:413-423 | an entry's `None` hides the core value here but not in the Ensemble store |
| MapReduceConfig.TidyKeepsLookups | mrtandam-ica-code/mr-tandem/mapreduce_helper.py:102-131 | when no entry holds `None`, tidying changes no job's lookup |
| MapReduceConfig.TidyCanChangeNullLookup | mrtandam-ica-code/mr-tandem/mapreduce_helper.py:102-131 | with `None` values a tidy can change a lookup: the dropped `None` lets the default show |
| MapReduceConfig.RestoredAfterScrubSpec | mrtandam-ica-code/mr-tandem/mapreduce_helper.py:534-553 | after the scrub the core has every old value back, plus the empty key and any missing credentials as "xxxx" |
| MapReduceConfig.MapReduceStore.constructor | mrtandam-ica-code/mr-tandem/mapreduce_helper.py:48-50 | the store starts with the version key in the core, an empty stack and the core selected |
| MapReduceConfig.MapReduceStore.PushConfig | mrtandam-ica-code/mr-tandem/mapreduce_helper.py:82-84 | an empty entry is appended; nothing else changes |
| MapReduceConfig.MapReduceStore.SelectConfig | mrtandam-ica-code/mr-tandem/mapreduce_helper.py:87-95 | the cursor moves to the given configuration, which is returned |
| MapReduceConfig.MapReduceStore.SelectCoreConfig | mrtandam-ica-code/mr-tandem/mapreduce_helper.py:97-99 | the cursor moves to the core, which is returned |
| MapReduceConfig.MapReduceStore.SetCoreConfig | mrtandam-ica-code/mr-tandem/mapreduce_helper.py:486-491 | the core gets the value and every entry loses the key |
| MapReduceConfig.MapReduceStore.SetConfig | mrtandam-ica-code/mr-tandem/mapreduce_helper.py:478-484 | the selected configuration gets the value, and the next lookup returns it |
| MapReduceConfig.MapReduceStore.TidyConfigStack | mrtandam-ica-code/mr-tandem/mapreduce_helper.py:102-131 | the store ends at the tidied state of its old state, and a second tidy changes nothing |
| MapReduceConfig.MapReduceStore.ScrubAndPreserveJobConfig | mrtandam-ica-code/mr-tandem/mapreduce_helper.py:534-553 | the written dictionary has the credentials scrubbed (core) or absent (entry); the core is restored directly |
| MapReduceConfig.MapReduceStore.RestoreDirectly | mrtandam-ica-code/mr-tandem/mapreduce_helper.py:550-551 | every saved pair is written into the core, and the entries are untouched |
| DataStager.UploadVerdict | mrtandam-ica-code/mr-tandem/mapreduce_helper.py:940-1010 | a remote copy is kept iff it matches, written iff it is absent or differs with overwriting allowed, and the upload aborts iff it differs without permission |
| DataStager.RemoteName | mrtandam-ica-code/mr-tandem/mapreduce_helper.py:893-903 | the remote name ends in `.gz` exactly when a gzip copy is sent, and is otherwise the same name |
| DataStager.UploadFile | mrtandam-ica-code/mr-tandem/mapreduce_helper.py:867-1012 | a missing or non-string key is an error and an empty name does nothing, both leaving the store alone; on success the key names the remote copy (the store is one `setConfig` of it), and a write happened iff the verdict says so; an abort means an unreadable file or a refused overwrite, and leaves only the `.gz` rename written |
| DataStager.GetContentsToFilename | mrtandam-ica-code/mr-tandem/mapreduce_helper.py:838-856 | attempts stop at the first non-empty copy and never exceed four, with one sleep between attempts; an outcome where nothing ever raised is told apart |
| BootTransport.ChunksSpec | mrtandam-ica-code/ensemble/src/eca_launch_rmpi.py:105-118 | the chunks concatenate back to the output; each holds 1 to 1024 characters, and all but the last are full |
| BootTransport.StreamChunks | mrtandam-ica-code/ensemble/src/eca_launch_rmpi.py:105-118 | the read loop sends exactly the chunks of the output |
| BootTransport.LogsOnlyTransitive | mrtandam-ica-code/ensemble/src/eca_launch_rmpi.py:66-78 | extending the pipe with log messages only is transitive |
| BootTransport.BootReporter.constructor | mrtandam-ica-code/ensemble/src/eca_launch_rmpi.py:50-65 | a new booter has no success, no retries, nothing sent and no pending repeated message |
| BootTransport.BootReporter.Log | mrtandam-ica-code/ensemble/src/eca_launch_rmpi.py:66-78 | a repeated message is counted rather than sent, a tenth repeat sends the count, and a new message first flushes the pending count |
| BootTransport.LogEffectSpec | mrtandam-ica-code/ensemble/src/eca_launch_rmpi.py:66-78 | a new message is sent at once after a summary of the pending repeats; a repeat is only counted until the tenth, which is sent as a count of ten; the pending count stays in 0..9 and every message is either sent or pending |
| BootTransport.BootReporter.LogMessage | mrtandam-ica-code/ensemble/src/eca_launch_rmpi.py:68-78 | the logging body sends exactly the reports the message rule gives, updates the pending message and count, and sends no status |
| BootTransport.BootReporter.Failed | mrtandam-ica-code/ensemble/src/eca_launch_rmpi.py:130-134 | a failure counts one retry and only logs |
| BootTransport.BootReporter.TryOnce | mrtandam-ica-code/ensemble/src/eca_launch_rmpi.py:81-135 | one attempt succeeds iff it completes, is half-baked iff it fails after starting the job, and otherwise counts a retry |
| BootTransport.BootReporter.Run | mrtandam-ica-code/ensemble/src/eca_launch_rmpi.py:79-140 | the booter finishes iff some attempt completes or fails after starting; the status it sends last is success iff that attempt completed; no status is sent before it |
| LaunchMonitor.HeadSlots | mrtandam-ica-code/ensemble/src/eca_launch_rmpi.py:341-345 | the head slots are kept, or become 2 when the cluster would have no slot at all, so a cluster always has at least one slot |
| LaunchMonitor.Letter | mrtandam-ica-code/ensemble/src/eca_launch_rmpi.py:486-494 | a node shows `R` iff it is running and its booter already reported success |
| LaunchMonitor.Started | mrtandam-ica-code/ensemble/src/eca_launch_rmpi.py:495-501 | a booter is started for exactly those scanned nodes that have just turned running |
| LaunchMonitor.Scan | mrtandam-ica-code/ensemble/src/eca_launch_rmpi.py:480-505 | a scan keeps the cluster shape and node bookkeeping consistent (letters, remembered states, booters for known nodes) |
| LaunchMonitor.DrainOne | mrtandam-ica-code/ensemble/src/eca_launch_rmpi.py:509-519 | reading one booter's pipe adds to the running count exactly the successes before its first failure |
| LaunchMonitor.Step | mrtandam-ica-code/ensemble/src/eca_launch_rmpi.py:480-533 | one round of scanning and draining keeps the cluster consistent |
| LaunchMonitor.Launch | mrtandam-ica-code/ensemble/src/eca_launch_rmpi.py:479-533 | the polling loop exits only once every node reports running |
| LaunchMonitor.LaunchStep | mrtandam-ica-code/ensemble/src/eca_launch_rmpi.py:479-533 | one round of the loop: poll, then exit if all nodes are running, else continue |
| LaunchMonitor.QuietRoundsKeepPolling | mrtandam-ica-code/ensemble/src/eca_launch_rmpi.py:479-533 | a running node whose booter says nothing more never lets the loop exit |
| LaunchMonitor.LaunchAsWrittenNeverExits | mrtandam-ica-code/ensemble/src/eca_launch_rmpi.py:507-533 | after a node reports a boot failure, the loop as written keeps polling for any number of rounds |
| LaunchMonitor.FirstPollOfFailedBoot | mrtandam-ica-code/ensemble/src/eca_launch_rmpi.py:479-516 | the first poll of a one-node cluster starts its booter, and that booter's failure message leaves the node unstarted |
| LaunchMonitor.LaunchStoppingOnFailure | mrtandam-ica-code/ensemble/src/eca_launch_rmpi.py:479-533 | the corrected loop exits when all nodes run or a booter reports failure, and a failure exit is flagged |
| LaunchMonitor.LaunchStoppingOnFailureTearsDown | mrtandam-ica-code/ensemble/src/eca_launch_rmpi.py:507-546 | with the correction, a boot failure ends the loop at once and the teardown follows |
| LaunchMonitor.StoppingOnFailureAgreesWithoutFailures | mrtandam-ica-code/ensemble/src/eca_launch_rmpi.py:479-533 | without failure messages the corrected loop behaves exactly as written |
| LaunchMonitor.LaunchMonitor.constructor | mrtandam-ica-code/ensemble/src/eca_launch_rmpi.py:469-475 | every node starts unknown (`?`), with no state seen, no booter and none running |
| LaunchMonitor.LaunchMonitor.ScanInstances | mrtandam-ica-code/ensemble/src/eca_launch_rmpi.py:480-505 | the scan loop updates letters, remembered states and booters as `Scan` says, stopping after a terminated node |
| LaunchMonitor.LaunchMonitor.DrainBooters | mrtandam-ica-code/ensemble/src/eca_launch_rmpi.py:507-519 | the pipe loop consumes each booter's messages as `Drain` says |
| LaunchMonitor.LaunchMonitor.ReadPipe | mrtandam-ica-code/ensemble/src/eca_launch_rmpi.py:509-519 | one booter's messages are read up to the first failure, each success marking the node `R` and counting it running |
| LaunchMonitor.LaunchMonitor.Poll | mrtandam-ica-code/ensemble/src/eca_launch_rmpi.py:480-533 | one iteration is `Step`, and it reports whether every node is running |
| LaunchMonitor.LaunchMonitor.Run | mrtandam-ica-code/ensemble/src/eca_launch_rmpi.py:479-546 | the loop and the teardown follow `Launch` and `Teardown` |
| NodeSide.Overlay | mrtandam-ica-code/ensemble/src/cluster_infrastructure/start_node.py:336-340 | copying pairs over a dictionary, skipping the omitted keys, gives the right-biased union |
| NodeSide.FlattenConfig | mrtandam-ica-code/ensemble/src/cluster_infrastructure/start_node.py:332-344 | the job list is one dictionary per stack entry (the common keys without `cfgStack`, then the entry's), or the parameters alone |
| NodeSide.FlattenFollowsLauncherRead | mrtandam-ica-code/ensemble/src/cluster_infrastructure/start_node.py:332-344 | each flattened job holds what the launcher's `getConfig` would read for that job from the written core and entries |
| NodeSide.FlattenSingleFollowsLauncherRead | mrtandam-ica-code/ensemble/src/cluster_infrastructure/start_node.py:341-344 | a hand-written parameter file without `cfgStack`, holding one job's keys laid over the core, flattens to one job that reads as the launcher's lookup did |
| NodeSide.Position | mrtandam-ica-code/ensemble/src/cluster_infrastructure/start_node.py:357-360 | the first index holding the id, or the length when it is absent |
| NodeSide.FindLaunchIndex | mrtandam-ica-code/ensemble/src/cluster_infrastructure/start_node.py:354-363 | a spot node's index is its position among the launched instances (none if absent); an on-demand node's index is the metadata index |
| NodeSide.ModeOf | mrtandam-ica-code/ensemble/src/cluster_infrastructure/start_node.py:365-368 | the node is the head iff its launch index is "0" |
| NodeSide.SpotHeadIsListedFirst | mrtandam-ica-code/ensemble/src/cluster_infrastructure/start_node.py:354-368 | a spot node is the head iff it is listed first |
| NodeSide.HeadIsIndexZero | mrtandam-ica-code/ensemble/src/cluster_infrastructure/start_node.py:365-368 | a node whose index is printed in decimal is the head iff the index is 0 |
| NodeSide.MarkerPath | mrtandam-ica-code/ensemble/src/cluster_infrastructure/start_node.py:777 | a client's marker file lies in the shared client-info directory and is named `client_` then its launch index minus one |
| NodeSide.MarkersDistinct | mrtandam-ica-code/ensemble/src/cluster_infrastructure/start_node.py:777 | distinct clients write distinct marker files, and the client with launch index k writes the file the head reads (line 554) for client k-1 |
| NodeSide.FetchWithRetry | mrtandam-ica-code/ensemble/src/cluster_infrastructure/start_node.py:214-254 | at most 20 attempts, stopping at the first verified download (size and etag); each sleep before attempt k+2 lasts between 3+k and 15+k seconds |
| NodeSide.CheckedBucketRead | mrtandam-ica-code/ensemble/src/cluster_infrastructure/start_node.py:203-261 | each name in the `;`-separated list is fetched into the data directory and made readable, and it succeeds iff some attempt verifies |
| NodeSide.AwaitCount | mrtandam-ica-code/ensemble/src/cluster_infrastructure/start_node.py:534-547 | a wait succeeds at the first poll that sees the target, adding 10 seconds per failed poll, and gives up exactly when the total exceeds 600 |
| NodeSide.AwaitClientsReady | mrtandam-ica-code/ensemble/src/cluster_infrastructure/start_node.py:526-547 | the head gives up iff none of the 61 polls in ten minutes sees every client ready |
| NodeSide.PingClients | mrtandam-ica-code/ensemble/src/cluster_infrastructure/start_node.py:571-586 | each client is pinged until it answers, and the waits share the ten-minute budget left after the readiness wait |
| NodeSide.AwaitSshAsWritten | mrtandam-ica-code/ensemble/src/cluster_infrastructure/start_node.py:598-613 | the SSH wait never adds to the total, so with budget left it never gives up |
| NodeSide.AwaitSsh | mrtandam-ica-code/ensemble/src/cluster_infrastructure/start_node.py:598-613 | the corrected SSH wait gives up iff no poll within the remaining budget sees every client |
| NodeSide.HeadSlots | mrtandam-ica-code/ensemble/src/cluster_infrastructure/start_node.py:625-631 | MPICH gets one more slot than asked; Open MPI gets the slots asked, with 1 for a lone single-slot head |
| NodeSide.WriteHostsFile | mrtandam-ica-code/ensemble/src/cluster_infrastructure/start_node.py:618-634 | one line for the head (its stripped address) and one per client, in the Open MPI or MPICH format |
| NodeSide.HostLineRoundTrip | mrtandam-ica-code/ensemble/src/cluster_infrastructure/start_node.py:626-634 | each hosts-file line parses back to its address and slot count |
| NodeSide.Others | mrtandam-ica-code/ensemble/src/cluster_infrastructure/start_node.py:94-100 | the instances to terminate are exactly the listed ones other than this node |
| NodeSide.MyExit | mrtandam-ica-code/ensemble/src/cluster_infrastructure/start_node.py:85-155 | a client only exits; the head terminates the others unless `keepClients` is "True", shuts itself down unless `keepHead` is "True", and exits with the code given |

## Left out

- **Program I/O.** The network, S3, EC2, SSH and subprocess calls (boto, paramiko, `os.system`, `commands`, `wget` of instance metadata) become parameters: outcome sequences, oracle functions or booleans. Reading and writing files is modelled the same way.
- **JSON text.** Parsing and dumping are a `parse` parameter or the dictionary itself. The text re-wrapping of the scrub output (`},{` to `},\n{`) is left out.
- **Values.** JSON numbers, booleans and strings are a small `Value` type, in which `Num(1)`, `Flag(true)` and a float are different values. Python's `==` in the tidy passes treats `1`, `True` and `1.0` as equal, so the model keeps apart, and does not drop or promote, values that the source takes for the same. Floats are not modelled.
- **ASCII.** The node converts each value with `str(val.encode("ascii"))` (start_node.py:328-330). That raises on a non-ASCII value. The model takes the conversion to be the identity and does not model the error.
- `Serialise`: with `cfgNum` >= 0 the source writes the core's pairs, a comma and the whole entry object, as `{core pairs,{entry}}`. That text is not a JSON object, and the node's `json.load` would reject it. The model keeps the core and the one entry as a `Snapshot` and does not model the text. The launcher in eca_launch_rmpi.py passes -1.
- `TryOnce`: the SSH commands an attempt issues (the bootstrap lines and the `echo -n` chunks) are not recorded; an attempt is its outcome. `StreamChunks` models the chunk loop of those lines on its own.
- `LoadCommentedJson`: for a file that lists several existing files, it states only what `LoadFileList` states (see below).
- `getConfigAsRList`, `getConfigAsCommandlineString` and the temporary-file writers are left out: they only render the configuration as text.
- **Aliasing.** The dictionaries `selectConfig` returns are copies here; the source hands out the live dictionary.
- **Cursors.** A negative cursor other than -1 (Python's from-the-end index) is excluded by the store's invariant.
- **Logging.** Logging and console output are left out, including the post-save warning of `setConfig`, the status line, the progress dots, and the booter's stdout/stderr logging in `run`. The messages the booter sends down its pipe are modelled.
- **Floating point.** `calculateSpotBidAsPercentage` and the spot-bid arithmetic are left out.
- **Concurrency.** The booter processes, the lock, the shared pipe and `fileMonitor`'s background loop are left out. Each booter's messages arrive as a per-round inbox.
- **Spot requests.** Polling for spot requests, key pairs, security groups and AMI choice are left out: all of it is EC2 calls.
- **The rest of `myexit`.** The wait for clients to terminate and the upload of results and logs are S3 and EC2 I/O and are left out. Boto's `terminate` versus `stop` is one action here.
- **Directories.** `makedirs` and the `chmod` itself are left out; the files made readable are listed.
- **Launch index.** `FindLaunchIndex`: the metadata launch index is taken to be a canonical decimal number.
- **Numbers.** Slot and node counts are `nat`. The source's `int()` of a malformed string raises, and that is left out.
- **Hadoop.** On the Hadoop branch, `exit -1` in `uploadFile` is modelled as an abort.
- **Sleeps.** `FetchWithRetry`, `AwaitCount`, `GetContentsToFilename`: sleeps are counted, and for the random pause its bounds are recorded. No time passes.
- **Infinite loops.** `Launch` and `Run` follow the launcher's unbounded polling loop over a finite sequence of rounds. Running out of rounds is "still polling", not an exit.
- `LoadFileList`: states only that the stack grows and that a success counts one configuration per name. It does not say what each new job holds, because file contents come from the `readLines` and `parse` parameters and a nested load can push jobs of its own.
- `BootReporter.Run`: the attempts are a finite sequence. The source retries without bound until an attempt finishes.
- `AwaitSshAsWritten`: the as-written wait never ends while clients are missing. It is modelled over a bounded number of rounds.
- `MapReduceConfig.TidyKeepsLookups` requires that no entry holds `None`. With `None` values a tidy can change a lookup (`TidyCanChangeNullLookup`), which the source does not guard against.
- **Loading.** The MapReduce helper's own `load_commented_json` and `load_json_string` are left out. They are the Ensemble loaders without multi-configuration support.

## Findings

| source | as written | input that shows it | evidently intended | confidence | as-written member | corrected member |
|---|---|---|---|---|---|---|
| mrtandam-ica-code/ensemble/src/eca_launch_rmpi.py:506-533 | a `MSG_FAILURE` from a booter only breaks out of the pipe-reading loop; the polling loop goes on waiting for `nRunning` to reach the node count | a one-node cluster whose booter reports failure and then nothing | end the polling loop on a boot failure so that the teardown runs | not executed | LaunchMonitor.LaunchAsWrittenNeverExits | LaunchMonitor.LaunchStoppingOnFailureTearsDown |
| mrtandam-ica-code/ensemble/src/cluster_infrastructure/start_node.py:598-613 | the SSH wait sleeps but never adds to `totalwait`, so its ten-minute test can never newly fire | any cluster where one client never reports SSH success, with less than ten minutes spent before | count the sleep towards `totalwait`, like the two waits before it | not executed | NodeSide.AwaitSshAsWritten | NodeSide.AwaitSsh |
| mrtandam-ica-code/ensemble/src/eca_launch_helper.py:504-506 | on a name collision, every `cfg%d` label is written into the selected (last) configuration, so only that one is renamed | three configurations all named `run.json` | number every configuration so that names become unique | not executed | UniqueNames.RelabelAsWrittenThreeAlike | UniqueNames.RelabelAsIntendedIsDistinct |
| mrtandam-ica-code/mr-tandem/mapreduce_helper.py:669-672 | `filenameToPath` replaces every `__cln__` before any `__sl__`, so a directory named `cln` straddles two slash markers and reads as a colon | the path `/cln/` | decode markers left to right, giving back the path | not executed | TargetPaths.FilenameToPathMisreadsClnDirectory | TargetPaths.DecodeTargetPathRoundTrip |
| mrtandam-ica-code/ensemble/src/eca_launch_helper.py:643-645 | the saved core values are restored with `setCoreConfig`, which also deletes each restored key from every job, so a job's own override of a core key is lost after saving | core `threads` 2, one job with `threads` 8 | write the saved values back into the core only, as the MapReduce helper's copy does | not executed | EnsembleConfig.RestoreAsWrittenExample | EnsembleConfig.RestoreAsIntendedKeepsReads |
