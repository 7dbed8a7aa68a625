# Ingestion bookkeeping of the Lambda-Architecture-AWS scripts

This project models, in Dafny, the three pieces of the pipeline's scripts that do their own
bookkeeping instead of calling AWS:

- **`Scripts/File_Watcher.py`**:
  - `fileInDirectory` keeps the `.csv`/`.txt` names of a directory listing that a fixed regular
    expression accepts;
  - `listComparison` reports the names of a new snapshot missing from the previous one;
  - the polling loop `fileWatcher` hands the first snapshot, and then every non-empty difference,
    to the ingester.
- **`Scripts/Kinesis-to-S3-Streaming.py`**:
  - the rule by which `wait_for_active_kinesis_stream` and `wait_for_active_firehose` poll a
    stream's status until it is `ACTIVE`;
  - the block of `main` that resends, one by one, the records a `put_records` call reports as
    failed.
- **`Scripts/Setup.py`, `ingest_glue_script`**: picks the `glue*.py` scripts of the working
  directory and uploads those not yet present as keys in the bucket.

Directory listings, describe results, `put_records` responses and bucket listings are inputs.
The calls to the ingester and the uploads and resends are outputs, recorded in order.

The modules are:

- `Lists`: filtering, Python's `list.remove`, and subsequences.
- `PathNames`: `os.path.splitext`, and the index-reset suffix filter both ingestion scripts share.
- `NamePattern`: the file-name pattern as a recognizer over split positions, plus a declarative
  reading as a `FileDescriptor` rendered as a prefix of the name.
- `NamePatternProperties`: what the pattern accepts.
- `FileWatcher`, `KinesisStreaming` and `GlueSetup`: one module per script.

The header comment of Scripts/File_Watcher.py:11-16 promises names
`<name>_<source>_<locationcode>_<date>_<time>.<csv|txt>` with an alphabetic name, a `YYYYMMDD`
date and a 24-hour `HHMMSS` time. The pattern at line 32 departs from that comment in several
ways, and the model follows the pattern:

- A name with two suffixes, such as `..._235959.csv.txt`, is accepted, because `re.match` has no
  end anchor.
- Dates may have 6 to 8 characters, since month and day may drop their leading zero.
- A comma passes for a month digit in front of day 29 or 30.
- 29 February 2000 is rejected.
- The time may be 1 to 6 digits.
- The label class `[a-zA-z]` also takes `[ \ ] ^ _` and the backtick.

The resend block of Scripts/Kinesis-to-S3-Streaming.py reads `batch[rec_index]['PartitionKey']`
(line 172), but the batch built at line 146 holds only `Data`. The model reproduces what the code
does rather than supplying a key: the first resend raises `KeyError`, or `IndexError` when the
failed position lies past the batch.

## Model

| member | source | states |
|---|---|---|
| PathNames.SplitExt | Scripts/File_Watcher.py:24 | `splitext` cuts the name into a root and a suffix that concatenate back to it; the suffix is empty or one '.' followed by no '.' and no '/' (when it is empty is stated by `ExtensionNonEmptyIff`) |
| PathNames.ExtensionNonEmptyIff | Scripts/File_Watcher.py:24 | the suffix is non-empty iff the last path component holds a '.' with a non-dot character before it in that component, so leading dots belong to the root |
| PathNames.HiddenNameHasNoExtension | Scripts/File_Watcher.py:24 | a hidden name such as `.csv` or `..txt` (dots, then no '.' and no '/') has an empty suffix |
| PathNames.ExtensionOfSuffixed | Scripts/File_Watcher.py:24 | a name `root.x` whose last component has a non-dot before that dot has suffix `.x` |
| Lists.RemoveFirst | Scripts/File_Watcher.py:27 | `list.remove(x)` of a present `x` drops exactly one element; `RemoveFirstAt` says which |
| Lists.RemoveFirstAt | Scripts/File_Watcher.py:27 | `list.remove(x)` deletes exactly the first occurrence of `x` |
| PathNames.RemoveRejected | Scripts/File_Watcher.py:26-28 | removing the first rejected name the scan meets shortens the list, so the index-reset loop terminates, and leaves the accepted names unchanged |
| PathNames.KeepAcceptedExtensions | Scripts/File_Watcher.py:20-28 | the index-reset loop terminates and leaves exactly the names whose suffix is accepted, in their original order (the same loop is Scripts/Setup.py:130-138 with `.py`) |
| PathNames.AcceptedExtensionMembers | Scripts/File_Watcher.py:21-28 | what the loop leaves is a subsequence of the listing, and a name is in it iff it is listed and its suffix is accepted |
| FileWatcher.Snapshot | Scripts/File_Watcher.py:18-36 | what `fileInDirectory` returns: the listing filtered by suffix, then by the pattern; `SnapshotMembers` states its contents |
| FileWatcher.FileInDirectory | Scripts/File_Watcher.py:18-36 | the extension loop followed by the append loop returns the snapshot of the listing |
| FileWatcher.SnapshotFiltersListing | Scripts/File_Watcher.py:23-34 | the two filters in turn are one filter by "accepted suffix and accepted by the pattern" |
| FileWatcher.SnapshotMembers | Scripts/File_Watcher.py:19-36 | the snapshot is a subsequence of the listing, and holds a name iff it is listed, has a `.csv`/`.txt` suffix and is accepted by the pattern |
| NamePattern.MatchesNamePattern | Scripts/File_Watcher.py:32 | `re.match` of the pattern: for some label end, a non-empty `[a-zA-z]` label is followed by `_SRC_LOC_`, a date, '_', a time, '.' and `txt` or `csv`; its meaning is stated by the lemmas below |
| NamePatternProperties.PatternMeansAcceptedPrefix | Scripts/File_Watcher.py:32 | the pattern accepts a name iff some prefix of it is `label_SRC_LOC_date_time.ext` with each segment valid |
| NamePatternProperties.AcceptedNameShape | Scripts/File_Watcher.py:32 | an accepted name starts with a label over `[a-zA-z]`, '_', three letters, '_', three letters, '_', a date, '_', a time, '.', and `txt` or `csv` |
| NamePatternProperties.AcceptsValidPrefix | Scripts/File_Watcher.py:32 | a name starting with such a rendering is accepted, whatever follows |
| NamePatternProperties.AcceptanceIgnoresSuffix | Scripts/File_Watcher.py:32 | with no end anchor, appending anything to an accepted name keeps it accepted |
| NamePatternProperties.DateShape | Scripts/File_Watcher.py:32 | a date segment is 6 to 8 characters starting with a `20xx` year, made of digits and commas |
| NamePatternProperties.TimeShape | Scripts/File_Watcher.py:32 | a time segment is 1 to 6 digits |
| NamePatternProperties.SixDigitTime | Scripts/File_Watcher.py:32 | a six-digit time is accepted iff HH <= 23, MM <= 59 and SS <= 59 |
| NamePatternProperties.TimeExamples | Scripts/File_Watcher.py:32 | `235959` passes, `245959` fails, and the shorter `5959` and `7` pass |
| NamePatternProperties.ListedLeapYears | Scripts/File_Watcher.py:32 | the leap-year list holds exactly the years of 2000-2099 divisible by 4, except 2000 |
| NamePatternProperties.EightDigitDate | Scripts/File_Watcher.py:32 | an eight-digit date is accepted iff it is a Gregorian calendar day of 2000-2099 other than 29 February 2000 |
| NamePatternProperties.LeapDayExamples | Scripts/File_Watcher.py:32 | `20240229` is accepted; `20230229`, `20220431` and `20220230` are rejected |
| NamePatternProperties.YearTwoThousandExample | Scripts/File_Watcher.py:32 | `20000229` is rejected |
| NamePatternProperties.DateQuirkExamples | Scripts/File_Watcher.py:32 | the seven-character date `2022111` and the date `20220,29` are accepted |
| NamePatternProperties.DigitOrMonthComma | Scripts/File_Watcher.py:32 | every character of an accepted date is a digit, except that the sixth character of an eight-character date may be the comma of a month-day `0,29` or `0,30` |
| NamePatternProperties.CommaInDate | Scripts/File_Watcher.py:32 | a comma in an accepted date is always the sixth character, after a '0', of an eight-character date ending in `29` or `30` |
| NamePatternProperties.ShortFieldsName | Scripts/File_Watcher.py:32 | a one- or two-character month field accepted by the pattern is a month 1 to 12, and such a day field a day 1 to 28, which every month has |
| NamePatternProperties.ShortDateIsCalendarDay | Scripts/File_Watcher.py:32 | a date shorter than eight characters is all digits with a year 2000-2099; at least one cut into month and day is accepted, and every accepted cut names a real calendar day |
| NamePatternProperties.FromTimeDecided | Scripts/File_Watcher.py:32 | for a digit-only time followed by a three-character suffix, the time part matches iff the time and the suffix are valid |
| NamePatternProperties.FromDateDecided | Scripts/File_Watcher.py:32 | likewise from the date on |
| NamePatternProperties.AfterLabelDecided | Scripts/File_Watcher.py:32 | likewise from the first '_' after the label on |
| NamePatternProperties.LabelEndsAtFirstUnderscore | Scripts/File_Watcher.py:32 | in a name rendered from a `Plain` descriptor (a non-empty all-letter label, two three-letter codes, a non-empty all-digit date, an all-digit time and a three-character suffix), the label can end only at its first '_' |
| NamePatternProperties.PlainNameDecided | Scripts/File_Watcher.py:32 | a name rendered from a `Plain` descriptor, followed by anything, is accepted iff the descriptor's segments are valid |
| NamePatternProperties.FlightNameDecided | Scripts/File_Watcher.py:32 | `flight_IND_SGP_<date>_235959.csv` with an eight-digit date is accepted iff the date is |
| NamePatternProperties.LeapDayNameAccepted | Scripts/File_Watcher.py:32 | `flight_IND_SGP_20240229_235959.csv` is accepted |
| NamePatternProperties.LeapDayNameRejected | Scripts/File_Watcher.py:32 | `flight_IND_SGP_20230229_235959.csv` is rejected |
| FileWatcher.DoubleSuffixExtension | Scripts/File_Watcher.py:24-26 | the suffix of `..._235959.csv.txt` is `.txt` |
| FileWatcher.DoubleSuffixMatches | Scripts/File_Watcher.py:32 | the pattern accepts `..._235959.csv.txt` |
| FileWatcher.DoubleSuffixWatched | Scripts/File_Watcher.py:24-34 | so `..._235959.csv.txt` passes both tests of `fileInDirectory` |
| FileWatcher.HiddenFileNotWatched | Scripts/File_Watcher.py:24-28 | a hidden file such as `.csv` has no suffix, so `fileInDirectory` drops it |
| FileWatcher.ListComparison | Scripts/File_Watcher.py:38-40 | a name is in the difference iff it is in the new list and not in the original one, so deleted names never appear |
| FileWatcher.ListComparisonOrder | Scripts/File_Watcher.py:38-40 | the difference keeps the new list's order and every occurrence of each name it keeps |
| FileWatcher.ListComparisonExtremes | Scripts/File_Watcher.py:38-40 | comparing a list with itself gives `[]`; comparing with `[]` gives the list |
| FileWatcher.Tick | Scripts/File_Watcher.py:44-59 | one pass of the loop as a step between the first-run and watching states, returning the next state and the list dispatched, if any; `TickMeaning` states it |
| FileWatcher.TickMeaning | Scripts/File_Watcher.py:44-59 | the first pass dispatches its whole snapshot, even an empty one; every pass stores the new snapshot; a later pass dispatches nothing iff no name is new, and otherwise the very list `listComparison` returns for the previous and new snapshots, so it holds exactly the new names, in the new snapshot's order and with their repeats (`ListComparisonOrder`) |
| FileWatcher.Watch | Scripts/File_Watcher.py:42-59 | after polls the state stores the last snapshot, and the first dispatch is the first snapshot |
| FileWatcher.FileWatcher | Scripts/File_Watcher.py:42-59 | the loop dispatches, in order, what the fold of passes over the snapshots of the listings dispatches, and ends storing the last snapshot |
| FileWatcher.LaterDispatchesNonEmpty | Scripts/File_Watcher.py:58-59 | every dispatch after the first is non-empty |
| FileWatcher.DispatchesGrow | Scripts/File_Watcher.py:53-59 | one more poll only appends to the dispatches |
| FileWatcher.NewNameDispatchedLast | Scripts/File_Watcher.py:53-59 | a name in the latest snapshot but not the one before is in the latest dispatch |
| FileWatcher.WatchCoverage | Scripts/File_Watcher.py:42-59 | every name any snapshot holds is dispatched at some point |
| FileWatcher.WatchSoundness | Scripts/File_Watcher.py:42-59 | every dispatched name was in some snapshot |
| FileWatcher.StayingNameDispatchedOnce | Scripts/File_Watcher.py:42-59 | a name present in every snapshot is dispatched with the first batch and never again |
| KinesisStreaming.WaitRule | Scripts/Kinesis-to-S3-Streaming.py:34-47 | the decision rule both wait functions share, over the describe results in order; it never counts more polls than results; `WaitRuleMeaning` states what it decides |
| KinesisStreaming.WaitRuleMeaning | Scripts/Kinesis-to-S3-Streaming.py:34-47 | polling stops at the first describe error, `ACTIVE` or `DELETING`, which decides the outcome; without one every result is read and the outcome stays open |
| KinesisStreaming.ActiveIffActiveFirst | Scripts/Kinesis-to-S3-Streaming.py:34-47 | the function returns `True` iff an `ACTIVE` status comes before any `DELETING` status or describe error |
| KinesisStreaming.WaitRuleDecides | Scripts/Kinesis-to-S3-Streaming.py:37-46 | a describe error or `DELETING` returns `False` and `ACTIVE` returns `True`, on that poll |
| KinesisStreaming.WaitRuleSkip | Scripts/Kinesis-to-S3-Streaming.py:41-47 | any other status costs one poll and leaves the decision to the later results |
| KinesisStreaming.WaitUntilActive | Scripts/Kinesis-to-S3-Streaming.py:34-47 | the polling loop returns the rule's outcome and poll count, having slept once between each two polls |
| KinesisStreaming.WaitForActiveKinesisStream | Scripts/Kinesis-to-S3-Streaming.py:25-47 | the Kinesis wait applies the rule with 5-second sleeps |
| KinesisStreaming.WaitForActiveFirehose | Scripts/Kinesis-to-S3-Streaming.py:65-87 | the Firehose wait applies the same rule with 2-second sleeps |
| KinesisStreaming.WaitExamples | Scripts/Kinesis-to-S3-Streaming.py:34-47 | `[CREATING, CREATING, ACTIVE]` gives `True` after 3 polls; `[CREATING, DELETING]` gives `False` after 2; an error gives `False` |
| KinesisStreaming.BatchFromLines | Scripts/Kinesis-to-S3-Streaming.py:146 | the batch has one entry per line read, holding that line as `Data` and no `PartitionKey` |
| KinesisStreaming.FailedPositionsMeaning | Scripts/Kinesis-to-S3-Streaming.py:167-168 | the failed positions are exactly the records carrying an `ErrorCode`, ascending |
| KinesisStreaming.Targets | Scripts/Kinesis-to-S3-Streaming.py:163-177 | the positions the counter lets through are the first `FailedRecordCount` failed positions, or all of them |
| KinesisStreaming.Attempt | Scripts/Kinesis-to-S3-Streaming.py:167-178 | resending the targets one by one, stopping at the first missing or key-less entry; never more resends than targets; `AttemptMeaning` states it |
| KinesisStreaming.AttemptMeaning | Scripts/Kinesis-to-S3-Streaming.py:167-178 | resends are a prefix of the targets, each with its batch entry's data and key; the block finishes iff all are resent, and otherwise raises `IndexError` or `KeyError` on the first target past the batch or without a key |
| KinesisStreaming.ResendPlan | Scripts/Kinesis-to-S3-Streaming.py:148-178 | the block's outcome: a `ClientError` from `put_records` exits, otherwise the targets are attempted; the lemmas below state it |
| KinesisStreaming.ResendFailedRecords | Scripts/Kinesis-to-S3-Streaming.py:148-178 | the counted scan resends and halts exactly as the plan over the targets says, and a `ClientError` from `put_records` exits |
| KinesisStreaming.NothingFailedNothingResent | Scripts/Kinesis-to-S3-Streaming.py:156-163 | a `FailedRecordCount` of 0 resends nothing |
| KinesisStreaming.ResentAreFailedRecords | Scripts/Kinesis-to-S3-Streaming.py:166-178 | at most `FailedRecordCount` resends, all of `ErrorCode` records, in ascending order, each with the data and key of the batch entry at the same position |
| KinesisStreaming.CountCoveringFailuresResendsEach | Scripts/Kinesis-to-S3-Streaming.py:166-178 | with keyed entries covering the records and a count at least the number of failures, every failed record is resent once, in order, and the block finishes |
| KinesisStreaming.LowCountSkipsLaterFailures | Scripts/Kinesis-to-S3-Streaming.py:174-177 | with a smaller count, no record from the first failure past the count on is resent |
| KinesisStreaming.UnkeyedBatchNeverResends | Scripts/Kinesis-to-S3-Streaming.py:146-172 | with the batch `main` builds nothing is resent; the block finishes iff the count is 0 or nothing failed, and otherwise raises `IndexError` or `KeyError` on the first failed record |
| GlueSetup.MatchesGluePattern | Scripts/Setup.py:142 | `re.match(r'glue.*\.py$')`: `glue`, characters other than a newline, `.py`, then the end or a final newline; `PyNameMatches` states it for `.py` names |
| GlueSetup.PyNameMatches | Scripts/Setup.py:142 | a `.py` name is accepted iff it starts with `glue`, is at least `glue.py` long and holds no newline between the two |
| GlueSetup.GluePatternExamples | Scripts/Setup.py:142 | `glue_transform.py` and `glue.py` match; `my_glue.py` and `glue_transform.pyc` do not; `$` also matches before a final newline |
| GlueSetup.NewlineNameNotCandidate | Scripts/Setup.py:134-144 | no name ending in a newline has suffix `.py`, so none is a candidate, even where `$` lets the pattern match |
| GlueSetup.NewlineGlueNameExample | Scripts/Setup.py:134-144 | `glue_job.py` followed by a newline passes the pattern but is no candidate |
| GlueSetup.CandidatesOfListing | Scripts/Setup.py:129-144 | `finalFiles` is a subsequence of the listing, holding a name iff it has suffix `.py` and matches the pattern |
| GlueSetup.KeepGlueNames | Scripts/Setup.py:140-144 | the append loop keeps the names the pattern accepts, in order |
| GlueSetup.Keys | Scripts/Setup.py:152-154 | `filesInBucket` is the `Key` of every listed object, in order |
| GlueSetup.BucketKeys | Scripts/Setup.py:152-154 | the collection loop builds exactly those keys |
| GlueSetup.UploadMissing | Scripts/Setup.py:156-164 | the upload loop uploads, in order, exactly the names not among the keys |
| GlueSetup.IngestPlan | Scripts/Setup.py:128-164 | what the function does: `KeyError` without `Contents`, otherwise one upload per missing candidate; the lemmas below state it |
| GlueSetup.IngestGlueScript | Scripts/Setup.py:128-164 | the function's three loops together make the uploads of the plan, or fail on a missing `Contents` |
| GlueSetup.EmptyBucketRaises | Scripts/Setup.py:149-150 | a listing without `Contents` raises `KeyError` before any upload |
| GlueSetup.UploadsAreMissingCandidates | Scripts/Setup.py:156-164 | there is one upload per missing candidate, in order, and the upload of `name` sends `cwd/name` to the bucket under the key `name` |
| GlueSetup.MissingCandidatesMembers | Scripts/Setup.py:156-164 | a name is uploaded iff it is listed, is a candidate and is not a key in the bucket |
| GlueSetup.MissingCandidatesOrder | Scripts/Setup.py:140-164 | uploads keep listing order |
| GlueSetup.MissingCandidatesCount | Scripts/Setup.py:156-164 | a name already in the bucket is never uploaded; a missing candidate is uploaded as often as it is listed |
| GlueSetup.MissingCandidatesOnce | Scripts/Setup.py:156-164 | in a listing without repeats, each missing candidate is uploaded exactly once |

## Left out

- Directory access is left out: `listdir`, `isfile`, `os.curdir` and `os.getcwd`. The model takes
  the names of the regular files and the working directory as inputs.
- `time.sleep` is not modelled; the wait model counts the seconds slept instead.
- The endless `while True` loops are not modelled. `fileWatcher` runs for as many polls as it is
  given listings.
- The wait functions read a finite sequence of describe results. When the sequence runs out
  before a decisive result, the model reports `StillWaiting` where the source would poll on.
- Every boto3 call is replaced by its result or by a recorded effect: `describe_*`,
  `put_records`, `put_record`, `list_objects` and `upload_file`.
- `ClientError`s raised by `put_record`, `list_objects` and `upload_file` are not modelled. Only
  the describe errors and the `put_records` error are.
- `list_objects` pagination is not modelled; one response is taken as the whole bucket.
- `File_Ingester.DataIngester` is not part of this model. Its calls are recorded as the dispatched
  lists.
- The ingester is assumed neither to change the list it is given nor to raise. On the first pass
  (Scripts/File_Watcher.py:45-48) the list handed to `DataIngester` is the very object kept as
  `previousFileList` and compared at line 55, so a change to it would alter the next difference.
  An exception from the ingester would end `fileWatcher`, which the model does not capture.
- `Run_Crawler` and `Run_Glue_Job` are thin service wrappers and are left out.
- The rest of `main` is left out: the 1000-record `put_record` loop, reading the data file, and a
  `StopIteration` when the file has fewer lines.
- Every resource-provisioning function of `Scripts/Setup.py` is left out.
- Logging and `print` output are left out.
- `\d` is taken as an ASCII digit; Python 3 also matches other Unicode decimal digits.
- The look-around assertions `(?<!\d)` and `(?!\d)` are not modelled. They always hold, since the
  date sits between two '_'.
- FileWatcher.FileWatcher: the source's `continue` on an empty difference is written as a guard
  around the dispatch, which has the same effect on the pass.
