# Duplicates: file search and duplicate grouping, in Dafny

This project models the engine of the Duplicates desktop tool: a Swing application that looks for files and for duplicate files in chosen folders. The model covers three parts.

- **The duplicate search** (`DuplicateSearchController`) runs six steps:
  1. It collects the regular files under the selected folders, depth first.
  2. It removes files outside the length bounds.
  3. It removes files that fail the creation or modification date conditions.
  4. It buckets the survivors by exact length.
  5. It hashes only buckets of two or more files and re-buckets them by MD5 hex string.
  6. It reports every hash bucket of more than one file under group numbers 1, 2, 3, …, and reports progress as it goes.
- **The plain file search** (`FileSearchController`) has three parts:
  - a walk over the folder tree with an explicit stack;
  - a counting walk that supplies the progress total;
  - the filter `matchesOptions`, which checks size, extension allow-list, name fragment and dates, and rejects on any failure.
- **The supporting classes:**
  - the per-file records `DuplicateSearchModel` and `FileSearchModel`, including extension extraction, the lazily computed hash and the `"ERROR"` sentinel;
  - `DuplicateGroup` and `CheckBoxNode`;
  - the two option records;
  - the text helpers of the option dialogs: `splitExtentionString`, `isDateBlank`, `normalizeDateString` and the date part of `toModel`;
  - the helpers of the file properties window: `isMediaFile`, `looksBoolean`, `parseBoolean`, and the grouping loop of `createMetadataTab`.

## How the environment is modelled

- **The file system** is a snapshot tree (`FileSystem.Entry`):
  - A regular file carries its path, name, parent, length in bytes, its content (`None` when it cannot be opened) and its dates (`None` when its attributes cannot be read).
  - A directory may be unlistable.
  - A selected root that does not exist is `None`.
- **MD5 (RFC 1321)** is a parameter `md5: seq<byte> -> seq<byte>`. The model never computes it.
- **Cancellation** is an oracle. `requests(n)` says whether `cancel()` has been called by the n-th time the flag is read. The flag is read exactly where the source reads it, and it stays set.
- **`System.nanoTime`** is an oracle `clock(n)`, indexed by the number of readings.
- **Callbacks.** The result and progress consumers are the `found` and `progress` sequences of the controller objects.
- **Java strings** are sequences of characters. Case conversion and digit tests are ASCII.
- **Java's `HashMap`** is modelled as listing its keys in first-insertion order (`Grouping.Buckets`). Java itself iterates by bucket index. The model's exact report, the order of its groups and the number each group gets therefore follow the assumed order, and so does the prefix a cancelled search has reported. The contents of each group, the coverage of every duplicated file and consecutive numbering from 1 with each group one run do not depend on it (`DuplicateGrouping.GroupsAreClasses`, `DuplicateGrouping.GroupsCoverDuplicates`, `DuplicateGrouping.ReportNumbering`).
- **The size bounds** are whole numbers.
  - The plain search divides the length by 2^20 before comparing. That division is exact, so the model compares bytes with the bound times 2^20 (`FileSearchFilter.SizeInMegabytes`).
  - The duplicate search compares the raw byte length with the bound as it is, at `DuplicateSearchController.java:43-45`. The design description of the tool reads both bounds as megabytes. The model follows the code. For example, with a minimum of 1, two equal 5-byte files still form a group. `FileSearchFilter.SizeFiltersScale` states how the two filters relate.
- **The plain search's percentage**, `Math.floor((current * 100.0) / total)`, equals the integer quotient for `int` operands, so `Progress.Percent` models it exactly.
- **The two `splitExtentionString` methods**, in `DuplicateSearchOptionFrame.java:356-365` and `FileSearchOptionFrame.java:200-213`, are the same pipeline. One function models both.

## Model

| member | source | states |
|---|---|---|
| `DuplicateSearch.DuplicateSearchController.SearchDuplicates` | Duplicates/src/duplicates/controller/DuplicateSearchController.java:29-139 | A search that runs to the end reports exactly the duplicate groups of the files that pass the options, members of a group consecutively, groups numbered 1, 2, … in first-insertion order of lengths and hashes. A cancelled search reports a prefix of that. Progress never goes down, stays within 0..100, and ends at 100 when any file survived the filters. |
| `DuplicateSearch.DuplicateSearchController.constructor` | Duplicates/src/duplicates/controller/DuplicateSearchController.java:19 | A new controller is not cancelled and has reported nothing. |
| `DuplicateSearch.DuplicateSearchController.Cancel` | Duplicates/src/duplicates/controller/DuplicateSearchController.java:144-146 | After cancel() the flag is set. |
| `DuplicateSearch.DuplicateSearchController.Poll` | Duplicates/src/duplicates/controller/DuplicateSearchController.java:102 | A read of the flag sees it set exactly when it was already set or a cancel request has arrived, and it stays set. |
| `DuplicateSearch.DuplicateSearchController.UpdateProgress` | Duplicates/src/duplicates/controller/DuplicateSearchController.java:176-181 | Progress is reported only when total > 0, as the percentage of processed files. |
| `DuplicateSearch.DuplicateSearchController.CollectRecursive` | Duplicates/src/duplicates/controller/DuplicateSearchController.java:162-174 | The files of a folder are appended depth first. Subfolders are entered only when requested, and an unlistable folder adds nothing. A cancelled collection appends a prefix of them. |
| `DuplicateSearch.DuplicateSearchController.CollectFiles` | Duplicates/src/duplicates/controller/DuplicateSearchController.java:150-160 | The result is the files of every existing directory root, root after root, and a missing or non-directory root adds nothing. A cancelled collection yields a prefix of them. |
| `DuplicateSearch.DuplicateSearchController.RemoveBySize` | Duplicates/src/duplicates/controller/DuplicateSearchController.java:40-48 | Unless cancelled, exactly the files whose raw length is within the positive bounds remain, in order. A flag set before the pass removes every file. A flag first seen mid-pass keeps the verdicts already made and removes the rest, so the kept list is always a prefix of the full filter. |
| `DuplicateSearch.DuplicateSearchController.RemoveByDate` | Duplicates/src/duplicates/controller/DuplicateSearchController.java:51-92 | Unless cancelled, exactly the files that meet both date conditions remain, in order. A flag set before the pass removes every file. A flag first seen mid-pass keeps the verdicts already made and removes the rest, so the kept list is always a prefix of the full filter. |
| `DuplicateSearch.DuplicateSearchController.CollectSurvivors` | Duplicates/src/duplicates/controller/DuplicateSearchController.java:34-92 | Unless cancelled, the survivors are the collected files that pass the length and date conditions. A length pass with both bounds 0, or a date pass with no date set, is skipped. |
| `DuplicateSearch.DuplicateSearchController.BucketBySize` | Duplicates/src/duplicates/controller/DuplicateSearchController.java:100-104 | Unless stopped, the buckets are the grouping of the files by exact length. |
| `DuplicateSearch.DuplicateSearchController.HashFile` | Duplicates/src/duplicates/controller/DuplicateSearchController.java:119-120 | Each file gets a fresh record, and its hash is the hex MD5 of its content or "ERROR". |
| `DuplicateSearch.DuplicateSearchController.HashNext` | Duplicates/src/duplicates/controller/DuplicateSearchController.java:117-124 | One turn of the hashing loop: after a check of the flag, the file joins the list of its hash and is counted in the progress. |
| `DuplicateSearch.DuplicateSearchController.HashBucket` | Duplicates/src/duplicates/controller/DuplicateSearchController.java:116-124 | Unless stopped, the hash buckets are the grouping of the bucket by hash string, and every file is counted once. The processed count never passes the bucket's size. |
| `DuplicateSearch.DuplicateSearchController.EmitGroup` | Duplicates/src/duplicates/controller/DuplicateSearchController.java:131-134 | The members of one group are reported in order, all with the same number. A raised flag stops after the member in flight, leaving a prefix. |
| `DuplicateSearch.DuplicateSearchController.EmitNext` | Duplicates/src/duplicates/controller/DuplicateSearchController.java:127-137 | One hash bucket after the ones before it: a bucket of more than one file is reported under the next number, which then goes up by one. A smaller bucket reports nothing. |
| `DuplicateSearch.DuplicateSearchController.EmitBucket` | Duplicates/src/duplicates/controller/DuplicateSearchController.java:130-136 | Reporting one group keeps the whole report a prefix of all groups. |
| `DuplicateSearch.DuplicateSearchController.EmitGroups` | Duplicates/src/duplicates/controller/DuplicateSearchController.java:127-137 | A length bucket's hash buckets of more than one file are reported under consecutive numbers from the current one, and the next number is returned. |
| `DuplicateSearch.DuplicateSearchController.ReportBucket` | Duplicates/src/duplicates/controller/DuplicateSearchController.java:107-137 | A length bucket of one file is only counted and never hashed. A larger one is hashed and its groups reported. Progress keeps rising. |
| `DuplicateSearch.DuplicateSearchController.ReportNext` | Duplicates/src/duplicates/controller/DuplicateSearchController.java:107-108 | One turn of the loop over the length buckets: a raised flag stops it before the bucket. Otherwise the report grows by that bucket's groups. |
| `DuplicateSearch.DuplicateSearchController.ReportAfter` | Duplicates/src/duplicates/controller/DuplicateSearchController.java:109-137 | Reporting a length bucket after the ones before it keeps the report a prefix of the full report and progress within 0..100. |
| `DuplicateSearch.DuplicateSearchController.ReportSizeGroups` | Duplicates/src/duplicates/controller/DuplicateSearchController.java:107-138 | Step 5 reports the groups of all length buckets, numbered from 1 (a prefix when cancelled). Progress rises to 100. |
| `DuplicateSearch.DuplicateSearchController.ReportFiles` | Duplicates/src/duplicates/controller/DuplicateSearchController.java:95-138 | Steps 4 and 5 report the duplicate groups of the surviving files (a prefix when cancelled). A search cancelled earlier reports nothing. |
| `DuplicateSearch.Reports` | Duplicates/src/duplicates/controller/DuplicateSearchController.java:122-123 | One report per counted file, none when the total is 0. |
| `DuplicateSearch.ReportsRise` | Duplicates/src/duplicates/controller/DuplicateSearchController.java:111-123 | The reports of a counting run never go down and end at the percentage reached. |
| `DuplicateSearch.ReportedSoFar` | Duplicates/src/duplicates/controller/DuplicateSearchController.java:107-108 | What a search stopped between length buckets has reported is a prefix of the whole report, and its progress stays within 100 %. |
| `DuplicateSearch.SizeBucketsCover` | Duplicates/src/duplicates/controller/DuplicateSearchController.java:95-104 | Length buckets are never empty and hold every survivor once, so processed never exceeds total. |
| `DuplicateGrouping.SurvivorsExactly` | Duplicates/src/duplicates/controller/DuplicateSearchController.java:40-92 | A file survives iff it was collected and passes the raw-byte length condition and both date conditions. |
| `DuplicateGrouping.SizePassIdle` | Duplicates/src/duplicates/controller/DuplicateSearchController.java:40 | With both bounds 0 the length pass would remove nothing, so skipping it changes nothing. |
| `DuplicateGrouping.DatePassIdle` | Duplicates/src/duplicates/controller/DuplicateSearchController.java:51 | With no filter date set the date pass would remove nothing. |
| `DuplicateGrouping.MoreThanOne` | Duplicates/src/duplicates/controller/DuplicateSearchController.java:130 | Only buckets of more than one file are kept, in order. |
| `DuplicateGrouping.BucketGroups` | Duplicates/src/duplicates/controller/DuplicateSearchController.java:110-137 | A length bucket contributes only groups of two or more files. |
| `DuplicateGrouping.AllGroups` | Duplicates/src/duplicates/controller/DuplicateSearchController.java:107-138 | No reported group is a singleton. |
| `DuplicateGrouping.Numbered` | Duplicates/src/duplicates/controller/DuplicateSearchController.java:131-132 | Every member of a group is reported with the group's number, in member order. |
| `DuplicateGrouping.SizeBucketsAreSelections` | Duplicates/src/duplicates/controller/DuplicateSearchController.java:100-104 | Each length bucket is exactly the survivors of one length, in order. |
| `DuplicateGrouping.HashBucketsAreSelections` | Duplicates/src/duplicates/controller/DuplicateSearchController.java:116-121 | Each hash bucket is exactly the files of the length bucket with one hash string, in order. |
| `DuplicateGrouping.BucketIsClass` | Duplicates/src/duplicates/controller/DuplicateSearchController.java:100-121 | A hash bucket of a length bucket is exactly the class of each of its members: all survivors with the same length and hash. |
| `DuplicateGrouping.GroupsAreClasses` | Duplicates/src/duplicates/controller/DuplicateSearchController.java:100-137 | Every reported group has at least two members and is exactly the list of survivors with its first member's length and hash string, in order. |
| `DuplicateGrouping.GroupMembersAreDuplicates` | Duplicates/src/duplicates/controller/DuplicateSearchController.java:116-130 | The members of a group share a length. Either all are unreadable (all "ERROR") or all have the same MD5 digest. |
| `DuplicateGrouping.MoreThanOneIsFilter` | Duplicates/src/duplicates/controller/DuplicateSearchController.java:127-130 | When each bucket is a whole class, keeping buckets of more than one file keeps exactly the duplicated files. |
| `DuplicateGrouping.SingleBucketNotDuplicated` | Duplicates/src/duplicates/controller/DuplicateSearchController.java:110-114 | A length bucket of one file holds no duplicated file, so skipping its hash loses nothing. |
| `DuplicateGrouping.LargeBucketGroups` | Duplicates/src/duplicates/controller/DuplicateSearchController.java:116-137 | The groups of a bucket of two or more are its duplicated files, in hash-bucket order. |
| `DuplicateGrouping.BucketGroupsCount` | Duplicates/src/duplicates/controller/DuplicateSearchController.java:110-137 | A length bucket contributes each duplicated file as often as it occurs in the bucket, and no other file. |
| `DuplicateGrouping.AllGroupsCount` | Duplicates/src/duplicates/controller/DuplicateSearchController.java:107-138 | Over all length buckets, each duplicated file is reported as often as it occurs, and no other file. |
| `DuplicateGrouping.GroupsCoverDuplicates` | Duplicates/src/duplicates/controller/DuplicateSearchController.java:100-138 | The groups hold every survivor whose class has two or more members, exactly as often as it was collected, and no other file. No false negatives and no false positives up to the hash string. |
| `DuplicateGrouping.TagFiles` | Duplicates/src/duplicates/controller/DuplicateSearchController.java:127-137 | The reported files, in order, are the groups laid end to end. |
| `DuplicateGrouping.TagSteps` | Duplicates/src/duplicates/controller/DuplicateSearchController.java:130-136 | Group numbers run from the first number up by at most one from one reported file to the next, and end at the last group's number. |
| `DuplicateGrouping.TagRuns` | Duplicates/src/duplicates/controller/DuplicateSearchController.java:130-136 | Group j is reported as one consecutive run of its members, all with number first + j. |
| `DuplicateGrouping.ReportNumbering` | Duplicates/src/duplicates/controller/DuplicateSearchController.java:97-137 | A completed search numbers its groups 1..n without gaps, and reports group j as one run of its members numbered j + 1. |
| `FileSystem.DateTrichotomy` | Duplicates/src/duplicates/controller/DuplicateSearchController.java:58-72 | For two dates exactly one of isBefore, equals, isAfter holds. |
| `FileSystem.CollectListAppend` | Duplicates/src/duplicates/controller/DuplicateSearchController.java:166-173 | Collecting a listing collects its parts one after the other. |
| `FileSystem.CollectListSplit` | Duplicates/src/duplicates/controller/DuplicateSearchController.java:162-174 | A listing's recursive collection is its own files plus what its subfolders contribute (as multisets). |
| `FileSystem.PopShrinks` | Duplicates/src/duplicates/controller/FileSearchController.java:119-133 | Popping a folder and pushing its subfolders strictly shrinks the stack's size, so the walk ends. |
| `FileSystem.WalkCollectsSameFiles` | Duplicates/src/duplicates/controller/FileSearchController.java:105-147 | The explicit-stack walk visits exactly the files the recursive collection gathers from the same folders, each as often, in another order. |
| `FileSystem.WalkRootsMatchesCollectRoots` | Duplicates/src/duplicates/controller/FileSearchController.java:80-97 | Over the selected roots, the plain search and the duplicate search find the same files. |
| `Grouping.GroupByValid` | Duplicates/src/duplicates/controller/DuplicateSearchController.java:100-104 | The keys of the map are listed once each. |
| `Grouping.GroupBySelects` | Duplicates/src/duplicates/controller/DuplicateSearchController.java:100-104 | The bucket of k is exactly the elements with key k, in order. There is a bucket for k iff some element has key k. |
| `Grouping.GroupByIsPartition` | Duplicates/src/duplicates/controller/DuplicateSearchController.java:101-104 | Every element lands in exactly one bucket: the buckets laid end to end are a permutation of the input. |
| `Grouping.BucketMembers` | Duplicates/src/duplicates/controller/DuplicateSearchController.java:103 | An element is in the bucket of its key, and everything in that bucket has the same key. |
| `Grouping.Values` | Duplicates/src/duplicates/controller/DuplicateSearchController.java:107 | values() lists one bucket per key, in key order. |
| `Grouping.ValuesOfAdd` | Duplicates/src/duplicates/controller/DuplicateSearchController.java:103 | computeIfAbsent(k).add(x) with a new key appends a bucket [x]. With an existing key it appends x to that key's bucket and leaves the rest alone. |
| `Grouping.SelectTwice` | Duplicates/src/duplicates/controller/DuplicateSearchController.java:116-121 | Bucketing a length bucket by hash selects by length and hash at once. |
| `Grouping.Filter` | Duplicates/src/duplicates/controller/DuplicateSearchController.java:41-47 | removeIf leaves only elements that satisfy the kept condition. |
| `Grouping.FilterCount` | Duplicates/src/duplicates/controller/DuplicateSearchController.java:41-47 | removeIf keeps every satisfying copy and no other. |
| `Grouping.FilterMembers` | Duplicates/src/duplicates/controller/DuplicateSearchController.java:52-91 | An element is kept iff it was there and satisfies the condition. |
| `Progress.QuotientBounds` | Duplicates/src/duplicates/controller/FileSearchController.java:279 | The quotient is the floor of the division: q·d ≤ n < q·d + d. |
| `Progress.QuotientIsDivision` | Duplicates/src/duplicates/controller/FileSearchController.java:279 | The quotient is integer division on non-negative operands. |
| `Progress.QuotientMonotone` | Duplicates/src/duplicates/controller/FileSearchController.java:279 | The quotient grows with the dividend. |
| `Progress.PercentMonotone` | Duplicates/src/duplicates/controller/FileSearchController.java:279 | Percentages grow with the count, stay at most 100 up to the total, and are exactly 100 at the total. |
| `Progress.ProgressGrows` | Duplicates/src/duplicates/controller/DuplicateSearchController.java:176-181 | A further report at a larger count keeps the reports rising and within bounds. |
| `FileSearch.FileSearchController.SearchFiles` | Duplicates/src/duplicates/controller/FileSearchController.java:64-102 | Unless cancelled, the results are exactly the records of the walked files that matchesOptions accepts, in walking order, and the counter ends at the total. A cancelled search reports a prefix of them. Progress never goes down, stays within 0..100, starts at 0 and ends at 100 unless cancelled. |
| `FileSearch.FileSearchController.SearchFilesAsync` | Duplicates/src/duplicates/controller/FileSearchController.java:38-44 | The flag is reset and searchFiles runs, with the same results and progress guarantees. |
| `FileSearch.FileSearchController.Search` | Duplicates/src/duplicates/controller/FileSearchController.java:69-101 | The same as SearchFiles, for any filter. |
| `FileSearch.FileSearchController.Prepare` | Duplicates/src/duplicates/controller/FileSearchController.java:69-77 | The flag is reset and the files are counted. 0 % is shown first when there are any files. |
| `FileSearch.FileSearchController.ShowDone` | Duplicates/src/duplicates/controller/FileSearchController.java:99-101 | 100 % is shown at the end exactly when the flag is not seen. |
| `FileSearch.FileSearchController.constructor` | Duplicates/src/duplicates/controller/FileSearchController.java:27 | A new controller is not cancelled and has reported nothing. |
| `FileSearch.FileSearchController.Cancel` | Duplicates/src/duplicates/controller/FileSearchController.java:47-49 | After cancel() the flag is set. |
| `FileSearch.FileSearchController.Poll` | Duplicates/src/duplicates/controller/FileSearchController.java:119 | A read of the flag sees it set exactly when it was already set or a request has arrived, and it stays set. |
| `FileSearch.FileSearchController.UpdateProgress` | Duplicates/src/duplicates/controller/FileSearchController.java:270-289 | Nothing without a total. Otherwise the percentage is shown when forced, when it changed, or when 50 ms have passed, and the next deadline moves 50 ms on. Either way the display shows the current percentage. |
| `FileSearch.FileSearchController.CountAndReport` | Duplicates/src/duplicates/controller/FileSearchController.java:136-140 | The counter goes up by one, and an accepted file's record is reported. |
| `FileSearch.FileSearchController.VisitFile` | Duplicates/src/duplicates/controller/FileSearchController.java:135-144 | A visited file is counted once, reported when it passes the filter, and progress keeps rising. |
| `FileSearch.FileSearchController.ProcessEntry` | Duplicates/src/duplicates/controller/FileSearchController.java:128-144 | A subfolder is pushed only when subfolders are included, a regular file is visited, and anything else is skipped. |
| `FileSearch.FileSearchController.TakeEntry` | Duplicates/src/duplicates/controller/FileSearchController.java:125-145 | One entry extends the stack and the visited files from those of the entries before it. |
| `FileSearch.FileSearchController.ProcessEntries` | Duplicates/src/duplicates/controller/FileSearchController.java:125-145 | A listing's files are visited in order (a prefix when the flag is seen before an entry) and its subfolders are pushed. |
| `FileSearch.FileSearchController.PopAndProcess` | Duplicates/src/duplicates/controller/FileSearchController.java:118-146 | One turn of the walk: the files visited plus the walk from the new stack make up the walk from the old one, and the stack shrinks. |
| `FileSearch.FileSearchController.CollectAndProcess` | Duplicates/src/duplicates/controller/FileSearchController.java:105-147 | The walk from one root visits every reachable regular file once (a prefix when cancelled). Each visited file is counted once and reported iff it passes the filter. |
| `FileSearch.FileSearchController.WalkNext` | Duplicates/src/duplicates/controller/FileSearchController.java:80-97 | One root of the loop: after a check of the flag, an existing directory root is walked. |
| `FileSearch.FileSearchController.WalkAllRoots` | Duplicates/src/duplicates/controller/FileSearchController.java:80-97 | All roots are walked in order, missing or non-directory roots skipped (a prefix when cancelled). |
| `FileSearch.FileSearchController.CountEntries` | Duplicates/src/duplicates/controller/FileSearchController.java:167-176 | A listing counts its regular files and pushes its subfolders when asked. |
| `FileSearch.FileSearchController.CountStep` | Duplicates/src/duplicates/controller/FileSearchController.java:160-177 | One turn of the counting loop: the count plus the count from the new stack is the size of the walk from the old one. |
| `FileSearch.FileSearchController.CountTree` | Duplicates/src/duplicates/controller/FileSearchController.java:156-178 | The counting walk over one root counts exactly the files the visiting walk visits. |
| `FileSearch.FileSearchController.CountFiles` | Duplicates/src/duplicates/controller/FileSearchController.java:150-181 | Unless cancelled, the total is the number of files the search walk visits. A cancelled count is no larger. |
| `FileSearch.HitsAreMatches` | Duplicates/src/duplicates/controller/FileSearchController.java:135-141 | The results are the records of exactly the visited files that pass the filter, in visiting order. |
| `FileSearch.HitsPrefix` | Duplicates/src/duplicates/controller/FileSearchController.java:119-126 | A visited prefix reports a prefix of the results. |
| `FileSearchFilter.MatchesOptions` | Duplicates/src/duplicates/controller/FileSearchController.java:192-253 | The verdict is the size, extension, name and date conditions together. Attributes are read only when a date filter is set, and every failure path rejects. |
| `FileSearchFilter.GetFileExtension` | Duplicates/src/duplicates/controller/FileSearchController.java:292-297 | The extension is lowercase and dot-free. |
| `FileSearchFilter.ExtensionRulesDiffer` | Duplicates/src/duplicates/controller/FileSearchController.java:292-297 | getFileExtension differs from the record classes' extractExtension exactly on names whose only dot is at position 0, such as ".bashrc". |
| `FileSearchFilter.CleanEntry` | Duplicates/src/duplicates/controller/FileSearchController.java:209-210 | An allow-list entry loses all its dots and is lowercased. |
| `FileSearchFilter.FindExtension` | Duplicates/src/duplicates/controller/FileSearchController.java:207-214 | The search loop finds a hit iff some cleaned entry equals the extension. |
| `FileSearchFilter.DottedNamePasses` | Duplicates/src/duplicates/controller/FileSearchController.java:203-215 | A name base.e passes a non-blank allow-list iff some entry cleans to e lowercased. |
| `FileSearchFilter.NameCaseIrrelevant` | Duplicates/src/duplicates/controller/FileSearchController.java:203-222 | Neither the extension nor the name condition depends on the file name's case. |
| `FileSearchFilter.SizeInMegabytes` | Duplicates/src/duplicates/controller/FileSearchController.java:196-200 | The byte comparison gives the same verdict as comparing length / 2^20 with the bounds in megabytes. |
| `FileSearchFilter.CompareDateAgrees` | Duplicates/src/duplicates/controller/FileSearchController.java:256-267 | With an operator given, compareDate answers what the duplicate search's switch answers. |
| `FileSearchFilter.SizeFiltersScale` | Duplicates/src/duplicates/controller/FileSearchController.java:196-200 | The plain search behaves like the duplicate search's byte filter given bounds scaled to bytes. |
| `FileSearchFilter.DateFiltersAgree` | Duplicates/src/duplicates/controller/FileSearchController.java:225-246 | With both operators given, the two searches' date conditions agree. |
| `FileSearchFilter.NullOperatorDiffers` | Duplicates/src/duplicates/controller/FileSearchController.java:249-252 | With a filter date but a null operator, the plain search rejects every file. The duplicate search keeps exactly the files whose dates can be read. |
| `Records.ExtractExtension` | Duplicates/src/duplicates/model/DuplicateSearchModel.java:63-66 | The type is dot-free and lowercase. |
| `Records.ExtensionOfDottedName` | Duplicates/src/duplicates/model/DuplicateSearchModel.java:63-66 | base.ext with a non-empty dot-free ext has type ext lowercased, even when base is empty (".bashrc" gives "bashrc"). |
| `Records.NoExtensionWithoutInnerDot` | Duplicates/src/duplicates/model/FileSearchModel.java:91-94 | A name with no dot, or one ending in a dot, has type "". |
| `Records.Hex` | Duplicates/src/duplicates/model/DuplicateSearchModel.java:79-83 | Two characters per digest byte. |
| `Records.HexIsLowercaseHex` | Duplicates/src/duplicates/model/DuplicateSearchModel.java:81 | Every character is a lowercase hex digit. |
| `Records.HexRoundTrip` | Duplicates/src/duplicates/model/DuplicateSearchModel.java:79-83 | Decoding the hex string gives back the digest bytes, in order. |
| `Records.HexInjective` | Duplicates/src/duplicates/model/DuplicateSearchModel.java:79-83 | Two digests have the same hex string iff they are equal. |
| `Records.SameHashString` | Duplicates/src/duplicates/model/DuplicateSearchModel.java:68-87 | Two files share a hash string iff both are unreadable or both have equal digests, because "ERROR" is never a hex string. |
| `Records.Pump` | Duplicates/src/duplicates/model/DuplicateSearchModel.java:72-77 | The read loop feeds every byte of the stream to the digest exactly once, in order. |
| `Records.ToHex` | Duplicates/src/duplicates/model/DuplicateSearchModel.java:79-83 | The StringBuilder loop produces the hex encoding of the digest. |
| `Records.InputStream.constructor` | Duplicates/src/duplicates/model/DuplicateSearchModel.java:72 | A new stream stands at the start of the content. |
| `Records.InputStream.Read` | Duplicates/src/duplicates/model/DuplicateSearchModel.java:74 | read returns -1 at the end, otherwise the count of the next bytes it copied into the buffer, at most the buffer's length. |
| `Records.MessageDigest.constructor` | Duplicates/src/duplicates/model/DuplicateSearchModel.java:70 | A new digest has seen no input. |
| `Records.MessageDigest.Update` | Duplicates/src/duplicates/model/DuplicateSearchModel.java:75 | update appends the given part of the buffer to the input. |
| `Records.MessageDigest.Digest` | Duplicates/src/duplicates/model/DuplicateSearchModel.java:78 | digest returns the MD5 of all input and resets it. |
| `Records.DuplicateSearchModel.constructor` | Duplicates/src/duplicates/model/DuplicateSearchModel.java:24-41 | Name, parent, size and type are fixed from the file. A failed attribute read leaves both dates null, and the hash is not yet computed. |
| `Records.DuplicateSearchModel.GetFileHash` | Duplicates/src/duplicates/model/DuplicateSearchModel.java:55-60 | The hash is computed at most once, and every call returns the same cached string. |
| `Records.DuplicateSearchModel.CalculateHash` | Duplicates/src/duplicates/model/DuplicateSearchModel.java:68-87 | The result is the hex MD5 of the content, and it is "ERROR" exactly when the file cannot be opened. Never null. |
| `Records.NewFileSearchModel` | Duplicates/src/duplicates/model/FileSearchModel.java:23-49 | Path, name, size and extension come from the file. A failed attribute read leaves both dates null. |
| `Records.DisplayTypeKinds` | Duplicates/src/duplicates/model/FileSearchModel.java:86-88 | "Ordner" exactly for a directory. "Unbekannt" exactly for a non-directory with a blank extension. Otherwise the extension. |
| `Groups.RemoveFirst` | Duplicates/src/duplicates/controller/DuplicateGroup.java:28 | List.remove drops one element when present and changes nothing otherwise. |
| `Groups.RemoveFirstFromSet` | Duplicates/src/duplicates/controller/DuplicateGroup.java:27-29 | Removal from a duplicate-free list keeps it duplicate-free and drops exactly that file. |
| `Groups.RemoveFirstKeepsOrder` | Duplicates/src/duplicates/controller/DuplicateGroup.java:27-29 | The other files keep their order. |
| `Groups.NewDuplicateGroup` | Duplicates/src/duplicates/controller/DuplicateGroup.java:13-16 | A null hash is refused. Otherwise the group has that hash and no files. |
| `Groups.DuplicateGroup.constructor` | Duplicates/src/duplicates/controller/DuplicateGroup.java:13-16 | A new group has the given hash and no files. |
| `Groups.DuplicateGroup.AddFile` | Duplicates/src/duplicates/controller/DuplicateGroup.java:19-25 | null and present files give false and change nothing. A new file is appended and gives true. The list stays duplicate-free. |
| `Groups.DuplicateGroup.RemoveFile` | Duplicates/src/duplicates/controller/DuplicateGroup.java:27-29 | true iff the file was present. It is then gone, the rest keep their order, and the list stays duplicate-free. |
| `Groups.DuplicateGroup.GetFiles` | Duplicates/src/duplicates/controller/DuplicateGroup.java:32-34 | The current files. |
| `Groups.DuplicateGroup.GetHash` | Duplicates/src/duplicates/controller/DuplicateGroup.java:36-38 | The hash given at construction, which never changes. |
| `Groups.DuplicateGroup.Size` | Duplicates/src/duplicates/controller/DuplicateGroup.java:40-42 | The number of files. |
| `Groups.CheckBoxNode.constructor` | Duplicates/src/duplicates/model/CheckBoxNode.java:9-12 | A new node is unselected. |
| `Groups.CheckBoxNode.GetFile` | Duplicates/src/duplicates/model/CheckBoxNode.java:14-16 | The file given at construction, which never changes. |
| `Groups.CheckBoxNode.SetSelected` | Duplicates/src/duplicates/model/CheckBoxNode.java:18-24 | Afterwards isSelected() returns the value set. |
| `Groups.CheckBoxNode.ToString` | Duplicates/src/duplicates/model/CheckBoxNode.java:27-29 | The name, or the path when the name is empty. |
| `Options.FileSearchOptionsModel.constructor` | Duplicates/src/duplicates/model/FileSearchOptionsModel.java:19-21 | Sizes 0, strings and dates null, subfolders off. |
| `Options.FileSearchOptionsModel.Full` | Duplicates/src/duplicates/model/FileSearchOptionsModel.java:23-37 | Each argument lands in its own field. |
| `Options.FileSearchOptionsModel.SetMinFileSize` | Duplicates/src/duplicates/model/FileSearchOptionsModel.java:43 | Only minFileSize changes, to the value set. |
| `Options.FileSearchOptionsModel.SetMaxFileSize` | Duplicates/src/duplicates/model/FileSearchOptionsModel.java:51 | Only maxFileSize changes, to the value set. |
| `Options.FileSearchOptionsModel.SetFileExtention` | Duplicates/src/duplicates/model/FileSearchOptionsModel.java:59 | Only fileExtention changes, to the value set. |
| `Options.FileSearchOptionsModel.SetFileNameString` | Duplicates/src/duplicates/model/FileSearchOptionsModel.java:67 | Only fileNameString changes, to the value set. |
| `Options.FileSearchOptionsModel.SetFileCreationDateOperator` | Duplicates/src/duplicates/model/FileSearchOptionsModel.java:75 | Only the creation operator changes, to the value set. |
| `Options.FileSearchOptionsModel.SetCreationDate` | Duplicates/src/duplicates/model/FileSearchOptionsModel.java:83 | Only creationDate changes, to the value set. |
| `Options.FileSearchOptionsModel.SetFileModificationDateOperator` | Duplicates/src/duplicates/model/FileSearchOptionsModel.java:91 | Only the modification operator changes, to the value set. |
| `Options.FileSearchOptionsModel.SetModificationDate` | Duplicates/src/duplicates/model/FileSearchOptionsModel.java:99 | Only modificationDate changes, to the value set. |
| `Options.FileSearchOptionsModel.SetSubFolderBoo` | Duplicates/src/duplicates/model/FileSearchOptionsModel.java:107 | Only subFolderBoo changes, to the value set. |
| `Options.WholeDoubleToString` | Duplicates/src/duplicates/model/FileSearchOptionsModel.java:113-114 | A whole number below 10^7 prints as its digits followed by ".0". |
| `Options.RenderNineFields` | Duplicates/src/duplicates/model/FileSearchOptionsModel.java:111-124 | Nine fields are rendered as name=value pairs separated by ", ". |
| `Options.ToStringListsFields` | Duplicates/src/duplicates/model/FileSearchOptionsModel.java:111-124 | toString is "DuplicateSearchOptions{" followed by every field, name=value, then "}". |
| `Options.DuplicateSearchOptionsModel.constructor` | Duplicates/src/duplicates/model/DuplicateSearchOptionsModel.java:8-15 | The base fields have their defaults, and the three flags are off. |
| `Options.DuplicateSearchOptionsModel.Full` | Duplicates/src/duplicates/model/DuplicateSearchOptionsModel.java:17-36 | The first nine arguments go to the base fields, the rest to the flags. |
| `Options.DuplicateSearchOptionsModel.SetFileSizeBoo` | Duplicates/src/duplicates/model/DuplicateSearchOptionsModel.java:42-44 | Only fileSizeBoo changes. |
| `Options.DuplicateSearchOptionsModel.SetFileNameBoo` | Duplicates/src/duplicates/model/DuplicateSearchOptionsModel.java:50-52 | Only fileNameBoo changes. |
| `Options.DuplicateSearchOptionsModel.SetFileExtentionBoo` | Duplicates/src/duplicates/model/DuplicateSearchOptionsModel.java:58-60 | Only fileExtentionBoo changes. |
| `Options.RenderExtendedExtendsBase` | Duplicates/src/duplicates/model/DuplicateSearchOptionsModel.java:62-69 | The extended rendering is the base rendering, unchanged, followed by an Extended block holding the three flags as name=value pairs. |
| `OptionText.SplitExtentionString` | Duplicates/src/duplicates/view/DuplicateSearchOptionFrame.java:356-365 | Empty for null or blank input. The entries never repeat. |
| `OptionText.SomesMembers` | Duplicates/src/duplicates/view/FileSearchOptionFrame.java:208 | filter keeps a value exactly when it is present. |
| `OptionText.CleanedMembers` | Duplicates/src/duplicates/view/FileSearchOptionFrame.java:207-210 | A string is kept exactly when some segment maps to it. |
| `OptionText.SplitIsLower` | Duplicates/src/duplicates/view/DuplicateSearchOptionFrame.java:362 | Every entry is lowercase. |
| `OptionText.SplitMembers` | Duplicates/src/duplicates/view/DuplicateSearchOptionFrame.java:358-362 | The entries of a non-blank text are exactly its non-blank comma segments, trimmed, stripped of one leading dot and lowercased. |
| `OptionText.DotGivesEmptyEntry` | Duplicates/src/duplicates/view/DuplicateSearchOptionFrame.java:360-361 | The emptiness filter runs before the dot is removed, so a segment "." gives the entry "". |
| `OptionText.SplitKeepsFirstOrder` | Duplicates/src/duplicates/view/DuplicateSearchOptionFrame.java:363 | The entries keep the order of their first occurrences. |
| `OptionText.TrimKeepsDigits` | Duplicates/src/duplicates/view/DuplicateSearchOptionFrame.java:318 | trim loses no digit. |
| `OptionText.ReplaceKeepsDigits` | Duplicates/src/duplicates/view/DuplicateSearchOptionFrame.java:318 | replace('.', ' ') loses no digit. |
| `OptionText.IsDateBlank` | Duplicates/src/duplicates/view/DuplicateSearchOptionPanel.java:307-313 | Blank iff the text holds no digit. |
| `OptionText.FindDigit` | Duplicates/src/duplicates/view/DuplicateSearchOptionFrame.java:319-321 | The scan finds a digit iff there is one. |
| `OptionText.IsDateBlankOrNull` | Duplicates/src/duplicates/view/DuplicateSearchOptionFrame.java:315-322 | Blank iff null or the text holds no digit. |
| `OptionText.NormalizeDateString` | Duplicates/src/duplicates/view/DuplicateSearchOptionFrame.java:325-327 | "" for null or digit-free text, the text unchanged otherwise (the panel's version at DuplicateSearchOptionPanel.java:303-305 is the same). |
| `OptionText.NormalizedBlank` | Duplicates/src/duplicates/view/DuplicateSearchOptionPanel.java:303-305 | A normalised text is blank iff the field holds no digit, and normalising twice changes nothing. |
| `OptionText.ParseDate` | Duplicates/src/duplicates/view/DuplicateSearchOptionPanel.java:19-20 | Only dd.MM.uuuu texts naming a real day parse, to a valid date. |
| `OptionText.FormatDate` | Duplicates/src/duplicates/view/DuplicateSearchOptionPanel.java:362-363 | A date is formatted in ten characters. |
| `OptionText.ParseFormat` | Duplicates/src/duplicates/view/DuplicateSearchOptionPanel.java:362-368 | Every date the panel shows parses back to itself. |
| `OptionText.FormatParse` | Duplicates/src/duplicates/view/DuplicateSearchOptionPanel.java:332-342 | The strict format accepts only formatted days: a text that parses is the formatting of its date. |
| `OptionText.StrictExamples` | Duplicates/src/duplicates/view/DuplicateSearchOptionPanel.java:19-20 | The strict resolver accepts 29.02.2024 and rejects 29.02.2023, 31.04.2024 and an unfilled mask. |
| `OptionText.ApplyDateFields` | Duplicates/src/duplicates/view/DuplicateSearchOptionPanel.java:332-342 | Operators are copied. A date is set only from a text holding a digit. A text the strict format rejects throws and leaves the later fields untouched. |
| `OptionText.DateSetOnlyWithDigit` | Duplicates/src/duplicates/view/DuplicateSearchOptionPanel.java:333-342 | On a fresh model a date stays null unless its field holds a digit. |
| `FileProperties.EndsWithAny` | Duplicates/src/duplicates/view/FilePropertiesView.java:39-46 | The chain of endsWith is "some listed extension is a suffix". |
| `FileProperties.MediaIgnoresCase` | Duplicates/src/duplicates/view/FilePropertiesView.java:37-47 | isMediaFile does not depend on case. |
| `FileProperties.MediaByExtension` | Duplicates/src/duplicates/view/FilePropertiesView.java:37-47 | Any name ending in one of the 16 listed extensions is a media file. |
| `FileProperties.LooksBooleanWords` | Duplicates/src/duplicates/view/FilePropertiesView.java:245-248 | looksBoolean holds iff the text is not null and, trimmed and lowercased, is one of the ten words. |
| `FileProperties.ParseBooleanWords` | Duplicates/src/duplicates/view/FilePropertiesView.java:250-254 | parseBoolean holds iff the text is not null and, trimmed and lowercased, is one of true, wahr, ja, yes, 1. |
| `FileProperties.ParseImpliesLooks` | Duplicates/src/duplicates/view/FilePropertiesView.java:245-254 | parseBoolean implies looksBoolean. Among boolean-looking texts the others are the five false words. |
| `FileProperties.EditRoundTrip` | Duplicates/src/duplicates/view/FilePropertiesView.java:211-229 | The text the editor writes back for a check box looks boolean and parses to the box's state. |
| `FileProperties.SplitKey` | Duplicates/src/duplicates/view/FilePropertiesView.java:139-140 | A key without '-' has group "Allgemein" and itself as short key. Otherwise the group, cut at the first '-', holds no '-'. |
| `FileProperties.SplitReaderKey` | Duplicates/src/duplicates/controller/FilePropertiesController.java:27 | The keys the metadata reader builds, directory + " - " + tag, split back into directory and tag. |
| `FileProperties.ReaderKeyDash` | Duplicates/src/duplicates/controller/FilePropertiesController.java:27 | In such a key the first '-' is the one the reader put there. |
| `FileProperties.ReaderErrorKey` | Duplicates/src/duplicates/controller/FilePropertiesController.java:43 | The reader's error entry is recognised as an error key. |
| `FileProperties.Get` | Duplicates/src/duplicates/view/FilePropertiesView.java:118-119 | remove returns the value stored for the key, null when there is none. |
| `FileProperties.Removed` | Duplicates/src/duplicates/view/FilePropertiesView.java:118-119 | After remove, exactly the other entries are left. |
| `FileProperties.Items` | Duplicates/src/duplicates/view/FilePropertiesView.java:123-140 | One item per entry, in map order. |
| `FileProperties.CreateMetadataTab` | Duplicates/src/duplicates/view/FilePropertiesView.java:104-167 | The rows are the two coordinates followed by the layout of the remaining entries. The filler goes in the row after the last. |
| `FileProperties.AddEntry` | Duplicates/src/duplicates/view/FilePropertiesView.java:123-156 | One turn of the loop extends the layout by that entry's rows and keeps row and lastGroup in step. |
| `FileProperties.OneRowPerItem` | Duplicates/src/duplicates/view/FilePropertiesView.java:127-155 | Every entry gets exactly one row besides headers, in map order: an error line or its short key and value. |
| `FileProperties.HeadersAreOpenedGroups` | Duplicates/src/duplicates/view/FilePropertiesView.java:142-152 | The headers shown are exactly the groups the entries open, in order. |
| `FileProperties.CurrentGroupIsLastGroup` | Duplicates/src/duplicates/view/FilePropertiesView.java:121-151 | The header last shown is always the group of the last non-error entry, which is the lastGroup the loop keeps. |
| `FileProperties.FieldUnderItsGroup` | Duplicates/src/duplicates/view/FilePropertiesView.java:142-155 | Each field row sits under the header of its own group. |
| `FileProperties.ErrorKeepsGroup` | Duplicates/src/duplicates/view/FilePropertiesView.java:127-136 | An error entry adds no header and leaves the last group as it was. |
| `FileProperties.EachAChangePairwise` | Duplicates/src/duplicates/view/FilePropertiesView.java:143 | Neighbouring headers differ, and the first is not "". |
| `FileProperties.OpenedGroupsChange` | Duplicates/src/duplicates/view/FilePropertiesView.java:143-151 | Each group opened differs from the one opened before it. |
| `FileProperties.HeadersChange` | Duplicates/src/duplicates/view/FilePropertiesView.java:142-152 | A header appears exactly when the group changes: consecutive headers name different groups. |
| `FileProperties.GpsFirst` | Duplicates/src/duplicates/view/FilePropertiesView.java:118-119 | The coordinates are shown first and nowhere below, and no other entry is lost. |

## Left out

- **Threads.** Threads, `ExecutorService`, `volatile` and `AtomicBoolean` are not modelled, nor is `shutdownNow`. Cancellation is an oracle read at the source's check points, not a thread interleaving.
- **The MD5 algorithm**, file reading and `Files.readAttributes` are parameters or snapshot data. The conversion of timestamps to `LocalDate` in the system time zone is left out; dates arrive already converted.
- **`System.nanoTime`** is an oracle. Nothing is assumed about how its readings grow.
- DuplicateSearch.DuplicateSearchController.UpdateProgress: uses integer division for `(int)((processed / (double) total) * 100)`. The double expression can land one below the integer quotient (29 of 100 gives 28), so the model's percentages are the exact ones.
- **Java integer width.** `int` and `long` counters and lengths are unbounded naturals. Overflow beyond 2^31 files is not modelled.
- **Option sizes** are whole numbers. The source stores them as doubles, and fractional bounds are not modelled.
- **Character classes.** Case conversion is ASCII `toLowerCase`, not the locale-dependent one. `Character.isDigit` and `isWhitespace` are their ASCII parts.
- DuplicateSearch.DuplicateSearchController.SearchDuplicates: the order of the reported groups and the number each group gets follow first-insertion order of lengths and hashes, not Java's `HashMap` order, which goes by bucket index. With two 20-byte files collected before two 3-byte files, the model numbers the 20-byte group 1 and Java numbers the 3-byte group 1. For any order, each group is a class of equal length and hash (`DuplicateGrouping.GroupsAreClasses`), every duplicated file is reported (`DuplicateGrouping.GroupsCoverDuplicates`) and the numbers run from 1 with each group one consecutive run (`DuplicateGrouping.ReportNumbering`).
- DuplicateSearch.DuplicateSearchController.ReportSizeGroups: the order of the length buckets, and so the numbering and the prefix a cancelled search reports, follow first-insertion order rather than Java's `HashMap` order.
- DuplicateSearch.DuplicateSearchController.ReportFiles: the order of the length and hash buckets, and so the numbering and the prefix a cancelled search reports, follow first-insertion order rather than Java's `HashMap` order.
- **`safeAccept`** swallows exceptions thrown by the result or progress consumer; consumers here never throw. A null `progressUpdater` is not modelled.
- **Symbolic links.** `NOFOLLOW_LINKS` and symbolic links are not modelled: an entry is a regular file, a directory or something else, as `isFile`/`isDirectory` answer at scan time.
- Groups.DuplicateGroup.GetFiles: returns the list as a value. The aliasing of Java's unmodifiable view is not modelled. `DuplicateGroup.toString`, a debugging rendering no search uses, is left out.
- **`FileSearchModel.toString` and `getFileSizeMB`** use floating-point formatting and are left out.
- **ParseDate and FormatDate** handle four-digit years only. The `uuuu` pattern's signed years and years beyond 9999 are left out.
- **`toModel`** is modelled only for its date fields (`OptionText.ApplyDateFields`). Its `numberFrom` size parsing, text fields and check boxes are left out.
- **Swing.** Fonts, `GridBagConstraints`, dialogs, the "–" shown for a null value and the edit dialog beyond its boolean round trip are presentation and are not modelled. `createFilePropertiesTab` is not part of this model.
- **The metadata-extractor library** behind `FilePropertiesController` is not part of this model. Only the key shape it builds and its error entry are used.
