# Duplicate music file finder: a verified model of its core

The application scans a directory tree of audio files, lists every file
whose extension is not in a small ignore set, groups the listed paths whose
basenames look alike, extracts per-file metadata, and caches the whole scan
result in a single slot. A second request deletes a list of paths and
reports what was deleted and what failed.

This project models that core in Dafny and proves what it promises:

- `paths.dfy` (`Paths`): the rules for basenames (text after the last
  `/`), the last dot segment of a name, the two-argument POSIX path join
  and ASCII lower-casing.
- `listing.dfy` (`Listing`): the extension filter and the listing loop
  over a given directory walk.
- `grouping.dfy` (`Grouping`): the greedy duplicate grouper, its loops as
  methods proved against a specification function, and the properties of
  the groups it commits.
- `decimal.dfy` (`Decimal`): the decimal text of a group id, used as the
  key in the scan result, and its inverse.
- `scan.dfy` (`Scan`): the metadata loop, the string-keyed group
  dictionary, the single-slot result cache as an object, and the scan
  request with its cache-hit rule.
- `deletion.dfy` (`Deletion`): the delete loop over a mutable set of
  existing files, and the report with its status rule.
- `wrappers.dfy` (`Wrappers`): the `Option` type.

The similarity ratio of two names comes from a foreign library. The model
takes it as a parameter, any function from two names to a score in
`[0, 100]`. The directory walk, the metadata extractor and the failures
of file removal are parameters as well.

The grouper compares every later index with the seed only. It skips an
index only when that index would become a seed. So a non-seed index can
belong to several groups: `Grouping.OverlappingGroups` shows
`{0: [0, 2], 1: [1, 2]}` for three names where only the third is similar
to the other two. One might expect the groups to be disjoint; the code
does not make them so. The model follows the code, and proves only that
no seed belongs to an earlier group.

## Model

| member | source | states |
|---|---|---|
| `Paths.AfterLast` | app.py:27 | (definition) the text after the last occurrence of a separator, or the whole text when it does not occur: `split(c)[-1]` |
| `Paths.Lower` | app.py:27 | (definition) ASCII lower-casing, character by character |
| `Paths.Basename` | app.py:110 | (definition) the text after the last '/' of a path, as `os.path.basename` computes it |
| `Paths.Join` | app.py:28 | (definition) the two-argument POSIX join: an absolute name replaces the directory, otherwise the name is appended after a '/' unless the directory is empty or ends with one |
| `Paths.AfterLastIsLastSegment` | app.py:27 | the segment after the last separator is a suffix free of the separator, preceded by the separator unless it is the whole text |
| `Paths.AfterLastAbsent` | app.py:27 | a name without a dot is its own last dot segment |
| `Paths.AfterLastOfAppend` | app.py:110 | only the text after the last separator counts, whatever precedes it |
| `Paths.JoinBasename` | app.py:28 | the basename of a directory joined with a plain file name is that file name |
| `Paths.LowerAfterLastDot` | app.py:27 | lower-casing a name and taking its last dot segment commute |
| `Listing.Extension` | app.py:27 | (definition) the text after the last '.' of a name, `split('.')[-1]` |
| `Listing.Ignored` | app.py:20-27 | (definition) a name is ignored iff the lower-cased text after its last '.', or the whole name without a '.', is lrc, txt, jpeg or jpg |
| `Listing.IgnoredByLastSegment` | app.py:20-27 | whether a name is ignored depends only on its text after the last dot |
| `Listing.IgnoredIgnoresCase` | app.py:27 | the ignore rule does not depend on letter case |
| `Listing.KeepNames` | app.py:26-27 | (definition) the names of one directory that are not ignored, in their order |
| `Listing.Listed` | app.py:22-30 | (definition) for each walk entry in order, its kept names joined to its directory: what `list_files` returns |
| `Listing.KeepNamesMember` | app.py:26-28 | a name is kept iff it is one of the names given and its lower-cased last dot segment is not lrc, txt, jpeg or jpg |
| `Listing.KeepNamesAppend` | app.py:26-28 | filtering distributes over concatenation, so kept names keep their order |
| `Listing.JoinAllKeptMember` | app.py:26-28 | one directory contributes exactly the joins of its kept names |
| `Listing.ListFiles` | app.py:22-30 | the listing loop returns the kept files of each directory joined to the directory, in walk order |
| `Listing.ListedFromLast` | app.py:25-28 | the walk's last directory adds exactly the joins of its non-ignored names to the paths that some directory's kept names join to |
| `Listing.ListedMember` | app.py:25-28 | a path is listed iff some directory of the walk holds a non-ignored name that joins to it |
| `Listing.ListedNotIgnored` | app.py:25-28 | when the walk reports plain names, no listed path has an ignored basename |
| `Grouping.Similar` | app.py:110 | (definition) the ratio of the two basenames reaches the threshold |
| `Grouping.Matches` | app.py:109-111 | (definition) the indices after the seed and below a bound that are similar to the seed, in increasing order |
| `Grouping.Candidate` | app.py:108-111 | (definition) `similar_group`: the seed followed by all its later similar indices |
| `Grouping.Grouped` | app.py:105 | (definition) the `any(...)` test: some committed group holds the index |
| `Grouping.MatchesExact` | app.py:109-111 | the later indices collected for a seed are strictly increasing and are exactly those similar to the seed |
| `Grouping.AlreadyGrouped` | app.py:105 | the search over the dictionary's values finds the index iff some group holds it |
| `Grouping.GroupedInMap` | app.py:105 | membership in the dictionary's values is membership in the committed groups |
| `Grouping.CollectGroup` | app.py:108-111 | the inner loop yields the seed followed by every later similar index |
| `Grouping.FindSimilarFiles` | app.py:100-118 | the grouper returns the dictionary of the committed groups, ids in commit order |
| `Grouping.GroupsUpTo` | app.py:104-115 | (definition) the groups committed after the loop has processed a prefix of the indices: skip a grouped index, else commit its candidate when it has two or more members |
| `Grouping.SimilarFiles` | app.py:100-118 | (definition) the committed groups as a dictionary, group `id` being the `id`-th committed group |
| `Grouping.GroupsUpToWellGrouped` | app.py:104-115 | after any prefix, every committed group is its seed's candidate, has two or more members, and seeds increase and do not lie in earlier groups |
| `Grouping.GroupsUpToExtends` | app.py:104-115 | processing further indices only appends groups, with seeds no smaller than the indices already processed |
| `Grouping.GroupsWellGrouped` | app.py:100-118 | the same shape for the final list of groups |
| `Grouping.EveryGroupHasTwoMembers` | app.py:113-115 | no singleton group is ever emitted |
| `Grouping.GroupIdsFollowSeeds` | app.py:102-115 | ids are 0, 1, ... without a gap, and a larger id has a larger seed |
| `Grouping.GroupIsSeedAndItsMatches` | app.py:108-111 | each group starts with its seed, continues with strictly increasing later indices below the list length, and holds an index iff it is the seed or similar to the seed |
| `Grouping.SeedNotInEarlierGroup` | app.py:105-109 | no seed is a member of a group with a smaller id |
| `Grouping.HasMatchIffCandidateCommits` | app.py:108-113 | a candidate group is committed iff its seed has a later similar index |
| `Grouping.EarlierSeedsCommittedBefore` | app.py:104-115 | the groups whose seed is below an index are exactly those committed before the loop reached it |
| `Grouping.GroupedBeforeIff` | app.py:105 | an index is skipped iff a group with a smaller seed holds it |
| `Grouping.SeedsAreUngroupedIndicesWithAMatch` | app.py:104-115 | an index is a seed iff it has a later similar index and no group with a smaller seed holds it |
| `Grouping.NoMatchesWithoutSimilar` | app.py:109-111 | a seed with no later similar index collects nothing |
| `Grouping.NoSimilarPairNoGroupsUpTo` | app.py:104-115 | with no similar pair, no prefix commits a group |
| `Grouping.NoSimilarPairNoGroups` | app.py:100-118 | with no similar pair, the grouper returns an empty dictionary |
| `Grouping.OverlappingGroupList` | app.py:105-111 | the group list of the overlap example |
| `Grouping.OverlappingGroups` | app.py:105-111 | groups can overlap: index 2 is in both groups of the example |
| `Grouping.ReorderedGroupList` | app.py:104-111 | the group list of the reordered example |
| `Grouping.ReorderingChangesGroups` | app.py:104-111 | putting the shared name first turns the two groups into one |
| `Grouping.CopiesOfOneSong` | app.py:100-118 | two copies of a song whose names reach the threshold and one unrelated file give `{0: [0, 1]}` |
| `Decimal.NatToString` | app.py:163 | the decimal text of an id is non-empty, all digits, with no leading zero |
| `Decimal.ParseNatToString` | app.py:163 | reading the decimal text back gives the id |
| `Decimal.NatToStringInjective` | app.py:163 | distinct ids get distinct keys |
| `Scan.Extracted` | app.py:165-169 | (definition) the records of the paths whose extraction returned a record, in path order |
| `Scan.ExtractedAppend` | app.py:165-169 | the records of consecutive path lists are concatenated, so path order is kept |
| `Scan.ExtractedNoLonger` | app.py:165-169 | there are never more records than paths |
| `Scan.ExtractedFromPaths` | app.py:165-169 | every record is the successful extraction of one of the paths |
| `Scan.ExtractedAllSucceed` | app.py:165-169 | when every extraction succeeds, the records are the paths' records one for one |
| `Scan.CollectMetadata` | app.py:165-169 | the metadata loop keeps, in order, the records of the paths whose extraction succeeded |
| `Scan.StrKeys` | app.py:163 | every id's group appears under the id's decimal text, and every key is the decimal text of an id carrying that key's group |
| `Scan.Assemble` | app.py:163-174 | (definition) the result of the listed paths: the extracted records and the grouper's dictionary with string keys |
| `Scan.ScanOf` | app.py:155-174 | (definition) the result of a scan without a cache hit: the assembly of the listing of the walk |
| `Scan.AssembleKeepsListingIndices` | app.py:163-174 | group indices stay below the number of listed paths, which records never outnumber |
| `Scan.AssembleKeepsGrouperGroups` | app.py:163 | the result's groups are the grouper's groups, unchanged and not renumbered, each under the decimal text of its id, with no other key |
| `Scan.ResultCache.constructor` | app.py:127-134 | a cache with no stored result reads as empty |
| `Scan.ResultCache.Load` | app.py:127-131 | loading returns the stored result, or None when there is none |
| `Scan.ResultCache.Save` | app.py:120-125 | saving overwrites the single slot |
| `Scan.ScanDirectory` | app.py:141-178 | with the cache asked for and holding a result, that result is returned and the cache is unchanged; otherwise the scan is listed, grouped, extracted and assembled, then stored |
| `Deletion.Step` | app.py:191-202 | (definition) one request's outcome: not found when the path does not exist, failed with the removal's error text when removal raises, deleted otherwise |
| `Deletion.Run` | app.py:189-203 | (definition) the outcomes of the loop over the requests, in request order, and the existing files left afterwards |
| `Deletion.DeletedPaths` | app.py:193 | (definition) the paths of the deletions, in request order: `deleted_files` |
| `Deletion.ErrorMessages` | app.py:197-201 | (definition) the messages of the outcomes that are not deletions, in request order: `errors` |
| `Deletion.Report` | app.py:204-208 | (definition) the result dictionary: status, deleted files and errors |
| `Deletion.Message` | app.py:196-200 | (definition) "File not found: " and the path, or "Error deleting file ", the path, ": " and the error text |
| `Deletion.Status` | app.py:205 | the status is "success" iff the error list is empty, and "partial_success" otherwise |
| `Deletion.OneOutcomePerRequest` | app.py:189-202 | there is exactly one outcome per requested path, in request order |
| `Deletion.OutcomesSplit` | app.py:189-203 | the two lists together have exactly one entry per outcome |
| `Deletion.DeletedPathsAppend` | app.py:189-203 | the deleted list and the error list of consecutive outcomes are each the concatenation of the parts' lists, so request order is kept |
| `Deletion.EachOutcomeInOneList` | app.py:189-203 | each outcome lands in exactly one of the two lists, at its place in request order: a deletion's path between the deletions before and after it, any other outcome's message between the errors before and after it |
| `Deletion.NoErrorsIffAllDeleted` | app.py:189-205 | the error list is empty iff every outcome is a deletion |
| `Deletion.RunRemovesExactlyDeleted` | app.py:189-194 | the files left are the existing files less exactly the deleted ones, and every deleted path existed and was requested |
| `Deletion.ReportAccountsForEveryRequest` | app.py:204-208 | deleted plus errors count the requests, and the status is "success" iff there is no error iff every request was deleted, "partial_success" otherwise |
| `Deletion.MissingIsReported` | app.py:195-198 | a requested path that did not exist yields "File not found: " followed by the path |
| `Deletion.FileStore.constructor` | app.py:191 | the store starts with the given existing files and removal behaviour |
| `Deletion.FileStore.DeleteFiles` | app.py:181-210 | the delete loop's report and the files left are those of the outcomes, request by request |
| `Deletion.ReportOfOneDeletedOneMissing` | app.py:204-208 | the report for one deletion and one missing path |
| `Deletion.OneExistingOneMissing` | app.py:189-207 | deleting an existing and a missing file gives "partial_success", the deleted file, and its not-found message |

## Left out

- The web routes, JSON handling, the page template and the server start (app.py:136-139, 141-153, 212-214): request and response glue. The scan's `directory` and `use_cache`, and the delete's file list, are parameters.
- The directory walk: `Listing.ListFiles` takes the walk's entries (directory path and file names, in walk order) as input.
- The similarity ratio: it comes from a foreign edit-distance library and is a parameter of type `Grouping.Ratio`, not reimplemented.
- Metadata extraction (app.py:32-98): it decodes audio containers through a foreign library. It is the parameter `Scan.Extractor`, returning a record, or None when anything in the extraction raised, the file-size lookup of app.py:38 as well as the decoding (app.py:96-98). The record with Unknown fields and duration 0 that the source builds when the decoded audio object is falsy (the `if audio:` test of app.py:54, fallback at app.py:85-91) is a record like any other and is part of that parameter.
- The worker process for grouping (app.py:157-158): the model calls the grouper directly. The check for a missing grouping result (app.py:159-161) cannot fire, since the grouper always returns a dictionary.
- The cache file's storage format and its I/O. A failed write is only logged in the source and is not modelled: `Scan.ResultCache.Save` always stores.
- Scan.ResultCache.Load: a read failure of the cache file (app.py:132-134), which the source treats as a miss, is not modelled; `Load` returns the slot.
- Scan.ScanDirectory: a stored result that is falsy would be a cache miss in the source; every result the scan stores is a non-empty record, so the model treats any stored result as a hit.
- Removal failures are a parameter (`Deletion.Remover`): the error text a removal of an existing file raises. File existence is the set `FileStore.existing`.
- Deletion.FileStore: existence is keyed by the path's text, while the source asks the file system (app.py:191). Two texts naming one file ("x.mp3" and "./x.mp3", or a doubled '/') are unrelated members of `existing`, so deleting one leaves the other existing and a later request for it is a removal attempt where the source reports "File not found". The removal's failure is a fixed function of the path text, so a repeated request for a path whose removal failed fails again with the same text, where the file system's answer could change between attempts.
- Logging throughout: no functional content.
- Listing.Ignored: lower-casing is ASCII only; the source's lower-casing also maps non-ASCII letters. No ignore decision differs: no non-ASCII character lower-cases to one of the letters of lrc, txt, jpeg or jpg, so a name's lower-cased extension is one of them under either rule or under neither.
- Grouping.FindSimilarFiles: it is a function of its inputs, so it is deterministic; no separate lemma states it.
