/**
 * The scan: list the directory, group the listed paths, extract metadata of
 * every listed path, and assemble the result, unless a cached result is used.
 * The directory walk, the metadata extractor and the similarity ratio are
 * parameters; the single-slot result cache is an object.
 */
module Scan {
  import opened Wrappers
  import opened Decimal
  import Listing
  import Grouping

  /** The metadata record of one file. */
  datatype FileInfo = FileInfo(
    path: string, name: string, size: nat, kind: string,
    artist: string, album: string, title: string, duration: nat)

  /** Metadata extraction of one path: a record, or None when extraction failed. */
  type Extractor = string -> Option<FileInfo>

  /** What a scan returns and caches: the records, and the groups keyed by the decimal text of their ids. */
  datatype ScanResult = ScanResult(files: seq<FileInfo>, similarFiles: map<string, seq<nat>>)

  /** The records of the paths whose extraction succeeded, in path order. */
  function Extracted(paths: seq<string>, extract: Extractor): seq<FileInfo>
  {
    if paths == [] then []
    else
      var e := extract(paths[|paths| - 1]);
      Extracted(paths[..|paths| - 1], extract) + (if e.Some? then [e.value] else [])
  }

  /** Extraction results of consecutive path lists are concatenated: path order is kept. */
  lemma {:induction false} ExtractedAppend(a: seq<string>, b: seq<string>, extract: Extractor)
    ensures Extracted(a + b, extract) == Extracted(a, extract) + Extracted(b, extract)
  {
    if b == [] {
      assert a + b == a;
    } else {
      var b' := b[..|b| - 1];
      assert (a + b)[..|a + b| - 1] == a + b';
      ExtractedAppend(a, b', extract);
    }
  }

  /** Failed extractions only drop records: there are never more records than paths. */
  lemma {:induction false} ExtractedNoLonger(paths: seq<string>, extract: Extractor)
    ensures |Extracted(paths, extract)| <= |paths|
  {
    if paths != [] {
      ExtractedNoLonger(paths[..|paths| - 1], extract);
    }
  }

  /** Every record is the extraction result of one of the paths. */
  lemma {:induction false} ExtractedFromPaths(paths: seq<string>, extract: Extractor, r: FileInfo)
    requires r in Extracted(paths, extract)
    ensures exists k :: 0 <= k < |paths| && extract(paths[k]) == Some(r)
  {
    var init := paths[..|paths| - 1];
    if r in Extracted(init, extract) {
      ExtractedFromPaths(init, extract, r);
      var k :| 0 <= k < |init| && extract(init[k]) == Some(r);
      assert paths[k] == init[k];
    } else {
      assert extract(paths[|paths| - 1]) == Some(r);
    }
  }

  /** When every extraction succeeds, the records are the paths' records one for one. */
  lemma {:induction false} ExtractedAllSucceed(paths: seq<string>, extract: Extractor)
    requires forall k :: 0 <= k < |paths| ==> extract(paths[k]).Some?
    ensures |Extracted(paths, extract)| == |paths|
    ensures forall k :: 0 <= k < |paths| ==> Some(Extracted(paths, extract)[k]) == extract(paths[k])
  {
    if paths != [] {
      var init := paths[..|paths| - 1];
      assert forall k :: 0 <= k < |init| ==> init[k] == paths[k];
      ExtractedAllSucceed(init, extract);
    }
  }

  /** The scan's metadata loop. */
  method CollectMetadata(paths: seq<string>, extract: Extractor) returns (metadata: seq<FileInfo>)
    ensures metadata == Extracted(paths, extract)
  {
    metadata := [];
    for k := 0 to |paths|
      invariant metadata == Extracted(paths[..k], extract)
    {
      var info := extract(paths[k]);
      assert paths[..k + 1][..k] == paths[..k];
      if info.Some? {
        metadata := metadata + [info.value];
      }
    }
    assert paths[..|paths|] == paths;
  }

  /**
   * The group dictionary with each id replaced by its decimal text: the same
   * groups, no key lost or merged.
   */
  function StrKeys(m: map<nat, seq<nat>>): (r: map<string, seq<nat>>)
    ensures forall k :: k in m ==> NatToString(k) in r && r[NatToString(k)] == m[k]
    ensures forall s :: s in r ==>
              (forall i :: 0 <= i < |s| ==> IsDigit(s[i])) && ParseDecimal(s) in m && r[s] == m[ParseDecimal(s)]
    ensures forall s :: s in r ==> exists k :: k in m && s == NatToString(k) && r[s] == m[k]
  {
    forall a: nat, b: nat ensures NatToString(a) == NatToString(b) ==> a == b {
      NatToStringInjective(a, b);
    }
    forall k: nat ensures ParseDecimal(NatToString(k)) == k {
      ParseNatToString(k);
    }
    map k | k in m :: NatToString(k) := m[k]
  }

  /** The scan result assembled from the listed paths. */
  function Assemble(files: seq<string>, ratio: Grouping.Ratio, extract: Extractor): ScanResult
  {
    ScanResult(Extracted(files, extract),
               StrKeys(Grouping.SimilarFiles(files, ratio, Grouping.DefaultThreshold)))
  }

  /** What a scan without a cache hit computes. */
  function ScanOf(walk: seq<Listing.WalkEntry>, ratio: Grouping.Ratio, extract: Extractor): ScanResult
  {
    Assemble(Listing.Listed(walk), ratio, extract)
  }

  /**
   * Group indices stay in the index space of the listed paths: they are not
   * renumbered after records are dropped, so they may reach beyond the records.
   */
  lemma AssembleKeepsListingIndices(files: seq<string>, ratio: Grouping.Ratio, extract: Extractor)
    ensures var result := Assemble(files, ratio, extract);
      && |result.files| <= |files|
      && (forall s, j :: s in result.similarFiles && j in result.similarFiles[s] ==> j < |files|)
  {
    var m := Grouping.SimilarFiles(files, ratio, Grouping.DefaultThreshold);
    ExtractedNoLonger(files, extract);
    Grouping.GroupIsSeedAndItsMatches(files, ratio, Grouping.DefaultThreshold);
    var result := Assemble(files, ratio, extract);
    forall s, j | s in result.similarFiles && j in result.similarFiles[s] ensures j < |files| {
      var g := m[ParseDecimal(s)];
      assert j in g;
    }
  }

  /**
   * The scan's groups are the grouper's groups over the listed paths, unchanged,
   * each under the decimal text of its id, and there is no other key.
   */
  lemma AssembleKeepsGrouperGroups(files: seq<string>, ratio: Grouping.Ratio, extract: Extractor)
    ensures var groups := Grouping.SimilarFiles(files, ratio, Grouping.DefaultThreshold);
      var keyed := Assemble(files, ratio, extract).similarFiles;
      && (forall id :: id in groups ==> NatToString(id) in keyed && keyed[NatToString(id)] == groups[id])
      && (forall s :: s in keyed ==> exists id :: id in groups && s == NatToString(id) && keyed[s] == groups[id])
  {
  }

  /** The single-slot result cache: the last stored scan result, if any. */
  class ResultCache {
    var slot: Option<ScanResult>

    constructor ()
      ensures slot == None
    {
      slot := None;
    }

    /** The stored result, or None when nothing was stored. */
    method Load() returns (cached: Option<ScanResult>)
      ensures cached == slot
    {
      cached := slot;
    }

    /** Overwrites the slot unconditionally. */
    method Save(result: ScanResult)
      modifies this
      ensures slot == Some(result)
    {
      slot := Some(result);
    }
  }

  /**
   * The scan request: a cached result wins when the cache is asked for and
   * holds one; otherwise the scan is computed and stored.
   */
  method ScanDirectory(cache: ResultCache, walk: seq<Listing.WalkEntry>, useCache: bool,
                       ratio: Grouping.Ratio, extract: Extractor) returns (result: ScanResult)
    modifies cache
    ensures useCache && old(cache.slot).Some? ==> result == old(cache.slot).value && cache.slot == old(cache.slot)
    ensures !(useCache && old(cache.slot).Some?) ==> result == ScanOf(walk, ratio, extract) && cache.slot == Some(result)
  {
    if useCache {
      var cached := cache.Load();
      if cached.Some? {
        return cached.value;
      }
    }
    var files := Listing.ListFiles(walk);
    var similar := Grouping.FindSimilarFiles(files, ratio, Grouping.DefaultThreshold);
    var keyed := StrKeys(similar);
    var metadata := CollectMetadata(files, extract);
    result := ScanResult(metadata, keyed);
    cache.Save(result);
  }
}
