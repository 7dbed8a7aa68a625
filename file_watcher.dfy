/** Scripts/File_Watcher.py: the directory snapshot `fileInDirectory`, the list difference
    `listComparison`, and the polling loop `fileWatcher` that hands new files to the ingester.
    A directory listing is the list of names of its regular files, in listing order. */
module FileWatcher {
  import opened Lists
  import opened PathNames
  import opened NamePattern
  import opened NamePatternProperties

  /** `accepted_formats` */
  const AcceptedFormats: seq<string> := [".csv", ".txt"]

  /** What `fileInDirectory` returns for a directory whose regular files are `listing`. */
  function Snapshot(listing: seq<string>): seq<string> {
    Filter(WithAcceptedExtension(listing, AcceptedFormats), MatchesNamePattern)
  }

  /** A name the watcher picks up: a `.csv` or `.txt` suffix and a prefix the pattern accepts. */
  predicate Watched(name: string) {
    Extension(name) in AcceptedFormats && MatchesNamePattern(name)
  }

  /** The snapshot is one filtering of the listing by both tests. */
  lemma SnapshotFiltersListing(listing: seq<string>)
    ensures Snapshot(listing) == Filter(listing, Watched)
  {
    FilterFilter(listing, n => Extension(n) in AcceptedFormats, MatchesNamePattern, Watched);
  }

  /** The snapshot lists, in listing order, exactly the listed names that are watched. */
  lemma SnapshotMembers(listing: seq<string>)
    ensures IsSubsequence(Snapshot(listing), listing)
    ensures forall n :: n in Snapshot(listing) <==> n in listing && Watched(n)
  {
    SnapshotFiltersListing(listing);
    FilterIsSubsequence(listing, Watched);
  }

  /** `fileInDirectory`: the extension loop, then the pattern loop appending to `finalFiles`. */
  method FileInDirectory(listing: seq<string>) returns (finalFiles: seq<string>)
    ensures finalFiles == Snapshot(listing)
  {
    var onlyfiles := KeepAcceptedExtensions(listing, AcceptedFormats);
    finalFiles := [];
    for i := 0 to |onlyfiles|
      invariant finalFiles == Filter(onlyfiles[..i], MatchesNamePattern)
    {
      var curFile := onlyfiles[i];
      FilterPrefixStep(onlyfiles, i, MatchesNamePattern);
      if MatchesNamePattern(curFile) {
        finalFiles := finalFiles + [curFile];
      }
    }
    assert onlyfiles[..|onlyfiles|] == onlyfiles;
  }

  /** The `splitext` suffix of a doubly suffixed name is its last suffix. */
  lemma DoubleSuffixExtension()
    ensures Extension("flight_IND_SGP_20240229_235959.csv" + ".txt") == ".txt"
  {
    var root := "flight_IND_SGP_20240229_235959.csv";
    assert root + "." + "txt" == root + ".txt";
    ExtensionOfSuffixed(root, "txt", 0);
  }

  /** Because acceptance looks at a prefix only, a valid `.csv` name followed by `.txt` still
      matches. */
  lemma DoubleSuffixMatches()
    ensures MatchesNamePattern("flight_IND_SGP_20240229_235959.csv" + ".txt")
  {
    LeapDayNameAccepted();
    AcceptanceIgnoresSuffix("flight_IND_SGP_20240229_235959.csv", ".txt");
  }

  /** So such a name passes both of `fileInDirectory`'s tests. */
  lemma DoubleSuffixWatched()
    ensures Watched("flight_IND_SGP_20240229_235959.csv" + ".txt")
  {
    DoubleSuffixExtension();
    DoubleSuffixMatches();
  }

  /** A hidden file such as ".csv" has no suffix, so `fileInDirectory` drops it. */
  lemma HiddenFileNotWatched(dots: string, x: string)
    requires |dots| > 0 && forall j :: 0 <= j < |dots| ==> dots[j] == '.'
    requires '.' !in x && '/' !in x
    ensures !Watched(dots + x)
  {
    HiddenNameHasNoExtension(dots, x);
  }

  // ----- listComparison -----

  /** `[x for x in NewList if x not in OriginalList]` */
  function ListComparison(originalList: seq<string>, newList: seq<string>): (differences: seq<string>)
    ensures forall x :: x in differences <==> x in newList && x !in originalList
  {
    Filter(newList, x => x !in originalList)
  }

  /** The difference keeps the new list's order, and every occurrence of each name it keeps. */
  lemma ListComparisonOrder(originalList: seq<string>, newList: seq<string>, x: string)
    ensures IsSubsequence(ListComparison(originalList, newList), newList)
    ensures multiset(ListComparison(originalList, newList))[x] == if x in originalList then 0 else multiset(newList)[x]
  {
    FilterIsSubsequence(newList, y => y !in originalList);
    FilterCount(newList, y => y !in originalList, x);
  }

  /** Comparing a list with itself reports nothing; comparing with an empty list reports all of it. */
  lemma ListComparisonExtremes(l: seq<string>)
    ensures ListComparison(l, l) == []
    ensures ListComparison([], l) == l
  {
    FilterKeepsNone(l, x => x !in l);
    FilterKeepsAll(l, x => x !in []);
  }

  // ----- fileWatcher -----

  /** `'watching' not in locals()` on the first run; afterwards `previousFileList` is kept. */
  datatype WatchState = FirstRun | Watching(previousFileList: seq<string>)

  /** One pass of the loop, given what `fileInDirectory` returned on this poll: the next state, and
      the list handed to `File_Ingester.DataIngester`, if any. */
  function Tick(state: WatchState, newFileList: seq<string>): (WatchState, Option<seq<string>>) {
    match state
    case FirstRun => (Watching(newFileList), Some(newFileList))
    case Watching(previousFileList) =>
      var fileDiff := ListComparison(previousFileList, newFileList);
      if |fileDiff| == 0 then
        (Watching(newFileList), None)
      else
        assert fileDiff[0] in fileDiff;
        (Watching(newFileList), Some(fileDiff))
  }

  /** The first pass dispatches the whole list; a later one dispatches nothing exactly when every
      name was there before, and otherwise the non-empty difference `listComparison` computes,
      holding exactly the names that are new. */
  lemma TickMeaning(state: WatchState, newFileList: seq<string>)
    ensures var r := Tick(state, newFileList);
      && r.0 == Watching(newFileList)
      && (state.FirstRun? ==> r.1 == Some(newFileList))
      && (state.Watching? ==> (r.1.None? <==> forall x :: x in newFileList ==> x in state.previousFileList))
      && (state.Watching? && r.1.Some? ==>
            r.1.value != [] && forall x :: x in r.1.value <==> x in newFileList && x !in state.previousFileList)
    ensures var r := Tick(state, newFileList);
      state.Watching? && r.1.Some? ==> r.1.value == ListComparison(state.previousFileList, newFileList)
  {
    if state.Watching? {
      var fileDiff := ListComparison(state.previousFileList, newFileList);
      if |fileDiff| != 0 {
        assert fileDiff[0] in fileDiff;
      }
    }
  }

  /** The state after a sequence of polls, each given by what `fileInDirectory` returned, and the
      lists dispatched so far, in order. */
  function Watch(fileLists: seq<seq<string>>): (r: (WatchState, seq<seq<string>>))
    ensures fileLists == [] <==> r.0 == FirstRun
    ensures fileLists == [] ==> r.1 == []
    ensures fileLists != [] ==> r.0 == Watching(fileLists[|fileLists| - 1])
    ensures fileLists != [] ==> 1 <= |r.1| <= |fileLists| && r.1[0] == fileLists[0]
  {
    if fileLists == [] then (FirstRun, [])
    else
      var previous := Watch(fileLists[..|fileLists| - 1]);
      var step := Tick(previous.0, fileLists[|fileLists| - 1]);
      (step.0, previous.1 + (if step.1.Some? then [step.1.value] else []))
  }

  /** After the first, no dispatched list is empty. */
  lemma {:induction false} LaterDispatchesNonEmpty(fileLists: seq<seq<string>>, j: nat)
    requires 1 <= j < |Watch(fileLists).1|
    ensures Watch(fileLists).1[j] != []
    decreases |fileLists|
  {
    var init := fileLists[..|fileLists| - 1];
    if j < |Watch(init).1| {
      LaterDispatchesNonEmpty(init, j);
    }
  }

  /** One more poll applies one more tick. */
  lemma WatchSnoc(fileLists: seq<seq<string>>, newFileList: seq<string>)
    ensures var step := Tick(Watch(fileLists).0, newFileList);
      && Watch(fileLists + [newFileList]).0 == step.0
      && Watch(fileLists + [newFileList]).1 == Watch(fileLists).1 + (if step.1.Some? then [step.1.value] else [])
  {
    assert (fileLists + [newFileList])[..|fileLists|] == fileLists;
  }

  /** What `fileInDirectory` returns on each of a sequence of directory listings. */
  function Snapshots(listings: seq<seq<string>>): (r: seq<seq<string>>)
    ensures |r| == |listings|
  {
    if listings == [] then []
    else Snapshots(listings[..|listings| - 1]) + [Snapshot(listings[|listings| - 1])]
  }

  lemma SnapshotsStep(listings: seq<seq<string>>, k: nat)
    requires k < |listings|
    ensures Snapshots(listings[..k + 1]) == Snapshots(listings[..k]) + [Snapshot(listings[k])]
  {
    assert listings[..k + 1][..k] == listings[..k];
  }

  /** `fileWatcher`, run for as many polls as there are directory listings (`listings[k]` is what
      the directory holds at poll `k`). The first pass runs the first-run block, which dispatches
      its snapshot unconditionally; every pass then polls again, keeps the new snapshot and
      dispatches the difference with the previous one unless it is empty (the source's `continue`
      skips only the dispatch, so it is written as a guard on it). The run ends when the listings
      do. */
  method FileWatcher(listings: seq<seq<string>>) returns (dispatched: seq<seq<string>>, previousFileList: seq<string>)
    ensures dispatched == Watch(Snapshots(listings)).1
    ensures listings != [] ==> Watch(Snapshots(listings)).0 == Watching(previousFileList)
  {
    dispatched := [];
    previousFileList := [];
    var watching := false;
    var k := 0;
    ghost var polled: seq<seq<string>> := [];
    while k < |listings|
      invariant 0 <= k <= |listings|
      invariant watching <==> k > 0
      invariant polled == Snapshots(listings[..k])
      invariant Watch(polled).0 == if watching then Watching(previousFileList) else FirstRun
      invariant dispatched == Watch(polled).1
    {
      if !watching {
        SnapshotsStep(listings, k);
        previousFileList := FileInDirectory(listings[k]);
        WatchSnoc(polled, previousFileList);
        polled := polled + [previousFileList];
        watching := true;
        dispatched := dispatched + [previousFileList];
        k := k + 1;
      }
      if k < |listings| {
        SnapshotsStep(listings, k);
        var newFileList := FileInDirectory(listings[k]);
        WatchSnoc(polled, newFileList);
        polled := polled + [newFileList];
        var fileDiff := ListComparison(previousFileList, newFileList);
        previousFileList := newFileList;
        k := k + 1;
        if |fileDiff| != 0 {
          dispatched := dispatched + [fileDiff];
        }
      }
    }
    assert listings[..|listings|] == listings;
  }

  // ----- what the watcher promises over a whole run -----

  /** Polling once more only adds to what was dispatched. */
  lemma DispatchesGrow(fileLists: seq<seq<string>>)
    requires fileLists != []
    ensures Watch(fileLists[..|fileLists| - 1]).1 <= Watch(fileLists).1
  {
  }

  /** A name the latest poll returned and the one before did not is in the latest batch. */
  lemma NewNameDispatchedLast(fileLists: seq<seq<string>>, x: string)
    requires |fileLists| >= 2
    requires x in fileLists[|fileLists| - 1] && x !in fileLists[|fileLists| - 2]
    ensures x in Watch(fileLists).1[|Watch(fileLists).1| - 1]
  {
    var init := fileLists[..|fileLists| - 1];
    assert Watch(init).0 == Watching(fileLists[|fileLists| - 2]);
  }

  /** Every name any poll returned is dispatched at some point: in batch `j`. */
  lemma {:induction false} WatchCoverage(fileLists: seq<seq<string>>, k: nat, x: string) returns (j: nat)
    requires k < |fileLists| && x in fileLists[k]
    ensures j < |Watch(fileLists).1| && x in Watch(fileLists).1[j]
    decreases |fileLists|
  {
    var last := |fileLists| - 1;
    var init := fileLists[..last];
    if last == 0 {
      j := 0;
    } else if k < last || x in init[last - 1] {
      var earlier := if k < last then k else last - 1;
      assert x in init[earlier];
      j := WatchCoverage(init, earlier, x);
      DispatchesGrow(fileLists);
    } else {
      NewNameDispatchedLast(fileLists, x);
      j := |Watch(fileLists).1| - 1;
    }
  }

  /** Every dispatched name was returned by some poll: poll `k`. */
  lemma {:induction false} WatchSoundness(fileLists: seq<seq<string>>, j: nat, x: string) returns (k: nat)
    requires j < |Watch(fileLists).1| && x in Watch(fileLists).1[j]
    ensures k < |fileLists| && x in fileLists[k]
    decreases |fileLists|
  {
    var last := |fileLists| - 1;
    var init := fileLists[..last];
    if last == 0 {
      k := 0;
    } else {
      var previous := Watch(init);
      if j < |previous.1| {
        k := WatchSoundness(init, j, x);
        assert init[k] == fileLists[k];
      } else {
        k := last;
      }
    }
  }

  /** A name every poll returns is dispatched once, with the first batch. */
  lemma {:induction false} StayingNameDispatchedOnce(fileLists: seq<seq<string>>, x: string)
    requires fileLists != []
    requires forall k :: 0 <= k < |fileLists| ==> x in fileLists[k]
    ensures x in Watch(fileLists).1[0]
    ensures forall j :: 1 <= j < |Watch(fileLists).1| ==> x !in Watch(fileLists).1[j]
    decreases |fileLists|
  {
    var last := |fileLists| - 1;
    var init := fileLists[..last];
    if last > 0 {
      StayingNameDispatchedOnce(init, x);
      assert x in init[last - 1];
    }
  }
}
