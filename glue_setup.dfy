/** Scripts/Setup.py, `ingest_glue_script`: pick the Glue job scripts of the working directory
    (a `.py` suffix and a name `re.match(r'glue.*\.py$')` accepts), list the bucket, and upload every
    script whose name is not yet a key there. The directory listing, the working directory and the
    `list_objects` response are inputs; the uploads are the result. */
module GlueSetup {
  import opened Lists
  import opened PathNames

  /** `accepted_formats` */
  const AcceptedFormats: seq<string> := [".py"]

  /** `glue.*\.py` matched from the start of `name` and ending at `end`: "glue", a run of characters
      other than '\n' (what `.` matches without DOTALL), then ".py". */
  predicate GlueMatchEndsAt(name: string, end: int) {
    7 <= end <= |name| && name[..4] == "glue" && name[end - 3..end] == ".py" && '\n' !in name[4..end - 3]
  }

  /** `re.match(r'glue.*\.py$', name) is not None`: without MULTILINE, `$` holds at the end of the
      name and also just before a final '\n'. */
  predicate MatchesGluePattern(name: string) {
    || GlueMatchEndsAt(name, |name|)
    || (|name| > 0 && name[|name| - 1] == '\n' && GlueMatchEndsAt(name, |name| - 1))
  }

  /** A name `ingest_glue_script` considers for upload. */
  predicate IsCandidate(name: string) {
    Extension(name) in AcceptedFormats && MatchesGluePattern(name)
  }

  /** `finalFiles`: the `.py` names of the listing that the pattern accepts, in listing order. */
  function Candidates(listing: seq<string>): seq<string> {
    Filter(WithAcceptedExtension(listing, AcceptedFormats), MatchesGluePattern)
  }

  /** A name with suffix ".py" ends in ".py". */
  lemma PySuffix(name: string)
    requires Extension(name) == ".py"
    ensures |name| >= 3 && name[|name| - 3..] == ".py" && name[|name| - 1] == 'y'
  {
    var parts := SplitExt(name);
    assert name == parts.0 + ".py";
  }

  /** For a `.py` name the pattern says exactly: it starts with "glue", is at least "glue.py" long,
      and holds no '\n' between "glue" and the suffix. */
  lemma PyNameMatches(name: string)
    requires Extension(name) == ".py"
    ensures MatchesGluePattern(name) <==>
      |name| >= 7 && name[..4] == "glue" && '\n' !in name[4..|name| - 3]
  {
    PySuffix(name);
    assert name[|name| - 1] == 'y';
  }

  /** The candidates are one filtering of the listing; they keep listing order, and a listed name
      is a candidate exactly when both tests accept it. */
  lemma CandidatesOfListing(listing: seq<string>)
    ensures Candidates(listing) == Filter(listing, IsCandidate)
    ensures IsSubsequence(Candidates(listing), listing)
    ensures forall n :: n in Candidates(listing) <==> n in listing && IsCandidate(n)
  {
    FilterFilter(listing, n => Extension(n) in AcceptedFormats, MatchesGluePattern, IsCandidate);
    FilterIsSubsequence(listing, IsCandidate);
  }

  lemma GluePatternExamples()
    ensures MatchesGluePattern("glue_transform.py")
    ensures MatchesGluePattern("glue.py")
    ensures !MatchesGluePattern("my_glue.py")
    ensures !MatchesGluePattern("glue_transform.pyc")
    ensures MatchesGluePattern("glue_job.py\n")
  {
    assert GlueMatchEndsAt("glue_transform.py", 17);
    assert GlueMatchEndsAt("glue.py", 7);
    assert "my_glue.py"[..4][0] == 'm';
    assert "glue_transform.pyc"[15] == 'p';
    assert "glue_job.py\n"[..11] == "glue_job.py";
    assert GlueMatchEndsAt("glue_job.py\n", 11);
  }

  /** A name ending in a newline never has suffix ".py", so it is never a candidate, whether or
      not the pattern's `$` accepts it. */
  lemma NewlineNameNotCandidate(name: string)
    requires |name| > 0 && name[|name| - 1] == '\n'
    ensures !IsCandidate(name)
  {
    if Extension(name) == ".py" {
      PySuffix(name);
      assert false;
    }
  }

  /** `glue_job.py\n` passes the pattern but is still no candidate. */
  lemma NewlineGlueNameExample()
    ensures MatchesGluePattern("glue_job.py\n") && !IsCandidate("glue_job.py\n")
  {
    GluePatternExamples();
    NewlineNameNotCandidate("glue_job.py\n");
  }

  // ----- the bucket and the uploads -----

  datatype S3Object = S3Object(key: string)

  /** The `list_objects` response; `Contents` is absent when the bucket is empty. */
  datatype ListObjectsResponse = ListObjectsResponse(contents: Option<seq<S3Object>>)

  /** One `s3.upload_file(filePath, bucketName, fileName)` call. */
  datatype Upload = Upload(filePath: string, bucket: string, key: string)

  /** The uploads made, or the `KeyError` that `response['Contents']` raises before any upload. */
  datatype IngestOutcome = Uploaded(uploads: seq<Upload>) | RaisedKeyError

  /** `filesInBucket`: the `Key` of every listed object, in listing order. */
  function Keys(objects: seq<S3Object>): (keys: seq<string>)
    ensures |keys| == |objects|
    ensures forall i :: 0 <= i < |objects| ==> keys[i] == objects[i].key
  {
    seq(|objects|, i requires 0 <= i < |objects| => objects[i].key)
  }

  /** The test that keeps a candidate: its name is not among the bucket's keys. */
  function NotAmong(keys: seq<string>): string -> bool {
    name => name !in keys
  }

  /** The upload of `name` from the working directory `cwd`. */
  function UploadOf(cwd: string, bucket: string, name: string): Upload {
    Upload(cwd + "/" + name, bucket, name)
  }

  function UploadsOf(cwd: string, bucket: string, names: seq<string>): (r: seq<Upload>)
    ensures |r| == |names|
    ensures forall i :: 0 <= i < |names| ==> r[i] == UploadOf(cwd, bucket, names[i])
  {
    seq(|names|, i requires 0 <= i < |names| => UploadOf(cwd, bucket, names[i]))
  }

  /** The candidates of `listing` that are not among `keys`, in listing order. */
  function MissingCandidates(listing: seq<string>, keys: seq<string>): seq<string> {
    Filter(Candidates(listing), NotAmong(keys))
  }

  /** What `ingest_glue_script` does for a directory listing `listing`, working directory `cwd` and
      the bucket listing `response`. */
  function IngestPlan(listing: seq<string>, cwd: string, bucketName: string, response: ListObjectsResponse): IngestOutcome {
    match response.contents
    case None => RaisedKeyError
    case Some(objects) => Uploaded(UploadsOf(cwd, bucketName, MissingCandidates(listing, Keys(objects))))
  }

  lemma KeysStep(objects: seq<S3Object>, k: nat)
    requires k < |objects|
    ensures Keys(objects[..k + 1]) == Keys(objects[..k]) + [objects[k].key]
  {
  }

  lemma UploadsOfSnoc(cwd: string, bucket: string, names: seq<string>, name: string)
    ensures UploadsOf(cwd, bucket, names + [name]) == UploadsOf(cwd, bucket, names) + [UploadOf(cwd, bucket, name)]
  {
  }

  /** The scan of `onlyfiles` appending each name the pattern accepts. */
  method KeepGlueNames(onlyfiles: seq<string>) returns (finalFiles: seq<string>)
    ensures finalFiles == Filter(onlyfiles, MatchesGluePattern)
  {
    finalFiles := [];
    for i := 0 to |onlyfiles|
      invariant finalFiles == Filter(onlyfiles[..i], MatchesGluePattern)
    {
      var curFile := onlyfiles[i];
      FilterPrefixStep(onlyfiles, i, MatchesGluePattern);
      if MatchesGluePattern(curFile) {
        finalFiles := finalFiles + [curFile];
      }
    }
    assert onlyfiles[..|onlyfiles|] == onlyfiles;
  }

  /** The collection of every object's `Key` into `filesInBucket`. */
  method BucketKeys(contents: seq<S3Object>) returns (filesInBucket: seq<string>)
    ensures filesInBucket == Keys(contents)
  {
    filesInBucket := [];
    for flag := 0 to |contents|
      invariant filesInBucket == Keys(contents[..flag])
    {
      KeysStep(contents, flag);
      filesInBucket := filesInBucket + [contents[flag].key];
    }
    assert contents[..|contents|] == contents;
  }

  /** The upload loop: skip a name already in the bucket, otherwise upload it from the working
      directory under its own name. */
  method UploadMissing(finalFiles: seq<string>, filesInBucket: seq<string>, cwd: string, bucketName: string)
    returns (uploads: seq<Upload>)
    ensures uploads == UploadsOf(cwd, bucketName, Filter(finalFiles, NotAmong(filesInBucket)))
  {
    uploads := [];
    for index := 0 to |finalFiles|
      invariant uploads == UploadsOf(cwd, bucketName, Filter(finalFiles[..index], NotAmong(filesInBucket)))
    {
      FilterPrefixStep(finalFiles, index, NotAmong(filesInBucket));
      if finalFiles[index] in filesInBucket {
        continue;
      }
      var filePath := cwd + "/" + finalFiles[index];
      var fileName := finalFiles[index];
      UploadsOfSnoc(cwd, bucketName, Filter(finalFiles[..index], NotAmong(filesInBucket)), fileName);
      uploads := uploads + [Upload(filePath, bucketName, fileName)];
    }
    assert finalFiles[..|finalFiles|] == finalFiles;
  }

  /** `ingest_glue_script` from line 128 on: its three loops in turn, after the suffix filter. */
  method IngestGlueScript(listing: seq<string>, cwd: string, bucketName: string, response: ListObjectsResponse)
    returns (outcome: IngestOutcome)
    ensures outcome == IngestPlan(listing, cwd, bucketName, response)
  {
    var onlyfiles := KeepAcceptedExtensions(listing, AcceptedFormats);
    var finalFiles := KeepGlueNames(onlyfiles);
    if response.contents.None? {
      return RaisedKeyError;
    }
    var filesInBucket := BucketKeys(response.contents.value);
    var uploads := UploadMissing(finalFiles, filesInBucket, cwd, bucketName);
    return Uploaded(uploads);
  }

  // ----- what the upload step promises -----

  /** An empty bucket has no `Contents`, so the function fails before uploading anything. */
  lemma EmptyBucketRaises(listing: seq<string>, cwd: string, bucketName: string)
    ensures IngestPlan(listing, cwd, bucketName, ListObjectsResponse(None)) == RaisedKeyError
  {
  }

  /** The uploads are one per missing candidate, in order: the `i`-th sends `cwd + "/" + name`
      into `bucketName` under the key `name`, for the `i`-th missing candidate `name`. */
  lemma UploadsAreMissingCandidates(listing: seq<string>, cwd: string, bucketName: string, objects: seq<S3Object>)
    ensures var outcome := IngestPlan(listing, cwd, bucketName, ListObjectsResponse(Some(objects)));
      var missing := MissingCandidates(listing, Keys(objects));
      && outcome.Uploaded?
      && |outcome.uploads| == |missing|
      && (forall i :: 0 <= i < |missing| ==> outcome.uploads[i] == Upload(cwd + "/" + missing[i], bucketName, missing[i]))
  {
  }

  /** A name is uploaded exactly when it is listed, is a candidate, and is not a key in the bucket. */
  lemma MissingCandidatesMembers(listing: seq<string>, keys: seq<string>)
    ensures forall n :: n in MissingCandidates(listing, keys) <==> n in listing && IsCandidate(n) && n !in keys
  {
    CandidatesOfListing(listing);
    var candidates := Candidates(listing);
    var missing := MissingCandidates(listing, keys);
    forall n | n in listing && IsCandidate(n) && n !in keys
      ensures n in missing
    {
      var i :| 0 <= i < |candidates| && candidates[i] == n;
      assert NotAmong(keys)(candidates[i]);
    }
    forall n | n in missing
      ensures n !in keys
    {
      var i :| 0 <= i < |missing| && missing[i] == n;
      assert NotAmong(keys)(missing[i]);
    }
  }

  /** The missing candidates keep listing order. */
  lemma MissingCandidatesOrder(listing: seq<string>, keys: seq<string>)
    ensures IsSubsequence(MissingCandidates(listing, keys), listing)
  {
    CandidatesOfListing(listing);
    FilterIsSubsequence(Candidates(listing), NotAmong(keys));
    SubsequenceTransitive(MissingCandidates(listing, keys), Candidates(listing), listing);
  }

  /** A name already in the bucket is never uploaded, and a missing candidate is uploaded as often
      as it is listed. */
  lemma MissingCandidatesCount(listing: seq<string>, keys: seq<string>, n: string)
    ensures multiset(MissingCandidates(listing, keys))[n] ==
      if IsCandidate(n) && n !in keys then multiset(listing)[n] else 0
  {
    CandidatesOfListing(listing);
    FilterCount(Candidates(listing), NotAmong(keys), n);
    FilterCount(listing, IsCandidate, n);
  }

  /** A directory lists each name once, so each missing candidate is uploaded exactly once. */
  lemma MissingCandidatesOnce(listing: seq<string>, keys: seq<string>, n: string)
    requires NoDuplicates(listing)
    requires n in listing && IsCandidate(n) && n !in keys
    ensures multiset(MissingCandidates(listing, keys))[n] == 1
  {
    MissingCandidatesCount(listing, keys, n);
    NoDuplicatesCount(listing, n);
  }
}
