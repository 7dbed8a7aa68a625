/** File-name suffixes as `os.path.splitext` sees them, and the index-reset loop both ingestion
    scripts use to drop the names whose suffix is not an accepted one. */
module PathNames {
  import opened Lists

  /** Position of the last `c` in `s`, or -1 (Python's `str.rfind`). */
  function LastIndexOf(s: string, c: char): (i: int)
    ensures -1 <= i < |s|
    ensures i >= 0 ==> s[i] == c
    ensures forall k :: i < k < |s| ==> s[k] != c
  {
    if s == [] then -1
    else if s[|s| - 1] == c then |s| - 1
    else LastIndexOf(s[..|s| - 1], c)
  }

  /** POSIX `os.path.splitext(p)`: the extension runs from the last '.' of the last path component
      to the end, unless every character of the component before that dot is itself a '.'
      (so ".csv" and "..csv" have no extension); otherwise the extension is empty. */
  function SplitExt(p: string): (r: (string, string))
    ensures r.0 + r.1 == p
    ensures r.1 == [] || (r.1[0] == '.' && '.' !in r.1[1..] && '/' !in r.1)
  {
    var sep := LastIndexOf(p, '/');
    var dot := LastIndexOf(p, '.');
    if dot > sep && exists k :: sep + 1 <= k < dot && p[k] != '.' then
      assert p[..dot] + p[dot..] == p;
      assert forall k :: 0 <= k < |p[dot..]| - 1 ==> p[dot..][1..][k] == p[dot + 1 + k];
      (p[..dot], p[dot..])
    else
      (p, "")
  }

  function Extension(p: string): string {
    SplitExt(p).1
  }

  /** A name `root + "." + x` whose final component has a non-dot character before that dot has
      extension `"." + x`, whenever `x` holds neither '.' nor '/'. */
  lemma ExtensionOfSuffixed(root: string, x: string, k: nat)
    requires '.' !in x && '/' !in x
    requires k < |root| && root[k] != '.'
    requires forall i :: k <= i < |root| ==> root[i] != '/'
    ensures Extension(root + "." + x) == "." + x
  {
    var p := root + "." + x;
    var dot := LastIndexOf(p, '.');
    var sep := LastIndexOf(p, '/');
    assert p[|root|] == '.';
    assert dot == |root| by {
      forall i | |root| < i < |p| ensures p[i] != '.' {
        assert p[i] == x[i - |root| - 1];
      }
    }
    assert sep < k by {
      forall i | k <= i < |p| ensures p[i] != '/' {
        if i > |root| { assert p[i] == x[i - |root| - 1]; }
      }
    }
    assert p[k] != '.';
    assert p[dot..] == "." + x;
  }

  /** The suffix is non-empty exactly when the last path component holds a '.' with a non-dot
      character somewhere before it in that component; leading dots belong to the root. */
  lemma ExtensionNonEmptyIff(p: string)
    ensures Extension(p) != [] <==>
      exists k, i :: 0 <= k < i < |p| && p[k] != '.' && p[i] == '.' && '/' !in p[k..]
  {
    var sep := LastIndexOf(p, '/');
    var dot := LastIndexOf(p, '.');
    if Extension(p) != [] {
      var k :| sep + 1 <= k < dot && p[k] != '.';
      assert '/' !in p[k..] by {
        forall j | 0 <= j < |p[k..]| ensures p[k..][j] != '/' {
          assert p[k..][j] == p[k + j];
        }
      }
    }
    if k, i :| 0 <= k < i < |p| && p[k] != '.' && p[i] == '.' && '/' !in p[k..] {
      forall j | k <= j < |p| ensures p[j] != '/' {
        assert p[j] == p[k..][j - k];
      }
      assert dot >= i;
    }
  }

  /** A hidden name such as ".csv" or "..txt" has no suffix. */
  lemma HiddenNameHasNoExtension(dots: string, x: string)
    requires |dots| > 0 && forall j :: 0 <= j < |dots| ==> dots[j] == '.'
    requires '.' !in x && '/' !in x
    ensures Extension(dots + x) == []
  {
    var p := dots + x;
    forall j | 0 <= j < |p|
      ensures (j < |dots| ==> p[j] == '.') && (j >= |dots| ==> p[j] != '.')
    {
      if j >= |dots| {
        assert p[j] == x[j - |dots|];
      }
    }
    ExtensionNonEmptyIff(p);
  }

  /** `[f for f in names if splitext(f)[1] in accepted]`, the list the index-reset loop leaves. */
  function WithAcceptedExtension(names: seq<string>, accepted: seq<string>): seq<string> {
    Filter(names, n => Extension(n) in accepted)
  }

  /** Removing the first name the scan finds with a rejected suffix shortens the list and keeps the
      names with an accepted suffix as they were. */
  lemma RemoveRejected(onlyfiles: seq<string>, j: nat, accepted: seq<string>)
    requires j < |onlyfiles| && Extension(onlyfiles[j]) !in accepted
    requires forall k :: 0 <= k < j ==> Extension(onlyfiles[k]) in accepted
    ensures |RemoveFirst(onlyfiles, onlyfiles[j])| < |onlyfiles|
    ensures WithAcceptedExtension(RemoveFirst(onlyfiles, onlyfiles[j]), accepted) == WithAcceptedExtension(onlyfiles, accepted)
  {
    RemoveFirstAt(onlyfiles, onlyfiles[j], j);
    FilterSkipsRejected(onlyfiles, j, n => Extension(n) in accepted);
  }

  /** The loop of Scripts/File_Watcher.py and Scripts/Setup.py: scan `onlyfiles` with `index`;
      on a name whose extension is not accepted, `onlyfiles.remove(name)` and restart from 0. */
  method KeepAcceptedExtensions(names: seq<string>, accepted: seq<string>) returns (onlyfiles: seq<string>)
    ensures onlyfiles == WithAcceptedExtension(names, accepted)
  {
    onlyfiles := names;
    var index := 0;
    while index < |onlyfiles|
      invariant 0 <= index <= |onlyfiles|
      invariant forall k :: 0 <= k < index ==> Extension(onlyfiles[k]) in accepted
      invariant WithAcceptedExtension(onlyfiles, accepted) == WithAcceptedExtension(names, accepted)
      decreases |onlyfiles|, |onlyfiles| - index
    {
      var extension := Extension(onlyfiles[index]);
      index := index + 1;
      if extension !in accepted {
        RemoveRejected(onlyfiles, index - 1, accepted);
        onlyfiles := RemoveFirst(onlyfiles, onlyfiles[index - 1]);
        index := 0;
      }
    }
    FilterKeepsAll(onlyfiles, n => Extension(n) in accepted);
  }

  /** What the loop leaves: the names with an accepted suffix, in their order, and all of them. */
  lemma AcceptedExtensionMembers(names: seq<string>, accepted: seq<string>)
    ensures IsSubsequence(WithAcceptedExtension(names, accepted), names)
    ensures forall n :: n in WithAcceptedExtension(names, accepted) <==> n in names && Extension(n) in accepted
  {
    FilterIsSubsequence(names, n => Extension(n) in accepted);
  }
}
