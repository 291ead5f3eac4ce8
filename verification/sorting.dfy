/** File assignment of `sort_files`: which files of the raw-audio directory
    are copied into which per-label directory. The directory listing is passed
    in, and the result is the plan of directories to ensure and copies to
    make, in the order the code makes them. */
module Sorting {
  import opened Text
  import opened Outcome
  import opened Grouping

  /** One `copyfile(src, dst)` call. */
  datatype Copy = Copy(src: string, dst: string)

  /** The effect of `sort_files` on the file system: the directories it makes
      sure exist (lines 158-160) and the copies it makes (lines 164-169). */
  datatype Plan = Plan(dirs: seq<string>, copies: seq<Copy>)

  /** Paths are joined with a '/' between the parts. */
  function Join(dir: string, name: string): string
  {
    dir + "/" + name
  }

  /** Line 156: the destination root is the source directory unless one is given. */
  function Root(fileDir: string, dstDir: Option<string>): (root: string)
    ensures dstDir == None ==> root == fileDir
    ensures dstDir != None ==> root == dstDir.value
  {
    match dstDir
    case None => fileDir
    case Some(d) => d
  }

  /** Line 166: some media id of the list occurs in the file name. An empty
      list matches no file; an empty media id, or one equal to the file name,
      matches it. */
  function AnyIn(mediaIds: seq<string>, file: string): (b: bool)
    ensures b ==> mediaIds != []
    ensures "" in mediaIds ==> b
    ensures file in mediaIds ==> b
  {
    ContainsEmpty(file);
    ContainsSelf(file);
    exists k :: 0 <= k < |mediaIds| && Contains(file, mediaIds[k])
  }

  /** Lines 165-166 for one file: a (key, file) pair for each key, in
      dictionary order, whose list has an id in the file name. */
  function FilePairs(groups: seq<Group>, file: string): (pairs: seq<(string, string)>)
    ensures |pairs| <= |groups|
    decreases |groups|
  {
    if |groups| == 0 then []
    else
      (if AnyIn(groups[0].mediaIds, file) then [(groups[0].key, file)] else [])
      + FilePairs(groups[1..], file)
  }

  /** Lines 164-166: the (key, file) pairs of every copy, by file in listing
      order and then by key in dictionary order. */
  function Assignments(groups: seq<Group>, files: seq<string>): (pairs: seq<(string, string)>)
    ensures |pairs| <= |files| * |groups|
    decreases |files|
  {
    if |files| == 0 then []
    else FilePairs(groups, files[0]) + Assignments(groups, files[1..])
  }

  lemma {:induction false} FilePairsMembership(groups: seq<Group>, file: string, key: string, f: string)
    ensures (key, f) in FilePairs(groups, file) <==>
              f == file && exists k :: 0 <= k < |groups| && groups[k].key == key && AnyIn(groups[k].mediaIds, file)
    decreases |groups|
  {
    if |groups| > 0 {
      FilePairsMembership(groups[1..], file, key, f);
      if exists k :: 0 <= k < |groups[1..]| && groups[1..][k].key == key && AnyIn(groups[1..][k].mediaIds, file) {
        var k :| 0 <= k < |groups[1..]| && groups[1..][k].key == key && AnyIn(groups[1..][k].mediaIds, file);
        assert groups[k + 1] == groups[1..][k];
      }
      if exists k :: 0 <= k < |groups| && groups[k].key == key && AnyIn(groups[k].mediaIds, file) {
        var k :| 0 <= k < |groups| && groups[k].key == key && AnyIn(groups[k].mediaIds, file);
        if k > 0 {
          assert groups[1..][k - 1] == groups[k];
        }
      }
    }
  }

  /** A file is copied into the directory of a key iff it is listed and the
      key's list has a media id that occurs in the file name. */
  lemma {:induction false} AssignmentsMembership(groups: seq<Group>, files: seq<string>, key: string, f: string)
    ensures (key, f) in Assignments(groups, files) <==>
              f in files && exists k :: 0 <= k < |groups| && groups[k].key == key && AnyIn(groups[k].mediaIds, f)
    decreases |files|
  {
    if |files| > 0 {
      FilePairsMembership(groups, files[0], key, f);
      AssignmentsMembership(groups, files[1..], key, f);
      assert f in files <==> f == files[0] || f in files[1..] by {
        assert files == [files[0]] + files[1..];
      }
    }
  }

  /** Files are handled one after another in listing order. */
  lemma {:induction false} AssignmentsAppend(groups: seq<Group>, a: seq<string>, b: seq<string>)
    ensures Assignments(groups, a + b) == Assignments(groups, a) + Assignments(groups, b)
    decreases |a|
  {
    if |a| == 0 {
      assert a + b == b;
    } else {
      assert (a + b)[0] == a[0];
      assert (a + b)[1..] == a[1..] + b;
      AssignmentsAppend(groups, a[1..], b);
      var head := FilePairs(groups, a[0]);
      assert head + (Assignments(groups, a[1..]) + Assignments(groups, b))
          == (head + Assignments(groups, a[1..])) + Assignments(groups, b);
    }
  }

  /** Lines 167-169 for one (key, file) pair: copy the file from the source
      directory into the key's directory under the root. */
  function CopyOf(fileDir: string, root: string, pair: (string, string)): Copy
  {
    Copy(Join(fileDir, pair.1), Join(Join(root, pair.0), pair.1))
  }

  /** The copies for a sequence of pairs, in order. */
  function CopiesFor(fileDir: string, root: string, pairs: seq<(string, string)>): (cs: seq<Copy>)
    ensures |cs| == |pairs|
    ensures forall j :: 0 <= j < |pairs| ==> cs[j] == CopyOf(fileDir, root, pairs[j])
  {
    seq(|pairs|, j requires 0 <= j < |pairs| => CopyOf(fileDir, root, pairs[j]))
  }

  /** Every pair gets its copy, and every copy comes from a pair. */
  lemma CopiesForMembership(fileDir: string, root: string, pairs: seq<(string, string)>)
    ensures forall p :: p in pairs ==> CopyOf(fileDir, root, p) in CopiesFor(fileDir, root, pairs)
    ensures forall c :: c in CopiesFor(fileDir, root, pairs) ==>
              exists p :: p in pairs && c == CopyOf(fileDir, root, p)
  {
    var cs := CopiesFor(fileDir, root, pairs);
    forall p | p in pairs ensures CopyOf(fileDir, root, p) in cs {
      var j :| 0 <= j < |pairs| && pairs[j] == p;
      assert cs[j] == CopyOf(fileDir, root, p);
    }
    forall c | c in cs ensures exists p :: p in pairs && c == CopyOf(fileDir, root, p) {
      var j :| 0 <= j < |cs| && cs[j] == c;
      assert pairs[j] in pairs;
    }
  }

  /** `sort_files(yt_ids, file_dir, dst_dir)`: one directory per key under
      the destination root (lines 158-160), then for each (key, file) pair of
      `Assignments` one copy from the source directory into the key's
      directory under the same name (lines 164-169), and no other copy. */
  function SortFiles(groups: seq<Group>, fileDir: string, files: seq<string>, dstDir: Option<string>): (plan: Plan)
    ensures |plan.dirs| == |groups|
    ensures forall k :: 0 <= k < |groups| ==> plan.dirs[k] == Join(Root(fileDir, dstDir), groups[k].key)
    ensures |plan.copies| == |Assignments(groups, files)|
    ensures forall p :: p in Assignments(groups, files) ==>
              Copy(Join(fileDir, p.1), Join(Join(Root(fileDir, dstDir), p.0), p.1)) in plan.copies
    ensures forall c :: c in plan.copies ==>
              exists p :: p in Assignments(groups, files)
                          && c == Copy(Join(fileDir, p.1), Join(Join(Root(fileDir, dstDir), p.0), p.1))
  {
    var root := Root(fileDir, dstDir);
    var pairs := Assignments(groups, files);
    CopiesForMembership(fileDir, root, pairs);
    Plan(seq(|groups|, k requires 0 <= k < |groups| => Join(root, groups[k].key)), CopiesFor(fileDir, root, pairs))
  }

  /** Every pair of `Assignments` names a listed file. */
  lemma AssignedFilesListed(groups: seq<Group>, files: seq<string>, j: int)
    requires 0 <= j < |Assignments(groups, files)|
    ensures Assignments(groups, files)[j].1 in files
  {
    var p := Assignments(groups, files)[j];
    AssignmentsMembership(groups, files, p.0, p.1);
  }

  /** The copies keep file names: each copy reads a listed file from the
      source directory and writes a file of the same name into the
      directory made for a key whose list matches that name. */
  lemma CopiesLandInLabelDirs(groups: seq<Group>, fileDir: string, files: seq<string>, dstDir: Option<string>, j: int)
    requires forall f :: f in files ==> '/' !in f
    requires 0 <= j < |SortFiles(groups, fileDir, files, dstDir).copies|
    ensures var plan := SortFiles(groups, fileDir, files, dstDir);
            var c := plan.copies[j];
            && FileName(c.src) == FileName(c.dst)
            && FileName(c.src) in files
            && c.src == Join(fileDir, FileName(c.src))
            && exists k :: 0 <= k < |groups| && c.dst == Join(plan.dirs[k], FileName(c.src))
                             && AnyIn(groups[k].mediaIds, FileName(c.src))
  {
    var plan := SortFiles(groups, fileDir, files, dstDir);
    var pairs := Assignments(groups, files);
    var root := Root(fileDir, dstDir);
    var p := pairs[j];
    AssignedFilesListed(groups, files, j);
    FileNameOfJoin(fileDir, p.1);
    FileNameOfJoin(Join(root, p.0), p.1);
    AssignmentsMembership(groups, files, p.0, p.1);
    assert p in pairs;
    var k :| 0 <= k < |groups| && groups[k].key == p.0 && AnyIn(groups[k].mediaIds, p.1);
    assert plan.dirs[k] == Join(root, p.0);
  }

  /** Leaving out the destination directory is the same as passing the
      source directory: the per-key directories are made inside it. */
  lemma DefaultDestinationIsSource(groups: seq<Group>, fileDir: string, files: seq<string>)
    ensures SortFiles(groups, fileDir, files, None) == SortFiles(groups, fileDir, files, Some(fileDir))
    ensures forall k :: 0 <= k < |groups| ==>
              SortFiles(groups, fileDir, files, None).dirs[k] == fileDir + "/" + groups[k].key
  {
  }

  /** The media id "abc123" occurs in the clip name "abc123_0.wav". */
  lemma ClipNameHoldsMediaId()
    ensures Contains("abc123_0.wav", "abc123")
  {
    ContainsInfix("", "abc123", "_0.wav");
    assert "" + "abc123" + "_0.wav" == "abc123_0.wav";
  }

  /** The clip is assigned to its one label. */
  lemma SpeechClipAssignments()
    ensures Assignments([Group("Speech", ["abc123"])], ["abc123_0.wav"]) == [("Speech", "abc123_0.wav")]
  {
    ClipNameHoldsMediaId();
    assert Contains("abc123_0.wav", ["abc123"][0]);
    var groups := [Group("Speech", ["abc123"])];
    assert FilePairs(groups, "abc123_0.wav") == [("Speech", "abc123_0.wav")];
  }

  /** One downloaded clip under one label: `abc123_0.wav` is copied to
      `dest/Speech/abc123_0.wav`. */
  lemma SpeechClipExample()
    ensures SortFiles([Group("Speech", ["abc123"])], "raw", ["abc123_0.wav"], Some("dest"))
            == Plan(["dest/Speech"], [Copy("raw/abc123_0.wav", "dest/Speech/abc123_0.wav")])
  {
    SpeechClipAssignments();
    SpeechClipPaths();
    var plan := SortFiles([Group("Speech", ["abc123"])], "raw", ["abc123_0.wav"], Some("dest"));
    assert plan.dirs[0] == "dest/Speech";
    assert plan.copies[0] == Copy("raw/abc123_0.wav", "dest/Speech/abc123_0.wav");
  }

  /** The paths of the one-clip example, joined with '/'. */
  lemma SpeechClipPaths()
    ensures Join("dest", "Speech") == "dest/Speech"
    ensures Join("raw", "abc123_0.wav") == "raw/abc123_0.wav"
    ensures Join("dest/Speech", "abc123_0.wav") == "dest/Speech/abc123_0.wav"
  {
  }

  /** One file can go to several keys: a name holding the media ids of two
      groups is copied into both directories, in dictionary order. */
  lemma SharedFileExample()
    ensures Assignments([Group("Speech", ["abc123"]), Group("Music", ["_0"])], ["abc123_0.wav"])
            == [("Speech", "abc123_0.wav"), ("Music", "abc123_0.wav")]
  {
    ClipNameHoldsMediaId();
    assert Contains("abc123_0.wav", ["abc123"][0]);
    assert "abc123_0.wav" == "abc123" + "_0" + ".wav";
    ContainsInfix("abc123", "_0", ".wav");
    assert Contains("abc123_0.wav", ["_0"][0]);
    var groups := [Group("Speech", ["abc123"]), Group("Music", ["_0"])];
    assert groups[1..][1..] == [];
    assert FilePairs(groups, "abc123_0.wav") == [("Speech", "abc123_0.wav"), ("Music", "abc123_0.wav")];
  }
}
