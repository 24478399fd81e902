/**
 The photo extraction job: the candidate filter, the destination rule, the
 skip-or-write decision per candidate, cooperative cancellation and the two
 counters. The filesystem is the set of paths that exist (files and
 directories alike, as `os.path.exists` sees them); the archive is the list
 of its member names.
 */
module Extraction {
  import opened KmzPaths
  import opened Candidates
  import opened Progress

  datatype Result<T, E> = Success(value: T) | Failure(error: E)

  datatype JobError =
    | KmzNotFound(path: string)       // the input is not a regular file
    | FolderNotCreated(path: string)  // `os.makedirs` refuses an empty folder name

  /** The one message the job pushes at the end. */
  datatype Info = NoPhotosFound | Summary(extracted: nat, skipped: nat)

  /**
   What a finished job leaves behind: the folder it returns, the paths that
   exist afterwards, the counters, the progress values reported in order
   and the closing message.
   */
  datatype Job = Job(outDir: string, paths: set<string>, extracted: nat, skipped: nat,
                     progress: seq<nat>, info: Info)

  /** The loop state: existing paths and the two counters. */
  datatype Tally = Tally(paths: set<string>, extracted: nat, skipped: nat)

  /** The name a member is written under inside the output folder. */
  function FileName(member: string, flatten: bool): (r: string)
    ensures flatten ==> SEP !in r && EndsWith(member, r)
    ensures flatten && SEP !in member ==> r == member
    ensures !flatten ==> r == member
  {
    if flatten then
      BasenameOfPlainNameIf(member);
      Basename(member)
    else member
  }

  lemma BasenameOfPlainNameIf(member: string)
    ensures SEP !in member ==> Basename(member) == member
  {
    if SEP !in member {
      BasenameOfPlainName(member);
    }
  }

  /** `os.path.join(out_dir, filename)`. */
  function Destination(outDir: string, member: string, flatten: bool): (r: string)
  {
    Join(outDir, FileName(member, flatten))
  }

  /**
   With flatten on, a non-empty output folder receives the member under its
   own basename, directly: no directory beyond those of the folder is needed.
   */
  lemma FlatDestination(outDir: string, member: string)
    requires outDir != []
    ensures Basename(Destination(outDir, member, true)) == Basename(member)
    ensures DirsAbove(Destination(outDir, member, true)) <= MakeDirs(outDir)
  {
    var name := FileName(member, true);
    var dest := Join(outDir, name);
    JoinBasename(outDir, name);
    assert !StartsWith(name, [SEP]) by {
      if |name| > 0 { assert name[0] in name; }
    }
    if outDir[|outDir| - 1] == SEP {
      assert dest == outDir + name;
      DirsAbovePlainTail(outDir, name);
    } else {
      assert dest == (outDir + [SEP]) + name;
      DirsAbovePlainTail(outDir + [SEP], name);
      DirsAboveFolder(outDir);
    }
  }

  /**
   With flatten off, a relative member name keeps its whole path under the
   output folder.
   */
  lemma NestedDestination(outDir: string, member: string)
    requires !StartsWith(member, [SEP])
    ensures StartsWith(Destination(outDir, member, false), outDir)
    ensures EndsWith(Destination(outDir, member, false), member)
    ensures outDir != [] && outDir[|outDir| - 1] != SEP ==>
      Destination(outDir, member, false) == outDir + [SEP] + member
  {
  }

  /** The directories a nested destination needs: the folder and one per level below it. */
  lemma NestedDirsExample()
    ensures DirsAbove("out/a/b/p.JPG") == {"out", "out/a", "out/a/b"}
  {
    assert "out/a/b/p.JPG" == "out/a/b" + [SEP] + "p.JPG";
    DirsAboveChild("out/a/b", "p.JPG");
    assert "out/a/b" == "out/a" + [SEP] + "b";
    DirsAboveChild("out/a", "b");
    assert "out/a" == "out" + [SEP] + "a";
    DirsAboveChild("out", "a");
    assert "out" == [] + "out";
    DirsAbovePlainTail([], "out");
  }

  /** Concrete case: with flatten on, "files/p.JPG" lands in "out/p.JPG". */
  lemma FlatDestinationExample()
    ensures Destination("out", "files/p.JPG", true) == "out/p.JPG"
  {
    assert "files/p.JPG" == "files/" + "p.JPG";
    BasenameUnique("files/", "p.JPG");
    assert "out" + [SEP] + "p.JPG" == "out/p.JPG";
  }

  /** With flatten off it lands in "out/files/p.JPG". */
  lemma NestedDestinationExample()
    ensures Destination("out", "files/p.JPG", false) == "out/files/p.JPG"
  {
    assert "out" + [SEP] + "files/p.JPG" == "out/files/p.JPG";
  }

  /** The destinations of the candidates, in order. */
  function Destinations(outDir: string, photos: seq<string>, flatten: bool): (r: seq<string>)
    ensures |r| == |photos|
    ensures forall i :: 0 <= i < |photos| ==> r[i] == Destination(outDir, photos[i], flatten)
  {
    seq(|photos|, i requires 0 <= i < |photos| => Destination(outDir, photos[i], flatten))
  }

  /** `(not overwrite) and os.path.exists(dest_path)`. */
  predicate Skips(paths: set<string>, dest: string, overwrite: bool)
  {
    !overwrite && dest in paths
  }

  /** Writing `dest` makes `q` exist: it is `dest` or a directory above it. */
  predicate MadeFor(q: string, dest: string)
  {
    q == dest || IsDirAbove(q, dest)
  }

  /** One candidate: skip it, or create its parent directories and write it. */
  function Step(t: Tally, dest: string, overwrite: bool): (r: Tally)
  {
    if Skips(t.paths, dest, overwrite) then t.(skipped := t.skipped + 1)
    else Tally(t.paths + DirsAbove(dest) + {dest}, t.extracted + 1, t.skipped)
  }

  /**
   Each candidate moves exactly one counter. It is skipped exactly when
   overwrite is off and its destination exists; a skip leaves the paths
   alone, a write adds the destination and the directories above it and
   removes nothing. Either way the destination exists afterwards.
   */
  lemma StepEffect(t: Tally, dest: string, overwrite: bool)
    ensures Step(t, dest, overwrite).extracted + Step(t, dest, overwrite).skipped
         == t.extracted + t.skipped + 1
    ensures Step(t, dest, overwrite).skipped == t.skipped + 1 <==> Skips(t.paths, dest, overwrite)
    ensures Skips(t.paths, dest, overwrite) ==> Step(t, dest, overwrite).extracted == t.extracted
    ensures !Skips(t.paths, dest, overwrite) ==>
      Step(t, dest, overwrite).extracted == t.extracted + 1 && Step(t, dest, overwrite).skipped == t.skipped
    ensures Skips(t.paths, dest, overwrite) ==> Step(t, dest, overwrite).paths == t.paths
    ensures !Skips(t.paths, dest, overwrite) ==>
      forall q :: q in Step(t, dest, overwrite).paths <==> q in t.paths || q == dest || IsDirAbove(q, dest)
    ensures dest in Step(t, dest, overwrite).paths
  {
  }

  /** The loop state after handling `dests` in order, starting from `t0`. */
  function Replay(t0: Tally, dests: seq<string>, overwrite: bool): (r: Tally)
    decreases |dests|
  {
    if dests == [] then t0
    else Step(Replay(t0, dests[..|dests| - 1], overwrite), dests[|dests| - 1], overwrite)
  }

  /** Handling one more candidate is one more step. */
  lemma ReplayNext(t0: Tally, dests: seq<string>, i: nat, overwrite: bool)
    requires i < |dests|
    ensures Replay(t0, dests[..i + 1], overwrite) == Step(Replay(t0, dests[..i], overwrite), dests[i], overwrite)
  {
    assert dests[..i + 1][..i] == dests[..i];
  }

  /**
   Every handled candidate moves exactly one counter, and paths are only
   ever added.
   */
  lemma {:induction false} ReplayCounts(t0: Tally, dests: seq<string>, overwrite: bool)
    ensures Replay(t0, dests, overwrite).extracted + Replay(t0, dests, overwrite).skipped
         == t0.extracted + t0.skipped + |dests|
    ensures t0.extracted <= Replay(t0, dests, overwrite).extracted
    ensures t0.skipped <= Replay(t0, dests, overwrite).skipped
    ensures t0.paths <= Replay(t0, dests, overwrite).paths
    decreases |dests|
  {
    if dests != [] {
      ReplayCounts(t0, dests[..|dests| - 1], overwrite);
    }
  }

  /** After the candidates are handled, every one of their destinations exists. */
  lemma {:induction false} ReplayCovers(t0: Tally, dests: seq<string>, overwrite: bool)
    ensures forall i :: 0 <= i < |dests| ==> dests[i] in Replay(t0, dests, overwrite).paths
    decreases |dests|
  {
    if dests != [] {
      var init := dests[..|dests| - 1];
      ReplayCovers(t0, init, overwrite);
      var before := Replay(t0, init, overwrite);
      ReplayCounts(before, [dests[|dests| - 1]], overwrite);
      assert [dests[|dests| - 1]][..0] == [];
      forall i | 0 <= i < |dests| ensures dests[i] in Replay(t0, dests, overwrite).paths {
        if i < |dests| - 1 {
          assert dests[i] == init[i];
        }
      }
    }
  }

  /**
   Nothing outside the candidates' destinations and the directories above
   them is created.
   */
  lemma {:induction false} ReplayOnlyAdds(t0: Tally, dests: seq<string>, overwrite: bool, q: string)
    requires q in Replay(t0, dests, overwrite).paths && q !in t0.paths
    ensures exists i :: 0 <= i < |dests| && (q == dests[i] || IsDirAbove(q, dests[i]))
    decreases |dests|
  {
    var init := dests[..|dests| - 1];
    var last := |dests| - 1;
    if q in Replay(t0, init, overwrite).paths {
      ReplayOnlyAdds(t0, init, overwrite, q);
      var i :| 0 <= i < |init| && (q == init[i] || IsDirAbove(q, init[i]));
      assert init[i] == dests[i];
    } else {
      assert q == dests[last] || IsDirAbove(q, dests[last]);
    }
  }

  /**
   When every destination already exists and overwrite is off, the handled
   candidates are all skipped and nothing on disk changes.
   */
  lemma {:induction false} ReplayAllExist(t0: Tally, dests: seq<string>)
    requires forall i :: 0 <= i < |dests| ==> dests[i] in t0.paths
    ensures Replay(t0, dests, false) == t0.(skipped := t0.skipped + |dests|)
    decreases |dests|
  {
    if dests != [] {
      var init := dests[..|dests| - 1];
      forall i | 0 <= i < |init| ensures init[i] in t0.paths {
        assert init[i] == dests[i];
      }
      ReplayAllExist(t0, init);
    }
  }

  /** With overwrite on, every handled candidate is written. */
  lemma {:induction false} ReplayOverwrite(t0: Tally, dests: seq<string>)
    ensures Replay(t0, dests, true).extracted == t0.extracted + |dests|
    ensures Replay(t0, dests, true).skipped == t0.skipped
    decreases |dests|
  {
    if dests != [] {
      ReplayOverwrite(t0, dests[..|dests| - 1]);
    }
  }

  /**
   How many candidates are handled when `canceled(idx)` is what
   `feedback.isCanceled()` answers just before candidate `idx` (1-based):
   the loop stops at the first positive answer. Counting starts after the
   `i` candidates already known to pass the poll.
   */
  function HandledFrom(canceled: nat -> bool, i: nat, total: nat): (n: nat)
    requires i <= total
    requires forall j :: 1 <= j <= i ==> !canceled(j)
    ensures i <= n <= total
    ensures forall j :: 1 <= j <= n ==> !canceled(j)
    ensures n < total ==> canceled(n + 1)
    decreases total - i
  {
    if i == total || canceled(i + 1) then i else HandledFrom(canceled, i + 1, total)
  }

  /** The number of candidates the loop handles before it is cancelled or runs out. */
  function Handled(canceled: nat -> bool, total: nat): (n: nat)
    ensures n <= total
    ensures forall j :: 1 <= j <= n ==> !canceled(j)
    ensures n < total ==> canceled(n + 1)
  {
    HandledFrom(canceled, 0, total)
  }

  /** Those three facts pin the number down. */
  lemma HandledUnique(canceled: nat -> bool, total: nat, n: nat)
    requires n <= total
    requires forall j :: 1 <= j <= n ==> !canceled(j)
    requires n < total ==> canceled(n + 1)
    ensures n == Handled(canceled, total)
  {
  }

  /**
   Cancellation first seen at candidate `k` leaves exactly `k - 1`
   candidates handled.
   */
  lemma HandledCancelAt(canceled: nat -> bool, total: nat, k: nat)
    requires 1 <= k <= total
    requires forall j :: 1 <= j < k ==> !canceled(j)
    requires canceled(k)
    ensures Handled(canceled, total) == k - 1
  {
    HandledUnique(canceled, total, k - 1);
  }

  /** Without cancellation every candidate is handled. */
  lemma HandledAll(canceled: nat -> bool, total: nat)
    requires forall j :: 1 <= j <= total ==> !canceled(j)
    ensures Handled(canceled, total) == total
  {
    HandledUnique(canceled, total, total);
  }

  /**
   The whole job as a function of its inputs: whether the input is a
   regular file, its path, the archive's member names, the output folder,
   the two flags, the cancellation answers and the paths that exist before
   the job starts.
   */
  function Run(kmzIsFile: bool, kmzPath: string, members: seq<string>, outDir: string,
               flatten: bool, overwrite: bool, canceled: nat -> bool, disk: set<string>)
    : (r: Result<Job, JobError>)
  {
    if !kmzIsFile then Failure(KmzNotFound(kmzPath))
    else if outDir == [] then Failure(FolderNotCreated(outDir))
    else
      var paths := disk + MakeDirs(outDir);
      var photos := PhotoMembers(members);
      if photos == [] then Success(Job(outDir, paths, 0, 0, [], NoPhotosFound))
      else
        var n := Handled(canceled, |photos|);
        var t := Replay(Tally(paths, 0, 0), Destinations(outDir, photos, flatten)[..n], overwrite);
        Success(Job(outDir, t.paths, t.extracted, t.skipped, Reports(n, |photos|), Summary(t.extracted, t.skipped)))
  }

  /**
   Only a missing input or an empty folder name fail the job; otherwise it
   returns the folder, keeps every path that existed, and has moved one
   counter per handled candidate, never more than there are candidates.
   */
  lemma RunCounts(kmzIsFile: bool, kmzPath: string, members: seq<string>, outDir: string,
                  flatten: bool, overwrite: bool, canceled: nat -> bool, disk: set<string>)
    ensures var r := Run(kmzIsFile, kmzPath, members, outDir, flatten, overwrite, canceled, disk);
      && (r.Failure? <==> !kmzIsFile || outDir == [])
      && (!kmzIsFile ==> r == Failure(KmzNotFound(kmzPath)))
      && (r.Success? ==> r.value.outDir == outDir && disk + MakeDirs(outDir) <= r.value.paths)
      && (r.Success? ==> r.value.extracted + r.value.skipped == |r.value.progress| <= |PhotoMembers(members)|)
  {
    if kmzIsFile && outDir != [] {
      var photos := PhotoMembers(members);
      if photos != [] {
        var n := Handled(canceled, |photos|);
        ReplayCounts(Tally(disk + MakeDirs(outDir), 0, 0), Destinations(outDir, photos, flatten)[..n], overwrite);
      }
    }
  }

  /** With no candidate in the archive the job stops after creating the folder, with zero counts. */
  lemma RunNoCandidates(kmzPath: string, members: seq<string>, outDir: string,
                        flatten: bool, overwrite: bool, canceled: nat -> bool, disk: set<string>)
    requires outDir != []
    requires forall i :: 0 <= i < |members| ==> !IsPhoto(members[i])
    ensures Run(true, kmzPath, members, outDir, flatten, overwrite, canceled, disk)
         == Success(Job(outDir, disk + MakeDirs(outDir), 0, 0, [], NoPhotosFound))
  {
    PhotoMembersEmpty(members);
  }

  /**
   Cancellation first seen at candidate `k` stops the job normally, with
   `k - 1` candidates handled and counted and the summary pushed.
   */
  lemma RunCancelAt(kmzPath: string, members: seq<string>, outDir: string, flatten: bool,
                    overwrite: bool, canceled: nat -> bool, disk: set<string>, k: nat)
    requires outDir != []
    requires 1 <= k <= |PhotoMembers(members)|
    requires forall j :: 1 <= j < k ==> !canceled(j)
    requires canceled(k)
    ensures var r := Run(true, kmzPath, members, outDir, flatten, overwrite, canceled, disk);
      && r.Success?
      && |r.value.progress| == r.value.extracted + r.value.skipped == k - 1
      && r.value.info == Summary(r.value.extracted, r.value.skipped)
  {
    HandledCancelAt(canceled, |PhotoMembers(members)|, k);
    RunCounts(true, kmzPath, members, outDir, flatten, overwrite, canceled, disk);
  }

  /**
   Candidates from the first cancelled one on leave no trace: the job
   leaves exactly the paths and counters of a job over only the first
   `k - 1` candidates that is never cancelled.
   */
  lemma RunCancelAtIgnoresRest(kmzPath: string, members: seq<string>, outDir: string, flatten: bool,
                               overwrite: bool, canceled: nat -> bool, disk: set<string>, k: nat)
    requires outDir != []
    requires 1 <= k <= |PhotoMembers(members)|
    requires forall j :: 1 <= j < k ==> !canceled(j)
    requires canceled(k)
    ensures var r := Run(true, kmzPath, members, outDir, flatten, overwrite, canceled, disk);
            var s := Run(true, kmzPath, PhotoMembers(members)[..k - 1], outDir, flatten, overwrite,
                         (j: nat) => false, disk);
      && r.Success? && s.Success?
      && r.value.paths == s.value.paths
      && r.value.extracted == s.value.extracted
      && r.value.skipped == s.value.skipped
  {
    var never := (j: nat) => false;
    RunTally(kmzPath, members, outDir, flatten, overwrite, canceled, disk);
    RunTally(kmzPath, PhotoMembers(members)[..k - 1], outDir, flatten, overwrite, never, disk);
    CancelAtDestinations(members, outDir, flatten, canceled, k);
  }

  /**
   The destinations handled when cancellation is first seen at candidate
   `k` are those of the first `k - 1` candidates, all handled.
   */
  lemma CancelAtDestinations(members: seq<string>, outDir: string, flatten: bool,
                             canceled: nat -> bool, k: nat)
    requires 1 <= k <= |PhotoMembers(members)|
    requires forall j :: 1 <= j < k ==> !canceled(j)
    requires canceled(k)
    ensures var photos := PhotoMembers(members);
            var pre := PhotoMembers(photos[..k - 1]);
      Destinations(outDir, photos, flatten)[..Handled(canceled, |photos|)]
      == Destinations(outDir, pre, flatten)[..Handled((j: nat) => false, |pre|)]
  {
    var photos := PhotoMembers(members);
    var pre := photos[..k - 1];
    HandledCancelAt(canceled, |photos|, k);
    PhotoMembersOfPhotos(pre);
    HandledAll((j: nat) => false, k - 1);
    DestinationsPrefix(outDir, photos, flatten, k - 1);
    assert Destinations(outDir, pre, flatten)[..k - 1] == Destinations(outDir, pre, flatten);
  }

  /** A job with a usable folder ends in the state of replaying its handled destinations. */
  lemma RunTally(kmzPath: string, members: seq<string>, outDir: string, flatten: bool,
                 overwrite: bool, canceled: nat -> bool, disk: set<string>)
    requires outDir != []
    ensures var r := Run(true, kmzPath, members, outDir, flatten, overwrite, canceled, disk);
            var photos := PhotoMembers(members);
      && r.Success?
      && Tally(r.value.paths, r.value.extracted, r.value.skipped)
         == Replay(Tally(disk + MakeDirs(outDir), 0, 0),
                   Destinations(outDir, photos, flatten)[..Handled(canceled, |photos|)], overwrite)
  {
    var photos := PhotoMembers(members);
    if photos == [] {
      assert Destinations(outDir, photos, flatten)[..Handled(canceled, 0)] == [];
    }
  }

  lemma DestinationsPrefix(outDir: string, photos: seq<string>, flatten: bool, n: nat)
    requires n <= |photos|
    ensures Destinations(outDir, photos[..n], flatten) == Destinations(outDir, photos, flatten)[..n]
  {
  }

  /**
   Idempotence: once a job has handled every candidate, a second job over
   the same archive and folder with overwrite off writes nothing, skips
   every candidate it reaches, and leaves the paths as they were.
   */
  lemma RunIdempotent(kmzPath: string, members: seq<string>, outDir: string, flatten: bool,
                      overwrite: bool, canceled: nat -> bool, disk: set<string>, again: nat -> bool)
    requires outDir != []
    requires forall j :: 1 <= j <= |PhotoMembers(members)| ==> !canceled(j)
    ensures var first := Run(true, kmzPath, members, outDir, flatten, overwrite, canceled, disk);
      first.Success? &&
      var second := Run(true, kmzPath, members, outDir, flatten, false, again, first.value.paths);
      && second.Success?
      && second.value.extracted == 0
      && second.value.skipped == |second.value.progress|
      && second.value.paths == first.value.paths
      && ((forall j :: 1 <= j <= |PhotoMembers(members)| ==> !again(j)) ==>
            second.value.skipped == |PhotoMembers(members)|)
  {
    var photos := PhotoMembers(members);
    var first := Run(true, kmzPath, members, outDir, flatten, overwrite, canceled, disk);
    RunCounts(true, kmzPath, members, outDir, flatten, overwrite, canceled, disk);
    var paths1 := first.value.paths;
    assert paths1 + MakeDirs(outDir) == paths1;
    if photos != [] {
      var dests := Destinations(outDir, photos, flatten);
      HandledAll(canceled, |photos|);
      assert dests[..|photos|] == dests;
      ReplayCovers(Tally(disk + MakeDirs(outDir), 0, 0), dests, overwrite);
      var n := Handled(again, |photos|);
      forall i | 0 <= i < |dests[..n]| ensures dests[..n][i] in paths1 {
        assert dests[..n][i] == dests[i];
      }
      ReplayAllExist(Tally(paths1, 0, 0), dests[..n]);
      if forall j :: 1 <= j <= |photos| ==> !again(j) {
        HandledAll(again, |photos|);
      }
    }
  }

  /** With overwrite on, nothing is skipped: every handled candidate is written. */
  lemma RunOverwrite(kmzPath: string, members: seq<string>, outDir: string, flatten: bool,
                     canceled: nat -> bool, disk: set<string>)
    requires outDir != []
    ensures var r := Run(true, kmzPath, members, outDir, flatten, true, canceled, disk);
      r.Success? && r.value.skipped == 0 && r.value.extracted == |r.value.progress|
  {
    var photos := PhotoMembers(members);
    if photos != [] {
      var n := Handled(canceled, |photos|);
      ReplayOverwrite(Tally(disk + MakeDirs(outDir), 0, 0), Destinations(outDir, photos, flatten)[..n]);
    }
  }

  /**
   The reported progress stays within 0..100, never decreases, and ends at
   100 when no cancellation interrupts the job.
   */
  lemma RunProgress(kmzPath: string, members: seq<string>, outDir: string, flatten: bool,
                    overwrite: bool, canceled: nat -> bool, disk: set<string>)
    requires outDir != []
    ensures var r := Run(true, kmzPath, members, outDir, flatten, overwrite, canceled, disk);
      var p := r.value.progress;
      && r.Success?
      && (forall i :: 0 <= i < |p| ==> p[i] <= 100)
      && (forall i, j :: 0 <= i <= j < |p| ==> p[i] <= p[j])
      && (PhotoMembers(members) != [] && (forall j :: 1 <= j <= |PhotoMembers(members)| ==> !canceled(j)) ==>
            |p| == |PhotoMembers(members)| && p[|p| - 1] == 100)
  {
    var photos := PhotoMembers(members);
    if photos != [] {
      var n := Handled(canceled, |photos|);
      ReportsShape(n, |photos|);
      if forall j :: 1 <= j <= |photos| ==> !canceled(j) {
        HandledAll(canceled, |photos|);
      }
    }
  }

  /**
   Nothing else changes: every path that exists after the job existed
   before, is the output folder or a directory above it, or is the
   destination of a handled candidate or a directory above that.
   */
  lemma RunOnlyAdds(kmzPath: string, members: seq<string>, outDir: string, flatten: bool,
                    overwrite: bool, canceled: nat -> bool, disk: set<string>, q: string)
    requires outDir != []
    requires q in Run(true, kmzPath, members, outDir, flatten, overwrite, canceled, disk).value.paths
    requires q !in disk && q !in MakeDirs(outDir)
    ensures exists i :: 0 <= i < Handled(canceled, |PhotoMembers(members)|) && MadeFor(q, Destination(outDir, PhotoMembers(members)[i], flatten))
  {
    var photos := PhotoMembers(members);
    var n := Handled(canceled, |photos|);
    var dests := Destinations(outDir, photos, flatten)[..n];
    ReplayOnlyAdds(Tally(disk + MakeDirs(outDir), 0, 0), dests, overwrite, q);
    var i :| 0 <= i < |dests| && (q == dests[i] || IsDirAbove(q, dests[i]));
    assert dests[i] == Destination(outDir, photos[i], flatten);
    assert MadeFor(q, Destination(outDir, photos[i], flatten));
  }

  /**
   The body of the candidate loop after the destination is known: skip it
   when overwrite is off and it exists (`continue`), otherwise create its
   parent directories, write it, and count it as extracted.
   */
  method CopyOne(paths: set<string>, extracted: nat, skipped: nat, dest: string, overwrite: bool)
    returns (paths': set<string>, extracted': nat, skipped': nat)
    ensures Tally(paths', extracted', skipped') == Step(Tally(paths, extracted, skipped), dest, overwrite)
  {
    paths', extracted', skipped' := paths, extracted, skipped;
    if !overwrite && dest in paths' {
      skipped' := skipped' + 1;
      return;
    }
    paths' := paths' + DirsAbove(dest);   // os.makedirs(os.path.dirname(dest_path))
    paths' := paths' + {dest};            // open(dest_path, "wb")
    extracted' := extracted' + 1;
  }

  /**
   The candidate loop (`for idx, member in enumerate(photo_members, start=1)`):
   polls cancellation, reports progress, then skips an existing destination
   when overwrite is off or writes it otherwise. It stops at the first
   positive poll; the state it leaves is that of replaying the handled
   candidates' destinations from the initial paths.
   */
  method CopyCandidates(photos: seq<string>, outDir: string, flatten: bool, overwrite: bool,
                        canceled: nat -> bool, paths0: set<string>)
    returns (paths: set<string>, extracted: nat, skipped: nat, progress: seq<nat>)
    requires photos != []
    ensures |progress| == Handled(canceled, |photos|)
    ensures progress == Reports(|progress|, |photos|)
    ensures Tally(paths, extracted, skipped)
         == Replay(Tally(paths0, 0, 0), Destinations(outDir, photos, flatten)[..|progress|], overwrite)
  {
    paths, extracted, skipped := paths0, 0, 0;
    var total := |photos|;
    ghost var dests := Destinations(outDir, photos, flatten);
    ghost var start := Tally(paths0, 0, 0);
    progress := [];
    var i := 0;
    while i < total
      invariant i <= total && |progress| == i
      invariant forall j :: 1 <= j <= i ==> !canceled(j)
      invariant Tally(paths, extracted, skipped) == Replay(start, dests[..i], overwrite)
      invariant progress == Reports(i, total)
    {
      if canceled(i + 1) {
        break;
      }
      ReportsNext(i, total);
      progress := progress + [Percent(i + 1, total)];
      var dest := Destination(outDir, photos[i], flatten);
      ReplayNext(start, dests, i, overwrite);
      paths, extracted, skipped := CopyOne(paths, extracted, skipped, dest, overwrite);
      i := i + 1;
    }
    HandledUnique(canceled, total, i);
  }

  /**
   `processAlgorithm`: checks the input, creates the output folder, filters
   the members, returns early when there is nothing to copy, and otherwise
   runs the candidate loop and reports its counters.
   */
  method ProcessAlgorithm(kmzIsFile: bool, kmzPath: string, members: seq<string>, outDir: string,
                          flatten: bool, overwrite: bool, canceled: nat -> bool, disk: set<string>)
    returns (r: Result<Job, JobError>)
    ensures r == Run(kmzIsFile, kmzPath, members, outDir, flatten, overwrite, canceled, disk)
    ensures !kmzIsFile ==> r == Failure(KmzNotFound(kmzPath))
    ensures r.Failure? <==> !kmzIsFile || outDir == []
    ensures r.Success? ==> r.value.outDir == outDir && disk <= r.value.paths
    ensures r.Success? ==>
      r.value.extracted + r.value.skipped == |r.value.progress| <= |PhotoMembers(members)|
  {
    RunCounts(kmzIsFile, kmzPath, members, outDir, flatten, overwrite, canceled, disk);
    if !kmzIsFile {
      return Failure(KmzNotFound(kmzPath));
    }
    if outDir == [] {
      return Failure(FolderNotCreated(outDir));
    }
    var paths := disk + MakeDirs(outDir);
    var photos := PhotoMembers(members);
    if photos == [] {
      return Success(Job(outDir, paths, 0, 0, [], NoPhotosFound));
    }
    var extracted, skipped, progress;
    paths, extracted, skipped, progress := CopyCandidates(photos, outDir, flatten, overwrite, canceled, paths);
    r := Success(Job(outDir, paths, extracted, skipped, progress, Summary(extracted, skipped)));
  }
}
