/**
 * What the command handlers of the playground guarantee: the repository invariant holds from
 * the start and after every button, and each handler changes exactly what it should.
 */
module RepoProperties {
  import opened Wrappers
  import opened PyDict
  import opened Repo

  // ---------------------------------------------------------------- helpers about the folds

  /** Writing the staged files into a snapshot under their names writes their contents under
      their keys, since every loaded file is stored under its own name. */
  lemma {:induction false} RecordFilesEntries(snap: Dict<string>, fs: map<string, GitFile>, ks: seq<string>)
    requires forall k <- ks :: k in fs && fs[k].name == k
    ensures RecordFiles(snap, fs, ks).entries == snap.entries + map k | k in ks :: fs[k].content
    ensures snap.Valid() ==> RecordFiles(snap, fs, ks).Valid()
    decreases |ks|
  {
    var contents := map k | k in fs :: fs[k].content;
    RecordFilesIsPutEach(snap, fs, ks, contents);
    PutEachEntries(snap, contents, ks);
    assert (map k | k in ks :: contents[k]) == (map k | k in ks :: fs[k].content);
  }

  lemma {:induction false} RecordFilesIsPutEach(snap: Dict<string>, fs: map<string, GitFile>, ks: seq<string>,
                                                contents: map<string, string>)
    requires forall k <- ks :: k in fs && fs[k].name == k
    requires contents == map k | k in fs :: fs[k].content
    ensures RecordFiles(snap, fs, ks) == PutEach(snap, contents, ks)
    decreases |ks|
  {
    if ks != [] {
      RecordFilesIsPutEach(Put(snap, ks[0], contents[ks[0]]), fs, ks[1..], contents);
    }
  }

  /** The staged list is empty exactly when no loaded file is staged. */
  lemma NoStagedKeys(s: State)
    requires s.files.Valid()
    ensures StagedKeys(s.files.keys, s.files.entries) == []
            <==> forall k :: k in s.files.entries ==> !s.files.entries[k].staged
  {
    var r := StagedKeys(s.files.keys, s.files.entries);
    if r != [] {
      assert r[0] in r;
    }
  }

  // ---------------------------------------------------------------- the invariant

  lemma InitialInv()
    ensures Inv(Initial())
  {
  }

  /** Loading a new, empty file under a name not yet loaded keeps the invariant. */
  lemma InvAfterFileAdd(s: State, n: string)
    requires Inv(s) && n !in s.files.entries
    ensures Inv(s.(files := Put(s.files, n, NewGitFile(n))))
  {
  }

  lemma NewFilePreservesInv(s: State, name: Option<string>)
    requires Inv(s)
    ensures Inv(NewFile(s, name).next)
  {
    if s.initialized && Given(name) && name.value !in s.files.entries {
      InvAfterFileAdd(s, name.value);
    }
  }

  lemma OpenFileDialogPreservesInv(s: State, name: Option<string>)
    requires Inv(s)
    ensures Inv(OpenFileDialog(s, name).next)
  {
  }

  /** Rewriting one loaded file keeps the invariant when the new file is well formed and has the
      same committed state as the old one. */
  lemma InvAfterFileWrite(s: State, n: string, f: GitFile)
    requires Inv(s) && n in s.files.entries && WellFormed(n, f)
    requires f.committed == s.files.entries[n].committed
    requires f.lastCommitContent == s.files.entries[n].lastCommitContent
    ensures Inv(s.(files := Put(s.files, n, f)))
  {
  }

  lemma SaveFilePreservesInv(s: State, text: string)
    requires Inv(s)
    ensures Inv(SaveFile(s, text).next)
  {
    if Given(s.currentFile) && s.currentFile.value in s.files.entries {
      var n := s.currentFile.value;
      var f := s.files.entries[n];
      InvAfterFileWrite(s, n, f.(content := text, modified := true));
    }
  }

  lemma ResetFilePreservesInv(s: State)
    requires Inv(s)
    ensures Inv(ResetFile(s).next)
  {
    if Given(s.currentFile) && s.currentFile.value in s.files.entries {
      var n := s.currentFile.value;
      var f := s.files.entries[n];
      InvAfterFileWrite(s, n, f.(content := f.lastCommitContent, modified := false, staged := false));
    }
  }

  lemma GitAddPreservesInv(s: State)
    requires Inv(s)
    ensures Inv(GitAdd(s).next)
  {
  }

  /** Writing new loaded files, a new snapshot of the current branch and commit lists over the
      same branches keeps the invariant, provided the new files agree with the new snapshot. */
  lemma InvAfterWrite(s: State, files: Dict<GitFile>, snap: Dict<string>, branches: Dict<seq<string>>)
    requires Consistent(s)
    requires files.Valid() && snap.Valid() && branches.Valid() && branches.keys == s.branches.keys
    requires forall k :: k in files.entries ==> WellFormed(k, files.entries[k])
    requires Tracks(files.entries, snap.entries)
    ensures Inv(s.(files := files, branchFiles := Put(s.branchFiles, s.currentBranch, snap), branches := branches))
  {
    assert s.currentBranch in branches.entries by {
      assert s.currentBranch in s.branches.keys;
    }
  }

  /** Committing the staged files keeps each file well formed and the loaded files in agreement
      with the snapshot that now also records the staged contents. */
  lemma CommitKeepsTracking(d: Dict<GitFile>, snap: map<string, string>, snap': map<string, string>)
    requires forall k :: k in d.entries ==> WellFormed(k, d.entries[k])
    requires Tracks(d.entries, snap)
    requires snap' == snap + map k | k in d.entries && d.entries[k].staged :: d.entries[k].content
    ensures forall k :: k in CommitStaged(d).entries ==> WellFormed(k, CommitStaged(d).entries[k])
    ensures Tracks(CommitStaged(d).entries, snap')
  {
  }

  /** Committing the files `ks` one at a time commits each of them and leaves the other files as
      they were. */
  lemma {:induction false} CommitKeysEntries(d: Dict<GitFile>, fs: map<string, GitFile>, ks: seq<string>)
    requires forall k <- ks :: k in fs
    ensures forall k :: k in CommitKeys(d, fs, ks).entries <==> k in d.entries || k in ks
    ensures forall k | k in CommitKeys(d, fs, ks).entries ::
      CommitKeys(d, fs, ks).entries[k] == if k in ks then CommitFile(fs[k]) else d.entries[k]
    decreases |ks|
  {
    if ks != [] {
      CommitKeysEntries(Put(d, ks[0], CommitFile(fs[ks[0]])), fs, ks[1..]);
      assert forall k :: k in ks <==> k == ks[0] || k in ks[1..];
    }
  }

  /** Committing files that are all loaded keeps the order of the loaded files. */
  lemma {:induction false} CommitKeysOrder(d: Dict<GitFile>, fs: map<string, GitFile>, ks: seq<string>)
    requires forall k <- ks :: k in fs && k in d.entries
    ensures CommitKeys(d, fs, ks).keys == d.keys
    decreases |ks|
  {
    if ks != [] {
      CommitKeysOrder(Put(d, ks[0], CommitFile(fs[ks[0]])), fs, ks[1..]);
    }
  }

  /** Committing the staged files one at a time gives the loaded files after the commit. */
  lemma CommitKeysStaged(d: Dict<GitFile>)
    requires d.Valid()
    ensures CommitKeys(d, d.entries, StagedKeys(d.keys, d.entries)) == CommitStaged(d)
  {
    var staged := StagedKeys(d.keys, d.entries);
    var r := CommitKeys(d, d.entries, staged);
    assert r.keys == d.keys by {
      CommitKeysOrder(d, d.entries, staged);
    }
    assert r.entries == CommitStaged(d).entries by {
      CommitKeysEntries(d, d.entries, staged);
      StagedOnly(r.entries, d.entries, staged);
    }
  }

  /** The files after committing exactly the staged ones, pointwise, are the committed files. */
  lemma StagedOnly(r: map<string, GitFile>, fs: map<string, GitFile>, staged: seq<string>)
    requires forall k :: k in staged <==> k in fs && fs[k].staged
    requires forall k :: k in r <==> k in fs || k in staged
    requires forall k | k in r :: r[k] == if k in staged then CommitFile(fs[k]) else fs[k]
    ensures r == map k | k in fs :: if fs[k].staged then CommitFile(fs[k]) else fs[k]
  {
  }

  /** The snapshot a successful commit leaves on the current branch: the old one with the staged
      files' contents written over it. */
  lemma CommittedSnapshot(d: Dict<GitFile>, snap: Dict<string>)
    requires d.Valid()
    requires forall k :: k in d.entries ==> d.entries[k].name == k
    ensures var rec := RecordFiles(snap, d.entries, StagedKeys(d.keys, d.entries));
      && (snap.Valid() ==> rec.Valid())
      && rec.entries == snap.entries + map k | k in d.entries && d.entries[k].staged :: d.entries[k].content
  {
    var staged := StagedKeys(d.keys, d.entries);
    var fs := d.entries;
    var rec := RecordFiles(snap, fs, staged);
    assert (snap.Valid() ==> rec.Valid()) && rec.entries == snap.entries + map k | k in staged :: fs[k].content by {
      RecordFilesEntries(snap, fs, staged);
    }
    StagedContents(fs, staged);
  }

  /** The contents of the files listed as staged are the contents of the staged files. */
  lemma StagedContents(fs: map<string, GitFile>, staged: seq<string>)
    requires forall k :: k in staged <==> k in fs && fs[k].staged
    ensures (map k | k in staged :: fs[k].content) == (map k | k in fs && fs[k].staged :: fs[k].content)
  {
  }

  lemma GitCommitPreservesInv(s: State, msg: Option<string>)
    requires Inv(s)
    ensures Inv(GitCommit(s, msg).next)
  {
    var staged := StagedKeys(s.files.keys, s.files.entries);
    if staged != [] && Given(msg) {
      var cur := s.currentBranch;
      var snap := s.branchFiles.entries[cur];
      var newSnap := RecordFiles(snap, s.files.entries, staged);
      var branches := Put(s.branches, cur, s.branches.entries[cur] + [msg.value]);
      CommittedSnapshot(s.files, snap);
      CommitKeepsTracking(s.files, snap.entries, newSnap.entries);
      InvAfterWrite(s, CommitStaged(s.files), newSnap, branches);
      assert GitCommit(s, msg).next
          == s.(files := CommitStaged(s.files), branchFiles := Put(s.branchFiles, cur, newSnap), branches := branches)
                .(commitHistory := s.commitHistory + [msg.value]);
    }
  }

  lemma FromSnapshotTracks(snap: Dict<string>)
    requires snap.Valid()
    ensures FromSnapshot(snap).Valid()
    ensures forall k :: k in FromSnapshot(snap).entries ==> WellFormed(k, FromSnapshot(snap).entries[k])
    ensures Tracks(FromSnapshot(snap).entries, snap.entries)
  {
  }

  lemma GitCheckoutPreservesInv(s: State, branch: Option<string>)
    requires Inv(s)
    ensures Inv(GitCheckout(s, branch).next)
  {
    if Given(branch) {
      var b := branch.value;
      var r := GitCheckout(s, branch).next;
      assert b in s.branches.entries <==> b in s.branchFiles.entries by {
        assert b in s.branches.entries <==> b in s.branches.keys;
      }
      FromSnapshotTracks(r.branchFiles.entries[b]);
    }
  }

  /** Writing a snapshot over the loaded files and over the current snapshot keeps them in
      agreement. */
  lemma MergeKeepsTracking(fs: map<string, GitFile>, snap: map<string, string>, src: map<string, string>)
    requires forall k :: k in fs ==> WellFormed(k, fs[k])
    requires Tracks(fs, snap)
    ensures var fs' := fs + map k | k in src :: SnapshotFile(k, src[k]);
      && (forall k :: k in fs' ==> WellFormed(k, fs'[k]))
      && Tracks(fs', snap + src)
  {
  }

  lemma GitMergePreservesInv(s: State, branch: Option<string>)
    requires Inv(s)
    ensures Inv(GitMerge(s, branch).next)
  {
    var cur := s.currentBranch;
    if Given(branch) && branch.value != cur && branch.value in s.branchFiles.entries {
      var src := s.branchFiles.entries[branch.value];
      var snap := s.branchFiles.entries[cur];
      FromSnapshotTracks(src);
      UpdateSpec(s.files, FromSnapshot(src));
      UpdateSpec(snap, src);
      MergeKeepsTracking(s.files.entries, snap.entries, src.entries);
      InvAfterWrite(s, Update(s.files, FromSnapshot(src)), Update(snap, src), s.branches);
    }
  }

  lemma GitRemoteAddPreservesInv(s: State)
    requires Inv(s)
    ensures Inv(GitRemoteAdd(s).next)
  {
  }

  /** Every button keeps the invariant. */
  lemma ApplyPreservesInv(s: State, c: Command)
    requires Inv(s)
    ensures Inv(Apply(s, c).next)
  {
    match c
    case New(name) => NewFilePreservesInv(s, name);
    case Open(name) => OpenFileDialogPreservesInv(s, name);
    case Save(text) => SaveFilePreservesInv(s, text);
    case Reset => ResetFilePreservesInv(s);
    case Init =>
    case Add => GitAddPreservesInv(s);
    case Commit(msg) => GitCommitPreservesInv(s, msg);
    case Checkout(branch) => GitCheckoutPreservesInv(s, branch);
    case Merge(branch) => GitMergePreservesInv(s, branch);
    case RemoteAdd => GitRemoteAddPreservesInv(s);
  }

  /** The state after pressing the buttons `cmds` in order; every such state keeps the invariant. */
  ghost function Run(s: State, cmds: seq<Command>): (r: State)
    requires Inv(s)
    ensures Inv(r)
    decreases |cmds|
  {
    if cmds == [] then s
    else
      ApplyPreservesInv(s, cmds[0]);
      Run(Apply(s, cmds[0]).next, cmds[1..])
  }

  /** Every state the simulator can reach from its start satisfies the invariant. */
  lemma ReachableInv(cmds: seq<Command>)
    ensures Inv(Run(Initial(), cmds))
  {
    InitialInv();
  }

  // ---------------------------------------------------------------- git add

  /** `git add` stages exactly the modified files, changes nothing else, and reports that there
      was nothing to add exactly when no file was modified. */
  lemma GitAddStagesModified(s: State)
    ensures var r := GitAdd(s);
      && r.next == s.(files := r.next.files)
      && r.next.files.keys == s.files.keys
      && (forall k :: k in r.next.files.entries <==> k in s.files.entries)
      && (forall k :: k in s.files.entries ==>
            r.next.files.entries[k] == s.files.entries[k].(staged := s.files.entries[k].staged || s.files.entries[k].modified))
      && (r.out == [NothingToAdd] <==> forall k :: k in s.files.entries ==> !s.files.entries[k].modified)
      && (r.out == [NothingToAdd] || r.out == [ChangesStaged])
  {
  }

  /** Staging the files `ks` one at a time stages the modified ones and leaves the other files
      as they were. */
  lemma {:induction false} StageKeysEntries(d: Dict<GitFile>, fs: map<string, GitFile>, ks: seq<string>)
    requires forall k <- ks :: k in fs
    ensures forall k :: k in StageKeys(d, fs, ks).entries <==> k in d.entries || (k in ks && fs[k].modified)
    ensures forall k | k in StageKeys(d, fs, ks).entries ::
      StageKeys(d, fs, ks).entries[k] == if k in ks && fs[k].modified then fs[k].(staged := true) else d.entries[k]
    decreases |ks|
  {
    if ks != [] {
      var d' := if fs[ks[0]].modified then Put(d, ks[0], fs[ks[0]].(staged := true)) else d;
      StageKeysEntries(d', fs, ks[1..]);
      assert forall k :: k in ks <==> k == ks[0] || k in ks[1..];
    }
  }

  /** Staging files that are all loaded keeps the order of the loaded files. */
  lemma {:induction false} StageKeysOrder(d: Dict<GitFile>, fs: map<string, GitFile>, ks: seq<string>)
    requires forall k <- ks :: k in fs && k in d.entries
    ensures StageKeys(d, fs, ks).keys == d.keys
    decreases |ks|
  {
    if ks != [] {
      var d' := if fs[ks[0]].modified then Put(d, ks[0], fs[ks[0]].(staged := true)) else d;
      StageKeysOrder(d', fs, ks[1..]);
    }
  }

  /** Staging the loaded files one at a time gives the loaded files after `git add`. */
  lemma StageKeysAll(d: Dict<GitFile>)
    requires d.Valid()
    ensures StageKeys(d, d.entries, d.keys) == StageAll(d)
  {
    var r := StageKeys(d, d.entries, d.keys);
    assert r.keys == d.keys by {
      StageKeysOrder(d, d.entries, d.keys);
    }
    assert r.entries == StageAll(d).entries by {
      StageKeysEntries(d, d.entries, d.keys);
    }
  }

  /** Some file of `ks` is modified in `fs`, looked at one key at a time. */
  ghost function ModifiedAmong(fs: map<string, GitFile>, ks: seq<string>): bool
    requires forall k <- ks :: k in fs
    decreases |ks|
  {
    ks != [] && (fs[ks[0]].modified || ModifiedAmong(fs, ks[1..]))
  }

  lemma {:induction false} ModifiedAmongExists(fs: map<string, GitFile>, ks: seq<string>)
    requires forall k <- ks :: k in fs
    ensures ModifiedAmong(fs, ks) <==> exists k :: k in ks && fs[k].modified
    decreases |ks|
  {
    if ks != [] {
      ModifiedAmongExists(fs, ks[1..]);
      assert forall k :: k in ks <==> k == ks[0] || k in ks[1..];
    }
  }

  /** Looking at the loaded files one at a time finds a modified one exactly when there is one. */
  lemma ModifiedAmongAll(d: Dict<GitFile>)
    requires d.Valid()
    ensures ModifiedAmong(d.entries, d.keys) == AnyModified(d)
  {
    ModifiedAmongExists(d.entries, d.keys);
  }

  /** Pressing `git add` twice stages no more than pressing it once. */
  lemma GitAddIdempotent(s: State)
    ensures GitAdd(GitAdd(s).next).next == GitAdd(s).next
  {
    var once := GitAdd(s).next;
    assert GitAdd(once).next.files.entries == once.files.entries;
  }

  // ---------------------------------------------------------------- git commit

  /** `git commit` changes nothing when no file is staged, reporting so, and nothing when the
      message is cancelled or empty, printing nothing. */
  lemma GitCommitRejected(s: State, msg: Option<string>)
    requires Consistent(s)
    ensures (forall k :: k in s.files.entries ==> !s.files.entries[k].staged)
            ==> GitCommit(s, msg) == Step(s, [NothingToCommit])
    ensures !Given(msg) ==> GitCommit(s, msg).next == s
    ensures GitCommit(s, msg).out == [NothingToCommit]
            <==> forall k :: k in s.files.entries ==> !s.files.entries[k].staged
  {
    NoStagedKeys(s);
  }

  /** A successful `git commit m` commits exactly the staged files: each becomes clean and
      committed with its content as last committed content, and the current branch's snapshot
      records that content; unstaged files are untouched. */
  lemma GitCommitFiles(s: State, m: string)
    requires Inv(s)
    requires exists k :: k in s.files.entries && s.files.entries[k].staged
    requires m != ""
    ensures var r := GitCommit(s, Some(m)).next;
      && r.files.keys == s.files.keys
      && (forall k :: k in r.files.entries <==> k in s.files.entries)
      && s.currentBranch in r.branchFiles.entries
      && (forall k :: k in s.files.entries && s.files.entries[k].staged ==>
            var f := s.files.entries[k];
            && r.files.entries[k] == f.(modified := false, staged := false, committed := true,
                                        lastCommitContent := f.content)
            && k in r.branchFiles.entries[s.currentBranch].entries
            && r.branchFiles.entries[s.currentBranch].entries[k] == f.content)
      && (forall k :: k in s.files.entries && !s.files.entries[k].staged ==>
            r.files.entries[k] == s.files.entries[k])
  {
    NoStagedKeys(s);
    CommittedSnapshot(s.files, s.branchFiles.entries[s.currentBranch]);
    var staged := StagedKeys(s.files.keys, s.files.entries);
    var newSnap := RecordFiles(s.branchFiles.entries[s.currentBranch], s.files.entries, staged);
    var r := GitCommit(s, Some(m)).next;
    assert r.files == CommitStaged(s.files);
    assert r.branchFiles.entries[s.currentBranch] == newSnap;
  }

  /** A successful `git commit m` prints `m` and appends it once to the history and once to the
      current branch's list; the other branches' lists and snapshots, the branch set and the
      rest of the state are unchanged. */
  lemma GitCommitRecords(s: State, m: string)
    requires Consistent(s)
    requires exists k :: k in s.files.entries && s.files.entries[k].staged
    requires m != ""
    ensures var r := GitCommit(s, Some(m));
      && r.out == [Committed(m)]
      && r.next == s.(files := r.next.files, branchFiles := r.next.branchFiles,
                      branches := r.next.branches, commitHistory := s.commitHistory + [m])
      && r.next.branches.keys == s.branches.keys
      && r.next.branches.entries[s.currentBranch] == s.branches.entries[s.currentBranch] + [m]
      && (forall b :: b in s.branches.entries && b != s.currentBranch ==>
            r.next.branches.entries[b] == s.branches.entries[b])
      && r.next.branchFiles.keys == s.branchFiles.keys
      && (forall b :: b in s.branchFiles.entries && b != s.currentBranch ==>
            r.next.branchFiles.entries[b] == s.branchFiles.entries[b])
  {
    var staged := StagedKeys(s.files.keys, s.files.entries);
    assert staged != [] by {
      NoStagedKeys(s);
    }
    var cur := s.currentBranch;
    var snap := RecordFiles(s.branchFiles.entries[cur], s.files.entries, staged);
    assert GitCommit(s, Some(m)) == Step(s.(files := CommitStaged(s.files),
                                            branchFiles := Put(s.branchFiles, cur, snap),
                                            commitHistory := s.commitHistory + [m],
                                            branches := Put(s.branches, cur, s.branches.entries[cur] + [m])),
                                         [Committed(m)]);
  }

  // ---------------------------------------------------------------- git checkout

  /** `git checkout b` creates `b` with no commits and an empty snapshot if it is new, switches to
      it, and loads exactly its snapshot, every file committed and clean; the open file is kept
      as it was. An empty or cancelled name changes nothing. */
  lemma GitCheckoutEffect(s: State, branch: Option<string>)
    requires Consistent(s)
    ensures !Given(branch) ==> GitCheckout(s, branch) == Step(s, [])
    ensures Given(branch) ==>
      var b := branch.value;
      var r := GitCheckout(s, branch).next;
      && r.currentBranch == b
      && (b !in s.branches.entries ==>
            && r.branches.entries == s.branches.entries[b := []]
            && r.branchFiles.entries == s.branchFiles.entries[b := Empty()]
            && GitCheckout(s, branch).out == [BranchCreated(b), SwitchedTo(b)])
      && (b in s.branches.entries ==>
            && r.branches == s.branches && r.branchFiles == s.branchFiles
            && GitCheckout(s, branch).out == [SwitchedTo(b)])
      && r.files.keys == r.branchFiles.entries[b].keys
      && (forall k :: k in r.files.entries <==> k in r.branchFiles.entries[b].entries)
      && (forall k :: k in r.files.entries ==>
            var f := r.files.entries[k];
            && f.name == k && f.committed && !f.modified && !f.staged
            && f.content == r.branchFiles.entries[b].entries[k]
            && f.lastCommitContent == r.branchFiles.entries[b].entries[k])
      && r == s.(branches := r.branches, branchFiles := r.branchFiles, currentBranch := b,
                 files := r.files)
  {
  }

  /** Checking out a new branch lists it as the current branch and gives it an empty log. */
  lemma GitCheckoutNewBranch(s: State, b: string)
    requires Consistent(s)
    requires b != "" && b !in s.branches.entries
    ensures var r := GitCheckout(s, Some(b)).next;
      && BranchEntry(b, true) in GitBranch(r)
      && GitLog(r) == [LogHeader]
  {
    var r := GitCheckout(s, Some(b)).next;
    BranchListing(r);
    assert r.branches.keys[|r.branches.keys| - 1] == b;
  }

  /** The known gap: checkout replaces the loaded files but keeps the open file, so when the new
      branch has no file of that name, saving or resetting it looks up a missing key. */
  lemma CheckoutStrandsOpenFile(s: State, b: string, text: string)
    requires Inv(s)
    requires Given(s.currentFile) && b != ""
    requires b in s.branchFiles.entries ==> s.currentFile.value !in s.branchFiles.entries[b].entries
    ensures var c := GitCheckout(s, Some(b)).next;
      && c.currentFile == s.currentFile
      && s.currentFile.value !in c.files.entries
      && SaveFile(c, text) == Step(c, [KeyError(s.currentFile.value)])
      && ResetFile(c) == Step(c, [KeyError(s.currentFile.value)])
  {
    assert b in s.branches.entries <==> b in s.branchFiles.entries by {
      assert b in s.branches.entries <==> b in s.branches.keys;
    }
  }

  // ---------------------------------------------------------------- git merge

  /** `git merge b` is rejected, changing nothing, exactly when `b` is empty or cancelled, is the
      current branch, or has no snapshot. */
  lemma GitMergeRejected(s: State, branch: Option<string>)
    requires Consistent(s)
    ensures var rejected := !Given(branch) || branch.value == s.currentBranch
                            || branch.value !in s.branchFiles.entries;
      && (rejected <==> GitMerge(s, branch).out == [InvalidBranch])
      && (rejected ==> GitMerge(s, branch).next == s)
  {
  }

  /** A successful `git merge b` writes `b`'s snapshot over the loaded files, as committed clean
      files, and over the current branch's snapshot; the loaded files keep their order, and the
      commit lists and every other snapshot, `b`'s included, are unchanged. */
  lemma GitMergeEffect(s: State, b: string)
    requires Consistent(s)
    requires b != "" && b != s.currentBranch && b in s.branchFiles.entries
    ensures var r := GitMerge(s, Some(b));
      var src := s.branchFiles.entries[b].entries;
      var cur := s.currentBranch;
      && r.out == [Merged(b, cur)]
      && r.next == s.(files := r.next.files, branchFiles := r.next.branchFiles)
      && r.next.files.entries == s.files.entries + (map k | k in src :: SnapshotFile(k, src[k]))
      && s.files.keys <= r.next.files.keys
      && r.next.branchFiles.keys == s.branchFiles.keys
      && r.next.branchFiles.entries[cur].entries == s.branchFiles.entries[cur].entries + src
      && (forall x :: x in s.branchFiles.entries && x != cur ==>
            r.next.branchFiles.entries[x] == s.branchFiles.entries[x])
  {
    var src := s.branchFiles.entries[b];
    UpdateSpec(s.files, FromSnapshot(src));
    UpdateSpec(s.branchFiles.entries[s.currentBranch], src);
  }

  // ---------------------------------------------------------------- read-only commands

  lemma {:induction false} NewestFirstAt(msgs: seq<string>, i: nat)
    requires i < |msgs|
    ensures |NewestFirst(msgs)| == |msgs|
    ensures NewestFirst(msgs)[i] == LogEntry(msgs[|msgs| - 1 - i])
    decreases |msgs|
  {
    if i > 0 {
      NewestFirstAt(msgs[..|msgs| - 1], i - 1);
    }
    NewestFirstLength(msgs);
  }

  lemma {:induction false} NewestFirstLength(msgs: seq<string>)
    ensures |NewestFirst(msgs)| == |msgs|
    decreases |msgs|
  {
    if msgs != [] {
      NewestFirstLength(msgs[..|msgs| - 1]);
    }
  }

  /** `git log` prints a header and then every commit message of the current branch, newest
      first. */
  lemma GitLogNewestFirst(s: State)
    requires s.currentBranch in s.branches.entries
    ensures var msgs := s.branches.entries[s.currentBranch];
      && |GitLog(s)| == |msgs| + 1
      && GitLog(s)[0] == LogHeader
      && forall j :: 1 <= j <= |msgs| ==> GitLog(s)[j] == LogEntry(msgs[|msgs| - j])
  {
    var msgs := s.branches.entries[s.currentBranch];
    NewestFirstLength(msgs);
    forall j | 1 <= j <= |msgs|
      ensures GitLog(s)[j] == LogEntry(msgs[|msgs| - j])
    {
      NewestFirstAt(msgs, j - 1);
    }
  }

  lemma {:induction false} StatusLinesMention(ks: seq<string>, fs: map<string, GitFile>, k: string)
    requires forall j <- ks :: j in fs
    ensures StagedEntry(k) in StatusLines(ks, fs) <==> k in ks && fs[k].staged
    ensures ModifiedEntry(k) in StatusLines(ks, fs) <==> k in ks && !fs[k].staged && fs[k].modified
    ensures UntrackedEntry(k) in StatusLines(ks, fs)
            <==> k in ks && !fs[k].staged && !fs[k].modified && !fs[k].committed
    ensures |StatusLines(ks, fs)| <= |ks|
    decreases |ks|
  {
    if ks != [] {
      StatusLinesMention(ks[1..], fs, k);
      assert k in ks <==> k == ks[0] || k in ks[1..];
    }
  }

  /** A line `git status` prints for one file. */
  predicate StatusEntry(m: Message) {
    m.StagedEntry? || m.ModifiedEntry? || m.UntrackedEntry?
  }

  /** Every status line of the files `ks` names one of them. */
  lemma {:induction false} StatusLinesNames(ks: seq<string>, fs: map<string, GitFile>)
    requires forall k <- ks :: k in fs
    ensures forall m <- StatusLines(ks, fs) :: StatusEntry(m) && m.name in ks
    decreases |ks|
  {
    if ks != [] {
      StatusLinesNames(ks[1..], fs);
      assert StatusLines(ks, fs) == StatusOf(ks[0], fs[ks[0]]) + StatusLines(ks[1..], fs);
      assert forall k <- ks[1..] :: k in ks;
    }
  }

  /** When `ks` lists each file once, no two status lines name the same file. */
  lemma {:induction false} StatusLinesDistinct(ks: seq<string>, fs: map<string, GitFile>)
    requires forall k <- ks :: k in fs
    requires forall i, j :: 0 <= i < j < |ks| ==> ks[i] != ks[j]
    ensures forall i, j :: 0 <= i < j < |StatusLines(ks, fs)| ==>
      StatusEntry(StatusLines(ks, fs)[i]) && StatusEntry(StatusLines(ks, fs)[j])
      && StatusLines(ks, fs)[i].name != StatusLines(ks, fs)[j].name
    decreases |ks|
  {
    if ks != [] {
      var head := StatusOf(ks[0], fs[ks[0]]);
      var tail := StatusLines(ks[1..], fs);
      var r := StatusLines(ks, fs);
      assert forall i, j :: 0 <= i < j < |ks[1..]| ==> ks[1..][i] != ks[1..][j] by {
        forall i, j | 0 <= i < j < |ks[1..]| ensures ks[1..][i] != ks[1..][j] {
          assert ks[1..][i] == ks[i + 1] && ks[1..][j] == ks[j + 1];
        }
      }
      assert ks[0] !in ks[1..] by {
        forall i | 0 <= i < |ks[1..]| ensures ks[1..][i] != ks[0] {
          assert ks[1..][i] == ks[i + 1];
        }
      }
      StatusLinesDistinct(ks[1..], fs);
      StatusLinesNames(ks[1..], fs);
      assert r == head + tail;
      assert forall m <- head :: StatusEntry(m) && m.name == ks[0];
      forall i, j | 0 <= i < j < |StatusLines(ks, fs)|
        ensures StatusEntry(StatusLines(ks, fs)[i]) && StatusEntry(StatusLines(ks, fs)[j])
                && StatusLines(ks, fs)[i].name != StatusLines(ks, fs)[j].name
      {
        assert r[j] == tail[j - |head|] && r[j] in tail;
        if i < |head| {
          assert r[i] in head;
        } else {
          assert r[i] == tail[i - |head|];
        }
      }
    } else {
      assert StatusLines(ks, fs) == [];
    }
  }

  /** `git status` reports each loaded file once at most, by its first applicable state in the
      order staged, modified, untracked; clean committed files are not listed, and nothing else
      is printed after the header. */
  lemma GitStatusClassifies(s: State, k: string)
    requires s.files.Valid()
    ensures GitStatus(s)[0] == StatusHeader
    ensures |GitStatus(s)| <= |s.files.keys| + 1
    ensures StagedEntry(k) in GitStatus(s)
            <==> k in s.files.entries && s.files.entries[k].staged
    ensures ModifiedEntry(k) in GitStatus(s)
            <==> k in s.files.entries && !s.files.entries[k].staged && s.files.entries[k].modified
    ensures UntrackedEntry(k) in GitStatus(s)
            <==> k in s.files.entries && !s.files.entries[k].staged && !s.files.entries[k].modified
                 && !s.files.entries[k].committed
    ensures forall m <- GitStatus(s)[1..] :: StatusEntry(m) && m.name in s.files.entries
    ensures forall i, j :: 1 <= i < j < |GitStatus(s)| ==>
              StatusEntry(GitStatus(s)[i]) && StatusEntry(GitStatus(s)[j])
              && GitStatus(s)[i].name != GitStatus(s)[j].name
  {
    var lines := StatusLines(s.files.keys, s.files.entries);
    StatusLinesMention(s.files.keys, s.files.entries, k);
    StatusLinesNames(s.files.keys, s.files.entries);
    StatusLinesDistinct(s.files.keys, s.files.entries);
    assert GitStatus(s)[1..] == lines;
    forall i, j | 1 <= i < j < |GitStatus(s)|
      ensures StatusEntry(GitStatus(s)[i]) && StatusEntry(GitStatus(s)[j])
              && GitStatus(s)[i].name != GitStatus(s)[j].name
    {
      assert GitStatus(s)[i] == lines[i - 1] && GitStatus(s)[j] == lines[j - 1];
    }
  }

  lemma {:induction false} NameLinesMention(ks: seq<string>, k: string)
    ensures LsFilesEntry(k) in NameLines(ks) <==> k in ks
    decreases |ks|
  {
    if ks != [] {
      NameLinesMention(ks[1..], k);
      assert k in ks <==> k == ks[0] || k in ks[1..];
    }
  }

  /** `git ls-files` lists exactly the committed loaded files: those the current branch's
      snapshot records. */
  lemma GitLsFilesListsCommitted(s: State, k: string)
    requires Inv(s)
    ensures GitLsFiles(s)[0] == LsFilesHeader(s.currentBranch)
    ensures LsFilesEntry(k) in GitLsFiles(s)
            <==> k in s.files.entries && s.files.entries[k].committed
  {
    NameLinesMention(s.branchFiles.entries[s.currentBranch].keys, k);
  }

  lemma {:induction false} BranchLinesAt(bs: seq<string>, current: string, i: nat)
    requires i < |bs|
    ensures |BranchLines(bs, current)| == |bs|
    ensures BranchLines(bs, current)[i] == BranchEntry(bs[i], bs[i] == current)
    decreases |bs|
  {
    BranchLinesLength(bs, current);
    if i > 0 {
      BranchLinesAt(bs[1..], current, i - 1);
    }
  }

  lemma {:induction false} BranchLinesLength(bs: seq<string>, current: string)
    ensures |BranchLines(bs, current)| == |bs|
    decreases |bs|
  {
    if bs != [] {
      BranchLinesLength(bs[1..], current);
    }
  }

  /** The branch lines of `bs` tag exactly the lines of `current`, which is listed. */
  lemma BranchLinesTagged(bs: seq<string>, current: string)
    requires current in bs
    ensures |BranchLines(bs, current)| == |bs|
    ensures forall i :: 0 <= i < |bs| ==> BranchLines(bs, current)[i] == BranchEntry(bs[i], bs[i] == current)
    ensures BranchEntry(current, true) in BranchLines(bs, current)
    ensures forall b :: BranchEntry(b, true) in BranchLines(bs, current) ==> b == current
  {
    BranchLinesLength(bs, current);
    forall i | 0 <= i < |bs|
      ensures BranchLines(bs, current)[i] == BranchEntry(bs[i], bs[i] == current)
    {
      BranchLinesAt(bs, current, i);
    }
    var j :| 0 <= j < |bs| && bs[j] == current;
    assert BranchLines(bs, current)[j] == BranchEntry(current, true);
  }

  /** `git branch` prints one line per branch in creation order, and exactly one of them, the
      current branch's, carries the current tag. */
  lemma BranchListing(s: State)
    requires Consistent(s)
    ensures |GitBranch(s)| == |s.branches.keys|
    ensures forall i :: 0 <= i < |s.branches.keys| ==>
              GitBranch(s)[i] == BranchEntry(s.branches.keys[i], s.branches.keys[i] == s.currentBranch)
    ensures BranchEntry(s.currentBranch, true) in GitBranch(s)
    ensures forall b :: BranchEntry(b, true) in GitBranch(s) ==> b == s.currentBranch
  {
    assert s.currentBranch in s.branches.keys;
    BranchLinesTagged(s.branches.keys, s.currentBranch);
  }

  /** Adding a remote is all `git push` and `git pull` need; without one both report it missing. */
  lemma RemoteCommands(s: State)
    ensures GitRemoteAdd(s).next == s.(remoteConnected := true)
    ensures GitPush(s) == [Pushed] <==> s.remoteConnected
    ensures GitPull(s) == [Pulled] <==> s.remoteConnected
    ensures GitPush(GitRemoteAdd(s).next) == [Pushed]
    ensures !s.remoteConnected ==> GitPush(s) == [NoRemote] && GitPull(s) == [NoRemote]
  {
  }

  // ---------------------------------------------------------------- a session

  /** The state after pressing init, creating file `n` and saving `c` into it, then add. */
  function BeforeFirstCommit(n: string, c: string): State {
    GitAdd(SaveFile(NewFile(GitInit(Initial()).next, Some(n)).next, c).next).next
  }

  /** The states a first session passes through. */
  ghost function AfterNew(n: string): State {
    State(true, "main", Dict([n], map[n := NewGitFile(n)]), Dict(["main"], map["main" := Dict([], map[])]),
          Dict(["main"], map["main" := []]), [], false, Some(n))
  }

  ghost function AfterSave(n: string, c: string, staged: bool): State {
    AfterNew(n).(files := Dict([n], map[n := GitFile(n, true, staged, false, c, "")]))
  }

  ghost function AfterCommit(n: string, c: string, m: string): State {
    AfterNew(n).(files := Dict([n], map[n := GitFile(n, false, false, true, c, c)]),
                 branchFiles := Dict(["main"], map["main" := Dict([n], map[n := c])]),
                 branches := Dict(["main"], map["main" := [m]]),
                 commitHistory := [m])
  }

  lemma SessionNewStep(n: string)
    requires n != ""
    ensures NewFile(GitInit(Initial()).next, Some(n)).next == AfterNew(n)
  {
    var s1 := GitInit(Initial()).next;
    var noFiles: Dict<string> := Dict([], map[]);
    var noLog: seq<string> := [];
    assert s1.files == Dict([], map[]);
    assert s1.branchFiles == Dict(["main"], map["main" := noFiles]);
    assert s1.branches == Dict(["main"], map["main" := noLog]);
    assert Put(s1.files, n, NewGitFile(n)) == Dict([n], map[n := NewGitFile(n)]);
  }

  lemma SessionSaveStep(n: string, c: string)
    requires n != ""
    ensures SaveFile(AfterNew(n), c).next == AfterSave(n, c, false)
  {
    var s := AfterNew(n);
    var f := GitFile(n, true, false, false, c, "");
    assert s.files.entries[n].(content := c, modified := true) == f;
    assert s.files.entries[n := f] == map[n := f];
  }

  lemma SessionAddStep(n: string, c: string)
    ensures GitAdd(AfterSave(n, c, false)).next == AfterSave(n, c, true)
  {
    assert GitAdd(AfterSave(n, c, false)).next.files.entries == AfterSave(n, c, true).files.entries;
  }

  /** What the commit of the first session computes from the single staged file. */
  lemma SessionCommitParts(n: string, c: string)
    ensures var fs := AfterSave(n, c, true).files;
      && StagedKeys(fs.keys, fs.entries) == [n]
      && CommitStaged(fs) == AfterCommit(n, c, "").files
      && RecordFiles(Dict([], map[]), fs.entries, [n]) == Dict([n], map[n := c])
  {
    var fs := AfterSave(n, c, true).files;
    assert StagedKeys(fs.keys, fs.entries) == [n] + StagedKeys([], fs.entries);
    assert CommitStaged(fs).entries == AfterCommit(n, c, "").files.entries;
    assert [n][1..] == [];
  }

  /** Before the first commit the dictionaries are consistent. */
  lemma SessionReady(n: string, c: string)
    ensures Consistent(AfterSave(n, c, true))
  {
  }

  lemma SessionCommitStep(n: string, c: string, m: string)
    requires m != ""
    ensures Consistent(AfterSave(n, c, true))
    ensures GitCommit(AfterSave(n, c, true), Some(m)) == Step(AfterCommit(n, c, m), [Committed(m)])
  {
    var s4 := AfterSave(n, c, true);
    var fs := s4.files;
    var after := AfterCommit(n, c, m);
    assert Put(s4.branchFiles, "main", Dict([n], map[n := c])) == after.branchFiles
        && Put(s4.branches, "main", s4.branches.entries["main"] + [m]) == after.branches by {
      assert s4.branches.entries["main"] + [m] == [m];
    }
    assert Consistent(s4) by {
      SessionReady(n, c);
    }
    assert StagedKeys(fs.keys, fs.entries) == [n]
        && CommitStaged(fs) == AfterCommit(n, c, "").files
        && RecordFiles(Dict([], map[]), fs.entries, [n]) == Dict([n], map[n := c]) by {
      SessionCommitParts(n, c);
    }
  }

  /** init, create file `n`, save `c` into it, add, commit with message `m`: the file is committed
      with that content, the branch snapshot holds it, and both commit lists hold exactly `m`. */
  lemma SessionRun(n: string, c: string, m: string)
    requires n != "" && m != ""
    ensures Consistent(BeforeFirstCommit(n, c))
    ensures GitCommit(BeforeFirstCommit(n, c), Some(m)) == Step(AfterCommit(n, c, m), [Committed(m)])
  {
    SessionNewStep(n);
    SessionSaveStep(n, c);
    SessionAddStep(n, c);
    SessionCommitStep(n, c, m);
  }

  /** After that first session the log holds exactly that commit, the status lists no staged,
      modified or untracked file, and ls-files lists the file. */
  lemma FirstCommitScenario(n: string, c: string, m: string)
    requires n != "" && m != ""
    ensures var s := AfterCommit(n, c, m);
      && GitLog(s) == [LogHeader, LogEntry(m)]
      && GitStatus(s) == [StatusHeader]
      && GitLsFiles(s) == [LsFilesHeader("main"), LsFilesEntry(n)]
  {
    var s := AfterCommit(n, c, m);
    assert NewestFirst([m]) == [LogEntry(m)];
    assert StatusLines(s.files.keys, s.files.entries) == [];
    assert NameLines([n]) == [LsFilesEntry(n)];
  }
}
