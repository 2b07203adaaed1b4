# Git learning playground — a verified model of its in-memory Git state

The playground is a desktop teaching tool. It simulates a handful of Git commands (init, add,
commit, status, log, ls-files, branch, checkout, merge, remote add, push, pull) against an
in-memory model of files and branches, and it walks the user through them with a guided
tutorial. This project models that in-memory core and proves what its handlers do:

- `Repo` (`repo.dfy`) holds the state as a value. The state has four parts:
  - the loaded files, each a `GitFile` record with `modified`, `staged` and `committed` flags,
    its content and its last committed content;
  - one snapshot per branch, mapping file names to committed contents;
  - one commit-message list per branch, plus the global commit history;
  - the remote flag and the file open in the editor.

  Each handler is a transition function that returns the next state together with the lines
  the handler prints. The read-only commands (`git log`, `git status`, `git ls-files`,
  `git branch`, `git push`, `git pull`) are functions from the state to their lines.
- `PyDict` (`py_dict.dfy`) models Python's insertion-ordered `dict`: a key order plus a map.
  Every listing walks the loaded files, the snapshots or the branches in that order.
  - `Put` models `d[k] = v`.
  - `Update` models `d.update(other)`.
- `Simulator` (`simulator.dfy`) is the `GitSimulator` object. Its fields are the Git state, and
  each handler is a method that updates them in place.
  - The loops of `git add`, `git commit`, `git checkout` and `git merge` are `while` loops
    whose invariants tie them to the recursive specifications in `Repo`.
  - Every handler method is proved to leave exactly the state, and print exactly the lines, that its
    `Repo` transition describes, and to keep the invariant.
- `RepoProperties` (`repo_properties.dfy`) proves what the handlers promise. `Inv` is the
  invariant every reachable state satisfies:
  - the dictionaries are well formed and agree on the branches;
  - a file is staged only while modified, and an unmodified file holds its last committed
    content;
  - a loaded file is committed exactly when the current branch's snapshot holds it, with that
    content.
- `Tutorial` (`tutorial.dfy`) is the guided tutorial. It is a step counter over the fixed list
  of fourteen (button, instruction) pairs, and it advances only when the expected button is
  pressed.

Text typed into a dialog is a parameter of type `Option<string>`. `None` is a cancelled dialog,
and Python's truth test on the answer is `Given`. The editor's text is a parameter of
`SaveFile`.

Some behaviours of the code a reader may not expect, which the model follows:

- `git_init` prints the same line every time. It gives no "already initialized" warning.
- `git_add`, `git_commit` and `save_file` do not check that the repository was initialized.
- `save_file` and `reset_file` look up the open file by name. After a checkout to a branch
  that lacks that file, the lookup raises a `KeyError` and changes nothing. This is modelled
  as the output `KeyError(name)` with the state unchanged.
- `git_merge` overlays the source branch's snapshot onto the loaded files and onto the current
  branch's snapshot. It does not touch either commit list.

## Model

| member | source | states |
|---|---|---|
| Simulator.GitSimulator.constructor | main.py:57-64 | the fields start as the initial state: not initialized, on `main`, no files, `main` with an empty snapshot and an empty commit list, no remote, no open file; the invariant holds |
| Simulator.GitSimulator.OpenFile | main.py:186-193 | opening a loaded file makes it the open file and prints that it was opened; nothing else changes |
| Simulator.GitSimulator.NewFile | main.py:169-177 | refuses when the repository is not initialized; for a non-empty name not yet loaded, adds a fresh file, opens it and prints both lines; a cancelled, empty or existing name changes nothing; keeps the invariant |
| Simulator.GitSimulator.OpenFileDialog | main.py:179-184 | opens the named file when it is loaded, and otherwise prints that it was not found; keeps the invariant |
| Simulator.GitSimulator.SaveFile | main.py:195-203 | with no open file prints so; when the open file is no longer loaded raises `KeyError` and changes nothing; otherwise stores the text, marks the file modified and prints it saved; keeps the invariant |
| Simulator.GitSimulator.ResetFile | main.py:205-213 | the same three cases; on success, restores the last committed content, clears modified and staged, reopens the file and prints it reset; keeps the invariant |
| Simulator.GitSimulator.GitInit | main.py:216-218 | marks the repository initialized, with no check for a second call; keeps the invariant |
| Simulator.GitSimulator.GitAdd | main.py:220-226 | the loaded files become those of `Repo.GitAdd`, and the printed line says whether any file was modified; keeps the invariant |
| Simulator.GitSimulator.GitCommit | main.py:228-242 | the new state and output are those of `Repo.GitCommit`, whose effect `RepoProperties.GitCommitFiles` and `GitCommitRecords` state; keeps the invariant |
| Simulator.GitSimulator.GitCheckout | main.py:269-284 | the new state and output are those of `Repo.GitCheckout`, as `RepoProperties.GitCheckoutEffect` states; keeps the invariant |
| Simulator.GitSimulator.GitMerge | main.py:286-297 | the new state and output are those of `Repo.GitMerge`, as `RepoProperties.GitMergeEffect` and `GitMergeRejected` state; keeps the invariant |
| Simulator.GitSimulator.GitRemoteAdd | main.py:299-301 | sets the remote flag and prints that the remote was added; keeps the invariant |
| Simulator.StageModified | main.py:220-226 | the loop over the files stages exactly the modified ones (`StageAll`), and `added` is true exactly when some loaded file is modified |
| Simulator.CommitEach | main.py:235-240 | the loop over the staged list commits each listed file and writes its content under its name into the branch snapshot, in list order |
| Simulator.LoadSnapshot | main.py:277-283 | the loop rebuilds the loaded files from the snapshot, in the snapshot's order, each one committed and clean with the snapshot's content |
| Simulator.MergeSnapshot | main.py:289-294 | the loop writes every snapshot file over the loaded files and every snapshot entry over the current snapshot, as two `dict.update`s |
| Simulator.CommitWrites | main.py:235-242 | committing the staged files one at a time and appending the message to both lists gives exactly the state of `Repo.GitCommit` |
| PyDict.UpdateSpec | main.py:289-294 | after writing every entry of another dictionary, each of its keys maps to its value there, all other keys are untouched, the old key order is kept as a prefix, and keys stay distinct |
| Repo.NewFile | main.py:169-177 | the `new_file` transition: refused before `git init`; a non-empty new name is loaded as an empty untracked file and opened; a cancelled, empty or already loaded name changes nothing; `RepoProperties.NewFilePreservesInv` keeps the invariant |
| Repo.OpenFileDialog | main.py:179-184 | the `open_file_dialog` transition: opens a loaded name, and otherwise prints that the answer was not found; `RepoProperties.OpenFileDialogPreservesInv` keeps the invariant |
| Repo.SaveFile | main.py:195-203 | the `save_file` transition: no open file, a `KeyError` for an open file no longer loaded, or the text stored with the file marked modified; `RepoProperties.SaveFilePreservesInv` keeps the invariant |
| Repo.ResetFile | main.py:205-213 | the `reset_file` transition: the same three cases, the success case restoring the last committed content unstaged and unmodified; `RepoProperties.ResetFilePreservesInv` keeps the invariant |
| Repo.GitInit | main.py:216-218 | the `git_init` transition: sets the initialized flag on every call |
| Repo.GitAdd | main.py:220-226 | the `git_add` transition, whose effect `RepoProperties.GitAddStagesModified` states and `RepoProperties.GitAddIdempotent` shows idempotent |
| Repo.GitCommit | main.py:228-242 | the `git_commit` transition, whose cases `RepoProperties.GitCommitRejected`, `GitCommitFiles` and `GitCommitRecords` state |
| Repo.GitCheckout | main.py:269-284 | the `git_checkout` transition, whose effect `RepoProperties.GitCheckoutEffect` states |
| Repo.GitMerge | main.py:286-297 | the `git_merge` transition, whose cases `RepoProperties.GitMergeRejected` and `GitMergeEffect` state |
| Repo.GitRemoteAdd | main.py:299-301 | the `git_remote_add` transition: sets the remote flag and nothing else, as `RepoProperties.RemoteCommands` states |
| Repo.GitLog | main.py:244-247 | the lines of `git_log`, which `RepoProperties.GitLogNewestFirst` states |
| Repo.GitStatus | main.py:249-257 | the lines of `git_status`, which `RepoProperties.GitStatusClassifies` states |
| Repo.GitLsFiles | main.py:259-262 | the lines of `git_ls_files`, which `RepoProperties.GitLsFilesListsCommitted` states |
| Repo.GitBranch | main.py:264-267 | the lines of `git_branch`, which `RepoProperties.BranchListing` states |
| Repo.GitPush | main.py:303-307 | the line of `git_push`, which `RepoProperties.RemoteCommands` states |
| Repo.GitPull | main.py:309-314 | the line of `git_pull`, which `RepoProperties.RemoteCommands` states |
| Repo.StagedKeys | main.py:229 | the staged list holds exactly the loaded files that are staged |
| RepoProperties.InitialInv | main.py:57-64 | the initial state satisfies the invariant |
| RepoProperties.NewFilePreservesInv | main.py:169-177 | `new_file` keeps the invariant |
| RepoProperties.OpenFileDialogPreservesInv | main.py:179-193 | opening a file keeps the invariant |
| RepoProperties.SaveFilePreservesInv | main.py:195-203 | `save_file` keeps the invariant: a saved file is modified, so it may differ from its committed content |
| RepoProperties.ResetFilePreservesInv | main.py:205-213 | `reset_file` keeps the invariant: the reset file is clean and holds its committed content |
| RepoProperties.InvAfterFileWrite | main.py:198-201 | rewriting one loaded file keeps the invariant when the new file is well formed and its committed flag and committed content are unchanged |
| RepoProperties.InvAfterFileAdd | main.py:174-175 | adding a fresh file under a new name keeps the invariant |
| RepoProperties.GitAddPreservesInv | main.py:220-226 | `git add` keeps the invariant: only modified files become staged |
| RepoProperties.GitCommitPreservesInv | main.py:228-242 | `git commit` keeps the invariant: the committed files and the snapshot of the current branch agree afterwards |
| RepoProperties.CommitKeepsTracking | main.py:235-240 | committing the staged files keeps every file well formed and the files in agreement with the snapshot extended by the staged contents |
| RepoProperties.InvAfterWrite | main.py:235-242 | new files, a new current snapshot and commit lists over the same branches keep the invariant when the new files agree with the new snapshot |
| RepoProperties.GitCheckoutPreservesInv | main.py:269-284 | `git checkout` keeps the invariant, for a new and for an existing branch |
| RepoProperties.FromSnapshotTracks | main.py:277-283 | the files rebuilt from a snapshot are well formed and agree with that snapshot |
| RepoProperties.GitMergePreservesInv | main.py:286-297 | `git merge` keeps the invariant |
| RepoProperties.MergeKeepsTracking | main.py:289-294 | writing snapshot files over the loaded files and the same entries over the snapshot keeps the files well formed and in agreement with the snapshot |
| RepoProperties.GitRemoteAddPreservesInv | main.py:299-301 | adding a remote keeps the invariant |
| RepoProperties.ApplyPreservesInv | main.py:169-301 | every state-changing button keeps the invariant |
| RepoProperties.ReachableInv | main.py:57-64 | every state reached from the start by any sequence of buttons satisfies the invariant |
| RepoProperties.GitAddStagesModified | main.py:220-226 | `git add` stages exactly the modified files and changes nothing else; it prints "nothing to add" exactly when no file is modified |
| RepoProperties.StageKeysEntries | main.py:221-225 | staging the listed files one at a time stages the modified ones among them and leaves every other file as it was |
| RepoProperties.StageKeysAll | main.py:221-225 | the file-by-file loop of `git add` gives the same files as staging every modified file at once |
| RepoProperties.ModifiedAmongAll | main.py:221-225 | the loop's flag records a modified file exactly when some loaded file is modified |
| RepoProperties.GitAddIdempotent | main.py:220-226 | pressing `git add` twice leaves the same files as pressing it once |
| RepoProperties.NoStagedKeys | main.py:229-230 | the staged list is empty exactly when no loaded file is staged |
| RepoProperties.GitCommitRejected | main.py:228-234 | with nothing staged, commit prints "nothing to commit" and changes nothing, and that line appears only then; a cancelled or empty message changes nothing |
| RepoProperties.GitCommitFiles | main.py:235-240 | a successful commit makes every staged file committed and clean, with its content as last committed content, and records that content in the current snapshot; unstaged files are unchanged |
| RepoProperties.GitCommitRecords | main.py:235-242 | a successful commit appends the message to the global history and to the current branch's list, prints it, and leaves other branches, the branch set and the other fields unchanged |
| RepoProperties.CommitKeysEntries | main.py:235-240 | committing the listed files one at a time commits each of them and leaves every other file as it was |
| RepoProperties.CommitKeysStaged | main.py:235-240 | the file-by-file commit loop gives the same files as committing every staged file at once |
| RepoProperties.CommittedSnapshot | main.py:235-240 | after the commit the current snapshot is the old one with every staged file's content written over it |
| RepoProperties.GitCheckoutEffect | main.py:269-284 | checkout of a non-empty name switches to it, creating it with no commits and an empty snapshot when new, and prints the matching lines; the loaded files are exactly the snapshot's files, committed, clean and holding the snapshot content; the open file and the other fields are unchanged; a cancelled name changes nothing |
| RepoProperties.GitCheckoutNewBranch | main.py:269-284 | after checking out a new branch it is listed as current and its log is empty |
| RepoProperties.CheckoutStrandsOpenFile | main.py:195-213 | after checking out a branch without the open file, that file stays open but is no longer loaded, so saving and resetting raise `KeyError` and change nothing |
| RepoProperties.GitMergeRejected | main.py:286-297 | merge is refused, with "invalid branch" and no change, exactly when the name is cancelled or empty, the current branch, or unknown |
| RepoProperties.GitMergeEffect | main.py:288-295 | an accepted merge overlays the source snapshot onto the loaded files, as committed clean files, and onto the current snapshot, keeping the order of existing files; other branches and the commit lists are unchanged |
| RepoProperties.GitLogNewestFirst | main.py:244-247 | the log prints its header and then the current branch's messages, newest first, one line each |
| RepoProperties.GitStatusClassifies | main.py:249-257 | after its header, status lists a file as staged when staged, as modified when modified but not staged, as untracked when neither and never committed; every other line is one of these entries for a loaded file, and no file is listed twice |
| RepoProperties.GitLsFilesListsCommitted | main.py:259-262 | ls-files names the current branch and lists exactly the loaded files that are committed |
| RepoProperties.BranchListing | main.py:264-267 | one line per branch in creation order, exactly the current branch's line tagged current |
| RepoProperties.RemoteCommands | main.py:299-314 | push and pull succeed exactly when a remote was added, and report a missing remote otherwise |
| RepoProperties.SessionRun | main.py:169-242 | init, new file, save, add, commit reaches the state with that one file committed, the snapshot holding it and both commit lists holding the message |
| RepoProperties.FirstCommitScenario | main.py:244-262 | after that session the log lists exactly the one commit, status lists no file, and ls-files lists the file |
| Tutorial.Instruction | main.py:35-38 | the text `get_instruction` shows at a step, which `Tutorial.InstructionComplete` states |
| Tutorial.Advance | main.py:40-46 | the step and result of `advance_step`, whose progress `Tutorial.ReplayProgress` and `Tutorial.CompleteIsFinal` state |
| Tutorial.InstructionComplete | main.py:35-38 | the completion text is shown exactly when every step is done, since no step's instruction equals it |
| Tutorial.ReplayProgress | main.py:40-46 | pressing buttons only moves the tutorial forward, by at most one step per press, and never past the last step |
| Tutorial.CompleteIsFinal | main.py:40-46 | once complete, the tutorial stays complete whatever is pressed |
| Tutorial.ScriptFrom | main.py:17-46 | pressing the remaining steps' buttons in order completes the tutorial from any step |
| Tutorial.ScriptCompletes | main.py:17-46 | following every instruction from the start completes the tutorial and shows the completion text |
| Tutorial.GuidedTutorial.constructor | main.py:16-33 | the tutorial starts at the first step |
| Tutorial.GuidedTutorial.GetInstruction | main.py:35-38 | the current step's instruction, or the completion text exactly when every step is done |
| Tutorial.GuidedTutorial.AdvanceStep | main.py:40-46 | advances by exactly one and returns true exactly when a step remains and the command is its button; otherwise returns false with no change; never runs past the end |

## Left out

- The tkinter interface is not modelled: windows, frames, buttons, colours, fonts and the main loop.
- Dialogs are not modelled. The text a dialog returns is a parameter, with `None` for a cancelled dialog.
- The editor widget is not modelled, and neither is `on_text_modified`. The saved text is a parameter of `SaveFile`, already stripped of trailing newlines.
- Printed lines are `Message` values. The exact wording and emoji of each line are not modelled.
- `wrap_action` is not modelled as one operation. It runs a handler, then `advance_step`, then `update_tutorial` when the tutorial advanced. The model covers the handler and `advance_step` separately. It does not capture that a handler that raises `KeyError` leaves the tutorial where it was.
- `update_tutorial` is not modelled. It only shows `get_instruction` in a widget.
- The `tutorial` field of `GitSimulator` is the separate `Tutorial.GuidedTutorial` object.
- `GitFile` objects are values. No two dictionary keys ever share one object in the source, so aliasing is not modelled.
- `KeyError` is an output line rather than an exception. The state is unchanged, as it is when the source raises before writing anything.
- `git push` and `git pull` transfer nothing in the source. They only check the remote flag, and so does the model.
- The read-only commands (`git log`, `git status`, `git ls-files`, `git branch`, `git push`, `git pull`) are pure functions of the state, not methods of the simulator object. They change nothing.
- `git_log` reads the current branch's list without a check. `Repo.GitLog` therefore requires that the current branch has a list, which the invariant guarantees.
