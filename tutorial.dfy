/**
 * The guided tutorial: a fixed list of steps, each naming the button to press next and the
 * instruction shown until it is pressed. Pressing the expected button moves to the next step;
 * any other button leaves the tutorial where it is.
 */
module Tutorial {

  /** Each step: the button that completes it and the instruction shown while it is current. */
  const Steps: seq<(string, string)> := [
    ("git init", "\U{1F4D8} Step 1: Start your Git journey with `git init`."),
    ("New", "\U{1F4D8} Step 2: Create a new file to start working on."),
    ("Save", "\U{1F4D8} Step 3: Save changes to the file."),
    ("git add", "\U{1F4D8} Step 4: Stage your changes using `git add`."),
    ("git commit", "\U{1F4D8} Step 5: Commit the staged changes."),
    ("git status", "\U{1F4D8} Step 6: Check which files are staged or modified."),
    ("git log", "\U{1F4D8} Step 7: View your commit history."),
    ("ls-files", "\U{1F4D8} Step 8: See files tracked in the current branch."),
    ("git branch", "\U{1F4D8} Step 9: Explore branches using `git branch`."),
    ("git checkout", "\U{1F4D8} Step 10: Switch or create branches."),
    ("git merge", "\U{1F4D8} Step 11: Merge another branch into this one."),
    ("git remote add", "\U{1F4D8} Step 12: Simulate adding a remote."),
    ("git push", "\U{1F4D8} Step 13: Simulate pushing to remote."),
    ("git pull", "\U{1F4D8} Step 14: Simulate pulling from remote.")
  ]

  /** The text shown once every step is done. */
  const Complete: string := "\U{1F389} Tutorial complete!"

  /** The instruction shown at step `step`. */
  function Instruction(step: nat): string {
    if step < |Steps| then Steps[step].1 else Complete
  }

  /** Pressing `command` at step `step`: the next step, and whether the tutorial advanced. */
  function Advance(step: nat, command: string): (nat, bool) {
    if step < |Steps| && command == Steps[step].0 then (step + 1, true) else (step, false)
  }

  /** The step reached from `step` by pressing the buttons `commands` in order. */
  function Replay(step: nat, commands: seq<string>): nat
    decreases |commands|
  {
    if commands == [] then step else Replay(Advance(step, commands[0]).0, commands[1..])
  }

  /** The buttons of the steps, in order. */
  function Script(): seq<string> {
    seq(|Steps|, i requires 0 <= i < |Steps| => Steps[i].0)
  }

  /** The completion text is shown exactly when every step is done: no instruction equals it. */
  lemma InstructionComplete(step: nat)
    ensures Instruction(step) == Complete <==> step >= |Steps|
    ensures step < |Steps| ==> Instruction(step) == Steps[step].1
  {
    if step < |Steps| {
      assert Steps[step] in Steps;
      assert forall p | p in Steps :: |p.1| > |Complete|;
    }
  }

  /** Pressing buttons only ever moves forward, by at most one step per button, and never past
      the end. */
  lemma {:induction false} ReplayProgress(step: nat, commands: seq<string>)
    ensures step <= Replay(step, commands) <= step + |commands|
    ensures step <= |Steps| ==> Replay(step, commands) <= |Steps|
    decreases |commands|
  {
    if commands != [] {
      ReplayProgress(Advance(step, commands[0]).0, commands[1..]);
    }
  }

  /** Once complete, the tutorial stays complete whatever is pressed. */
  lemma {:induction false} CompleteIsFinal(commands: seq<string>)
    ensures Replay(|Steps|, commands) == |Steps|
    decreases |commands|
  {
    if commands != [] {
      CompleteIsFinal(commands[1..]);
    }
  }

  /** Pressing the buttons of the remaining steps, from any step, completes the tutorial. */
  lemma {:induction false} ScriptFrom(step: nat)
    requires step <= |Steps|
    ensures Replay(step, Script()[step..]) == |Steps|
    decreases |Steps| - step
  {
    if step < |Steps| {
      var rest := Script()[step..];
      assert rest[0] == Steps[step].0;
      assert rest[1..] == Script()[step + 1..];
      ScriptFrom(step + 1);
    }
  }

  /** Following every instruction from the start completes the tutorial. */
  lemma ScriptCompletes()
    ensures Replay(0, Script()) == |Steps|
    ensures Instruction(Replay(0, Script())) == Complete
  {
    ScriptFrom(0);
    assert Script()[0..] == Script();
  }

  /** The tutorial object: how far the user has got. */
  class GuidedTutorial {
    var currentStep: nat

    /** The step never runs past the end of the list. */
    predicate Valid()
      reads this
    {
      currentStep <= |Steps|
    }

    constructor()
      ensures currentStep == 0 && Valid()
    {
      currentStep := 0;
    }

    /** `get_instruction`: the current step's instruction, or the completion text. */
    function GetInstruction(): (text: string)
      reads this
      ensures text == Instruction(currentStep)
      ensures text == Complete <==> currentStep >= |Steps|
    {
      InstructionComplete(currentStep);
      if currentStep < |Steps| then Steps[currentStep].1 else Complete
    }

    /** `advance_step`: moves to the next step when `command` is the current step's button. */
    method AdvanceStep(command: string) returns (advanced: bool)
      modifies this
      ensures (currentStep, advanced) == Advance(old(currentStep), command)
      ensures advanced <==> old(currentStep) < |Steps| && command == Steps[old(currentStep)].0
      ensures old(Valid()) ==> Valid()
    {
      if currentStep < |Steps| {
        var expected := Steps[currentStep].0;
        if command == expected {
          currentStep := currentStep + 1;
          return true;
        }
      }
      return false;
    }
  }
}
