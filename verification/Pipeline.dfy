// tools/sh.c: the file descriptors of a pipeline.
//
// The shell opens a pipe between neighbouring stages, forks a child for each stage and closes the ends it
// does not need any more. Any pipe or fork may fail, and any command may be missing; the shell does not
// stop at a failed pipe or fork.

module Pipeline {
  import opened Options

  /** What a descriptor refers to: an end of the pipe with a number, or something else. */
  datatype Desc = ReadEnd(pipe: nat) | WriteEnd(pipe: nat) | Other(id: nat)

  type Table = map<nat, Desc>

  // ---- the system calls ---------------------------------------------------------------------------

  predicate LowestFree(t: Table, fd: nat) {
    fd !in t && forall k: nat :: k < fd ==> k in t
  }

  function Closed(t: Table, fd: int): Table {
    map k | k in t && k != fd :: t[k]
  }

  function Duplicated(t: Table, from: nat, to: nat): Table {
    if from in t then t[to := t[from]] else t
  }

  lemma {:induction false} InitialKeys(keys: set<nat>, n: nat)
    requires forall k: nat :: k < n ==> k in keys
    ensures n <= |keys|
  {
    if n > 0 {
      InitialKeys(keys - {n - 1}, n - 1);
    }
  }

  /** The number of pipes made so far, and the descriptors with which commands have been executed. */
  class Kernel {
    var pipes: nat
    var commands: seq<Table>
  }

  class Process {
    var fds: Table

    constructor (fds: Table)
      ensures this.fds == fds
    {
      this.fds := fds;
    }

    /** The lowest descriptor that is not in use. */
    method FreeDescriptor() returns (fd: nat)
      ensures LowestFree(fds, fd)
    {
      fd := 0;
      while fd in fds
        invariant forall k: nat :: k < fd ==> k in fds
        decreases |fds.Keys| - fd
      {
        InitialKeys(fds.Keys, fd + 1);
        fd := fd + 1;
      }
    }

    /** sys_pipe: both ends get the lowest free descriptors, or it fails and leaves its argument alone. */
    method Pipe(kernel: Kernel, succeeds: bool) returns (r: int, w: int, ghost made: Option<nat>)
      modifies this, kernel`pipes
      ensures Piped(old(fds), fds, r, w, made)
      ensures made.Some? <==> succeeds
      ensures kernel.pipes == old(kernel.pipes) + if succeeds then 1 else 0
      ensures made.Some? ==> made.value == old(kernel.pipes)
    {
      r, w, made := -1, -1, None;
      if succeeds {
        var p := kernel.pipes;
        kernel.pipes := p + 1;
        made := Some(p);
        r := FreeDescriptor();
        fds := fds[r := ReadEnd(p)];
        w := FreeDescriptor();
        fds := fds[w := WriteEnd(p)];
      }
    }

    method Close(fd: nat)
      modifies this
      ensures fds == Closed(old(fds), fd)
    {
      fds := map k | k in fds && k != fd :: fds[k];
    }

    method Dup2(from: nat, to: nat)
      modifies this
      ensures fds == Duplicated(old(fds), from, to)
    {
      if from in fds {
        fds := fds[to := fds[from]];
      }
    }

    /** What a child does with its descriptors. */
    method Redirect(prev: int, r: int, w: int)
      requires w >= 0 ==> r >= 0
      modifies this
      ensures fds == Redirected(old(fds), prev, r, w)
    {
      if prev >= 0 {
        Dup2(prev, 0);
        Close(prev);
      }
      if w >= 0 {
        Close(r);
        Dup2(w, 1);
        Close(w);
      }
    }
  }

  // ---- what a stage should see ------------------------------------------------------------------

  function Redirected(t: Table, prev: int, r: int, w: int): Table {
    var t0 := if prev >= 0 then Closed(Duplicated(t, prev, 0), prev) else t;
    if w >= 0 then Closed(Duplicated(Closed(t0, r), w, 1), w) else t0
  }

  /** The table a stage should start with: the shell's own, with standard input from the pipe of the stage
      before and standard output to the pipe to the next one. */
  function Wired(orig: Table, input: Option<nat>, output: Option<nat>): Table {
    var t := if input.Some? then orig[0 := ReadEnd(input.value)] else orig;
    if output.Some? then t[1 := WriteEnd(output.value)] else t
  }

  /** The shell's table between two stages: its own, and the read end for the next stage. */
  ghost predicate Feeding(orig: Table, t: Table, prev: int, input: Option<nat>) {
    if prev < 0 then input.None? && t == orig
    else input.Some? && prev !in orig && t == orig[prev as nat := ReadEnd(input.value)]
  }

  ghost predicate Piped(before: Table, t: Table, r: int, w: int, made: Option<nat>) {
    if made.None? then r == w == -1 && t == before
    else r >= 0 && w >= 0
         && LowestFree(before, r) && LowestFree(before[r := ReadEnd(made.value)], w)
         && t == before[r as nat := ReadEnd(made.value)][w as nat := WriteEnd(made.value)]
  }

  /** When the child of a stage gets the right table: if descriptor 0 is open in the shell, always;
      otherwise only if the pipe ends it is given stay clear of 0 and 1. */
  predicate WillBeWired(orig: Table, prev: int, output: Option<nat>) {
    || 0 in orig
    || (prev < 0 && (output.None? || 1 in orig))
    || (prev > 0 && output.None?)
  }

  lemma RedirectedIff(orig: Table, mid: Table, t: Table, prev: int, input: Option<nat>, r: int, w: int,
                      output: Option<nat>)
    requires Feeding(orig, mid, prev, input) && Piped(mid, t, r, w, output)
    ensures Redirected(t, prev, r, w) == Wired(orig, input, output) <==> WillBeWired(orig, prev, output)
  {
    var child, want := Redirected(t, prev, r, w), Wired(orig, input, output);
    if WillBeWired(orig, prev, output) {
      Clear(orig, mid, t, prev, input, r, w, output);
      assert child == want;
    } else {
      Unclear(orig, mid, t, prev, input, r, w, output);
      var k := if prev < 0 then 1 else 0;
      assert k !in child && k in want;
    }
  }

  /** The pipe ends are neither in each other's way nor in that of 0 and 1. */
  lemma Clear(orig: Table, mid: Table, t: Table, prev: int, input: Option<nat>, r: int, w: int, output: Option<nat>)
    requires Feeding(orig, mid, prev, input) && Piped(mid, t, r, w, output) && WillBeWired(orig, prev, output)
    ensures prev != 0
    ensures output.Some? ==> w != prev && r != prev && w != r && w > 1 && (r > 0 || (prev < 0 && 0 !in orig))
  {
    if output.Some? {
      var one := mid[r as nat := ReadEnd(output.value)];
      assert r !in mid && w !in one;
      assert r > 0 || 0 !in orig;
      assert 0 in one;
      assert r > 0 ==> 1 in one;
    }
  }

  /** Otherwise the descriptor that the next stage or this one needs is closed again. */
  lemma Unclear(orig: Table, mid: Table, t: Table, prev: int, input: Option<nat>, r: int, w: int, output: Option<nat>)
    requires Feeding(orig, mid, prev, input) && Piped(mid, t, r, w, output) && !WillBeWired(orig, prev, output)
    ensures prev < 0 ==> r == 0 && w == 1 && output.Some?
    ensures prev > 0 ==> r == 0 && w > 0 && output.Some?
    ensures 0 !in orig && (prev == 0 ==> w != 0)
  {
    if output.Some? && prev != 0 {
      assert 0 !in mid;
      var one := mid[0 := ReadEnd(output.value)];
      if prev < 0 {
        assert 1 !in one && 0 in one;
      }
    }
  }

  /** In the shell both ends are gone again but for the read end that the next stage needs. */
  lemma Released(orig: Table, mid: Table, t: Table, prev: int, input: Option<nat>, r: int, w: int, output: Option<nat>)
    requires Feeding(orig, mid, prev, input) && Piped(mid, t, r, w, output)
    ensures var t0 := if prev >= 0 then Closed(t, prev) else t;
            var t1 := if w >= 0 then Closed(t0, w) else t0;
            Feeding(orig, t1, r, output) && (if r >= 0 then Closed(t1, r) else t1) == orig
  {
    var t0 := if prev >= 0 then Closed(t, prev) else t;
    var t1 := if w >= 0 then Closed(t0, w) else t0;
    if r >= 0 {
      assert t1 == orig[r as nat := ReadEnd(output.value)];
      assert Closed(t1, r) == orig;
    } else {
      assert t1 == orig;
    }
  }

  // ---- the pipeline --------------------------------------------------------------------------------

  /** One stage as it was run: the pipes on either side, the descriptor its input came from, and the table
      with which its child executed the command, if it was forked. */
  datatype Stage = Stage(input: Option<nat>, prev: int, output: Option<nat>, child: Option<Table>)

  /** Each stage reads from the pipe the one before writes to; pipes are new and different. */
  ghost predicate Linked(stages: seq<Stage>, base: nat, end: nat) {
    && (stages != [] ==> stages[0].input.None?)
    && (forall i :: 0 < i < |stages| ==> stages[i].input == stages[i - 1].output)
    && (forall i :: 0 <= i < |stages| && stages[i].output.Some? ==> base <= stages[i].output.value < end)
    && (forall i, j :: 0 <= i < j < |stages| && stages[i].output.Some? ==> stages[i].output != stages[j].output)
  }

  ghost predicate RightlyWired(orig: Table, s: Stage) {
    s.child.Some? ==> (s.child.value == Wired(orig, s.input, s.output) <==> WillBeWired(orig, s.prev, s.output))
  }

  /** Where the input comes from a pipe made while no other pipe was open, its read end has the lowest
      descriptor free in the shell. */
  ghost predicate RightlyFed(orig: Table, stages: seq<Stage>) {
    forall i :: 0 <= i < |stages| ==>
      && (stages[i].prev < 0 <==> stages[i].input.None?)
      && (i > 0 && stages[i].input.Some? && stages[i - 1].input.None? ==> LowestFree(orig, stages[i].prev))
  }

  /** All that is known of the stages run so far. */
  ghost predicate Run(orig: Table, stages: seq<Stage>, base: nat, end: nat) {
    && base <= end && Linked(stages, base, end) && RightlyFed(orig, stages)
    && forall i :: 0 <= i < |stages| ==> RightlyWired(orig, stages[i])
  }

  ghost predicate Between(orig: Table, t: Table, stages: seq<Stage>, prev: int, input: Option<nat>) {
    && Feeding(orig, t, prev, input)
    && input == (if stages == [] then None else stages[|stages| - 1].output)
    && (stages != [] && input.Some? && stages[|stages| - 1].input.None? ==> LowestFree(orig, prev))
  }

  lemma RunMore(orig: Table, mid: Table, t: Table, stages: seq<Stage>, base: nat, end: nat, end': nat,
                prev: int, input: Option<nat>, r: int, w: int, output: Option<nat>, child: Option<Table>)
    requires Run(orig, stages, base, end) && Between(orig, mid, stages, prev, input) && end <= end'
    requires Piped(mid, t, r, w, output) && (output.Some? ==> end <= output.value < end')
    requires child.Some? ==> child.value == Redirected(t, prev, r, w)
    ensures Run(orig, stages + [Stage(input, prev, output, child)], base, end')
    ensures var t0 := if prev >= 0 then Closed(t, prev) else t;
            Between(orig, if w >= 0 then Closed(t0, w) else t0, stages + [Stage(input, prev, output, child)], r, output)
  {
    RedirectedIff(orig, mid, t, prev, input, r, w, output);
    Released(orig, mid, t, prev, input, r, w, output);
    NextFed(orig, mid, t, prev, input, r, w, output);
    hide Redirected, Wired, WillBeWired, Closed, Feeding, Piped, LowestFree, Linked, RightlyFed;
    var stage := Stage(input, prev, output, child);
    LinkedMore(stages, base, end, end', stage);
    FedMore(orig, stages, stage);
  }

  lemma NextFed(orig: Table, mid: Table, t: Table, prev: int, input: Option<nat>, r: int, w: int, output: Option<nat>)
    requires Feeding(orig, mid, prev, input) && Piped(mid, t, r, w, output)
    ensures prev < 0 <==> input.None?
    ensures input.None? && output.Some? ==> LowestFree(orig, r)
  {
  }

  lemma LinkedMore(stages: seq<Stage>, base: nat, end: nat, end': nat, stage: Stage)
    requires Linked(stages, base, end) && base <= end <= end'
    requires stage.input == if stages == [] then None else stages[|stages| - 1].output
    requires stage.output.Some? ==> end <= stage.output.value < end'
    ensures Linked(stages + [stage], base, end')
  {
  }

  lemma FedMore(orig: Table, stages: seq<Stage>, stage: Stage)
    requires RightlyFed(orig, stages) && (stage.prev < 0 <==> stage.input.None?)
    requires stages != [] && stage.input.Some? && stages[|stages| - 1].input.None? ==> LowestFree(orig, stage.prev)
    ensures RightlyFed(orig, stages + [stage])
  {
    hide LowestFree;
  }

  /** What the system answers at one stage: whether the command is found, a pipe can be made, and a child be
      forked. */
  datatype Answers = Answers(found: bool, piped: bool, forked: bool)

  /** The stages went as the system answered: those up to the first command that is not found, a pipe behind
      all but the last if it could be made, a child if it could be forked. */
  ghost predicate AsAnswered(stages: seq<Stage>, answers: seq<Answers>) {
    && |stages| <= |answers| && (|stages| < |answers| ==> !answers[|stages|].found)
    && AnsweredSoFar(stages, answers)
  }

  ghost predicate AnsweredSoFar(stages: seq<Stage>, answers: seq<Answers>) {
    && |stages| <= |answers|
    && forall i :: 0 <= i < |stages| ==>
         && answers[i].found && (stages[i].child.Some? <==> answers[i].forked)
         && (stages[i].output.Some? <==> answers[i].piped && i < |answers| - 1)
  }

  /** The tables of the children, in order. */
  ghost function Children(stages: seq<Stage>): seq<Table> {
    if stages == [] then []
    else
      var last := stages[|stages| - 1];
      Children(stages[..|stages| - 1]) + if last.child.Some? then [last.child.value] else []
  }

  lemma ChildrenMore(stages: seq<Stage>, stage: Stage)
    ensures Children(stages + [stage]) == Children(stages) + if stage.child.Some? then [stage.child.value] else []
  {
    assert (stages + [stage])[..|stages|] == stages;
  }

  /** The child of a stage, if it can be forked, up to the execution of the command: its descriptors then. */
  method Fork(kernel: Kernel, shell: Process, prev: int, r: int, w: int, forked: bool)
    returns (ghost child: Option<Table>)
    requires w >= 0 ==> r >= 0
    modifies kernel`commands
    ensures child == if forked then Some(Redirected(shell.fds, prev, r, w)) else None
    ensures kernel.commands == old(kernel.commands) + if forked then [Redirected(shell.fds, prev, r, w)] else []
  {
    child := None;
    if forked {
      var process := new Process(shell.fds);
      process.Redirect(prev, r, w);
      kernel.commands := kernel.commands + [process.fds];
      child := Some(process.fds);
    }
  }

  /** In the shell: the ends of a stage that are not needed any more. */
  method CloseEnds(shell: Process, prev: int, w: int)
    modifies shell
    ensures var t0 := if prev >= 0 then Closed(old(shell.fds), prev) else old(shell.fds);
            shell.fds == if w >= 0 then Closed(t0, w) else t0
  {
    if prev >= 0 {
      shell.Close(prev);
    }
    if w >= 0 {
      shell.Close(w);
    }
  }

  /** The pipeline of execute_line, for the stages' answers of the system. Whatever fails, the shell's
      descriptors are as before when it returns, and a command is executed for each child. If descriptor 0 is
      open in the shell, every command gets exactly the descriptors it should; if nothing fails, and there are
      two stages or more, only then do all of them. */
  method Execute(kernel: Kernel, shell: Process, answers: seq<Answers>) returns (status: int, ghost stages: seq<Stage>)
    modifies shell, kernel
    ensures shell.fds == old(shell.fds)
    ensures AsAnswered(stages, answers) && (|stages| < |answers| ==> status == 127)
    ensures Run(old(shell.fds), stages, old(kernel.pipes), kernel.pipes)
    ensures kernel.commands == old(kernel.commands) + Children(stages)
    ensures 0 in old(shell.fds) ==> AllWired(old(shell.fds), stages)
    ensures |answers| > 1 && NothingFails(answers) ==>
      && |stages| == |answers| == |Children(stages)|
      && (0 in old(shell.fds) <==> AllWired(old(shell.fds), stages))
  {
    hide Redirected, Closed, Run, Between, Piped, AnsweredSoFar, Children, AllWired, NothingFails;
    ghost var orig, base := shell.fds, kernel.pipes;
    stages, status := [], 0;
    var prev: int := -1;
    ghost var input: Option<nat> := None;
    Before(orig, base, answers);
    var s := 0;
    while s < |answers|
      invariant s == |stages| <= |answers| && AnsweredSoFar(stages, answers)
      invariant Run(orig, stages, base, kernel.pipes) && Between(orig, shell.fds, stages, prev, input)
      invariant kernel.commands == old(kernel.commands) + Children(stages)
      invariant |stages| == |answers| > 0 ==> input.None?
    {
      ghost var mid, end := shell.fds, kernel.pipes;
      var r, w := -1, -1;
      ghost var output: Option<nat> := None;
      if s < |answers| - 1 {
        r, w, output := shell.Pipe(kernel, answers[s].piped);
      } else {
        NoPipe(mid);
      }
      Ends(mid, shell.fds, r, w, output);

      if !answers[s].found {
        Unused(orig, mid, shell.fds, stages, prev, input, r, w, output);
        RunLater(orig, stages, base, end, kernel.pipes);
        CloseEnds(shell, prev, r);
        if r >= 0 {
          shell.Close(w);
        }
        WiredAsAnswered(orig, stages, base, kernel.pipes, answers);
        return 127, stages;
      }

      ghost var child := Fork(kernel, shell, prev, r, w, answers[s].forked);
      RunMore(orig, mid, shell.fds, stages, base, end, kernel.pipes, prev, input, r, w, output, child);
      AnsweredMore(stages, answers, Stage(input, prev, output, child));
      ChildrenMore(stages, Stage(input, prev, output, child));
      stages := stages + [Stage(input, prev, output, child)];
      CloseEnds(shell, prev, w);
      prev, input := r, output;
      s := s + 1;
    }
    After(orig, shell.fds, stages, prev, input);
    WiredAsAnswered(orig, stages, base, kernel.pipes, answers);
    status := *;
  }

  lemma AnsweredMore(stages: seq<Stage>, answers: seq<Answers>, stage: Stage)
    requires AnsweredSoFar(stages, answers) && |stages| < |answers| && answers[|stages|].found
    requires stage.child.Some? <==> answers[|stages|].forked
    requires stage.output.Some? <==> answers[|stages|].piped && |stages| < |answers| - 1
    ensures AnsweredSoFar(stages + [stage], answers)
  {
  }

  lemma Before(orig: Table, base: nat, answers: seq<Answers>)
    ensures Run(orig, [], base, base) && Between(orig, orig, [], -1, None)
    ensures AnsweredSoFar([], answers) && Children([]) == []
  {
  }

  lemma After(orig: Table, t: Table, stages: seq<Stage>, prev: int, input: Option<nat>)
    requires Between(orig, t, stages, prev, input) && (stages != [] ==> input.None?)
    ensures t == orig
  {
  }

  lemma NoPipe(t: Table)
    ensures Piped(t, t, -1, -1, None)
  {
  }

  lemma Ends(mid: Table, t: Table, r: int, w: int, output: Option<nat>)
    requires Piped(mid, t, r, w, output)
    ensures (r >= 0 <==> output.Some?) && (w >= 0 <==> output.Some?)
  {
  }

  lemma RunLater(orig: Table, stages: seq<Stage>, base: nat, end: nat, end': nat)
    requires Run(orig, stages, base, end) && end <= end'
    ensures Run(orig, stages, base, end')
  {
  }

  lemma Unused(orig: Table, mid: Table, t: Table, stages: seq<Stage>, prev: int, input: Option<nat>,
               r: int, w: int, output: Option<nat>)
    requires Between(orig, mid, stages, prev, input) && Piped(mid, t, r, w, output)
    ensures var t0 := if prev >= 0 then Closed(t, prev) else t;
            (if r >= 0 then Closed(Closed(t0, r), w) else t0) == orig
  {
  }

  // ---- consequences --------------------------------------------------------------------------------

  /** Every command that is executed gets exactly the descriptors it should. */
  ghost predicate AllWired(orig: Table, stages: seq<Stage>) {
    forall i :: 0 <= i < |stages| && stages[i].child.Some? ==>
      stages[i].child.value == Wired(orig, stages[i].input, stages[i].output)
  }

  ghost predicate NothingFails(answers: seq<Answers>) {
    forall i :: 0 <= i < |answers| ==> answers[i] == Answers(true, true, true)
  }

  /** If every pipe, fork and command is there, all stages are wired right exactly when descriptor 0 is open
      in the shell. */
  lemma AllWiredIff(orig: Table, stages: seq<Stage>, base: nat, end: nat)
    requires |stages| > 1 && Run(orig, stages, base, end)
    requires forall i :: 0 <= i < |stages| ==> stages[i].child.Some?
    requires forall i :: 0 <= i < |stages| ==> (stages[i].output.Some? <==> i < |stages| - 1)
    ensures 0 in orig <==> AllWired(orig, stages)
  {
    if 0 !in orig {
      assert stages[1].input == stages[0].output;
      assert LowestFree(orig, stages[1].prev);
      assert RightlyWired(orig, stages[1]);
    }
  }

  /** What that means for a run. */
  lemma WiredAsAnswered(orig: Table, stages: seq<Stage>, base: nat, end: nat, answers: seq<Answers>)
    requires Run(orig, stages, base, end) && AsAnswered(stages, answers)
    ensures 0 in orig ==> AllWired(orig, stages)
    ensures |answers| > 1 && NothingFails(answers) ==>
      |stages| == |answers| == |Children(stages)| && (0 in orig <==> AllWired(orig, stages))
  {
    hide Linked, RightlyFed, Wired;
    if |answers| > 1 && NothingFails(answers) {
      AllWiredIff(orig, stages, base, end);
      AllChildren(stages);
    }
  }

  lemma {:induction false} AllChildren(stages: seq<Stage>)
    requires forall i :: 0 <= i < |stages| ==> stages[i].child.Some?
    ensures |Children(stages)| == |stages|
    ensures forall i :: 0 <= i < |stages| ==> Children(stages)[i] == stages[i].child.value
  {
    if stages != [] {
      AllChildren(stages[..|stages| - 1]);
    }
  }

  /** Apart from standard input and output a stage holds no end of a pipe of the pipeline. So the write end
      of a pipe is open only in the stage that writes to it, and the next stage reads the end of the file
      when that stage ends. */
  lemma OnlyEnds(orig: Table, stages: seq<Stage>, base: nat, end: nat, i: nat, fd: nat, p: nat)
    requires 0 in orig && i < |stages| && stages[i].child.Some? && fd in stages[i].child.value && base <= p
    requires Run(orig, stages, base, end)
    requires forall k :: k in orig ==> orig[k].Other? || orig[k].pipe < base
    ensures stages[i].child.value[fd] == ReadEnd(p) <==> fd == 0 && i > 0 && stages[i - 1].output == Some(p)
    ensures stages[i].child.value[fd] == WriteEnd(p) <==> fd == 1 && stages[i].output == Some(p)
  {
  }

  /** For instance, if the shell runs with descriptor 0 closed, the first pipe's read end takes its place, and
      the second stage closes it before the command is executed. */
  lemma InputLost(p: nat)
    ensures LowestFree(map[1 := Other(1)], 0)
    ensures Redirected(map[0 := ReadEnd(p), 1 := Other(1)], 0, -1, -1) == map[1 := Other(1)]
    ensures 0 in Wired(map[1 := Other(1)], Some(p), None)
  {
  }
}
