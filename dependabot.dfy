/** The dependency-update merge assistant of src/dependabot.tsx: it moves to
    the staging branch, lists the open pull requests against `main`, keeps the
    automated dependency updates, and walks through them one at a time,
    merging or skipping each, pausing on a conflict until the operator
    resolves it, and finally offers to push staging.

    The component's state hooks are the fields of `Dependabot`; each handler
    is a method that takes the outcome of the commands it runs as parameters. */
module Dependabot {
  import opened Wrappers
  import opened Text
  import opened Seqs

  datatype PR = PR(number: int, title: string, headRefName: string)

  datatype Phase = Init | Setup | Loading | Confirm | Merging | Conflict | PushConfirmation | Done | Error

  /** The status line, by message; the branch or error text it carries is its content. */
  datatype LogLine =
    | Blank
    | CheckingOutStaging
    | SetupFailed(error: string)
    | FetchingPRs
    | NoMatchingPRs
    | FetchFailed(error: string)
    | FetchingBranch(branch: string)
    | MergingBranch(branch: string)
    | Merged(branch: string)
    | MergeConflict(branch: string)
    | ContinuingMerge(branch: string)
    | Resolved(branch: string)
    | ContinueFailed(branch: string)
    | Pushing
    | Pushed
    | PushFailed(error: string)
    | SkippedPush

  // ----- the pull-request filter -----

  /** The title matches `/\(deps(-dev)?\)/i`: it contains `(deps)` or
      `(deps-dev)` in any letter case. The pattern is ASCII, and a
      case-insensitive match never pairs a non-ASCII character with an ASCII
      one, so ASCII lower-casing decides the match exactly. */
  predicate TitleMarksDependencies(title: string) {
    Contains(Lower(title), "(deps)") || Contains(Lower(title), "(deps-dev)")
  }

  /** A dependency update: marked so in its title, or on a `dependabot/` branch. */
  predicate IsDependencyUpdate(pr: PR) {
    TitleMarksDependencies(pr.title) || "dependabot/" <= pr.headRefName
  }

  /** The match ignores letter case: two titles that differ only in the case
      of their letters are both marked or both unmarked. */
  lemma MarkIgnoresCase(t: string, u: string)
    requires |t| == |u| && forall i :: 0 <= i < |t| ==> LowerChar(t[i]) == LowerChar(u[i])
    ensures TitleMarksDependencies(t) == TitleMarksDependencies(u)
  {
    assert Lower(t) == Lower(u);
  }

  /** The marker may stand anywhere in the title, in any letter case. */
  lemma MarkAnywhere(before: string, mark: string, after: string)
    requires Lower(mark) == "(deps)" || Lower(mark) == "(deps-dev)"
    ensures TitleMarksDependencies(before + mark + after)
  {
    var t := before + mark + after;
    var lt := Lower(t);
    assert lt[|before|..|before| + |mark|] == Lower(mark) by {
      forall k | 0 <= k < |mark|
        ensures lt[|before|..|before| + |mark|][k] == Lower(mark)[k]
      {
        assert t[|before| + k] == mark[k];
      }
    }
    assert OccursAt(lt, Lower(mark), |before|);
  }

  /** The filter of `loadPRs`: exactly the dependency updates, in their listed order. */
  function DependencyUpdates(prs: seq<PR>): (r: seq<PR>)
    ensures forall pr :: pr in r <==> pr in prs && IsDependencyUpdate(pr)
    ensures forall i :: 0 <= i < |r| ==> IsDependencyUpdate(r[i])
    ensures IsSubsequence(r, prs)
    ensures |r| <= |prs|
  {
    if prs == [] then []
    else
      var rest := DependencyUpdates(prs[1..]);
      assert forall pr :: pr in prs <==> pr == prs[0] || pr in prs[1..];
      if IsDependencyUpdate(prs[0]) then
        assert ([prs[0]] + rest)[1..] == rest;
        [prs[0]] + rest
      else rest
  }

  /** Each dependency update is kept as often as it is listed, and nothing else is kept. */
  lemma {:induction false} DependencyUpdatesCounts(prs: seq<PR>)
    ensures forall pr :: multiset(DependencyUpdates(prs))[pr] == if IsDependencyUpdate(pr) then multiset(prs)[pr] else 0
  {
    if prs != [] {
      DependencyUpdatesCounts(prs[1..]);
      assert prs == [prs[0]] + prs[1..];
    }
  }

  // ----- the walk through the pull requests -----

  /** The rule shared by a clean merge, a skip and a resolved conflict: the
      next pull request is offered for confirmation if there is one, and
      otherwise the push is offered with the cursor left on the last one. */
  function Advance(index: nat, count: nat): (next: (nat, Phase))
    requires index < count
    ensures next.0 < count
    ensures index <= next.0 <= index + 1
    ensures next.1 == Confirm <==> next.0 == index + 1
    ensures next.1 == PushConfirmation <==> index + 1 == count
    ensures next.1 == Confirm || next.1 == PushConfirmation
  {
    if index + 1 < count then (index + 1, Confirm) else (index, PushConfirmation)
  }

  /** The phases in which a pull request is under consideration. */
  predicate Reviewing(phase: Phase) {
    phase == Confirm || phase == Merging || phase == Conflict || phase == PushConfirmation
  }

  /** The component state: the `phase`, `prs`, `currentIndex` and `log`
      hooks, whether `onCancel` was called, and whether the exit timer was set. */
  class Dependabot {
    var phase: Phase
    var prs: seq<PR>
    var currentIndex: nat
    var log: LogLine
    var cancelled: bool
    var exitScheduled: bool

    /** Before loading there is nothing to walk through; every listed pull
        request is a dependency update; while one is under consideration the
        cursor points into the list; and `setup` is never entered. */
    ghost predicate Valid()
      reads this
    {
      && phase != Setup
      && (phase == Init || phase == Loading ==> prs == [] && currentIndex == 0)
      && (Reviewing(phase) ==> currentIndex < |prs|)
      && (currentIndex == 0 || currentIndex < |prs|)
      && (forall i :: 0 <= i < |prs| ==> IsDependencyUpdate(prs[i]))
    }

    constructor ()
      ensures Valid()
      ensures phase == Init && prs == [] && currentIndex == 0 && log == Blank
      ensures !cancelled && !exitScheduled
    {
      phase := Init;
      prs := [];
      currentIndex := 0;
      log := Blank;
      cancelled := false;
      exitScheduled := false;
    }

    /** The effect of the `init` phase: `runSetup` (stash, check out staging,
        pull), then, unconditionally, `loading`, so a failed setup leaves
        only its message behind and loading goes ahead anyway. */
    method RunInit(setupError: Option<string>)
      requires Valid()
      modifies this`phase, this`log
      ensures Valid()
      ensures old(phase) == Init ==> phase == Loading
      ensures old(phase) == Init ==> log == (if setupError.Some? then SetupFailed(setupError.value) else CheckingOutStaging)
      ensures old(phase) != Init ==> phase == old(phase) && log == old(log)
    {
      if phase != Init {
        return;
      }
      log := CheckingOutStaging;
      if setupError.Some? {
        log := SetupFailed(setupError.value);
        phase := Error;
      } else {
        phase := Loading;
      }
      phase := Loading;
    }

    /** The effect of the `loading` phase: `loadPRs`. A failed listing shows
        the error; no dependency update ends the run; otherwise the updates
        are kept and the first one is offered. */
    method LoadPRs(listing: Result<seq<PR>, string>)
      requires Valid()
      modifies this`phase, this`prs, this`log, this`exitScheduled
      ensures Valid()
      ensures currentIndex == old(currentIndex)
      ensures old(phase) != Loading ==> phase == old(phase) && prs == old(prs) && log == old(log) && exitScheduled == old(exitScheduled)
      ensures old(phase) == Loading && listing.Err? ==>
        phase == Error && log == FetchFailed(listing.error) && prs == [] && exitScheduled == old(exitScheduled)
      ensures old(phase) == Loading && listing.Ok? && DependencyUpdates(listing.value) == [] ==>
        phase == Done && log == NoMatchingPRs && prs == [] && exitScheduled
      ensures old(phase) == Loading && listing.Ok? && DependencyUpdates(listing.value) != [] ==>
        phase == Confirm && prs == DependencyUpdates(listing.value) && currentIndex == 0
        && log == FetchingPRs && exitScheduled == old(exitScheduled)
    {
      if phase != Loading {
        return;
      }
      log := FetchingPRs;
      match listing {
        case Err(e) =>
          log := FetchFailed(e);
          phase := Error;
        case Ok(all) =>
          var filtered := DependencyUpdates(all);
          if |filtered| == 0 {
            log := NoMatchingPRs;
            phase := Done;
            exitScheduled := true;
          } else {
            prs := filtered;
            phase := Confirm;
          }
      }
    }

    /** Moves the cursor on by the shared rule. */
    method AdvanceCursor()
      requires Valid() && currentIndex < |prs|
      requires phase == Confirm || phase == Merging || phase == Conflict
      modifies this`currentIndex, this`phase
      ensures Valid()
      ensures (currentIndex, phase) == Advance(old(currentIndex), |prs|)
    {
      if currentIndex + 1 < |prs| {
        currentIndex := currentIndex + 1;
        phase := Confirm;
      } else {
        phase := PushConfirmation;
      }
    }

    /** `mergeCurrentPR`: fetch the branch of the current pull request and
        merge it into staging. Either command failing is reported as a
        conflict and pauses the walk on the same pull request; a clean merge
        advances. */
    method MergeCurrentPR(fetchOk: bool, mergeOk: bool)
      requires Valid() && phase == Merging
      modifies this`currentIndex, this`phase, this`log
      ensures Valid()
      ensures var branch := old(prs[currentIndex].headRefName);
        if fetchOk && mergeOk then log == Merged(branch) && (currentIndex, phase) == Advance(old(currentIndex), |prs|)
        else log == MergeConflict(branch) && phase == Conflict && currentIndex == old(currentIndex)
    {
      var branch := prs[currentIndex].headRefName;
      log := FetchingBranch(branch);
      if !fetchOk {
        log := MergeConflict(branch);
        phase := Conflict;
        return;
      }
      log := MergingBranch(branch);
      if !mergeOk {
        log := MergeConflict(branch);
        phase := Conflict;
        return;
      }
      log := Merged(branch);
      AdvanceCursor();
    }

    /** The confirmation `Select`'s `onChange`: "yes" merges the current pull
        request (with the outcomes of its fetch and merge), any other answer
        skips it by the shared rule. */
    method AnswerMerge(value: string, fetchOk: bool, mergeOk: bool)
      requires Valid()
      modifies this`currentIndex, this`phase, this`log
      ensures Valid()
      ensures old(currentIndex) <= currentIndex <= old(currentIndex) + 1
      ensures old(phase) != Confirm ==> phase == old(phase) && currentIndex == old(currentIndex) && log == old(log)
      ensures old(phase) == Confirm && value != "yes" ==> (currentIndex, phase) == Advance(old(currentIndex), |prs|) && log == old(log)
      ensures old(phase) == Confirm && value == "yes" && !(fetchOk && mergeOk) ==> phase == Conflict && currentIndex == old(currentIndex)
      ensures old(phase) == Confirm && value == "yes" && fetchOk && mergeOk ==> (currentIndex, phase) == Advance(old(currentIndex), |prs|)
    {
      if phase != Confirm {
        return;
      }
      if value == "yes" {
        phase := Merging;
        MergeCurrentPR(fetchOk, mergeOk);
      } else {
        AdvanceCursor();
      }
    }

    /** `continueMerge`: `git merge --continue` for the current pull request.
        Success advances by the shared rule; failure only rewrites the log. */
    method ContinueMerge(resumeOk: bool)
      requires Valid() && phase == Conflict
      modifies this`currentIndex, this`phase, this`log
      ensures Valid()
      ensures var branch := old(prs[currentIndex].headRefName);
        if resumeOk then log == Resolved(branch) && (currentIndex, phase) == Advance(old(currentIndex), |prs|)
        else log == ContinueFailed(branch) && phase == Conflict && currentIndex == old(currentIndex)
    {
      var branch := prs[currentIndex].headRefName;
      log := ContinuingMerge(branch);
      if resumeOk {
        log := Resolved(branch);
        AdvanceCursor();
      } else {
        log := ContinueFailed(branch);
      }
    }

    /** `useInput`: escape calls `onCancel` in every phase; Enter resumes the
        merge, and only in `conflict`. */
    method Key(escape: bool, enter: bool, resumeOk: bool)
      requires Valid()
      modifies this`cancelled, this`currentIndex, this`phase, this`log
      ensures Valid()
      ensures cancelled == (old(cancelled) || escape)
      ensures old(currentIndex) <= currentIndex <= old(currentIndex) + 1
      ensures !(old(phase) == Conflict && enter) ==> phase == old(phase) && currentIndex == old(currentIndex) && log == old(log)
      ensures old(phase) == Conflict && enter && !resumeOk ==> phase == Conflict && currentIndex == old(currentIndex)
      ensures old(phase) == Conflict && enter && resumeOk ==> (currentIndex, phase) == Advance(old(currentIndex), |prs|)
    {
      if escape {
        cancelled := true;
      }
      if phase == Conflict && enter {
        ContinueMerge(resumeOk);
      }
    }

    /** The push `Select`'s `onChange`: "yes" pushes staging and reports the
        result, any other answer reports the skip; either way the run is done. */
    method AnswerPush(value: string, pushError: Option<string>)
      requires Valid()
      modifies this`phase, this`log, this`exitScheduled
      ensures Valid()
      ensures old(phase) != PushConfirmation ==> phase == old(phase) && log == old(log) && exitScheduled == old(exitScheduled)
      ensures old(phase) == PushConfirmation ==> phase == Done && exitScheduled
      ensures old(phase) == PushConfirmation ==>
        log == (if value != "yes" then SkippedPush else if pushError.None? then Pushed else PushFailed(pushError.value))
    {
      if phase != PushConfirmation {
        return;
      }
      if value == "yes" {
        log := Pushing;
        match pushError {
          case None => log := Pushed;
          case Some(e) => log := PushFailed(e);
        }
      } else {
        log := SkippedPush;
      }
      phase := Done;
      exitScheduled := true;
    }
  }

  /** Two dependency updates: the first merges cleanly and the cursor moves
      to the second; merging the second fails, a resume with conflicts left
      keeps the walk paused, and a resume after resolution offers the push
      with the cursor still on the second. */
  method TwoUpdatesWithConflict(first: PR, second: PR) returns (index: nat, phase: Phase)
    requires IsDependencyUpdate(first) && IsDependencyUpdate(second)
    ensures index == 1 && phase == PushConfirmation
  {
    var d := new Dependabot();
    d.RunInit(None);
    d.LoadPRs(Ok([first, second]));
    assert d.prs == [first, second];
    d.AnswerMerge("yes", true, true);
    assert d.currentIndex == 1 && d.phase == Confirm;
    d.AnswerMerge("yes", true, false);
    assert d.phase == Conflict;
    d.Key(false, true, false);
    assert d.phase == Conflict && d.currentIndex == 1;
    d.Key(false, true, true);
    index, phase := d.currentIndex, d.phase;
  }
}
