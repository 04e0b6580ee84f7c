/** The command-line prune flow of prune_branches.js (`pruneBranches`): make
    sure this is a repository, fetch, pick the remote primary branch, run the
    same reconciliation as the interactive screen, describe every candidate,
    then ask which branches to delete, ask for confirmation, move to `main`
    (stashing uncommitted work first) and delete the chosen branches in order.

    The prompts are inputs (`Answers`), every git command is an outcome in the
    `Repo`, and a run yields a `Report` of how it ended, the menu it offered
    and the git commands with side effects it issued. */
module PruneScript {
  import opened Wrappers
  import opened Text
  import opened Seqs
  import opened Git
  import opened Reconcile
  import PruneUi

  /** The answer to the branch multiselect. A cancelled prompt answers with
      the prompt library's cancel symbol. */
  datatype Selection = Picked(branches: seq<string>) | SelectionCancelled

  /** The answer to "Are you sure you want to proceed?". */
  datatype Confirmation = Yes | No | ConfirmationCancelled

  /** The answer to the stash-message prompt. */
  datatype StashAnswer = Entered(message: string) | StashCancelled

  datatype Answers = Answers(selection: Selection, confirmation: Confirmation, stash: StashAnswer)

  datatype Outcome =
    | NotARepository  // the repository check failed; nothing else ran
    | NothingToPrune  // the reconciliation found no candidate
    | NoneSelected    // the selection was empty
    | Declined        // the confirmation was answered with no
    | Exited          // the stash prompt was cancelled; the process exits
    | Failed          // a command or a runtime error threw into the outer handler
    | Completed       // every selected branch was deleted

  /** How a run ended, the menu it offered, the message of the `git stash
      push` it issued (if any), whether it issued `git checkout main`, and the
      `git branch -D` commands it issued, in order. */
  datatype Report = Report(
    outcome: Outcome,
    offered: seq<PruneUi.Choice>,
    stashed: Option<string>,
    checkoutIssued: bool,
    deletions: seq<string>)

  /** `t.replace("refs/remotes/", "")`: the first `refs/remotes/` in `t` is
      removed, wherever it is. */
  function CutRemotesRef(t: string): (r: string)
    ensures "refs/remotes/" <= t ==> t == "refs/remotes/" + r
    ensures !Contains(t, "refs/remotes/") ==> r == t
    ensures Contains(t, "refs/remotes/") ==>
      exists i :: FirstOccurrence(t, "refs/remotes/", i) && r == t[..i] + t[i + |"refs/remotes/"|..]
  {
    var r := ReplaceFirst(t, "refs/remotes/", "");
    assert "refs/remotes/" <= t ==> t == "refs/remotes/" + t[|"refs/remotes/"|..];
    r
  }

  /** The removal is not anchored at the start: whatever text without a
      reference of its own stands before `refs/remotes/` survives, and the
      reference in the middle is cut out. */
  lemma CutInMiddle(before: string, after: string)
    requires !Contains(before, "refs/remotes/")
    ensures CutRemotesRef(before + "refs/remotes/" + after) == before + after
  {
    var t := before + "refs/remotes/" + after;
    var p := "refs/remotes/";
    var n := |before|;
    assert t[n..n + |p|] == p;
    assert OccursAt(t, p, n);
    forall j | 0 <= j < n
      ensures !OccursAt(t, p, j)
    {
      if j + |p| <= n {
        assert t[j..j + |p|] == before[j..j + |p|];
        assert !OccursAt(before, p, j);
      } else {
        // An occurrence straddling the start of the reference would make the
        // pattern overlap itself, which `refs/remotes/` cannot.
        var d := n - j;
        RefHasNoBorder(d);
        assert t[j..j + |p|][d] == t[n] == 'r';
        if d == 5 {
          assert t[j..j + |p|][7] == t[n + 2] == 'f';
        }
      }
    }
    assert IndexOf(t, p) == Some(n);
    assert t[..n] == before && t[n + |p|..] == after;
  }

  /** `refs/remotes/` does not overlap itself: the only later `r` in it,
      at 5, is followed by `em`, not `ef`. */
  lemma RefHasNoBorder(d: int)
    requires 0 < d < |"refs/remotes/"|
    ensures d != 5 ==> "refs/remotes/"[d] != 'r'
    ensures "refs/remotes/"[7] != 'f'
  {
  }

  /** The remote primary branch the diffs are counted against: the output of
      `git symbolic-ref refs/remotes/origin/HEAD`, trimmed, with the first
      `refs/remotes/` in it removed wherever it occurs; `origin/main` when the
      command fails. */
  function RemotePrimary(symbolicHead: Option<string>): (r: string)
    ensures symbolicHead.None? ==> r == "origin/main"
    ensures symbolicHead.Some? ==> r == CutRemotesRef(Trim(symbolicHead.value))
  {
    match symbolicHead
    case None => "origin/main"
    case Some(out) => CutRemotesRef(Trim(out))
  }

  /** The ahead and behind counts of `git rev-list --left-right --count`
      against `primary`, each "N/A" when the command fails; otherwise the
      first two white-space separated fields of the trimmed output. */
  function DiffCounts(branch: string, primary: string, repo: Repo): (r: (string, string))
    ensures repo.revList(branch, primary).None? ==> r == ("N/A", "N/A")
    ensures repo.revList(branch, primary).Some? ==> r.0 <= Trim(repo.revList(branch, primary).value)
    ensures repo.revList(branch, primary).Some? ==>
      var t := Trim(repo.revList(branch, primary).value); r == (Field0(t), Rendered(Field1(t)))
    ensures HasNoSpace(r.0) && HasNoSpace(r.1)
  {
    match repo.revList(branch, primary)
    case Some(out) =>
      var t := Trim(out);
      RenderedHasNoSpace(Field1(t));
      (Field0(t), Rendered(Field1(t)))
    case None =>
      assert "N/A"[0] == 'N' && "N/A"[1] == '/' && "N/A"[2] == 'A';
      ("N/A", "N/A")
  }

  /** The last commit date as `render` (the locale formatting) writes a valid
      date; "Invalid Date" when the output does not parse, and "N/A" when
      `git log` fails. */
  function LastCommit(branch: string, repo: Repo, render: CommitDate -> string): (r: string)
    ensures repo.commitDate(branch).None? ==> r == "N/A"
    ensures repo.commitDate(branch) == Some(InvalidDate) ==> r == "Invalid Date"
    ensures repo.commitDate(branch).Some? && repo.commitDate(branch).value.CommitDate? ==>
      r == render(repo.commitDate(branch).value)
  {
    match repo.commitDate(branch)
    case Some(InvalidDate) => "Invalid Date"
    case Some(d) => render(d)
    case None => "N/A"
  }

  /** The option the script builds for one branch. Unlike the interactive
      screen, a failed lookup never drops the details: each failed lookup
      contributes "N/A" to its own part of the label and leaves the other
      part as it is. */
  function ScriptOption(branch: string, primary: string, repo: Repo, render: CommitDate -> string): (c: PruneUi.Choice)
    ensures c.value == branch && branch <= c.caption && |c.caption| > |branch|
    ensures repo.commitDate(branch).None? ==>
      exists ahead, behind :: c.caption == PruneUi.DetailLabel(branch, "N/A", ahead, behind)
    ensures repo.revList(branch, primary).None? ==>
      exists date :: c.caption == PruneUi.DetailLabel(branch, date, "N/A", "N/A")
    ensures repo.commitDate(branch) == Some(InvalidDate) ==>
      exists ahead, behind :: c.caption == PruneUi.DetailLabel(branch, "Invalid Date", ahead, behind)
    ensures c.caption == PruneUi.DetailLabel(branch, LastCommit(branch, repo, render),
      DiffCounts(branch, primary, repo).0, DiffCounts(branch, primary, repo).1)
  {
    var (ahead, behind) := DiffCounts(branch, primary, repo);
    var date := LastCommit(branch, repo, render);
    PruneUi.Choice(PruneUi.DetailLabel(branch, date, ahead, behind), branch)
  }

  /** The two copies of the option builder compared on the same footing:
      with the screen's date layout as the script's renderer and one shared
      reference branch, they give the same option exactly when both lookups
      succeed and the date parses. When a lookup fails the screen shows the
      bare name and the script the "N/A" details; an unparseable date reads
      NaN on the screen and "Invalid Date" in the script. (As shipped, the
      script renders with AM/PM and counts against `origin/main`, the screen
      against `main`, so their labels differ further.) */
  lemma LabelsAgree(branch: string, reference: string, repo: Repo)
    ensures ScriptOption(branch, reference, repo, PruneUi.DateText) == PruneUi.OptionFor(branch, reference, repo)
      <==> repo.commitDate(branch).Some? && repo.commitDate(branch).value.CommitDate?
           && repo.revList(branch, reference).Some?
  {
    var s := ScriptOption(branch, reference, repo, PruneUi.DateText);
    var o := PruneUi.OptionFor(branch, reference, repo);
    if !(repo.commitDate(branch).Some? && repo.revList(branch, reference).Some?) {
      assert |s.caption| > |o.caption|;
    } else if repo.commitDate(branch).value.InvalidDate? {
      var (ahead, behind) := DiffCounts(branch, reference, repo);
      InvalidDateLabelsDiffer(branch, ahead, behind);
    }
  }

  /** The script's and the screen's labels for an unparseable date differ
      right after the common `(last commit: ` prefix. */
  lemma InvalidDateLabelsDiffer(branch: string, ahead: string, behind: string)
    ensures PruneUi.DetailLabel(branch, "Invalid Date", ahead, behind)
      != PruneUi.DetailLabel(branch, PruneUi.InvalidDateText, ahead, behind)
  {
    var head := branch + " (last commit: ";
    var tail := " | diff: ↑" + ahead + " ↓" + behind + ")";
    assert PruneUi.DetailLabel(branch, "Invalid Date", ahead, behind) == head + ("Invalid Date" + tail);
    assert PruneUi.DetailLabel(branch, PruneUi.InvalidDateText, ahead, behind) == head + (PruneUi.InvalidDateText + tail);
    assert (head + ("Invalid Date" + tail))[|head|] == 'I';
    assert (head + (PruneUi.InvalidDateText + tail))[|head|] == 'N';
  }

  /** `Promise.all(orphanedBranches.map(...))`: one option per candidate, in
      candidate order, each carrying its candidate as its value. */
  function Menu(candidates: seq<string>, primary: string, repo: Repo, render: CommitDate -> string): (r: seq<PruneUi.Choice>)
    ensures |r| == |candidates|
    ensures forall i :: 0 <= i < |r| ==> r[i].value == candidates[i] && r[i] == ScriptOption(candidates[i], primary, repo, render)
  {
    seq(|candidates|, i requires 0 <= i < |candidates| => ScriptOption(candidates[i], primary, repo, render))
  }

  // ----- the conditions a run goes through -----

  /** `git rev-parse --show-toplevel` and `git remote -v` both succeed. */
  predicate IsRepository(repo: Repo) {
    repo.toplevel.Some? && repo.remotes.Some?
  }

  /** The run gets as far as the reconciliation's result. */
  predicate Reconciles(repo: Repo) {
    IsRepository(repo) && repo.fetchPrune && ListingsAvailable(repo)
  }

  /** The run gets as far as the branch multiselect. */
  predicate OffersMenu(repo: Repo) {
    Reconciles(repo) && CandidatesOf(repo) != []
  }

  /** The user picked some branches and did not answer no. A cancelled
      confirmation is a truthy value, so it lets the deletion go ahead. */
  predicate Approved(repo: Repo, answers: Answers) {
    && OffersMenu(repo)
    && answers.selection.Picked? && answers.selection.branches != []
    && answers.confirmation != No
  }

  /** The trimmed current branch is known and is not `main`. */
  predicate MustSwitch(repo: Repo) {
    repo.currentBranch.Some? && Trim(repo.currentBranch.value) != "main"
  }

  /** `git status --porcelain` reports changes. */
  predicate Dirty(repo: Repo) {
    repo.status.Some? && Trim(repo.status.value) != ""
  }

  /** The status check and the optional stash let the switch go on to `git checkout main`. */
  predicate StashStepPasses(repo: Repo, stash: StashAnswer) {
    && repo.status.Some?
    && (Dirty(repo) ==> stash.Entered? && (stash.message != "" ==> repo.stashPush(stash.message)))
  }

  /** The stash command the run issues: only on an approved run that has to
      leave a dirty non-main branch, and only with a non-empty message. */
  function StashIssued(repo: Repo, answers: Answers): Option<string>
  {
    if Approved(repo, answers) && MustSwitch(repo) && Dirty(repo) && answers.stash.Entered? && answers.stash.message != ""
    then Some(answers.stash.message)
    else None
  }

  /** The run reaches the deletion loop. */
  predicate ReachesDeletion(repo: Repo, answers: Answers) {
    && Approved(repo, answers)
    && repo.currentBranch.Some?
    && (MustSwitch(repo) ==> StashStepPasses(repo, answers.stash) && repo.checkoutMain)
  }

  // ----- the run -----

  /** The `for ... of` loop: one `git branch -D` per branch, in order; the
      first failure throws out of the loop. */
  method DeleteAll(branches: seq<string>, repo: Repo) returns (issued: seq<string>, completed: bool)
    ensures issued == DeletionsIssued(branches, repo.deleteBranch)
    ensures completed == AllSucceed(branches, repo.deleteBranch)
  {
    issued := [];
    for k := 0 to |branches|
      invariant issued == branches[..k]
      invariant forall i :: 0 <= i < k ==> repo.deleteBranch(branches[i])
    {
      issued := issued + [branches[k]];
      if !repo.deleteBranch(branches[k]) {
        IssuedAfterSuccesses(branches, k, repo.deleteBranch);
        assert branches[k..][0] == branches[k];
        assert !AllSucceed(branches, repo.deleteBranch);
        return issued, false;
      }
      assert branches[..k + 1] == branches[..k] + [branches[k]];
    }
    IssuedAfterSuccesses(branches, |branches|, repo.deleteBranch);
    assert branches[|branches|..] == [];
    assert branches[..|branches|] == branches;
    return issued, true;
  }

  /** The steps from the confirmed selection on: switch to `main` when on
      another branch (asking for a stash message first when there are
      uncommitted changes), then delete. */
  method SwitchAndDelete(repo: Repo, toDelete: seq<string>, stash: StashAnswer)
    returns (outcome: Outcome, stashed: Option<string>, checkoutIssued: bool, deletions: seq<string>)
    ensures outcome != NotARepository && outcome != NothingToPrune && outcome != NoneSelected && outcome != Declined
    ensures outcome == Exited <==> MustSwitch(repo) && Dirty(repo) && stash.StashCancelled?
    ensures stashed == (if MustSwitch(repo) && Dirty(repo) && stash.Entered? && stash.message != "" then Some(stash.message) else None)
    ensures checkoutIssued <==> MustSwitch(repo) && StashStepPasses(repo, stash)
    ensures var ready := repo.currentBranch.Some? && (MustSwitch(repo) ==> StashStepPasses(repo, stash) && repo.checkoutMain);
      && deletions == (if ready then DeletionsIssued(toDelete, repo.deleteBranch) else [])
      && (outcome == Completed <==> ready && AllSucceed(toDelete, repo.deleteBranch))
  {
    stashed := None;
    checkoutIssued := false;
    deletions := [];
    if repo.currentBranch.None? {
      return Failed, stashed, checkoutIssued, deletions;
    }
    if Trim(repo.currentBranch.value) != "main" {
      if repo.status.None? {
        return Failed, stashed, checkoutIssued, deletions;
      }
      if Trim(repo.status.value) != "" {
        match stash {
          case StashCancelled =>
            return Exited, stashed, checkoutIssued, deletions;
          case Entered(message) =>
            if message != "" {
              stashed := Some(message);
              if !repo.stashPush(message) {
                return Failed, stashed, checkoutIssued, deletions;
              }
            }
        }
      }
      checkoutIssued := true;
      if !repo.checkoutMain {
        return Failed, stashed, checkoutIssued, deletions;
      }
    }
    var completed;
    deletions, completed := DeleteAll(toDelete, repo);
    outcome := if completed then Completed else Failed;
  }

  /** `pruneBranches`. `render` stands for the locale date formatting. */
  method PruneBranches(repo: Repo, answers: Answers, render: CommitDate -> string) returns (report: Report)
    ensures report.outcome == NotARepository <==> !IsRepository(repo)
    ensures !IsRepository(repo) ==> report == Report(NotARepository, [], None, false, [])
    ensures report.outcome == NothingToPrune <==> Reconciles(repo) && CandidatesOf(repo) == []
    ensures report.offered == if OffersMenu(repo) then Menu(CandidatesOf(repo), RemotePrimary(repo.symbolicHead), repo, render) else []
    ensures report.outcome == NoneSelected <==> OffersMenu(repo) && answers.selection == Picked([])
    ensures report.outcome == Declined <==> OffersMenu(repo) && answers.selection.Picked? && answers.selection.branches != [] && answers.confirmation == No
    ensures OffersMenu(repo) && answers.selection.SelectionCancelled? ==> report.outcome == Failed
    ensures report.outcome == Exited <==> Approved(repo, answers) && MustSwitch(repo) && Dirty(repo) && answers.stash.StashCancelled?
    ensures report.stashed == StashIssued(repo, answers)
    ensures report.checkoutIssued <==> Approved(repo, answers) && MustSwitch(repo) && StashStepPasses(repo, answers.stash)
    ensures report.deletions == if ReachesDeletion(repo, answers) then DeletionsIssued(answers.selection.branches, repo.deleteBranch) else []
    ensures report.outcome == Completed <==> ReachesDeletion(repo, answers) && AllSucceed(answers.selection.branches, repo.deleteBranch)
  {
    if repo.toplevel.None? || repo.remotes.None? {
      return Report(NotARepository, [], None, false, []);
    }
    if !repo.fetchPrune {
      return Report(Failed, [], None, false, []);
    }
    var primary := RemotePrimary(repo.symbolicHead);
    if repo.localList.None? {
      return Report(Failed, [], None, false, []);
    }
    var localBranches := LocalBranches(repo.localList.value);
    if repo.remoteList.None? {
      return Report(Failed, [], None, false, []);
    }
    var remoteBranches := RemoteBranches(repo.remoteList.value);
    var fromComm := MissingUpstream(localBranches, remoteBranches);
    if repo.verboseList.None? {
      return Report(Failed, [], None, false, []);
    }
    var fromGone := GoneBranches(Split(repo.verboseList.value, '\n'));
    var orphaned := Dedup(fromComm + fromGone);
    if |orphaned| == 0 {
      return Report(NothingToPrune, [], None, false, []);
    }
    var options := Menu(orphaned, primary, repo, render);
    match answers.selection {
      case SelectionCancelled =>
        // The cancel symbol passes the emptiness guard; mapping over it throws.
        return Report(Failed, options, None, false, []);
      case Picked(toDelete) =>
        if |toDelete| == 0 {
          return Report(NoneSelected, options, None, false, []);
        }
        if answers.confirmation == No {
          return Report(Declined, options, None, false, []);
        }
        var outcome, stashed, checkoutIssued, deletions := SwitchAndDelete(repo, toDelete, answers.stash);
        report := Report(outcome, options, stashed, checkoutIssued, deletions);
    }
  }
}
