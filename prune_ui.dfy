/** The interactive prune screen of src/prune_branches.tsx: the date label,
    `fetchOrphanedBranches` (reconciliation, then one menu option per
    candidate) and the component's phase machine with `removeBranches`. */
module PruneUi {
  import opened Wrappers
  import opened Text
  import opened Seqs
  import opened Git
  import opened Reconcile

  /** A menu entry: what is shown and the branch it stands for. */
  datatype Choice = Choice(caption: string, value: string)

  datatype Phase = Loading | Selection | Confirm | Removing | Done

  /** The commands whose failure makes `fetchOrphanedBranches` reject. */
  datatype Command = FetchPrune | ListLocal | ListRemote | ListVerbose | ResolveOriginHead

  // ----- formatCommitDate -----

  /** The hour on a 12-hour clock: the one value in 1..12 that agrees with
      `h` modulo 12, so midnight and noon both read 12. */
  function Clock12(h: Hour): (r: int)
    ensures 1 <= r <= 12
    ensures r % 12 == h % 12
  {
    if h % 12 == 0 then 12 else h % 12
  }

  /** The minutes as two decimal digits that denote them. */
  function MinuteText(m: Minute): (r: string)
    ensures |r| == 2 && AllDigits(r)
    ensures DigitsValue(r) == m
  {
    if m < 10 then
      LeadingZero(NatToString(m));
      "0" + NatToString(m)
    else
      var r := NatToString(m);
      assert r[..1] == NatToString(m / 10);
      r
  }

  /** `year.toString().slice(-2)`: the last two characters of the year. */
  function YearText(year: int): (r: string)
    ensures year >= 10 ==> |r| == 2 && AllDigits(r) && DigitsValue(r) == year % 100
    ensures 0 <= year < 10 ==> r == NatToString(year)
  {
    var s := IntToString(year);
    var r := if |s| <= 2 then s else s[|s| - 2..];
    if year >= 10 then
      LastTwoDigits(year);
      assert r == s[|s| - 2..];
      r
    else r
  }

  /** A number from ten up ends in the two digits of its remainder by a hundred. */
  lemma LastTwoDigits(n: nat)
    requires n >= 10
    ensures var s := NatToString(n);
      |s| >= 2 && AllDigits(s[|s| - 2..]) && DigitsValue(s[|s| - 2..]) == n % 100
  {
    var a, b := DigitChar(n / 10 % 10), DigitChar(n % 10);
    LastTwoChars(n);
    TwoDigitsValue(a, b);
    HundredsRemainder(n);
  }

  /** The last two characters of the text of a number from ten up are its tens and units digits. */
  lemma LastTwoChars(n: nat)
    requires n >= 10
    ensures var s := NatToString(n);
      |s| >= 2 && s[|s| - 2..] == [DigitChar(n / 10 % 10), DigitChar(n % 10)]
  {
    var s := NatToString(n);
    var high := NatToString(n / 10);
    assert s == high + [DigitChar(n % 10)];
    LastDigit(n / 10);
    assert s[|s| - 2] == high[|high| - 1];
  }

  /** The last digit of a number's decimal text is its remainder by ten. */
  lemma LastDigit(n: nat)
    ensures var s := NatToString(n); s[|s| - 1] == DigitChar(n % 10)
  {
    if n >= 10 {
      assert NatToString(n) == NatToString(n / 10) + [DigitChar(n % 10)];
    }
  }

  lemma TwoDigitsValue(a: char, b: char)
    requires IsDigit(a) && IsDigit(b)
    ensures AllDigits([a, b]) && DigitsValue([a, b]) == (a as int - '0' as int) * 10 + (b as int - '0' as int)
  {
    assert [a, b][..1] == [a] && [a][..0] == [];
    assert DigitsValue([a]) == a as int - '0' as int;
  }

  lemma HundredsRemainder(n: nat)
    ensures n % 100 == (n / 10 % 10) * 10 + n % 10
  {
    var q := n / 10;
    assert n == 10 * q + n % 10;
    assert q == 10 * (q / 10) + q % 10;
    assert n == 100 * (q / 10) + ((q % 10) * 10 + n % 10);
  }

  /** The text every field of an invalid date prints as: NaN, whose last two
      characters (the year) are `aN`. */
  const InvalidDateText := "NaN/NaN/aN NaN:NaN"

  /** The label text for a commit date: `month/day/yy h:mm`. */
  function DateText(d: CommitDate): string
  {
    match d
    case InvalidDate => InvalidDateText
    case CommitDate(month, day, year, hours, minutes) =>
      IntToString(month) + "/" + IntToString(day) + "/" + YearText(year) + " "
      + NatToString(Clock12(hours)) + ":" + MinuteText(minutes)
  }

  /** `formatCommitDate`, once the date is parsed: the hour is reduced modulo
      12 and then 0 is replaced by 12; minutes below ten get a leading `0`.
      An invalid date propagates NaN through every field and does not throw. */
  method FormatCommitDate(d: CommitDate) returns (text: string)
    ensures text == DateText(d)
  {
    if d.InvalidDate? {
      text := InvalidDateText;
      return;
    }
    var hours := d.hours;
    hours := hours % 12;
    if hours == 0 {
      hours := 12;
    }
    var minuteStr := if d.minutes < 10 then "0" + NatToString(d.minutes) else NatToString(d.minutes);
    text := IntToString(d.month) + "/" + IntToString(d.day) + "/" + YearText(d.year) + " "
      + NatToString(hours) + ":" + minuteStr;
  }

  // ----- fetchOrphanedBranches -----

  /** The detailed label of a branch whose lookups both succeeded. */
  function DetailLabel(branch: string, date: string, ahead: string, behind: string): (r: string)
    ensures branch <= r && |r| > |branch|
  {
    branch + " (last commit: " + date + " | diff: ↑" + ahead + " ↓" + behind + ")"
  }

  /** The option built for `branch`: its value is the branch; its label is
      the detailed one when the date lookup and the ahead/behind count against
      `defaultBranch` both succeed, and the bare branch name exactly when
      either fails. */
  function OptionFor(branch: string, defaultBranch: string, repo: Repo): (choice: Choice)
    ensures choice.value == branch && branch <= choice.caption
    ensures choice.caption == branch <==> repo.commitDate(branch).None? || repo.revList(branch, defaultBranch).None?
  {
    match (repo.commitDate(branch), repo.revList(branch, defaultBranch))
    case (Some(d), Some(counts)) =>
      Choice(DetailLabel(branch, DateText(d), Field0(Trim(counts)), Rendered(Field1(Trim(counts)))), branch)
    case _ => Choice(branch, branch)
  }

  /** The `for` loop that pushes one option per candidate, catching a failed
      lookup and falling back to the bare name. */
  method BuildOptions(candidates: seq<string>, defaultBranch: string, repo: Repo) returns (options: seq<Choice>)
    ensures |options| == |candidates|
    ensures forall i :: 0 <= i < |candidates| ==> options[i] == OptionFor(candidates[i], defaultBranch, repo)
  {
    options := [];
    for k := 0 to |candidates|
      invariant |options| == k
      invariant forall i :: 0 <= i < k ==> options[i] == OptionFor(candidates[i], defaultBranch, repo)
    {
      var choice := DescribeBranch(candidates[k], defaultBranch, repo);
      options := options + [choice];
    }
  }

  /** The body of the loop for one branch: the detailed option, or the bare
      name when a lookup throws. */
  method DescribeBranch(branch: string, defaultBranch: string, repo: Repo) returns (choice: Choice)
    ensures choice == OptionFor(branch, defaultBranch, repo)
  {
    choice := Choice(branch, branch);
    match repo.commitDate(branch) {
      case Some(d) =>
        var date := FormatCommitDate(d);
        match repo.revList(branch, defaultBranch) {
          case Some(counts) =>
            var parts := Trim(counts);
            choice := Choice(DetailLabel(branch, date, Field0(parts), Rendered(Field1(parts))), branch);
          case None =>
        }
      case None =>
    }
  }

  /** The fetch succeeds and finds at least one candidate. */
  predicate FindsOrphans(repo: Repo) {
    && repo.fetchPrune && ListingsAvailable(repo) && repo.abbrevHead.Some?
    && CandidatesOf(repo) != []
  }

  /** `options` is the menu `fetchOrphanedBranches` builds for a repository
      where it finds orphans: one option per candidate, in candidate order. */
  predicate Loads(repo: Repo, options: seq<Choice>)
    requires FindsOrphans(repo)
  {
    var c := CandidatesOf(repo);
    && |options| == |c|
    && forall i :: 0 <= i < |c| ==> options[i] == OptionFor(c[i], OriginStripped(repo.abbrevHead.value), repo)
  }

  /** `fetchOrphanedBranches`. It rejects when the fetch or a listing fails,
      and, only when there are candidates, when the default branch cannot be
      resolved (this copy has no fallback). With no candidates it returns
      `[]` without resolving the default branch or looking anything up. With
      candidates it returns one option per candidate, in candidate order. */
  method FetchOrphanedBranches(repo: Repo) returns (r: Result<seq<Choice>, Command>)
    ensures !repo.fetchPrune ==> r == Err(FetchPrune)
    ensures repo.fetchPrune && !ListingsAvailable(repo) ==> r.Err?
    ensures repo.fetchPrune && ListingsAvailable(repo) && CandidatesOf(repo) == [] ==> r == Ok([])
    ensures repo.fetchPrune && ListingsAvailable(repo) && CandidatesOf(repo) != [] && repo.abbrevHead.None? ==>
      r == Err(ResolveOriginHead)
    ensures (r.Ok? && |r.value| > 0) == FindsOrphans(repo)
    ensures r.Ok? && |r.value| > 0 ==> Loads(repo, r.value)
  {
    if !repo.fetchPrune {
      return Err(FetchPrune);
    }
    if repo.localList.None? {
      return Err(ListLocal);
    }
    var localBranches := LocalBranches(repo.localList.value);
    if repo.remoteList.None? {
      return Err(ListRemote);
    }
    var remoteBranches := RemoteBranches(repo.remoteList.value);
    var fromComm := MissingUpstream(localBranches, remoteBranches);
    if repo.verboseList.None? {
      return Err(ListVerbose);
    }
    var fromGone := GoneBranches(Split(repo.verboseList.value, '\n'));
    var combined := Dedup(fromComm + fromGone);
    if |combined| == 0 {
      return Ok([]);
    }
    if repo.abbrevHead.None? {
      return Err(ResolveOriginHead);
    }
    var defaultBranch := OriginStripped(repo.abbrevHead.value);
    var options := BuildOptions(combined, defaultBranch, repo);
    return Ok(options);
  }

  // ----- the PruneBranches component -----

  /** The component state: the `phase`, `orphanedBranches`, `selectedBranches`
      and `deletedBranches` hooks, whether `onCancel` was called, whether an
      exit timer was set, and the `git branch -D` commands issued so far. */
  class PruneBranches {
    var phase: Phase
    var orphaned: seq<Choice>
    var selected: seq<string>
    var deleted: seq<string>
    var cancelled: bool
    var exitScheduled: bool
    var issued: seq<string>

    /** Selection is only offered with a non-empty menu; confirmation and
        removal only with a non-empty selection; and `done` reports exactly the
        selection as deleted. */
    ghost predicate Valid()
      reads this`phase, this`orphaned, this`selected, this`deleted
    {
      && (phase != Loading ==> orphaned != [])
      && (phase == Confirm || phase == Removing ==> selected != [])
      && (phase == Done ==> deleted == selected)
    }

    constructor ()
      ensures Valid()
      ensures phase == Loading && orphaned == [] && selected == [] && deleted == []
      ensures !cancelled && !exitScheduled && issued == []
    {
      phase := Loading;
      orphaned := [];
      selected := [];
      deleted := [];
      cancelled := false;
      exitScheduled := false;
      issued := [];
    }

    /** The effect of the `loading` phase (`loadOrphanedBranches`, which the
        phase effect runs only while loading): a menu with entries moves to
        `selection`; an empty result or a failure only schedules the exit. */
    method Load(repo: Repo)
      requires Valid() && phase == Loading
      modifies this`phase, this`orphaned, this`exitScheduled
      ensures Valid()
      ensures phase == Selection <==> FindsOrphans(repo)
      ensures FindsOrphans(repo) ==> Loads(repo, orphaned) && exitScheduled == old(exitScheduled)
      ensures !FindsOrphans(repo) ==> phase == Loading && exitScheduled && orphaned == old(orphaned)
    {
      var result := FetchOrphanedBranches(repo);
      Settle(result);
    }

    /** The state update that follows the fetch: a non-empty menu is shown, anything else schedules the exit. */
    method Settle(result: Result<seq<Choice>, Command>)
      requires Valid() && phase == Loading
      modifies this`phase, this`orphaned, this`exitScheduled
      ensures Valid()
      ensures phase == Selection <==> result.Ok? && |result.value| > 0
      ensures phase == Selection ==> orphaned == result.value && exitScheduled == old(exitScheduled)
      ensures phase != Selection ==> phase == Loading && exitScheduled && orphaned == old(orphaned)
    {
      if result.Ok? && |result.value| > 0 {
        orphaned := result.value;
        phase := Selection;
      } else {
        exitScheduled := true;
      }
    }

    /** `MultiSelect`'s `onChange`: the ticked branches, shown only in `selection`. */
    method ChangeSelection(ticked: seq<string>)
      requires Valid()
      modifies this`selected
      ensures Valid()
      ensures selected == if old(phase) == Selection then ticked else old(selected)
    {
      if phase == Selection {
        selected := ticked;
      }
    }

    /** `MultiSelect`'s `onSubmit`: an empty submission is ignored; otherwise
        the submitted branches are selected and confirmation is asked. */
    method Submit(submitted: seq<string>)
      requires Valid()
      modifies this`selected, this`phase
      ensures Valid()
      ensures old(phase) == Selection && submitted != [] ==> phase == Confirm && selected == submitted
      ensures !(old(phase) == Selection && submitted != []) ==> phase == old(phase) && selected == old(selected)
    {
      if phase != Selection || |submitted| == 0 {
        return;
      }
      selected := submitted;
      phase := Confirm;
    }

    /** The confirmation `Select`'s `onChange`: "yes" starts the removal,
        any other value goes back to the selection. */
    method Answer(value: string)
      requires Valid()
      modifies this`phase
      ensures Valid()
      ensures old(phase) == Confirm ==> phase == (if value == "yes" then Removing else Selection)
      ensures old(phase) != Confirm ==> phase == old(phase)
    {
      if phase != Confirm {
        return;
      }
      if value == "yes" {
        phase := Removing;
      } else {
        phase := Selection;
      }
    }

    /** `useInput`: escape calls `onCancel`, and only during the selection. */
    method Escape()
      requires Valid()
      modifies this`cancelled
      ensures Valid()
      ensures cancelled == (old(cancelled) || phase == Selection)
    {
      if phase == Selection {
        cancelled := true;
      }
    }

    /** The effect of the `removing` phase (`removeBranches(selectedBranches)`):
        delete the selected branches one by one, in order. When every deletion
        succeeds, exactly the selection is recorded as deleted and the phase
        becomes `done`; the first failing deletion throws, which ends the loop,
        leaves the phase and the deleted list as they were, and schedules the exit. */
    method RemoveBranches(repo: Repo)
      requires Valid()
      modifies this`deleted, this`phase, this`issued, this`exitScheduled
      ensures Valid()
      ensures old(phase) != Removing ==> phase == old(phase) && deleted == old(deleted) && issued == old(issued) && exitScheduled == old(exitScheduled)
      ensures old(phase) == Removing ==> issued == old(issued) + DeletionsIssued(selected, repo.deleteBranch) && exitScheduled
      ensures old(phase) == Removing && AllSucceed(selected, repo.deleteBranch) ==> phase == Done && deleted == selected
      ensures old(phase) == Removing && !AllSucceed(selected, repo.deleteBranch) ==> phase == Removing && deleted == old(deleted)
    {
      if phase != Removing {
        return;
      }
      var done, completed := DeleteSelected(repo);
      if completed {
        deleted := done;
        phase := Done;
      }
      exitScheduled := true;
    }

    /** The `for` loop of `removeBranches`: one `git branch -D` per selected
        branch, in order, collecting the deleted ones, until a deletion fails. */
    method DeleteSelected(repo: Repo) returns (done: seq<string>, completed: bool)
      requires Valid()
      modifies this`issued
      ensures Valid()
      ensures issued == old(issued) + DeletionsIssued(selected, repo.deleteBranch)
      ensures completed == AllSucceed(selected, repo.deleteBranch)
      ensures completed ==> done == selected
    {
      done := [];
      for k := 0 to |selected|
        invariant done == selected[..k]
        invariant forall i :: 0 <= i < k ==> repo.deleteBranch(selected[i])
        invariant issued == old(issued) + selected[..k]
      {
        var branch := selected[k];
        issued := issued + [branch];
        if !repo.deleteBranch(branch) {
          IssuedAfterSuccesses(selected, k, repo.deleteBranch);
          assert selected[k..][0] == selected[k];
          assert !AllSucceed(selected, repo.deleteBranch);
          return done, false;
        }
        done := done + [branch];
        assert selected[..k + 1] == selected[..k] + [branch];
      }
      IssuedAfterSuccesses(selected, |selected|, repo.deleteBranch);
      assert selected[|selected|..] == [];
      assert selected[..|selected|] == selected;
      return done, true;
    }
  }
}
