/** The repository as the core sees it: the outcome of every `git` command
    either prune flow issues, given as data. `None` (or `false`) is a command
    that exits non-zero, which in the source rejects the awaited promise or
    makes `execSync` throw. */
module Git {
  import opened Wrappers

  /** A calendar month as `getMonth() + 1` gives it. */
  type Month = m: int | 1 <= m <= 12 witness 1
  type Day = d: int | 1 <= d <= 31 witness 1
  type Hour = h: int | 0 <= h < 24
  type Minute = m: int | 0 <= m < 60

  /** `new Date(<output of git log -1 --format=%cd>)`: the local-time fields
      of a date that parses, or an invalid date (every getter yields NaN)
      when the output does not parse, as with a relative `log.date` format. */
  datatype CommitDate =
    | CommitDate(month: Month, day: Day, year: int, hours: Hour, minutes: Minute)
    | InvalidDate

  datatype Repo = Repo(
    /** `git rev-parse --show-toplevel` */
    toplevel: Option<string>,
    /** `git remote -v` */
    remotes: Option<string>,
    /** `git fetch --prune` succeeds */
    fetchPrune: bool,
    /** `git symbolic-ref refs/remotes/origin/HEAD` */
    symbolicHead: Option<string>,
    /** `git rev-parse --abbrev-ref origin/HEAD` */
    abbrevHead: Option<string>,
    /** `git branch --format="%(refname:short)"` */
    localList: Option<string>,
    /** `git branch -r --format="%(refname:short)"` */
    remoteList: Option<string>,
    /** `git branch -vv` */
    verboseList: Option<string>,
    /** `git log -1 --format=%cd <branch>`, read by `new Date` */
    commitDate: string -> Option<CommitDate>,
    /** `git rev-list --left-right --count <branch>...<reference>` */
    revList: (string, string) -> Option<string>,
    /** `git rev-parse --abbrev-ref HEAD` */
    currentBranch: Option<string>,
    /** `git status --porcelain` */
    status: Option<string>,
    /** `git stash push -m "<message>"` succeeds */
    stashPush: string -> bool,
    /** `git checkout main` succeeds */
    checkoutMain: bool,
    /** `git branch -D <branch>` succeeds */
    deleteBranch: string -> bool)

  /** The three branch listings the reconciliation reads all succeed. */
  predicate ListingsAvailable(repo: Repo) {
    repo.localList.Some? && repo.remoteList.Some? && repo.verboseList.Some?
  }

  /** Every branch of the list can be deleted. */
  predicate AllSucceed(branches: seq<string>, ok: string -> bool) {
    forall i :: 0 <= i < |branches| ==> ok(branches[i])
  }

  /** The `git branch -D` commands a sequential loop issues for `branches`
      when the first failure ends the loop: every branch up to and including
      the first one whose deletion fails. */
  function DeletionsIssued(branches: seq<string>, ok: string -> bool): (r: seq<string>)
    ensures r <= branches
    ensures branches != [] ==> r != []
  {
    if branches == [] then []
    else if ok(branches[0]) then [branches[0]] + DeletionsIssued(branches[1..], ok)
    else [branches[0]]
  }

  /** The commands issued are a prefix of the list in which every deletion
      but the last succeeds; the list is cut short only by a failure; and
      every deletion succeeds exactly when the whole list is issued and the
      last one issued succeeds. */
  lemma {:induction false} DeletionsStopAtFirstFailure(branches: seq<string>, ok: string -> bool)
    ensures var r := DeletionsIssued(branches, ok);
      && r <= branches
      && (forall i :: 0 <= i < |r| - 1 ==> ok(r[i]))
      && (r == branches || (r != [] && !ok(r[|r| - 1])))
      && (AllSucceed(branches, ok) <==> r == branches && (r == [] || ok(r[|r| - 1])))
  {
    if branches != [] && ok(branches[0]) {
      var tail := branches[1..];
      DeletionsStopAtFirstFailure(tail, ok);
      var r := DeletionsIssued(branches, ok);
      var rt := DeletionsIssued(tail, ok);
      assert r == [branches[0]] + rt;
      assert branches == [branches[0]] + tail;
      assert forall i :: 0 < i < |r| ==> r[i] == rt[i - 1];
      assert AllSucceed(branches, ok) <==> AllSucceed(tail, ok) by {
        assert forall i :: 0 < i < |branches| ==> branches[i] == tail[i - 1];
      }
    }
  }

  /** When the first `k` deletions succeed, the commands issued are those
      `k` followed by the ones the rest of the list leads to. */
  lemma {:induction false} IssuedAfterSuccesses(branches: seq<string>, k: nat, ok: string -> bool)
    requires k <= |branches|
    requires forall i :: 0 <= i < k ==> ok(branches[i])
    ensures DeletionsIssued(branches, ok) == branches[..k] + DeletionsIssued(branches[k..], ok)
  {
    if k == 0 {
      assert branches[..0] == [] && branches[0..] == branches;
    } else {
      IssuedAfterSuccesses(branches, k - 1, ok);
      var rest := branches[k - 1..];
      var head, tail := branches[..k - 1], DeletionsIssued(branches[k..], ok);
      assert rest[1..] == branches[k..];
      assert DeletionsIssued(rest, ok) == [branches[k - 1]] + tail;
      calc {
        DeletionsIssued(branches, ok);
        head + DeletionsIssued(rest, ok);
        head + ([branches[k - 1]] + tail);
        (head + [branches[k - 1]]) + tail;
        { assert head + [branches[k - 1]] == branches[..k]; }
        branches[..k] + tail;
      }
    }
  }
}
