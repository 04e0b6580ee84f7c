# pco-git branch pruning and dependency-update merging, in Dafny

This project models the core of `pco-git`, a command-line helper for git
housekeeping, and proves properties of the model. It covers three pieces of
the program.

- **The interactive prune screen** (`src/prune_branches.tsx`). The
  function `fetchOrphanedBranches` fetches with `--prune` and lists the local
  branches, the remote branches and `git branch -vv`. It reconciles them into
  the orphaned branches and builds one menu option per orphan. An option's
  label carries the last commit date and the ahead/behind counts when both
  lookups succeed. Otherwise the label is the bare branch name. The
  `PruneBranches` component then walks its phases: `loading`, `selection`,
  `confirm`, `removing` and `done`. In `removing`, `removeBranches` deletes
  the selected branches one by one.
- **The command-line prune flow** (`prune_branches.js`, `pruneBranches`). It
  first checks that the directory is a repository. It picks the remote
  primary branch (`origin/main` when `origin/HEAD` cannot be read) and runs
  the same reconciliation. It describes every candidate, with "N/A" for a
  failed lookup. Then it asks which branches to delete, asks for
  confirmation, and moves to `main`, first offering to stash uncommitted work.
  Finally it deletes the chosen branches in order.
- **The dependency-update assistant** (`src/dependabot.tsx`). It checks out
  staging and lists the open pull requests against `main`. It keeps those
  whose title carries `(deps)` or `(deps-dev)` in any case, or whose branch
  starts with `dependabot/`. It walks through them one at a time: merge or
  skip, pause on a conflict until Enter resumes the merge, and finally offer
  to push staging.

## How the model is laid out

Every git command is an outcome in the `Git.Repo` datatype: the text it
prints, or `None` when it exits non-zero. A command whose output does not
matter is a boolean. Prompt answers are parameters: the flow's `Answers`,
the screen's `Submit`/`Answer` arguments, and the assistant's `value`,
`fetchOk` and `mergeOk`. The components' state hooks are the fields of the
classes `PruneUi.PruneBranches` and `Dependabot.Dependabot`. Each event
handler and phase effect is a method on them. The loops of the source stay
loops: the option-building `for`, the deletion loop of `removeBranches` and
the deletion loop of `pruneBranches`. Each loop method is proved equal to a
specification function, and that function's properties are proved as lemmas.

The JavaScript string operations the core depends on are written out in
module `Text`:

- `trim` removes the ECMAScript white-space set;
- `split("\n")` keeps empty pieces;
- `split(/\s+/)` on a trimmed string gives its first and second fields, and
  a missing field prints as `undefined`;
- `replace` with a string pattern replaces only the first occurrence,
  wherever it is;
- `replace(/^origin\//, "")` removes only a leading prefix;
- `toString` and `slice(-2)` are written out on digits.

The default `sort` and `Array.from(new Set(...))` are modelled in `Sorting`
and `Seqs`.

Behaviour that the code has and that the model keeps on purpose:

- In the interactive screen, the default branch comes from
  `git rev-parse --abbrev-ref origin/HEAD` with no fallback. When that
  command fails while there are candidates, the whole load fails. The
  command-line flow falls back to `origin/main`.
- `[gone]` is matched anywhere in a `git branch -vv` line, not only in the
  upstream column.
- In the command-line flow, `replace("refs/remotes/", "")` removes the first
  occurrence of `refs/remotes/` wherever it is (`PruneScript.CutInMiddle`).
- An unparseable commit date does not throw. The screen shows
  `NaN/NaN/aN NaN:NaN` in the date part and the script shows
  `Invalid Date`, so the two labels differ there.
- A cancelled multiselect passes the emptiness guard, and mapping over the
  cancel symbol then throws into the outer handler. A cancelled
  confirmation is truthy, so the deletion goes ahead. A cancelled stash
  prompt exits the process. An empty stash message skips the stash.
- In the assistant, `runSetup` always resolves. A failed setup therefore
  leaves its message, and loading goes ahead anyway: the `error` phase it
  sets is replaced by `loading` in the same turn. The `setup` phase is never
  entered.
- A failed `git fetch origin <branch>` is reported as a merge conflict,
  exactly like a failed merge.
- Escape calls `onCancel` in every phase of the assistant, but only during
  `selection` on the prune screen.
- After the last pull request is merged, skipped or resolved, the push is
  offered with the cursor left on that last pull request. With two updates,
  a clean first merge and a conflict on the second, the walk ends with the
  cursor still on index 1 and the push offered
  (`Dependabot.TwoUpdatesWithConflict`).

## Model

| member | source | states |
|---|---|---|
| Text.Trim | src/prune_branches.tsx:43 | a trimmed line has no white space at either end |
| Text.TrimIsSlice | src/prune_branches.tsx:43 | what `trim` keeps is a contiguous slice of the line with only white space before and after it |
| Text.TrimEmptyIffBlank | src/prune_branches.tsx:43-44 | a line trims to the empty string exactly when it is all white space, so the blank filter drops exactly the blank lines |
| Text.Split | src/prune_branches.tsx:41-42 | a listing splits into at least one line, and no line contains the newline |
| Text.JoinSplit | src/prune_branches.tsx:41-42 | joining the split lines with the newline gives back the listing |
| Text.SplitJoin | src/prune_branches.tsx:41-42 | splitting newline-joined, newline-free lines gives back exactly those lines |
| Text.IndexOf | src/prune_branches.tsx:66 | the position found holds the pattern, no earlier position does, and none is found only when the pattern occurs nowhere |
| Text.ReplaceFirst | prune_branches.js:46 | a string without the pattern is unchanged; otherwise the first occurrence, wherever it stands, is replaced and the text before and after it is kept; a string starting with the pattern loses exactly that prefix |
| Text.DropPrefix | src/prune_branches.tsx:52 | a string starting with the prefix is the prefix followed by the result; any other string is unchanged |
| Text.FirstToken | src/prune_branches.tsx:67-68 | the first field is the longest leading run of non-white-space characters |
| Text.Field0 | src/prune_branches.tsx:99 | the first field of a trimmed string is its longest prefix without white space |
| Text.Field1 | src/prune_branches.tsx:99 | a trimmed string has a second field exactly when it holds white space; that field is the first run of non-white-space characters after the white space that follows the first field |
| Text.FieldsLayout | src/prune_branches.tsx:99 | a line with two fields begins with the first field, a non-empty run of white space and the second field, in that order |
| Text.SecondFieldPresent | src/prune_branches.tsx:99 | in a trimmed string, text follows the first field exactly when the string holds white space |
| Text.RenderedHasNoSpace | prune_branches.js:111-113 | a field rendered into the label, `undefined` included, has no white space |
| Text.NatToString | src/prune_branches.tsx:24-32 | the decimal text of a number is all digits, denotes the number and has no leading zero |
| Text.LeadingZero | src/prune_branches.tsx:31 | a leading `0` does not change the number a digit string denotes |
| Sorting.NotAfterTotal | src/prune_branches.tsx:45 | any two names are comparable in the default sort order |
| Sorting.NotAfterAntisymmetric | src/prune_branches.tsx:45 | two names that sort no later than each other are equal |
| Sorting.NotAfterTransitive | src/prune_branches.tsx:45 | the default sort order is transitive |
| Sorting.InsertSorted | src/prune_branches.tsx:45 | inserting into a sorted list keeps it sorted and adds exactly that element |
| Sorting.Sort | src/prune_branches.tsx:45 | the sorted list is in order and is a permutation of the input |
| Sorting.SortedUnique | src/prune_branches.tsx:45 | two sorted permutations of the same names are equal, so the model's sort returns what the runtime's sort returns |
| Seqs.Dedup | src/prune_branches.tsx:74-76 | `Array.from(new Set(s))` has no duplicates and exactly the elements of `s` |
| Seqs.Without | src/prune_branches.tsx:74-76 | the names of the second signal not already in the first are kept exactly |
| Seqs.DedupAppend | src/prune_branches.tsx:74-76 | de-duplicating `a + b` keeps de-duplicated `a` in front unchanged, followed by the new names of `b` in first-seen order |
| Seqs.DedupIsSubsequence | src/prune_branches.tsx:74-76 | de-duplication keeps the original order |
| Seqs.NonEmptyImages | src/prune_branches.tsx:50-53 | mapping the lines and dropping empty results leaves no empty entry |
| Seqs.NonEmptyImagesCounts | src/prune_branches.tsx:41-53 | each non-empty image is kept once per line that yields it, and the empty string never |
| Seqs.NonEmptyImagesAppend | src/prune_branches.tsx:41-53 | the kept images follow the order of their lines |
| Seqs.NonEmptyImagesMembers | src/prune_branches.tsx:50-53 | an entry is kept exactly when it is the non-empty image of some line |
| Seqs.PresentValues | src/prune_branches.tsx:63-72 | mapping the lines to optional names and keeping the present non-empty ones gives at most one name per line, none empty |
| Seqs.PresentValuesMembers | src/prune_branches.tsx:63-72 | a name is kept exactly when it is non-empty and some line yields it |
| Reconcile.TrimmedNonEmpty | src/prune_branches.tsx:41-44 | every local name is non-empty and trimmed |
| Reconcile.TrimmedNonEmptyCounts | src/prune_branches.tsx:41-44 | each non-empty trim is listed once per line that trims to it, so duplicates reach the sort |
| Reconcile.TrimmedNonEmptyMembers | src/prune_branches.tsx:41-44 | a name is listed exactly when it is the non-empty trim of some line |
| Reconcile.LocalBranches | src/prune_branches.tsx:41-45 | the local branch list is sorted |
| Reconcile.LocalBranchesMembers | src/prune_branches.tsx:41-45 | a name is a local branch exactly when it is the non-empty trim of a line of `git branch` |
| Reconcile.OriginStripped | src/prune_branches.tsx:52-85 | `origin/` is removed only where it begins the trimmed text, and other text is kept trimmed; this holds for each remote listing line (line 52) and for the default branch read from `origin/HEAD` (line 85) |
| Reconcile.RemoteNames | src/prune_branches.tsx:50-53 | no remote name is empty |
| Reconcile.RemoteNamesMembers | src/prune_branches.tsx:50-53 | a name is listed exactly when some remote line yields it |
| Reconcile.RemoteBranches | src/prune_branches.tsx:50-54 | the remote branch list is sorted |
| Reconcile.RemoteBranchesMembers | src/prune_branches.tsx:50-54 | a name is a remote branch exactly when some line of `git branch -r` yields it, non-empty |
| Reconcile.MissingUpstream | src/prune_branches.tsx:57-59 | signal A holds exactly the local names absent from the remote list, in local order |
| Reconcile.MissingUpstreamCounts | src/prune_branches.tsx:57-59 | a local name absent from the remote list is kept as many times as it is listed; a name on the remote list is not kept at all |
| Reconcile.GoneName | src/prune_branches.tsx:65-71 | a line yields a name exactly when it contains `[gone]`; the name is non-empty, free of white space, and is the first field, or the second when the first is `*` |
| Reconcile.MarkedLineHasName | src/prune_branches.tsx:66-68 | a line containing `[gone]` trims to something other than the empty string and a lone `*` |
| Reconcile.StarIsFollowed | src/prune_branches.tsx:67-68 | a trimmed line whose first field is `*` and which has more has a non-empty second field |
| Reconcile.GoneBranches | src/prune_branches.tsx:63-72 | signal B has at most one name per line, each non-empty and free of white space |
| Reconcile.GoneBranchesMembers | src/prune_branches.tsx:63-72 | signal B holds exactly the names the `[gone]` lines yield |
| Reconcile.Candidates | src/prune_branches.tsx:74-76 | the candidates have no duplicates and no empty name |
| Reconcile.LocalNamesNonEmpty | src/prune_branches.tsx:41-45 | no local branch name is empty |
| Reconcile.CandidatesAreUnion | src/prune_branches.tsx:74-76 | the candidates have no duplicates, are exactly the union of the two signals, and list signal A first, then the names only signal B found |
| Reconcile.CandidateMembership | src/prune_branches.tsx:41-76 | a name is a candidate exactly when a local line trims to it and no remote line yields it, or a `[gone]` line names it |
| Git.DeletionsIssued | src/prune_branches.tsx:172-175 | the deletions issued are a prefix of the selection, and at least one is issued when the selection is not empty |
| Git.DeletionsStopAtFirstFailure | src/prune_branches.tsx:172-175 | the deletions issued are a prefix of the selection, all successful but possibly the last; the list is cut short only by a failure; all selected branches are deleted exactly when the whole list is issued and the last succeeds |
| Git.IssuedAfterSuccesses | src/prune_branches.tsx:172-175 | after `k` successful deletions, the commands issued are those `k` followed by what the rest of the list leads to |
| PruneUi.Clock12 | src/prune_branches.tsx:27-30 | the hour shown is in 1..12 and agrees with the hour modulo 12, so 0 and 12 show as 12 |
| PruneUi.MinuteText | src/prune_branches.tsx:28-31 | the minutes are always two digits denoting the minute |
| PruneUi.YearText | src/prune_branches.tsx:26 | from year 10 on, the year shows as two digits denoting the year modulo 100; a one-digit year shows as itself |
| PruneUi.LastTwoDigits | src/prune_branches.tsx:26 | the last two characters of a number from ten up denote its remainder by a hundred |
| PruneUi.FormatCommitDate | src/prune_branches.tsx:22-33 | the label of a parsed date is the month, day, two-digit year, 12-hour hour and two-digit minutes; an invalid date gives `NaN/NaN/aN NaN:NaN` |
| PruneUi.DetailLabel | src/prune_branches.tsx:101-106 | the detailed label starts with the branch name and carries more after it |
| PruneUi.OptionFor | src/prune_branches.tsx:89-111 | an option's value is its branch, its label starts with the branch, and the label is the bare name exactly when the date lookup or the ahead/behind count fails |
| PruneUi.DescribeBranch | src/prune_branches.tsx:89-111 | one loop step builds exactly the option of `OptionFor` |
| PruneUi.BuildOptions | src/prune_branches.tsx:87-112 | the loop builds one option per candidate, in candidate order |
| PruneUi.FetchOrphanedBranches | src/prune_branches.tsx:35-115 | a failed fetch or listing rejects; no candidates gives `[]` without resolving `origin/HEAD`; candidates without `origin/HEAD` reject; otherwise exactly one option per candidate, in candidate order |
| PruneUi.PruneBranches.constructor | src/prune_branches.tsx:120-123 | the component starts loading, with nothing listed, selected or deleted |
| PruneUi.PruneBranches.Load | src/prune_branches.tsx:152-168 | the screen moves to `selection` exactly when orphans are found, showing their options and scheduling no exit; otherwise it stays loading and schedules the exit |
| PruneUi.PruneBranches.Settle | src/prune_branches.tsx:155-163 | a non-empty result is shown and moves to `selection` without scheduling an exit; anything else only schedules the exit |
| PruneUi.PruneBranches.ChangeSelection | src/prune_branches.tsx:200 | ticking branches during selection records them |
| PruneUi.PruneBranches.Submit | src/prune_branches.tsx:201-205 | an empty submission is ignored; otherwise the submitted branches are selected and confirmation is asked |
| PruneUi.PruneBranches.Answer | src/prune_branches.tsx:232-238 | "yes" starts the removal and any other answer returns to the selection |
| PruneUi.PruneBranches.Escape | src/prune_branches.tsx:125-129 | escape cancels only during the selection and keeps the screen invariant |
| PruneUi.PruneBranches.RemoveBranches | src/prune_branches.tsx:170-180 | the deletions issued are those of `DeletionsIssued`; when all succeed the phase is `done` with exactly the selection deleted, otherwise the phase and the deleted list stay and the exit is scheduled |
| PruneUi.PruneBranches.DeleteSelected | src/prune_branches.tsx:170-175 | the loop issues `DeletionsIssued` and completes exactly when every selected deletion succeeds, keeping the screen invariant |
| PruneScript.CutRemotesRef | prune_branches.js:46 | the first `refs/remotes/` is removed wherever it stands, with the text before and after it kept; a ref starting with it loses exactly that prefix; a ref without it is unchanged |
| PruneScript.CutInMiddle | prune_branches.js:46 | the removal is not anchored: any text without a `refs/remotes/` of its own that stands before the reference survives, and the reference is cut from the middle |
| PruneScript.RemotePrimary | prune_branches.js:41-51 | `origin/main` when `origin/HEAD` cannot be read; otherwise the trimmed output with its first `refs/remotes/` cut, as `CutRemotesRef` states |
| PruneScript.DiffCounts | prune_branches.js:105-116 | both counts are "N/A" when `git rev-list` fails; otherwise they are the first and second fields of the trimmed output, a missing second field printing as `undefined`; neither count holds white space |
| PruneScript.LastCommit | prune_branches.js:117-136 | "N/A" when `git log` fails, "Invalid Date" for an unparseable date, and the locale rendering of a valid date |
| PruneScript.ScriptOption | prune_branches.js:104-142 | the option's value is the branch and its label always carries the detail part; the date part depends only on the date lookup and the count parts only on the count lookup, so a failed date lookup puts "N/A" in the date part and leaves the counts, a failed count puts "N/A" in both count parts and leaves the date, and an unparseable date shows "Invalid Date" |
| PruneScript.LabelsAgree | prune_branches.js:104-142 | with the screen's date layout as the script's renderer and one shared reference branch, the two builders give the same option exactly when both lookups succeed and the date parses |
| PruneScript.InvalidDateLabelsDiffer | prune_branches.js:123-136 | for an unparseable date the script's label and the screen's label differ |
| PruneScript.Menu | prune_branches.js:103-144 | one option per candidate, in candidate order, each carrying its candidate |
| PruneScript.DeleteAll | prune_branches.js:200-203 | the loop issues `DeletionsIssued` and completes exactly when every deletion succeeds |
| PruneScript.SwitchAndDelete | prune_branches.js:169-203 | off `main` the flow checks the status, stashes with a non-empty message, exits on a cancelled prompt and checks out `main`; deletion starts only when every step passed |
| PruneScript.PruneBranches | prune_branches.js:18-208 | each outcome happens exactly under its condition: not a repository, nothing to prune, none selected, declined, exited, completed; the menu offered, the stash, the checkout and the deletions issued are exactly those the conditions allow |
| Dependabot.MarkIgnoresCase | src/dependabot.tsx:89-91 | two titles differing only in letter case are both dependency titles or neither |
| Dependabot.MarkAnywhere | src/dependabot.tsx:89-91 | a title holding `(deps)` or `(deps-dev)` anywhere, in any letter case, is a dependency title |
| Dependabot.DependencyUpdates | src/dependabot.tsx:88-93 | the kept pull requests are exactly the dependency updates, in their listed order |
| Dependabot.DependencyUpdatesCounts | src/dependabot.tsx:88-93 | each dependency update is kept as many times as it is listed, and nothing else is kept |
| Dependabot.Advance | src/dependabot.tsx:50-55 | the cursor stays in range and moves by at most one; `confirm` follows exactly when it moves, and the push is offered exactly after the last pull request |
| Dependabot.Dependabot.constructor | src/dependabot.tsx:28-31 | the assistant starts in `init` with no pull requests, the cursor at 0 and an empty log |
| Dependabot.Dependabot.RunInit | src/dependabot.tsx:63-116 | `init` always moves to `loading`, leaving the setup error message when setup failed |
| Dependabot.Dependabot.LoadPRs | src/dependabot.tsx:79-106 | a failed listing shows the error and waits, with no exit scheduled; no dependency update ends the run and schedules the exit; otherwise the updates are kept, the first is offered, the fetching message stays and no exit is scheduled |
| Dependabot.Dependabot.AdvanceCursor | src/dependabot.tsx:136-141 | the cursor and phase move by the shared rule |
| Dependabot.Dependabot.MergeCurrentPR | src/dependabot.tsx:119-142 | a clean fetch and merge advance; either failing pauses in `conflict` on the same pull request |
| Dependabot.Dependabot.AnswerMerge | src/dependabot.tsx:176-189 | "yes" merges and any other answer skips; the cursor never decreases and moves by at most one |
| Dependabot.Dependabot.ContinueMerge | src/dependabot.tsx:44-61 | a successful `git merge --continue` advances; a failure keeps the walk paused on the same pull request |
| Dependabot.Dependabot.Key | src/dependabot.tsx:33-42 | escape cancels in any phase; Enter resumes the merge only in `conflict`; the cursor never decreases |
| Dependabot.Dependabot.AnswerPush | src/dependabot.tsx:217-230 | any answer ends in `done` with the exit scheduled, the log saying pushed, push failed or skipped |
| Dependabot.TwoUpdatesWithConflict | src/dependabot.tsx:44-142 | with two updates, a clean first merge, a conflicting second merge, a failed resume and then a successful one, the push is offered with the cursor on index 1 |

Every method of the two component classes also keeps the class invariant.
`PruneBranches.Valid`: a menu exists after loading, a selection exists in
`confirm` and `removing`, and `done` shows exactly the selection.
`Dependabot.Valid`: the cursor is in range while a pull request is under
consideration, every listed pull request is a dependency update, and
`setup` is never entered.

## Left out

- Date parsing and locale formatting: `new Date(...)` from `git log` output
  becomes the `CommitDate` fields, or `InvalidDate` when it does not parse.
  The command-line flow's `toLocaleString(...).replace(",", "")` of a valid
  date is a `render` parameter.
- Timers and process exit: `setTimeout(exit)` and `process.exit` are the
  `exitScheduled` flag and the `Exited` outcome. The one-second delay before
  `done` is shown is not modelled.
- React scheduling: state updates apply immediately and in order. Two
  handlers interleaving before a re-render, such as a double Enter during an
  awaited command, are not modelled.
- Concurrency: `Promise.all` runs the lookups concurrently. The model
  computes them in candidate order, which gives the same menu.
- Colours and console output: chalk, picocolors and the spinners are left
  out. So are `log.*` and `console.*`, except the assistant's status line,
  which is the `LogLine` datatype without its emoji and wording.
- JSON decoding of `gh pr list`: the listing arrives as a decoded list of
  pull requests, or as an error.
- Shell interpolation: branch names and the stash message are passed to the
  shell unescaped. The model treats them as plain arguments.
- PruneScript.LabelsAgree: compares the two builders with the screen's
  date layout as the script's renderer and one shared reference. As
  shipped, the script renders the date with `toLocaleString` (12-hour with
  AM/PM) and counts against `origin/main` (or the `origin/HEAD` target),
  while the screen counts against `main`, so their labels also differ in
  those places.
- `Sorting.NotAfter` compares characters by code point, while JavaScript
  compares UTF-16 code units. The two orders differ only for names mixing
  characters above U+FFFF with characters from U+E000 to U+FFFF.
- `src/app.tsx`, `index.js`, `local.js` and the `open_prs` command are not
  part of this model.
