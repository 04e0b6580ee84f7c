/** The branch reconciliation shared, line for line, by both prune flows
    (`fetchOrphanedBranches` in src/prune_branches.tsx and `pruneBranches` in
    prune_branches.js): normalise the local and remote listings, take the
    local names missing from the remote list (signal A), take the names of
    the `[gone]` lines of `git branch -vv` (signal B), and unite the two
    without duplicates, A first. */
module Reconcile {
  import opened Wrappers
  import opened Text
  import opened Sorting
  import opened Seqs
  import opened Git

  /** `lines.map(l => l.trim()).filter(l => l !== "")`: every entry is a
      non-empty trimmed string. */
  function TrimmedNonEmpty(lines: seq<string>): (r: seq<string>)
    ensures forall i :: 0 <= i < |r| ==> r[i] != "" && IsTrimmed(r[i])
  {
    var r := NonEmptyImages(lines, Trim);
    NonEmptyImagesMembers(lines, Trim);
    assert forall i :: 0 <= i < |r| ==> r[i] in r;
    r
  }

  /** The entries are exactly the non-empty trims of the lines. */
  lemma TrimmedNonEmptyMembers(lines: seq<string>)
    ensures forall x :: x in TrimmedNonEmpty(lines) <==> x != "" && exists l :: l in lines && Trim(l) == x
  {
    NonEmptyImagesMembers(lines, Trim);
  }

  /** Each non-empty trim is listed once per line that trims to it. */
  lemma TrimmedNonEmptyCounts(lines: seq<string>)
    ensures forall x :: multiset(TrimmedNonEmpty(lines))[x] == if x == "" then 0 else ImageCount(lines, Trim, x)
  {
    NonEmptyImagesCounts(lines, Trim);
  }

  /** The local branch names: the non-blank lines of the listing, trimmed, sorted. */
  function LocalBranches(listing: string): (r: seq<string>)
    ensures Sorted(r)
  {
    Sort(TrimmedNonEmpty(Split(listing, '\n')))
  }

  /** A name is a local branch exactly when it is the non-empty trim of a line of the listing. */
  lemma LocalBranchesMembers(listing: string)
    ensures forall x :: x in LocalBranches(listing) <==> x != "" && exists l :: l in Split(listing, '\n') && Trim(l) == x
  {
    var names := TrimmedNonEmpty(Split(listing, '\n'));
    TrimmedNonEmptyMembers(Split(listing, '\n'));
    SameElements(Sort(names), names);
  }

  lemma SameElements(a: seq<string>, b: seq<string>)
    requires multiset(a) == multiset(b)
    ensures forall x :: x in a <==> x in b
  {
    forall x ensures x in a <==> x in b {
      assert x in a <==> x in multiset(a);
      assert x in b <==> x in multiset(b);
    }
  }

  /** A line of `git` output trimmed, then `origin/` removed where it begins
      it: each line of the remote listing, and the default branch read from
      `git rev-parse --abbrev-ref origin/HEAD`. */
  function OriginStripped(line: string): (r: string)
    ensures "origin/" <= Trim(line) ==> Trim(line) == "origin/" + r
    ensures !("origin/" <= Trim(line)) ==> r == Trim(line)
  {
    var r := DropPrefix(Trim(line), "origin/");
    assert "origin/" <= Trim(line) ==> Trim(line) == "origin/" + r;
    r
  }

  /** `lines.map(OriginStripped).filter(l => l !== "")`. */
  function RemoteNames(lines: seq<string>): (r: seq<string>)
    ensures forall i :: 0 <= i < |r| ==> r[i] != ""
  {
    NonEmptyImages(lines, OriginStripped)
  }

  /** The entries are exactly the non-empty remote names of the lines. */
  lemma RemoteNamesMembers(lines: seq<string>)
    ensures forall x :: x in RemoteNames(lines) <==> x != "" && exists l :: l in lines && OriginStripped(l) == x
  {
    NonEmptyImagesMembers(lines, OriginStripped);
  }

  /** The remote branch names, `origin/` stripped, blanks dropped, sorted. */
  function RemoteBranches(listing: string): (r: seq<string>)
    ensures Sorted(r)
  {
    Sort(RemoteNames(Split(listing, '\n')))
  }

  /** A name is a remote branch exactly when it is the non-empty remote name of a line of the listing. */
  lemma RemoteBranchesMembers(listing: string)
    ensures forall x :: x in RemoteBranches(listing) <==> x != "" && exists l :: l in Split(listing, '\n') && OriginStripped(l) == x
  {
    var names := RemoteNames(Split(listing, '\n'));
    RemoteNamesMembers(Split(listing, '\n'));
    SameElements(Sort(names), names);
  }

  /** Signal A: `local.filter(b => !remote.includes(b))`. */
  function MissingUpstream(local: seq<string>, remote: seq<string>): (r: seq<string>)
    ensures forall x :: x in r <==> x in local && x !in remote
    ensures IsSubsequence(r, local)
  {
    if local == [] then []
    else
      var rest := MissingUpstream(local[1..], remote);
      assert forall x :: x in local <==> x == local[0] || x in local[1..];
      if local[0] in remote then rest else [local[0]] + rest
  }

  /** A local name without an upstream is kept as often as it is listed; a
      name the remote list holds is dropped entirely. */
  lemma {:induction false} MissingUpstreamCounts(local: seq<string>, remote: seq<string>)
    ensures forall x :: multiset(MissingUpstream(local, remote))[x] == if x in remote then 0 else multiset(local)[x]
  {
    if local != [] {
      MissingUpstreamCounts(local[1..], remote);
      assert local == [local[0]] + local[1..];
    }
  }

  /** The branch name a `git branch -vv` line yields: for a line containing
      `[gone]`, its first token, or its second when the first is the
      current-branch marker `*`; `None` for every other line (JavaScript's
      `null` or `undefined`). */
  function GoneName(line: string): (r: Option<string>)
    ensures r.Some? <==> Contains(line, "[gone]")
    ensures r.Some? ==> r.value != "" && HasNoSpace(r.value)
    ensures r.Some? && FirstToken(Trim(line)) != "*" ==> r.value == FirstToken(Trim(line))
    ensures r.Some? && FirstToken(Trim(line)) == "*" ==> r.value == FirstToken(AfterFirstToken(Trim(line)))
  {
    if Contains(line, "[gone]") then
      var t := Trim(line);
      MarkedLineHasName(line);
      if FirstToken(t) == "*" then
        StarIsFollowed(t);
        Field1(t)
      else
        Some(Field0(t))
    else None
  }

  /** A line holding `[gone]` trims to more than a lone `*`. */
  lemma MarkedLineHasName(line: string)
    requires Contains(line, "[gone]")
    ensures Trim(line) != "" && Trim(line) != "*"
  {
    var i := IndexOf(line, "[gone]").value;
    assert line[i] == '[' && line[i + 5] == ']' by {
      assert line[i..i + 6] == "[gone]";
    }
    var t := Trim(line);
    TrimIsSlice(line);
    var lead :| SpaceMargins(line, lead, t);
    assert !IsSpace(line[i]) && !IsSpace(line[i + 5]);
    assert lead <= i && i + 5 < lead + |t|;
  }

  /** When a trimmed line starts with the token `*` and has more, a second token follows. */
  lemma StarIsFollowed(t: string)
    requires IsTrimmed(t) && t != "*" && FirstToken(t) == "*"
    ensures AfterFirstToken(t) != "" && FirstToken(AfterFirstToken(t)) != ""
  {
    assert |t| > 1 && IsSpace(t[1]);
    assert !IsSpace(t[1..][|t| - 2]);
    assert t[1..] == t[|FirstToken(t)|..];
  }

  /** Signal B: the names the `[gone]` lines yield, with empty and missing ones dropped. */
  function GoneBranches(lines: seq<string>): (r: seq<string>)
    ensures |r| <= |lines|
    ensures forall i :: 0 <= i < |r| ==> r[i] != "" && HasNoSpace(r[i])
  {
    var r := PresentValues(lines, GoneName);
    PresentValuesMembers(lines, GoneName);
    assert forall i :: 0 <= i < |r| ==> r[i] in r;
    r
  }

  /** Only `[gone]` lines contribute, each with the name it yields. */
  lemma GoneBranchesMembers(lines: seq<string>)
    ensures forall x :: x in GoneBranches(lines) <==> exists l :: l in lines && GoneName(l) == Some(x)
  {
    PresentValuesMembers(lines, GoneName);
  }

  /** The orphan candidates, from the three listings. */
  function Candidates(localListing: string, remoteListing: string, verboseListing: string): (r: seq<string>)
    ensures NoDuplicates(r)
    ensures "" !in r
  {
    var a := MissingUpstream(LocalBranches(localListing), RemoteBranches(remoteListing));
    var b := GoneBranches(Split(verboseListing, '\n'));
    LocalNamesNonEmpty(localListing);
    assert "" !in b by {
      assert forall i :: 0 <= i < |b| ==> b[i] != "";
    }
    Dedup(a + b)
  }

  /** No local branch name is empty. */
  lemma LocalNamesNonEmpty(listing: string)
    ensures "" !in LocalBranches(listing)
  {
    var names := TrimmedNonEmpty(Split(listing, '\n'));
    SameElements(Sort(names), names);
    assert "" !in names by {
      assert forall i :: 0 <= i < |names| ==> names[i] != "";
    }
  }

  /** The candidates of a repository whose three listings succeed. */
  function CandidatesOf(repo: Repo): seq<string>
    requires ListingsAvailable(repo)
  {
    Candidates(repo.localList.value, repo.remoteList.value, repo.verboseList.value)
  }

  /** The candidates are exactly the union of the two signals, each once,
      with signal A's names first in their own order and then the names only
      signal B found. */
  lemma CandidatesAreUnion(localListing: string, remoteListing: string, verboseListing: string)
    ensures var c := Candidates(localListing, remoteListing, verboseListing);
      var a := MissingUpstream(LocalBranches(localListing), RemoteBranches(remoteListing));
      var b := GoneBranches(Split(verboseListing, '\n'));
      && NoDuplicates(c)
      && (forall x :: x in c <==> x in a || x in b)
      && c == Dedup(a) + Dedup(Without(b, a))
  {
    var a := MissingUpstream(LocalBranches(localListing), RemoteBranches(remoteListing));
    var b := GoneBranches(Split(verboseListing, '\n'));
    DedupAppend(a, b);
  }

  /** The candidates in terms of the raw listings: a name is a candidate
      exactly when it is the non-empty trim of a local listing line and no
      remote listing line yields it, or when a `[gone]` line of the verbose
      listing names it. */
  lemma CandidateMembership(localListing: string, remoteListing: string, verboseListing: string, x: string)
    ensures x in Candidates(localListing, remoteListing, verboseListing)
      <==> (&& x != ""
            && (exists l :: l in Split(localListing, '\n') && Trim(l) == x)
            && !(exists l :: l in Split(remoteListing, '\n') && OriginStripped(l) == x))
           || exists l :: l in Split(verboseListing, '\n') && GoneName(l) == Some(x)
  {
    var local := LocalBranches(localListing);
    var remote := RemoteBranches(remoteListing);
    var b := GoneBranches(Split(verboseListing, '\n'));
    CandidatesAreUnion(localListing, remoteListing, verboseListing);
    assert x in Candidates(localListing, remoteListing, verboseListing)
      <==> (x in local && x !in remote) || x in b;
    LocalBranchesMembers(localListing);
    RemoteBranchesMembers(remoteListing);
    GoneBranchesMembers(Split(verboseListing, '\n'));
  }
}
