/**
 * The matching half of `main` in src/main.rs: `group_by` indexes the remote
 * branches by commit hash, and the reporting loop prints the name of every
 * local branch whose commit hash is in that index, in local order, and logs a
 * diagnostic for every other one when the tool runs with `--verbose`.
 */
module Matcher {
  import opened Wrappers
  import opened Iter
  import opened Branches

  /**
   * The map `group_by` ends with: every item inserted under its key, in order,
   * so that a later item replaces an earlier one with the same key.
   */
  function GroupedBy<T>(items: seq<T>, key: T -> string): (m: map<string, T>)
    ensures m.Keys == set i | 0 <= i < |items| :: key(items[i])
    decreases |items|
  {
    if items == [] then map[]
    else
      var front, last := items[..|items| - 1], items[|items| - 1];
      assert forall i :: 0 <= i < |front| ==> front[i] == items[i];
      GroupedBy(front, key)[key(last) := last]
  }

  /** An item with no later item under the same key is the one the index keeps. */
  lemma {:induction false} GroupedByLastWins<T>(items: seq<T>, key: T -> string, i: nat)
    requires i < |items|
    requires forall j :: i < j < |items| ==> key(items[j]) != key(items[i])
    ensures key(items[i]) in GroupedBy(items, key)
    ensures GroupedBy(items, key)[key(items[i])] == items[i]
    decreases |items|
  {
    var front := items[..|items| - 1];
    if i < |items| - 1 {
      assert front[i] == items[i];
      GroupedByLastWins(front, key, i);
    }
  }

  /** Every entry of the index is the last item with its key. */
  lemma {:induction false} GroupedByEntries<T>(items: seq<T>, key: T -> string, k: string)
    requires k in GroupedBy(items, key)
    ensures exists i :: 0 <= i < |items| && key(items[i]) == k && GroupedBy(items, key)[k] == items[i]
                     && forall j :: i < j < |items| ==> key(items[j]) != k
    decreases |items|
  {
    var n := |items|;
    var front, last := items[..n - 1], items[n - 1];
    if key(last) == k {
      assert key(items[n - 1]) == k && GroupedBy(items, key)[k] == items[n - 1];
    } else {
      GroupedByEntries(front, key, k);
      var i :| 0 <= i < |front| && key(front[i]) == k && GroupedBy(front, key)[k] == front[i]
               && forall j :: i < j < |front| ==> key(front[j]) != k;
      assert items[i] == front[i];
      assert forall j :: i < j < n - 1 ==> items[j] == front[j];
    }
  }

  /** `group_by`: a loop that inserts each item under its key into a fresh map. */
  method GroupBy<T>(items: seq<T>, key: T -> string) returns (cache: map<string, T>)
    ensures cache == GroupedBy(items, key)
  {
    cache := map[];
    for i := 0 to |items|
      invariant cache == GroupedBy(items[..i], key)
    {
      assert items[..i + 1][..i] == items[..i];
      cache := cache[key(items[i]) := items[i]];
    }
    assert items[..|items|] == items;
  }

  /** The key the remote branches are indexed under. */
  function CommitHashOf(b: Branch): (key: string)
    ensures key == b.commitHash
  {
    b.commitHash
  }

  /** Some remote branch points at the commit `hash`. */
  predicate Shares(remote: seq<Branch>, hash: string) {
    exists j :: 0 <= j < |remote| && remote[j].commitHash == hash
  }

  /** The commit hashes in the index are exactly those of the remote branches. */
  lemma IndexedIffShared(remote: seq<Branch>, hash: string)
    ensures hash in GroupedBy(remote, CommitHashOf) <==> Shares(remote, hash)
  {
    var keys := GroupedBy(remote, CommitHashOf).Keys;
    if Shares(remote, hash) {
      var j :| 0 <= j < |remote| && remote[j].commitHash == hash;
      assert CommitHashOf(remote[j]) in keys;
    }
  }

  /** The message `log` gets for a local branch with no match. */
  function Diagnostic(b: Branch): (msg: string)
    ensures |msg| == 14 + |b.name| + |b.commitHash|
    ensures "Can't find " <= msg && msg[11..11 + |b.name|] == b.name
    ensures msg[11 + |b.name|..13 + |b.name|] == " (" && msg[13 + |b.name|..|msg| - 1] == b.commitHash && msg[|msg| - 1] == ')'
  {
    "Can't find " + b.name + " (" + b.commitHash + ")"
  }

  /** The character after the name in a diagnostic is the space before the hash. */
  lemma DiagnosticNameEnd(b: Branch, k: nat)
    requires k < |b.name|
    ensures Diagnostic(b)[11 + k] == b.name[k] && Diagnostic(b)[11 + |b.name|] == ' '
  {
    assert Diagnostic(b)[11..11 + |b.name|][k] == b.name[k];
    assert Diagnostic(b)[11 + |b.name|..13 + |b.name|][0] == ' ';
  }

  /** A diagnostic names its branch: branches with space-free names have equal diagnostics only when they are equal. */
  lemma DiagnosticIdentifiesBranch(b1: Branch, b2: Branch)
    requires ' ' !in b1.name && ' ' !in b2.name
    requires Diagnostic(b1) == Diagnostic(b2)
    ensures b1 == b2
  {
    if |b1.name| < |b2.name| {
      DiagnosticNameEnd(b2, |b1.name|);
      assert false;
    } else if |b2.name| < |b1.name| {
      DiagnosticNameEnd(b1, |b2.name|);
      assert false;
    }
  }

  /** What the loop prints to standard output for one local branch. */
  function MatchedName(remote: seq<Branch>): Branch -> Option<string> {
    (b: Branch) => if Shares(remote, b.commitHash) then Some(b.name) else None
  }

  /** What the loop logs for one local branch. */
  function MissedBranch(remote: seq<Branch>): Branch -> Option<string> {
    (b: Branch) => if Shares(remote, b.commitHash) then None else Some(Diagnostic(b))
  }

  /** The names printed, in local order: those of the local branches some remote branch shares a commit with. */
  function MatchedNames(local: seq<Branch>, remote: seq<Branch>): seq<string> {
    FilterMap(MatchedName(remote), local)
  }

  /** The diagnostics logged, in local order: one per local branch no remote branch shares a commit with. */
  function Diagnostics(local: seq<Branch>, remote: seq<Branch>): seq<string> {
    FilterMap(MissedBranch(remote), local)
  }

  /**
   * The reporting loop of `main`: index the remote branches by commit hash,
   * then walk the local branches, printing the name of each hit and logging a
   * diagnostic for each miss. `verbose` is whether `--verbose` was among the
   * arguments; without it nothing is logged.
   */
  method Report(local: seq<Branch>, remote: seq<Branch>, verbose: bool) returns (stdout: seq<string>, stderr: seq<string>)
    ensures stdout == MatchedNames(local, remote)
    ensures stderr == if verbose then Diagnostics(local, remote) else []
  {
    var cache := GroupBy(remote, CommitHashOf);
    stdout, stderr := [], [];
    for i := 0 to |local|
      invariant stdout == MatchedNames(local[..i], remote)
      invariant stderr == if verbose then Diagnostics(local[..i], remote) else []
    {
      var branch := local[i];
      ReportStep(local, i, remote);
      IndexedIffShared(remote, branch.commitHash);
      if branch.commitHash in cache {
        stdout := stdout + [branch.name];
      } else if verbose {
        stderr := stderr + [Diagnostic(branch)];
      }
    }
    assert local[..|local|] == local;
  }

  /** What one more local branch adds to the report. */
  lemma ReportStep(local: seq<Branch>, i: nat, remote: seq<Branch>)
    requires i < |local|
    ensures MatchedNames(local[..i + 1], remote)
         == MatchedNames(local[..i], remote) + (if Shares(remote, local[i].commitHash) then [local[i].name] else [])
    ensures Diagnostics(local[..i + 1], remote)
         == Diagnostics(local[..i], remote) + (if Shares(remote, local[i].commitHash) then [] else [Diagnostic(local[i])])
  {
    assert local[..i + 1] == local[..i] + [local[i]];
    FilterMapAppend(MatchedName(remote), local[..i], [local[i]]);
    FilterMapAppend(MissedBranch(remote), local[..i], [local[i]]);
    FilterMapSingle(MatchedName(remote), local[i]);
    FilterMapSingle(MissedBranch(remote), local[i]);
  }

  /**
   * Order and selection of the printed names: a local branch between two
   * others has its name printed in its place exactly when some remote branch
   * has its commit hash.
   */
  lemma MatchedNamesSelect(before: seq<Branch>, b: Branch, after: seq<Branch>, remote: seq<Branch>)
    ensures MatchedNames(before + [b] + after, remote)
         == MatchedNames(before, remote) + (if Shares(remote, b.commitHash) then [b.name] else []) + MatchedNames(after, remote)
  {
    var f := MatchedName(remote);
    FilterMapAppend(f, before + [b], after);
    FilterMapAppend(f, before, [b]);
    FilterMapSingle(f, b);
  }

  /**
   * Order and selection of the diagnostics: a local branch between two others
   * has its diagnostic in its place exactly when no remote branch has its
   * commit hash.
   */
  lemma DiagnosticsSelect(before: seq<Branch>, b: Branch, after: seq<Branch>, remote: seq<Branch>)
    ensures Diagnostics(before + [b] + after, remote)
         == Diagnostics(before, remote) + (if Shares(remote, b.commitHash) then [] else [Diagnostic(b)]) + Diagnostics(after, remote)
  {
    var f := MissedBranch(remote);
    FilterMapAppend(f, before + [b], after);
    FilterMapAppend(f, before, [b]);
    FilterMapSingle(f, b);
  }

  /** Matching looks at commit hashes only: remote lists with the same hashes give the same report. */
  lemma {:induction false} MatchedNamesByHashOnly(local: seq<Branch>, r1: seq<Branch>, r2: seq<Branch>)
    requires forall h :: Shares(r1, h) <==> Shares(r2, h)
    ensures MatchedNames(local, r1) == MatchedNames(local, r2)
    ensures Diagnostics(local, r1) == Diagnostics(local, r2)
    decreases |local|
  {
    if local != [] {
      MatchedNamesByHashOnly(local[1..], r1, r2);
      assert MatchedName(r1)(local[0]) == MatchedName(r2)(local[0]);
      assert MissedBranch(r1)(local[0]) == MissedBranch(r2)(local[0]);
    }
  }

  /** Some line `hub` printed is a change request, not open, on the commit `hash`. */
  predicate Merged(remoteLines: seq<string>, hash: string) {
    exists j :: 0 <= j < |remoteLines| && ParseRemoteLine(remoteLines[j]).Some?
      && NotOpen(ParseRemoteLine(remoteLines[j]).value) && ParseRemoteLine(remoteLines[j]).value.commitHash == hash
  }

  /** A commit is shared by the remote collector's output exactly when a non-open change request is on it. */
  lemma SharedIffMerged(remoteLines: seq<string>, hash: string)
    ensures Shares(RemoteBranches(remoteLines), hash) <==> Merged(remoteLines, hash)
  {
    var remote := RemoteBranches(remoteLines);
    if Shares(remote, hash) {
      var k :| 0 <= k < |remote| && remote[k].commitHash == hash;
      RemoteBranchesFrom(remoteLines, remote[k]);
      var j :| 0 <= j < |remoteLines| && RemoteLineGives(remoteLines, j, remote[k]);
      assert ParseRemoteLine(remoteLines[j]).value.commitHash == hash;
    }
    if Merged(remoteLines, hash) {
      var j :| 0 <= j < |remoteLines| && ParseRemoteLine(remoteLines[j]).Some?
        && NotOpen(ParseRemoteLine(remoteLines[j]).value) && ParseRemoteLine(remoteLines[j]).value.commitHash == hash;
      var b := BranchOf(ParseRemoteLine(remoteLines[j]).value);
      RemoteBranchesHas(remoteLines, j);
      var k :| 0 <= k < |remote| && remote[k] == b;
    }
  }

  /** Some line `git` printed parses to a branch named `name` on a commit merged remotely. */
  predicate PrintableName(localLines: seq<string>, remoteLines: seq<string>, name: string) {
    exists i :: 0 <= i < |localLines| && ParseBranch(localLines[i]).Some?
      && ParseBranch(localLines[i]).value.name == name
      && Merged(remoteLines, ParseBranch(localLines[i]).value.commitHash)
  }

  /**
   * The whole tool: a name is printed exactly when some line `git` printed
   * parses to a branch of that name whose commit some non-open change request
   * printed by `hub` is on.
   */
  lemma PrintedIff(localLines: seq<string>, remoteLines: seq<string>, name: string)
    ensures name in MatchedNames(LocalBranches(localLines), RemoteBranches(remoteLines))
        <==> PrintableName(localLines, remoteLines, name)
  {
    var local, remote := LocalBranches(localLines), RemoteBranches(remoteLines);
    if name in MatchedNames(local, remote) {
      var k :| 0 <= k < |local| && MatchedName(remote)(local[k]) == Some(name);
      var b := local[k];
      assert b in local;
      var i :| 0 <= i < |localLines| && ParseBranch(localLines[i]) == Some(b);
      SharedIffMerged(remoteLines, b.commitHash);
      assert ParseBranch(localLines[i]).value.name == name;
    }
    if PrintableName(localLines, remoteLines, name) {
      var i :| 0 <= i < |localLines| && ParseBranch(localLines[i]).Some?
        && ParseBranch(localLines[i]).value.name == name
        && Merged(remoteLines, ParseBranch(localLines[i]).value.commitHash);
      PrintedIfMergedAt(localLines, remoteLines, i);
    }
  }

  /** The name of a local line on a commit merged remotely is printed. */
  lemma PrintedIfMergedAt(localLines: seq<string>, remoteLines: seq<string>, i: nat)
    requires i < |localLines| && ParseBranch(localLines[i]).Some?
    requires Merged(remoteLines, ParseBranch(localLines[i]).value.commitHash)
    ensures ParseBranch(localLines[i]).value.name in MatchedNames(LocalBranches(localLines), RemoteBranches(remoteLines))
  {
    var b := ParseBranch(localLines[i]).value;
    var local := LocalBranches(localLines);
    FilterMapHas(ParseBranch, localLines, i);
    var k :| 0 <= k < |local| && local[k] == b;
    SharedIffMerged(remoteLines, b.commitHash);
    MatchedNamesHas(local, k, RemoteBranches(remoteLines));
  }

  lemma MatchedNamesHas(local: seq<Branch>, k: nat, remote: seq<Branch>)
    requires k < |local| && Shares(remote, local[k].commitHash)
    ensures local[k].name in MatchedNames(local, remote)
  {
    assert MatchedName(remote)(local[k]) == Some(local[k].name);
    FilterMapHas(MatchedName(remote), local, k);
  }
}
