/**
 * Worked examples of the whole tool on small outputs of `git` and `hub`, proved.
 */
module Scenarios {
  import opened Wrappers
  import opened Branches
  import opened Matcher

  lemma LocalPair(l1: string, l2: string, b1: Branch, b2: Branch)
    requires ParseBranch(l1) == Some(b1) && ParseBranch(l2) == Some(b2)
    ensures LocalBranches([l1, l2]) == [b1, b2]
  {
    LocalBranchesLine(l1);
    LocalBranchesLine(l2);
    LocalBranchesAppend([l1], [l2]);
    assert [l1] + [l2] == [l1, l2];
  }

  lemma LocalOne(line: string, b: Branch)
    requires ParseBranch(line) == Some(b)
    ensures LocalBranches([line]) == [b]
  {
    LocalBranchesLine(line);
  }

  lemma RemotePair(l1: string, l2: string, r1: RemoteBranch, r2: RemoteBranch)
    requires ParseRemoteLine(l1) == Some(r1) && ParseRemoteLine(l2) == Some(r2)
    ensures RemoteBranches([l1, l2])
         == (if NotOpen(r1) then [BranchOf(r1)] else []) + (if NotOpen(r2) then [BranchOf(r2)] else [])
  {
    RemoteBranchesLine(l1);
    RemoteBranchesLine(l2);
    RemoteBranchesAppend([l1], [l2]);
    assert [l1] + [l2] == [l1, l2];
  }

  lemma ReportPair(b1: Branch, b2: Branch, remote: seq<Branch>)
    ensures MatchedNames([b1, b2], remote)
         == (if Shares(remote, b1.commitHash) then [b1.name] else []) + (if Shares(remote, b2.commitHash) then [b2.name] else [])
    ensures Diagnostics([b1, b2], remote)
         == (if Shares(remote, b1.commitHash) then [] else [Diagnostic(b1)]) + (if Shares(remote, b2.commitHash) then [] else [Diagnostic(b2)])
  {
    MatchedNamesSelect([], b1, [b2], remote);
    MatchedNamesSelect([], b2, [], remote);
    DiagnosticsSelect([], b1, [b2], remote);
    DiagnosticsSelect([], b2, [], remote);
    assert [] + [b1] + [b2] == [b1, b2];
    assert [] + [b2] + [] == [b2];
  }

  lemma ParsesMain()
    ensures ParseBranch("main abc123") == Some(Branch("main", "abc123"))
  {
    assert LocalLine(Branch("main", "abc123")) == "main abc123";
    ParseBranchRoundTrip(Branch("main", "abc123"));
  }

  lemma ParsesFeature()
    ensures ParseBranch("feature def456") == Some(Branch("feature", "def456"))
  {
    assert LocalLine(Branch("feature", "def456")) == "feature def456";
    ParseBranchRoundTrip(Branch("feature", "def456"));
  }

  lemma ParsesMergedFeature()
    ensures ParseRemoteLine("merged 1 feature def456") == Some(RemoteBranch("merged", "feature", "def456"))
  {
    assert RemoteLine("merged", "1", "feature", "def456") == "merged 1 feature def456";
    ParseRemoteLineRoundTrip("merged", "1", "feature", "def456");
  }

  lemma ParsesOpenOther()
    ensures ParseRemoteLine("open 2 other xyz789") == Some(RemoteBranch("open", "other", "xyz789"))
  {
    assert RemoteLine("open", "2", "other", "xyz789") == "open 2 other xyz789";
    ParseRemoteLineRoundTrip("open", "2", "other", "xyz789");
  }

  lemma ExampleLocal()
    ensures LocalBranches(["main abc123", "feature def456"]) == [Branch("main", "abc123"), Branch("feature", "def456")]
  {
    ParsesMain();
    ParsesFeature();
    LocalPair("main abc123", "feature def456", Branch("main", "abc123"), Branch("feature", "def456"));
  }

  lemma ExampleRemote()
    ensures RemoteBranches(["merged 1 feature def456", "open 2 other xyz789"]) == [Branch("feature", "def456")]
  {
    ParsesMergedFeature();
    ParsesOpenOther();
    var merged, open := RemoteBranch("merged", "feature", "def456"), RemoteBranch("open", "other", "xyz789");
    RemotePair("merged 1 feature def456", "open 2 other xyz789", merged, open);
    assert !NotOpen(open) && NotOpen(merged);
  }

  lemma ExampleReport()
    ensures MatchedNames([Branch("main", "abc123"), Branch("feature", "def456")], [Branch("feature", "def456")]) == ["feature"]
    ensures Diagnostics([Branch("main", "abc123"), Branch("feature", "def456")], [Branch("feature", "def456")])
         == ["Can't find main (abc123)"]
  {
    var main, feature := Branch("main", "abc123"), Branch("feature", "def456");
    var remote := [feature];
    assert remote[0].commitHash == "def456";
    assert !Shares(remote, "abc123");
    assert Shares(remote, "def456");
    ReportPair(main, feature, remote);
    assert Diagnostic(main) == "Can't find main (abc123)";
  }

  /** `feature` is on a merged change request and is printed; `main` is not and is logged. */
  lemma MergedFeatureIsPrinted()
    ensures var local := LocalBranches(["main abc123", "feature def456"]);
            var remote := RemoteBranches(["merged 1 feature def456", "open 2 other xyz789"]);
            MatchedNames(local, remote) == ["feature"] && Diagnostics(local, remote) == ["Can't find main (abc123)"]
  {
    ExampleLocal();
    ExampleRemote();
    ExampleReport();
  }

  lemma ParsesClosedA()
    ensures ParseRemoteLine("closed 1 a hash1") == Some(RemoteBranch("closed", "a", "hash1"))
  {
    assert RemoteLine("closed", "1", "a", "hash1") == "closed 1 a hash1";
    ParseRemoteLineRoundTrip("closed", "1", "a", "hash1");
  }

  lemma ParsesMergedB()
    ensures ParseRemoteLine("merged 2 b hash1") == Some(RemoteBranch("merged", "b", "hash1"))
  {
    assert RemoteLine("merged", "2", "b", "hash1") == "merged 2 b hash1";
    ParseRemoteLineRoundTrip("merged", "2", "b", "hash1");
  }

  lemma ParsesX()
    ensures ParseBranch("x hash1") == Some(Branch("x", "hash1"))
  {
    assert LocalLine(Branch("x", "hash1")) == "x hash1";
    ParseBranchRoundTrip(Branch("x", "hash1"));
  }

  lemma RemoteKept(line: string, rb: RemoteBranch)
    requires ParseRemoteLine(line) == Some(rb) && NotOpen(rb)
    ensures RemoteBranches([line]) == [BranchOf(rb)]
  {
    RemoteBranchesLine(line);
  }

  lemma RemoteTwo(l1: string, l2: string)
    ensures RemoteBranches([l1, l2]) == RemoteBranches([l1]) + RemoteBranches([l2])
  {
    RemoteBranchesAppend([l1], [l2]);
    assert [l1] + [l2] == [l1, l2];
  }

  lemma CollisionRemoteA()
    ensures RemoteBranches(["closed 1 a hash1"]) == [Branch("a", "hash1")]
  {
    ParsesClosedA();
    RemoteKept("closed 1 a hash1", RemoteBranch("closed", "a", "hash1"));
  }

  lemma CollisionRemoteB()
    ensures RemoteBranches(["merged 2 b hash1"]) == [Branch("b", "hash1")]
  {
    ParsesMergedB();
    RemoteKept("merged 2 b hash1", RemoteBranch("merged", "b", "hash1"));
  }

  lemma CollisionRemote()
    ensures RemoteBranches(["closed 1 a hash1", "merged 2 b hash1"]) == [Branch("a", "hash1"), Branch("b", "hash1")]
  {
    CollisionRemoteA();
    CollisionRemoteB();
    RemoteTwo("closed 1 a hash1", "merged 2 b hash1");
  }

  lemma CollisionIndex()
    ensures GroupedBy([Branch("a", "hash1"), Branch("b", "hash1")], CommitHashOf) == map["hash1" := Branch("b", "hash1")]
  {
    var a, b := Branch("a", "hash1"), Branch("b", "hash1");
    assert [a, b][..1] == [a];
    assert [a][..0] == [];
  }

  lemma CollisionLocal()
    ensures LocalBranches(["x hash1"]) == [Branch("x", "hash1")]
  {
    ParsesX();
    LocalOne("x hash1", Branch("x", "hash1"));
  }

  lemma CollisionReport()
    ensures MatchedNames([Branch("x", "hash1")], [Branch("a", "hash1"), Branch("b", "hash1")]) == ["x"]
  {
    var x, remote := Branch("x", "hash1"), [Branch("a", "hash1"), Branch("b", "hash1")];
    assert remote[0].commitHash == "hash1";
    assert Shares(remote, "hash1");
    MatchedNamesSelect([], x, [], remote);
    assert [] + [x] + [] == [x];
  }

  /**
   * Two closed or merged change requests on one commit: the index keeps the
   * later one, and the local branch on that commit is printed.
   */
  lemma CollisionKeepsLater()
    ensures var remote := RemoteBranches(["closed 1 a hash1", "merged 2 b hash1"]);
            GroupedBy(remote, CommitHashOf) == map["hash1" := Branch("b", "hash1")]
            && MatchedNames(LocalBranches(["x hash1"]), remote) == ["x"]
  {
    CollisionRemote();
    CollisionIndex();
    CollisionLocal();
    CollisionReport();
  }

  /** With no local branches nothing is printed and nothing is logged. */
  lemma NoLocalBranchesNoOutput(remoteLines: seq<string>)
    ensures MatchedNames(LocalBranches([]), RemoteBranches(remoteLines)) == []
    ensures Diagnostics(LocalBranches([]), RemoteBranches(remoteLines)) == []
  {
  }
}
