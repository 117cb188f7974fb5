/**
 * The branch records of src/main.rs, the two line parsers, and the pure part of
 * the two collectors: the chains of adaptors that turn the lines printed by
 * `git branch` and by `hub pr list` into ordered sequences of branches.
 */
module Branches {
  import opened Wrappers
  import opened Text
  import opened Iter

  /** A branch: its short name and the hash of the commit it points to. */
  datatype Branch = Branch(name: string, commitHash: string)

  /** A change request as `hub pr list` describes it; its number is not kept. */
  datatype RemoteBranch = RemoteBranch(state: string, name: string, commitHash: string)

  /** The line `git branch --format "%(refname:short) %(objectname)"` prints for `b`. */
  function LocalLine(b: Branch): string {
    b.name + " " + b.commitHash
  }

  /** The line `hub pr list -f "%S %i %H %sH%n"` prints for one change request. */
  function RemoteLine(state: string, number: string, name: string, commitHash: string): string {
    state + " " + number + " " + name + " " + commitHash
  }

  lemma LocalLineJoins(name: string, commitHash: string)
    ensures Join([name, commitHash]) == LocalLine(Branch(name, commitHash))
  {
    assert [name, commitHash][1..] == [commitHash];
  }

  lemma RemoteLineJoins(state: string, number: string, name: string, commitHash: string)
    ensures Join([state, number, name, commitHash]) == RemoteLine(state, number, name, commitHash)
  {
    var parts := [state, number, name, commitHash];
    assert parts[1..] == [number, name, commitHash];
    assert parts[1..][1..] == [name, commitHash];
    LocalLineJoins(name, commitHash);
    assert Join(parts[1..]) == number + " " + (name + " " + commitHash);
    assert Join(parts) == state + " " + (number + " " + (name + " " + commitHash));
  }

  lemma JoinFour(parts: seq<string>)
    requires |parts| == 4
    ensures Join(parts) == RemoteLine(parts[0], parts[1], parts[2], parts[3])
  {
    assert parts == [parts[0], parts[1], parts[2], parts[3]];
    RemoteLineJoins(parts[0], parts[1], parts[2], parts[3]);
  }

  /**
   * `parse_branch`: a line is a branch exactly when it holds one space; the
   * name is what comes before it and the commit hash what comes after it.
   */
  function ParseBranch(line: string): (r: Option<Branch>)
    ensures r.Some? <==> Spaces(line) == 1
    ensures r.Some? ==> ' ' !in r.value.name && ' ' !in r.value.commitHash
    ensures r.Some? ==> LocalLine(r.value) == line
  {
    var parts := Split(line);
    JoinSplit(line);
    if |parts| == 2 then
      assert parts == [parts[0], parts[1]];
      LocalLineJoins(parts[0], parts[1]);
      Some(Branch(parts[0], parts[1]))
    else None
  }

  /** A branch whose fields hold no space survives being printed and parsed back. */
  lemma ParseBranchRoundTrip(b: Branch)
    requires ' ' !in b.name && ' ' !in b.commitHash
    ensures ParseBranch(LocalLine(b)) == Some(b)
  {
    SplitJoin([b.name, b.commitHash]);
    LocalLineJoins(b.name, b.commitHash);
  }

  /**
   * `RemoteBranch::parse_line`: a line is a change request exactly when it
   * holds three spaces; its fields are state, number, branch name and commit
   * hash, in that order.
   */
  function ParseRemoteLine(line: string): (r: Option<RemoteBranch>)
    ensures r.Some? <==> Spaces(line) == 3
    ensures r.Some? ==> ' ' !in r.value.state && ' ' !in r.value.name && ' ' !in r.value.commitHash
  {
    var parts := Split(line);
    if |parts| == 4 then Some(RemoteBranch(parts[0], parts[2], parts[3])) else None
  }

  /**
   * The fields of a change request come back in their places; its number
   * takes no part in the result.
   */
  lemma ParseRemoteLineRoundTrip(state: string, number: string, name: string, commitHash: string)
    requires ' ' !in state && ' ' !in number && ' ' !in name && ' ' !in commitHash
    ensures ParseRemoteLine(RemoteLine(state, number, name, commitHash)) == Some(RemoteBranch(state, name, commitHash))
  {
    SplitJoin([state, number, name, commitHash]);
    RemoteLineJoins(state, number, name, commitHash);
  }

  /** Every accepted remote line is the printed form of what it parsed to, for some number. */
  lemma ParseRemoteLineSound(line: string)
    requires ParseRemoteLine(line).Some?
    ensures exists number :: ' ' !in number && line == RemoteLine(ParseRemoteLine(line).value.state, number,
                                                                  ParseRemoteLine(line).value.name, ParseRemoteLine(line).value.commitHash)
  {
    var parts := Split(line);
    assert ParseRemoteLine(line) == Some(RemoteBranch(parts[0], parts[2], parts[3]));
    JoinSplit(line);
    JoinFour(parts);
    assert ' ' !in parts[1];
  }

  /** `RemoteBranch::branch`: the name and commit hash of a change request. */
  function BranchOf(rb: RemoteBranch): (b: Branch)
    ensures b.name == rb.name && b.commitHash == rb.commitHash
  {
    Branch(rb.name, rb.commitHash)
  }

  /** The state of a change request takes no part in the branch made from it. */
  lemma BranchOfIgnoresState(rb: RemoteBranch, state: string)
    ensures BranchOf(rb.(state := state)) == BranchOf(rb)
  {
  }

  /** The filter of `get_remote_branches`: only change requests not "open" are kept. */
  predicate NotOpen(rb: RemoteBranch): (keep: bool)
    ensures !keep <==> rb.state == "open"
  {
    rb.state != "open"
  }

  /** Every change request parsed from a line has fields free of spaces. */
  lemma ParsedRemoteFields(lines: seq<string>)
    ensures forall rb :: rb in FilterMap(ParseRemoteLine, lines) ==> ' ' !in rb.name && ' ' !in rb.commitHash
  {
    forall rb | rb in FilterMap(ParseRemoteLine, lines) ensures ' ' !in rb.name && ' ' !in rb.commitHash {
      var i :| 0 <= i < |lines| && ParseRemoteLine(lines[i]) == Some(rb);
    }
  }

  /**
   * The chain of `get_remote_branches` over the lines `hub` printed: at most
   * one branch per line, each with a name and hash free of spaces.
   */
  function RemoteBranches(lines: seq<string>): (r: seq<Branch>)
    ensures |r| <= |lines|
    ensures forall k :: 0 <= k < |r| ==> ' ' !in r[k].name && ' ' !in r[k].commitHash
  {
    var kept := Filter(NotOpen, FilterMap(ParseRemoteLine, lines));
    ParsedRemoteFields(lines);
    assert forall k :: 0 <= k < |kept| ==> kept[k] in kept;
    Map(BranchOf, kept)
  }

  /**
   * The chain of `get_local_branches` over the lines `git` printed: at most
   * one branch per line, each printed as one of the lines.
   */
  function LocalBranches(lines: seq<string>): (r: seq<Branch>)
    ensures |r| <= |lines|
    ensures forall k :: 0 <= k < |r| ==> LocalLine(r[k]) in lines
  {
    var r := FilterMap(ParseBranch, lines);
    assert forall k :: 0 <= k < |r| ==> r[k] in r;
    r
  }

  /** What one remote line contributes: its branch when it parses and is not open. */
  function RemoteContribution(line: string): seq<Branch> {
    match ParseRemoteLine(line)
    case Some(rb) => if rb.state != "open" then [BranchOf(rb)] else []
    case None => []
  }

  /** What one local line contributes: its branch when it parses. */
  function LocalContribution(line: string): seq<Branch> {
    match ParseBranch(line)
    case Some(b) => [b]
    case None => []
  }

  /** The remote collector reads its lines one at a time, in order. */
  lemma RemoteBranchesAppend(a: seq<string>, b: seq<string>)
    ensures RemoteBranches(a + b) == RemoteBranches(a) + RemoteBranches(b)
  {
    FilterMapAppend(ParseRemoteLine, a, b);
    var pa, pb := FilterMap(ParseRemoteLine, a), FilterMap(ParseRemoteLine, b);
    FilterAppend(NotOpen, pa, pb);
    MapAppend(BranchOf, Filter(NotOpen, pa), Filter(NotOpen, pb));
  }

  lemma RemoteBranchesLine(line: string)
    ensures RemoteBranches([line]) == RemoteContribution(line)
  {
    assert [line][1..] == [];
  }

  /**
   * Order and selection of the remote collector: a line between two others
   * adds its branch in its place when it parses to a change request that is
   * not open, and adds nothing when it is malformed or open.
   */
  lemma RemoteBranchesSelect(before: seq<string>, line: string, after: seq<string>)
    ensures RemoteBranches(before + [line] + after)
         == RemoteBranches(before) + RemoteContribution(line) + RemoteBranches(after)
  {
    RemoteBranchesAppend(before + [line], after);
    RemoteBranchesAppend(before, [line]);
    RemoteBranchesLine(line);
  }

  /** Line `lines[i]` is a change request that is not open, and its branch is `b`. */
  predicate RemoteLineGives(lines: seq<string>, i: int, b: Branch)
    requires 0 <= i < |lines|
  {
    ParseRemoteLine(lines[i]).Some? && NotOpen(ParseRemoteLine(lines[i]).value)
      && BranchOf(ParseRemoteLine(lines[i]).value) == b
  }

  /** A branch comes out of the remote collector exactly when a non-open change request has it. */
  lemma RemoteBranchesMembers(lines: seq<string>, b: Branch)
    ensures b in RemoteBranches(lines) <==> exists i :: 0 <= i < |lines| && RemoteLineGives(lines, i, b)
  {
    if b in RemoteBranches(lines) {
      RemoteBranchesFrom(lines, b);
    }
    if exists i :: 0 <= i < |lines| && RemoteLineGives(lines, i, b) {
      var i :| 0 <= i < |lines| && RemoteLineGives(lines, i, b);
      RemoteBranchesHas(lines, i);
    }
  }

  lemma RemoteBranchesFrom(lines: seq<string>, b: Branch)
    requires b in RemoteBranches(lines)
    ensures exists i :: 0 <= i < |lines| && RemoteLineGives(lines, i, b)
  {
    var parsed := FilterMap(ParseRemoteLine, lines);
    var kept := Filter(NotOpen, parsed);
    var out := Map(BranchOf, kept);
    var k :| 0 <= k < |out| && out[k] == b;
    var rb := kept[k];
    assert BranchOf(rb) == b;
    assert rb in kept;
    assert rb in parsed && NotOpen(rb);
    var i :| 0 <= i < |lines| && ParseRemoteLine(lines[i]) == Some(rb);
    assert RemoteLineGives(lines, i, b);
  }

  lemma RemoteBranchesHas(lines: seq<string>, i: nat)
    requires i < |lines| && ParseRemoteLine(lines[i]).Some? && NotOpen(ParseRemoteLine(lines[i]).value)
    ensures BranchOf(ParseRemoteLine(lines[i]).value) in RemoteBranches(lines)
  {
    var parsed := FilterMap(ParseRemoteLine, lines);
    var kept := Filter(NotOpen, parsed);
    var rb := ParseRemoteLine(lines[i]).value;
    FilterMapHas(ParseRemoteLine, lines, i);
    assert rb in kept;
    var k :| 0 <= k < |kept| && kept[k] == rb;
    assert Map(BranchOf, kept)[k] == BranchOf(rb);
  }

  /** The local collector reads its lines one at a time, in order. */
  lemma LocalBranchesAppend(a: seq<string>, b: seq<string>)
    ensures LocalBranches(a + b) == LocalBranches(a) + LocalBranches(b)
  {
    FilterMapAppend(ParseBranch, a, b);
  }

  /**
   * Order and selection of the local collector: a line adds its branch in
   * its place when it parses, and adds nothing when it is malformed.
   */
  lemma LocalBranchesSelect(before: seq<string>, line: string, after: seq<string>)
    ensures LocalBranches(before + [line] + after)
         == LocalBranches(before) + LocalContribution(line) + LocalBranches(after)
  {
    LocalBranchesAppend(before + [line], after);
    LocalBranchesAppend(before, [line]);
    LocalBranchesLine(line);
  }

  lemma LocalBranchesLine(line: string)
    ensures LocalBranches([line]) == LocalContribution(line)
  {
    assert [line][1..] == [];
  }
}
