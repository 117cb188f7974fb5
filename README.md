# merged_branches, modelled in Dafny

`merged_branches` lists the local git branches whose tip commit is already on a
closed or merged pull request, so that they can be deleted. It runs two external
tools concurrently: `git branch --format "%(refname:short) %(objectname)"` for the
local branches and `hub pr list -s all -f "%S %i %H %sH%n" --limit 20` for the pull
requests. It parses both outputs line by line, indexes the remote branches that are
not `open` by commit hash, and prints the name of every local branch whose commit
hash is in that index. When `--verbose` is given, it logs `Can't find <name> (<hash>)`
to standard error for every other local branch.

This project models the pure and sequential core of `src/main.rs`:

- `wrappers.dfy` (module `Wrappers`) holds the `Option` type the parsers return.
- `text.dfy` (module `Text`) models Rust's `str::split(" ")` exactly. A line with
  n spaces splits into n + 1 parts. The empty line gives `[""]`, and two adjacent
  spaces give an empty part. `Join` is its inverse and describes the lines the two
  tools print.
- `iter.dfy` (module `Iter`) models the iterator adaptors `filter_map`, `filter` and
  `map`. Each keeps input order and distributes over concatenation.
- `branches.dfy` (module `Branches`) holds `Branch`, `RemoteBranch`, `parse_branch`,
  `RemoteBranch::parse_line` and `RemoteBranch::branch`. It also holds the adaptor
  chains of `get_remote_branches` and `get_local_branches`, taken over the lines
  the tools have already printed.
- `matcher.dfy` (module `Matcher`) holds `group_by` as a loop over a map, proved
  equal to a last-write-wins fold (`GroupedBy`). It also holds the reporting loop
  of `main` as a method. That method returns the lines printed to standard output
  and the diagnostics logged to standard error.
- `scenarios.dfy` (module `Scenarios`) holds worked examples: small outputs of `git`
  and `hub`, with what the tool prints for them proved.

`parse_branch` accepts an empty name: `" abc"` parses to a branch named `""`. `git`
never prints such a line, but the model accepts it, as the code does.

## Model

| member | source | states |
|---|---|---|
| Text.Split | src/main.rs:12 | `line.split(" ")` gives one part more than the line has spaces, and no part contains a space |
| Text.JoinSplit | src/main.rs:12 | splitting loses nothing: putting the parts back together with single spaces gives the line again |
| Text.SplitJoin | src/main.rs:12 | parts free of spaces, joined by single spaces, split back into exactly those parts |
| Iter.FilterMap | src/main.rs:66 | `filter_map` yields no more items than it reads, and a value comes out exactly when some input maps to `Some` of it |
| Iter.Filter | src/main.rs:67 | `filter` yields no more items than it reads, and it keeps exactly the inputs that satisfy the predicate |
| Iter.Map | src/main.rs:68 | `map` yields one output per input, each the function applied to the input at the same position |
| Iter.FilterMapAppend | src/main.rs:80 | `filter_map` handles its input item by item in order: the output for `a + b` is the output for `a` followed by the output for `b` |
| Iter.FilterMapHas | src/main.rs:66 | every value that `filter_map`'s function yields for an input appears in the output |
| Iter.FilterMapSingle | src/main.rs:66 | one input gives the value its function yields, or nothing |
| Iter.FilterAppend | src/main.rs:67 | `filter` keeps order: the output for `a + b` is the output for `a` followed by the output for `b` |
| Iter.MapAppend | src/main.rs:68 | `map` keeps order: the output for `a + b` is the output for `a` followed by the output for `b` |
| Branches.ParseBranch | src/main.rs:11-19 | `parse_branch` accepts a line exactly when it contains exactly one space, so the empty line is rejected. The name and hash it returns contain no space, and name + " " + hash is the line |
| Branches.ParseBranchRoundTrip | src/main.rs:12-17 | a branch whose name and hash contain no space is parsed back from its `git` line unchanged |
| Branches.ParseRemoteLine | src/main.rs:29-38 | `parse_line` accepts a line exactly when it contains exactly three spaces, and the state, name and hash it returns contain no space |
| Branches.ParseRemoteLineRoundTrip | src/main.rs:30-36 | fields taken by position: a `hub` line with state, number, name and hash parses to exactly that state, name and hash, whatever the number |
| Branches.ParseRemoteLineSound | src/main.rs:30-36 | every accepted remote line is the `hub` line of the record it parsed to, for some space-free number |
| Branches.BranchOf | src/main.rs:41-46 | `branch()` keeps the name and the commit hash of the record |
| Branches.BranchOfIgnoresState | src/main.rs:41-46 | the state of a record plays no part in the branch made from it |
| Branches.NotOpen | src/main.rs:67 | the filter of the remote chain drops a record exactly when its state is `"open"` |
| Branches.ParsedRemoteFields | src/main.rs:66 | every record the remote `filter_map` yields has a name and hash free of spaces |
| Branches.RemoteBranches | src/main.rs:65-68 | the remote chain yields at most one branch per line, each with a name and hash free of spaces; which branches, and in what order, is stated by `RemoteBranchesSelect` and `RemoteBranchesMembers` |
| Branches.LocalBranches | src/main.rs:80 | the local chain yields at most one branch per line, and every branch it yields is, printed as `name hash`, one of the lines; which branches, and in what order, is stated by `LocalBranchesSelect` |
| Branches.RemoteBranchesAppend | src/main.rs:65-68 | the remote chain handles its lines one at a time in order: the output for `a + b` is the output for `a` followed by the output for `b` |
| Branches.RemoteBranchesLine | src/main.rs:66-68 | one remote line gives its branch if it parses and its state is not `"open"`, and nothing otherwise |
| Branches.RemoteBranchesSelect | src/main.rs:65-68 | within any surrounding lines, a remote line adds its branch in its own place if it parses and is not `"open"`; a malformed or `"open"` line adds nothing |
| Branches.RemoteBranchesMembers | src/main.rs:65-68 | a branch comes out of the remote chain if and only if some line parses to a non-`"open"` record with that name and hash |
| Branches.RemoteBranchesFrom | src/main.rs:65-68 | every branch the remote chain yields comes from a line that parses to a non-`"open"` record |
| Branches.RemoteBranchesHas | src/main.rs:65-68 | every line that parses to a non-`"open"` record gives its branch to the output |
| Branches.LocalBranchesAppend | src/main.rs:80 | the local chain handles its lines one at a time in order |
| Branches.LocalBranchesLine | src/main.rs:80 | one local line gives its branch if it parses, and nothing otherwise |
| Branches.LocalBranchesSelect | src/main.rs:80 | within any surrounding lines, a local line adds its branch in its own place if it parses; a malformed line adds nothing |
| Matcher.GroupedBy | src/main.rs:84-94 | the keys of the index are exactly the keys of the items |
| Matcher.GroupedByLastWins | src/main.rs:89-92 | an item with no later item under the same key is the value the index keeps for that key; the later of two colliding items wins |
| Matcher.GroupedByEntries | src/main.rs:89-92 | every entry of the index is an item with that key, and no later item has that key |
| Matcher.GroupBy | src/main.rs:84-94 | the loop that inserts each item into the map ends with the last-write-wins index `GroupedBy` |
| Matcher.CommitHashOf | src/main.rs:123 | the index is keyed by the commit hash of each remote branch |
| Matcher.Diagnostic | src/main.rs:127-130 | the diagnostic is `Can't find `, then the branch name, then ` (`, the commit hash and `)` |
| Matcher.DiagnosticIdentifiesBranch | src/main.rs:127-130 | two branches whose names contain no space have the same diagnostic only if they are the same branch |
| Matcher.IndexedIffShared | src/main.rs:123-126 | a commit hash is in the index exactly when some remote branch has that hash |
| Matcher.Report | src/main.rs:123-133 | the loop prints, in local order, the names of the local branches whose hash is shared by a remote branch. It logs the diagnostic of every other branch when `--verbose` is given, and logs nothing otherwise |
| Matcher.ReportStep | src/main.rs:125-132 | one more local branch adds its name to the output if its hash is shared, and its diagnostic otherwise |
| Matcher.MatchedNamesSelect | src/main.rs:125-133 | within any surrounding branches, a local branch's name is printed in its own place if and only if some remote branch has its commit hash |
| Matcher.DiagnosticsSelect | src/main.rs:126-130 | within any surrounding branches, a local branch's diagnostic is logged in its own place if and only if no remote branch has its commit hash |
| Matcher.MatchedNamesHas | src/main.rs:126-131 | a local branch whose hash is shared has its name printed |
| Matcher.MatchedNamesByHashOnly | src/main.rs:123-126 | matching depends only on commit hashes: two remote lists with the same hashes give the same output and diagnostics |
| Matcher.SharedIffMerged | src/main.rs:65-68 | a hash is shared by the remote chain's output exactly when some remote line parses to a non-`"open"` record with that hash |
| Matcher.PrintedIff | src/main.rs:96-133 | across the whole tool, a name is printed exactly when some `git` line parses to a branch with that name, and some `hub` line is a non-`"open"` record on that branch's commit |
| Matcher.PrintedIfMergedAt | src/main.rs:96-133 | the name of the local line at a given position is printed when it parses and its commit is on a non-`"open"` remote record |
| Scenarios.MergedFeatureIsPrinted | src/main.rs:123-133 | local `main abc123` and `feature def456` against remote `merged 1 feature def456` and `open 2 other xyz789`: only `feature` is printed, and `main` gets the diagnostic `Can't find main (abc123)` |
| Scenarios.CollisionKeepsLater | src/main.rs:89-92 | remote `closed 1 a hash1` followed by `merged 2 b hash1`: the index keeps only `b`, and local `x hash1` is printed |
| Scenarios.NoLocalBranchesNoOutput | src/main.rs:125-133 | with no local branches, nothing is printed and nothing is logged |

## Left out

- Starting `git` and `hub` with their arguments, piping their standard output, and
  splitting it into lines with `BufReader::lines` (src/main.rs:49-64, 72-79): this is
  external process I/O. The model takes the lines as already read. So it does not
  model how `lines()` strips `"\n"` and `"\r\n"`, or the `--limit 20` cap, which
  `hub` applies itself.
- The I/O error paths: `spawn()?` failing, `stdout.unwrap()`, `line.unwrap()`
  panicking in the remote chain, and `line.ok()?` dropping an unreadable local line
  (src/main.rs:63-66, 78-80). These are failures of foreign I/O, so every line is
  taken as successfully read.
- The two worker threads, the `mpsc` channels and their `expect` calls
  (src/main.rs:97-121): this is concurrency. The model starts once both sequences
  have been received.
- `log` re-reading `std::env::args` for `--verbose` on every call, and the dimmed and
  green colouring (src/main.rs:137-142). Instead, `Matcher.Report` takes `verbose`
  as a parameter computed once.
- The progress messages the workers log (src/main.rs:101, 107, 111, 117). Their
  order relative to each other depends on thread scheduling. `Matcher.Report`'s
  standard-error output holds only the per-branch diagnostics.
- `HashMap` hashing and capacity: the index is a mathematical `map`.
- The remote items stored in the index are never read; only membership of a key
  is used (src/main.rs:126), so the model keeps the values without exposing them
  beyond the `group_by` lemmas.
