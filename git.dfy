/**
  The branch-lineage resolver (src/git.rs): which branch the current one was
  forked from, and the messages of the commits made since.

  libgit2 is not modelled. A repository is given as data: whether it opened,
  whether it is in a clean state, the result of `head()`, every branch with
  the commit ids its revision walk visits (tip first), the walk of the
  current branch as a local branch, and the message of every commit.
 */
module Git {
  import opened Wrappers
  import opened Text
  import opened Errors

  type CommitId = string

  /** A branch as `repo.branches(None)` yields it: its shorthand name (empty
      when it has none), whether it has a full reference name, and the ids
      its revision walk visits. */
  datatype Branch = Branch(name: string, hasRefName: bool, walk: seq<CommitId>)

  /** `BranchInfo`: candidate base branches and the messages of the commits on the current branch. */
  datatype BranchInfo = BranchInfo(bases: seq<string>, commits: seq<string>)

  datatype Repository = Repository(
    isOpen: bool,                               // `Repository::open(".")` succeeded
    clean: bool,                                // `state() == RepositoryState::Clean`
    head: Option<Option<string>>,               // `head()`, then its `shorthand()`
    branches: seq<Branch>,
    currentWalk: Option<seq<CommitId>>,         // `None` when `find_branch` fails
    messages: map<CommitId, Option<string>>)    // `None` when the message is not UTF-8

  const ProtectedBranches: seq<string> := ["master", "main", "development", "stage", "production"]

  /** `is_main`. */
  predicate IsMain(name: string) {
    name in ProtectedBranches
  }

  /** The name the current branch goes by; `HEAD` when `head()` has no shorthand. */
  function CurrentName(shorthand: Option<string>): string {
    if shorthand.Some? then shorthand.value else "HEAD"
  }

  /** The branches skipped while building the reachability map. */
  predicate Excluded(name: string, current: string) {
    name == current || name == "origin/" + current
  }

  /** A branch whose walk goes into the reachability map. */
  predicate Considered(b: Branch, current: string) {
    !Excluded(b.name, current) && b.hasRefName
  }

  predicate IsRemote(name: string) {
    StartsWith(name, "origin/")
  }

  // ---------------------------------------------------------------------
  // The reachability map
  // ---------------------------------------------------------------------

  /** The names of the considered branches among `bs` whose walk visits `id`. */
  function Reachers(bs: seq<Branch>, current: string, id: CommitId): (names: set<string>)
    ensures forall n :: n in names ==> !Excluded(n, current)
    decreases |bs|
  {
    if bs == [] then {}
    else
      var b := bs[|bs| - 1];
      Reachers(bs[..|bs| - 1], current, id) + (if Considered(b, current) && id in b.walk then {b.name} else {})
  }

  /** A name is recorded for `id` exactly when some considered branch of that name visits `id`. */
  lemma {:induction false} ReachersMeaning(bs: seq<Branch>, current: string, id: CommitId, n: string)
    ensures n in Reachers(bs, current, id) <==> exists b :: b in bs && Considered(b, current) && id in b.walk && b.name == n
    decreases |bs|
  {
    if bs != [] {
      var init := bs[..|bs| - 1];
      var b := bs[|bs| - 1];
      ReachersMeaning(init, current, id, n);
      assert bs == init + [b];
      if exists c :: c in bs && Considered(c, current) && id in c.walk && c.name == n {
        var c :| c in bs && Considered(c, current) && id in c.walk && c.name == n;
        if c != b {
          assert c in init;
        }
      }
    }
  }

  /** The entry of `id` in a map of names, `{}` when absent. */
  function NamesOf(m: map<CommitId, set<string>>, id: CommitId): set<string> {
    if id in m then m[id] else {}
  }

  /** The inner loop: record `name` for every id of `walk`. */
  method AddWalk(m0: map<CommitId, set<string>>, name: string, walk: seq<CommitId>)
    returns (m: map<CommitId, set<string>>)
    requires forall id :: id in m0 ==> m0[id] != {}
    ensures forall id :: id in m <==> id in m0 || id in walk
    ensures forall id :: NamesOf(m, id) == NamesOf(m0, id) + (if id in walk then {name} else {})
  {
    m := m0;
    for j := 0 to |walk|
      invariant forall id :: id in m <==> id in m0 || id in walk[..j]
      invariant forall id :: NamesOf(m, id) == NamesOf(m0, id) + (if id in walk[..j] then {name} else {})
    {
      var id := walk[j];
      assert walk[..j + 1] == walk[..j] + [id];
      if id in m {
        m := m[id := m[id] + {name}];
      } else {
        m := m[id := {name}];
      }
    }
    assert walk[..|walk|] == walk;
  }

  /** Reachers of a list extended by one branch. */
  lemma ReachersSnoc(bs: seq<Branch>, i: nat, current: string, id: CommitId)
    requires i < |bs|
    ensures Reachers(bs[..i + 1], current, id)
         == Reachers(bs[..i], current, id) + (if Considered(bs[i], current) && id in bs[i].walk then {bs[i].name} else {})
  {
    assert bs[..i + 1][..i] == bs[..i];
  }

  /** The map built in `get_branch_bases_and_commits`: for every commit that a
      considered branch visits, the set of names of those branches. */
  method BuildCommitBranches(branches: seq<Branch>, current: string) returns (m: map<CommitId, set<string>>)
    ensures forall id :: id in m <==> Reachers(branches, current, id) != {}
    ensures forall id :: id in m ==> m[id] == Reachers(branches, current, id)
  {
    m := map[];
    for i := 0 to |branches|
      invariant forall id :: NamesOf(m, id) == Reachers(branches[..i], current, id)
      invariant forall id :: id in m ==> m[id] != {}
    {
      var b := branches[i];
      forall id ensures Reachers(branches[..i + 1], current, id)
                        == Reachers(branches[..i], current, id) + (if Considered(b, current) && id in b.walk then {b.name} else {}) {
        ReachersSnoc(branches, i, current, id);
      }
      if Excluded(b.name, current) || !b.hasRefName {
        continue;
      }
      m := AddWalk(m, b.name, b.walk);
    }
    assert branches[..|branches|] == branches;
  }

  // ---------------------------------------------------------------------
  // The walk along the current branch
  // ---------------------------------------------------------------------

  /** The position of the first commit on `walk` that a considered branch visits, or `|walk|`. */
  function ForkIndex(walk: seq<CommitId>, bs: seq<Branch>, current: string): (f: nat)
    ensures f <= |walk|
    ensures forall k :: 0 <= k < f ==> Reachers(bs, current, walk[k]) == {}
    ensures f < |walk| ==> Reachers(bs, current, walk[f]) != {}
  {
    if walk == [] then 0
    else if Reachers(bs, current, walk[0]) != {} then 0
    else 1 + ForkIndex(walk[1..], bs, current)
  }

  /** The position of the first id that has no commit, if any. */
  function FirstMissing(ids: seq<CommitId>, messages: map<CommitId, Option<string>>): (r: Option<nat>)
    ensures r.None? ==> forall k :: 0 <= k < |ids| ==> ids[k] in messages
    ensures r.Some? ==> r.value < |ids| && ids[r.value] !in messages
                        && forall k :: 0 <= k < r.value ==> ids[k] in messages
  {
    if ids == [] then None
    else if ids[0] !in messages then Some(0)
    else match FirstMissing(ids[1..], messages)
      case None => None
      case Some(k) => Some(k + 1)
  }

  /** The trimmed messages of `ids`, in order, skipping those that are not UTF-8. */
  function Messages(ids: seq<CommitId>, messages: map<CommitId, Option<string>>): seq<string>
    requires forall k :: 0 <= k < |ids| ==> ids[k] in messages
  {
    if ids == [] then []
    else
      var last := messages[ids[|ids| - 1]];
      Messages(ids[..|ids| - 1], messages) + (if last.Some? then [Trim(last.value)] else [])
  }

  /** `b` is the least name in `names` that does not start with `origin/`. */
  ghost predicate IsLeastLocal(names: set<string>, b: string) {
    b in names && !IsRemote(b) && forall n :: n in names && !IsRemote(n) ==> LexLe(b, n)
  }

  /** The least local name is unique, so the choice of base does not depend
      on the order in which the set is visited. */
  lemma LeastLocalUnique(names: set<string>, a: string, b: string)
    requires IsLeastLocal(names, a) && IsLeastLocal(names, b)
    ensures a == b
  {
    LexLeAntisymmetric(a, b);
  }

  /** A finite set holding a local name has a least local name. */
  lemma {:induction false} LeastLocalExists(names: set<string>, n: string)
    requires n in names && !IsRemote(n)
    ensures exists b :: IsLeastLocal(names, b)
    decreases |names|
  {
    var rest := names - {n};
    if m :| m in rest && !IsRemote(m) {
      LeastLocalExists(rest, m);
      var b :| IsLeastLocal(rest, b);
      LexLeTotal(n, b);
      if LexLe(n, b) {
        LexLeTotal(n, n);
        forall x | x in names && !IsRemote(x) ensures LexLe(n, x) {
          if x != n { LexLeTransitive(n, b, x); }
        }
        assert IsLeastLocal(names, n);
      } else {
        assert IsLeastLocal(names, b);
      }
    } else {
      LexLeTotal(n, n);
      assert IsLeastLocal(names, n);
    }
  }

  /** Sort the names, drop those starting with `origin/`, keep at most the first. */
  ghost function Base(names: set<string>): seq<string> {
    if exists b :: IsLeastLocal(names, b) then
      var b :| IsLeastLocal(names, b); [b]
    else []
  }

  /** `branches.sort()` followed by `filter(!starts_with("origin/")).take(1)`:
      the set is visited in an arbitrary order, keeping the least local name. */
  method PickBase(names: set<string>) returns (bases: seq<string>)
    ensures bases == Base(names)
    ensures |bases| <= 1
    ensures |bases| == 1 <==> exists n :: n in names && !IsRemote(n)
  {
    var best: Option<string> := None;
    var rest := names;
    while rest != {}
      invariant rest <= names
      invariant best.None? ==> forall n :: n in names - rest ==> IsRemote(n)
      invariant best.Some? ==> IsLeastLocal(names - rest, best.value)
      decreases |rest|
    {
      var n :| n in rest;
      if !IsRemote(n) {
        if best.None? {
          best := Some(n);
        } else if !LexLe(best.value, n) {
          LexLeTotal(best.value, n);
          forall x | x in names - rest && !IsRemote(x) ensures LexLe(n, x) {
            LexLeTransitive(n, best.value, x);
          }
          best := Some(n);
        }
      }
      if best.Some? && best.value != n && !IsRemote(n) {
        assert LexLe(best.value, n);
      }
      if best == Some(n) {
        LexLeTotal(n, n);
      }
      rest := rest - {n};
    }
    assert names - rest == names;
    if best.Some? {
      bases := [best.value];
      assert |Base(names)| == 1 && IsLeastLocal(names, Base(names)[0]);
      LeastLocalUnique(names, Base(names)[0], best.value);
    } else {
      bases := [];
    }
  }

  /** The outcome of walking the current branch back to its first shared
      commit: the messages of the commits before it (an error when one of
      them cannot be found), and the base among the branches reaching it. */
  ghost function Walked(walk: seq<CommitId>, bs: seq<Branch>, current: string,
                        messages: map<CommitId, Option<string>>): Result<BranchInfo, Error>
  {
    var f := ForkIndex(walk, bs, current);
    match FirstMissing(walk[..f], messages)
    case Some(k) => Err(Git(walk[k]))
    case None =>
      var bases := if f < |walk| then Base(Reachers(bs, current, walk[f])) else [];
      Ok(BranchInfo(bases, Messages(walk[..f], messages)))
  }

  /** What `get_branch_bases_and_commits` returns for a repository. */
  ghost function Resolve(repo: Repository): Result<BranchInfo, Error> {
    if !repo.isOpen then Err(NotInGitRepo)
    else if !repo.clean then Err(BranchNotClean)
    else if repo.head.None? then Err(BranchNotClean)
    else
      var current := CurrentName(repo.head.value);
      if IsMain(current) then Err(CannotBeInMainBranch(current))
      else if repo.currentWalk.None? then Err(Git(current))
      else Walked(repo.currentWalk.value, repo.branches, current, repo.messages)
  }

  /** The revision walk of `get_branch_bases_and_commits`: collect messages
      until a commit in the reachability map is met, then pick the base
      among the branches that reach it. */
  method WalkToFork(walk: seq<CommitId>, commitBranches: map<CommitId, set<string>>,
                    messages: map<CommitId, Option<string>>, ghost bs: seq<Branch>, ghost current: string)
    returns (r: Result<BranchInfo, Error>)
    requires forall id :: id in commitBranches <==> Reachers(bs, current, id) != {}
    requires forall id :: id in commitBranches ==> commitBranches[id] == Reachers(bs, current, id)
    ensures r == Walked(walk, bs, current, messages)
  {
    ghost var f := ForkIndex(walk, bs, current);
    var commits: seq<string> := [];
    var i := 0;
    while i < |walk|
      invariant i <= f
      invariant forall k :: 0 <= k < i ==> walk[k] in messages
      invariant commits == Messages(walk[..i], messages)
    {
      var oid := walk[i];
      if oid in commitBranches {
        assert i == f;
        var bases := PickBase(commitBranches[oid]);
        return Ok(BranchInfo(bases, commits));
      }
      if oid !in messages {
        assert FirstMissing(walk[..f], messages) == Some(i) by {
          assert walk[..f][i] == oid;
        }
        return Err(Git(oid));
      }
      assert walk[..i + 1][..i] == walk[..i];
      var message := messages[oid];
      if message.Some? {
        commits := commits + [Trim(message.value)];
      }
      i := i + 1;
    }
    r := Ok(BranchInfo([], commits));
  }

  /** `get_branch_bases_and_commits`. */
  method GetBranchBasesAndCommits(repo: Repository) returns (r: Result<BranchInfo, Error>)
    ensures r == Resolve(repo)
  {
    if !repo.isOpen {
      return Err(NotInGitRepo);
    }
    if !repo.clean {
      return Err(BranchNotClean);
    }
    if repo.head.None? {
      return Err(BranchNotClean);
    }
    var current := CurrentName(repo.head.value);
    if IsMain(current) {
      return Err(CannotBeInMainBranch(current));
    }
    var commitBranches := BuildCommitBranches(repo.branches, current);
    if repo.currentWalk.None? {
      return Err(Git(current));
    }
    r := WalkToFork(repo.currentWalk.value, commitBranches, repo.messages, repo.branches, current);
  }

  // ---------------------------------------------------------------------
  // Properties of the resolver
  // ---------------------------------------------------------------------

  /** On a protected branch the result is `CannotBeInMainBranch`, whatever the branches hold. */
  lemma ProtectedBranchRejected(repo: Repository)
    requires repo.isOpen && repo.clean && repo.head.Some?
    requires IsMain(CurrentName(repo.head.value))
    ensures Resolve(repo) == Err(CannotBeInMainBranch(CurrentName(repo.head.value)))
  {
  }

  /** `is_main` holds exactly for the five protected names. */
  lemma IsMainExactly(name: string)
    ensures IsMain(name) <==> name == "master" || name == "main" || name == "development"
                              || name == "stage" || name == "production"
  {
  }

  /** A successful result holds at most one base; when it holds one, that is
      the least local name among the branches reaching the first shared
      commit, and the commits stop just before it. */
  lemma ResolvedBase(repo: Repository)
    requires Resolve(repo).Ok?
    ensures var info := Resolve(repo).value;
      var current := CurrentName(repo.head.value);
      var walk := repo.currentWalk.value;
      var f := ForkIndex(walk, repo.branches, current);
      && |info.bases| <= 1
      && (|info.bases| == 1 ==> f < |walk| && IsLeastLocal(Reachers(repo.branches, current, walk[f]), info.bases[0]))
      && (f < |walk| && (exists n :: n in Reachers(repo.branches, current, walk[f]) && !IsRemote(n)) ==> |info.bases| == 1)
  {
    var current := CurrentName(repo.head.value);
    var walk := repo.currentWalk.value;
    var f := ForkIndex(walk, repo.branches, current);
    if f < |walk| {
      var names := Reachers(repo.branches, current, walk[f]);
      if n :| n in names && !IsRemote(n) {
        LeastLocalExists(names, n);
      }
      if exists b :: IsLeastLocal(names, b) {
        var b :| IsLeastLocal(names, b);
        var c := Base(names)[0];
        LeastLocalUnique(names, b, c);
      }
    }
  }

  /** When the first shared commit is reached only by `origin/` branches, no base is found. */
  lemma OnlyRemoteReachers(repo: Repository)
    requires Resolve(repo).Ok?
    requires var current := CurrentName(repo.head.value);
      var walk := repo.currentWalk.value;
      var f := ForkIndex(walk, repo.branches, current);
      f < |walk| && forall n :: n in Reachers(repo.branches, current, walk[f]) ==> IsRemote(n)
    ensures Resolve(repo).value.bases == []
  {
  }

  /** When no commit of the walk is shared, there is no base and every commit's message is collected. */
  lemma NothingShared(repo: Repository)
    requires Resolve(repo).Ok?
    requires forall k :: 0 <= k < |repo.currentWalk.value| ==>
               Reachers(repo.branches, CurrentName(repo.head.value), repo.currentWalk.value[k]) == {}
    ensures Resolve(repo).value == BranchInfo([], Messages(repo.currentWalk.value, repo.messages))
  {
    var walk := repo.currentWalk.value;
    var f := ForkIndex(walk, repo.branches, CurrentName(repo.head.value));
    assert f == |walk|;
    assert walk[..f] == walk;
  }

  // ---------------------------------------------------------------------
  // Autocompletion over the branch's commits
  // ---------------------------------------------------------------------

  predicate ContainsIgnoreCase(c: string, input: string) {
    Contains(AsciiLower(c), AsciiLower(input))
  }

  /** The commits whose lowercased text contains the lowercased input, in
      order, each as often as it occurs. */
  function ContainingIgnoreCase(cs: seq<string>, input: string): (r: seq<string>)
    ensures forall x :: x in r <==> x in cs && ContainsIgnoreCase(x, input)
  {
    if cs == [] then []
    else (if ContainsIgnoreCase(cs[0], input) then [cs[0]] else []) + ContainingIgnoreCase(cs[1..], input)
  }

  /** Each matching commit is suggested as often as it occurs. */
  lemma {:induction false} ContainingIgnoreCaseCounts(cs: seq<string>, input: string)
    ensures forall x :: multiset(ContainingIgnoreCase(cs, input))[x]
                        == if ContainsIgnoreCase(x, input) then multiset(cs)[x] else 0
    decreases |cs|
  {
    if cs != [] {
      ContainingIgnoreCaseCounts(cs[1..], input);
      assert cs == [cs[0]] + cs[1..];
    }
  }

  /** The suggestions keep the order of the commits they are drawn from. */
  lemma {:induction false} ContainingIgnoreCaseOrder(cs: seq<string>, input: string)
    ensures IsSubsequence(ContainingIgnoreCase(cs, input), cs)
    decreases |cs|
  {
    if cs != [] {
      var rest := ContainingIgnoreCase(cs[1..], input);
      ContainingIgnoreCaseOrder(cs[1..], input);
      if ContainsIgnoreCase(cs[0], input) {
        assert ([cs[0]] + rest)[1..] == rest;
      } else {
        assert [] + rest == rest;
        if rest != [] { assert rest[0] in rest; }
      }
    }
  }

  lemma {:induction false} ContainingIgnoreCaseAppend(a: seq<string>, b: seq<string>, input: string)
    ensures ContainingIgnoreCase(a + b, input) == ContainingIgnoreCase(a, input) + ContainingIgnoreCase(b, input)
    decreases |a|
  {
    if a == [] {
      assert a + b == b;
    } else {
      assert (a + b)[1..] == a[1..] + b;
      ContainingIgnoreCaseAppend(a[1..], b, input);
    }
  }

  /** The suggestions among the first `k + 1` newest commits extend those among the first `k`. */
  lemma SuggestionsStep(cs: seq<string>, k: nat, input: string)
    requires k < |cs|
    ensures var c := cs[|cs| - 1 - k];
      ContainingIgnoreCase(Reversed(cs)[..k + 1], input)
      == ContainingIgnoreCase(Reversed(cs)[..k], input)
         + (if ContainsIgnoreCase(c, input) then [c] else [])
  {
    var c := cs[|cs| - 1 - k];
    assert Reversed(cs)[..k + 1] == Reversed(cs)[..k] + [c];
    ContainingIgnoreCaseAppend(Reversed(cs)[..k], [c], input);
    assert [c][1..] == [];
  }

  /** `get_suggestions` for `BranchInfo`: newest-last commits visited from
      the end, kept when they contain the input ignoring ASCII case. */
  method CommitSuggestions(info: BranchInfo, input: string) returns (suggestions: seq<string>)
    ensures suggestions == ContainingIgnoreCase(Reversed(info.commits), input)
  {
    var cs := info.commits;
    suggestions := [];
    for k := 0 to |cs|
      invariant suggestions == ContainingIgnoreCase(Reversed(cs)[..k], input)
    {
      var commit := cs[|cs| - 1 - k];
      SuggestionsStep(cs, k, input);
      if ContainsIgnoreCase(commit, input) {
        suggestions := suggestions + [commit];
      }
    }
    assert Reversed(cs)[..|cs|] == Reversed(cs);
  }

  /** `get_completion` for `BranchInfo`: the highlighted suggestion when there
      is one, otherwise the first commit containing the input (case-sensitive). */
  method CommitCompletion(info: BranchInfo, input: string, highlighted: Option<string>) returns (completion: Option<string>)
    ensures highlighted.Some? ==> completion == highlighted
    ensures highlighted.None? ==>
      (completion.None? <==> forall k :: 0 <= k < |info.commits| ==> !Contains(info.commits[k], input))
    ensures highlighted.None? && completion.Some? ==>
      exists k :: 0 <= k < |info.commits| && completion.value == info.commits[k] && Contains(info.commits[k], input)
                  && forall j :: 0 <= j < k ==> !Contains(info.commits[j], input)
  {
    if highlighted.Some? {
      return highlighted;
    }
    for k := 0 to |info.commits|
      invariant forall j :: 0 <= j < k ==> !Contains(info.commits[j], input)
    {
      if Contains(info.commits[k], input) {
        return Some(info.commits[k]);
      }
    }
    return None;
  }
}
