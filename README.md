# git-pr in Dafny

git-pr is a command-line tool that opens a GitHub pull request for the current
git branch. This project models the tool's core logic and proves properties of
it:

- the tag found in commit messages or titles;
- the history of recently used tags;
- the base branch and commit messages derived from the repository;
- the PR body template;
- the parsing of PR URLs;
- the rules by which `run` puts these together.

The modules follow the source files:

| module | source | form |
|---|---|---|
| `Tags` | `src/tags.rs` | The tag pattern `\[(\w+\-?)*]` as a small grammar with a leftmost-match search. `extract_from_vec` is a method with an early-exit loop. `Tags` is a class `TagHistory` whose `seq<string>` field is updated in place by `Add`. Saving and loading go through the file's text. |
| `Git` | `src/git.rs` | `get_branch_bases_and_commits` as a method with nested loops that fill the commit-to-branches map. A walk loop stops at the first shared commit. Both are proved against a specification function `Resolve`. The `BranchInfo` autocompletion is a pair of loop methods. |
| `Template` | `src/template.rs` | `make_body` as a chain of `str::replace` calls. `replace_related_prs` as a loop that builds the block, followed by a splice over the span that the regex `(?sm)^START(.*)END$` matches. The splice is stated as a leftmost-longest span. |
| `GitHub` | `src/github.rs` | `parse_pr_url` with `u32` parsing and canonical decimal rendering. `publish_pr` and `update_pr` take the `gh` subprocess as a function parameter. |
| `Pr` | `src/pr.rs` | The PR draft record and its consuming setters. |
| `App` | `src/app.rs` | `filter_related_prs`, `build_pr_from_branch` (which updates the tag history), `select_base_branch`, the update loop of `update_related_prs` and `run`. Prompt answers, file contents and `gh` results are parameters. |
| `Text` | Rust `str` and `String` | `trim`, `split`, `join`, `replace`, `starts_with`, `contains` and `Ord`. |
| `Wrappers` | — | `Option` and `Result`. |
| `Errors` | `src/error.rs` | The error enum. |

Git itself is an input:

- Each branch is given by its name, whether it has a reference name, and its
  revision walk, which is a sequence of commit ids with the tip first.
- Commit messages are a map from id to message. A message that is not UTF-8
  maps to `None`.
- A commit id missing from the map stands for a failed `find_commit`.

## Model

| member | source | states |
|---|---|---|
| Tags.BlocksMeansValidTag | src/tags.rs:10 | The grammar for the bracket contents `(\w+\-?)*` accepts exactly two kinds of string: the empty string, and strings that start with a word character, hold only word characters and hyphens, and have no two hyphens in a row. |
| Tags.RunMeansTagChars | src/tags.rs:10 | After the first word character, the grammar accepts exactly the strings of word characters and hyphens without `--`. |
| Tags.FirstMatchFrom | src/tags.rs:26 | Returns the leftmost position at or after `from` where the pattern matches, or `None` exactly when there is no match from there on. |
| Tags.MatchEnd | src/tags.rs:10 | A match starting at a given `[` has exactly one end: the first character that is not a word character or hyphen, which must be `]`. |
| Tags.RemoveBracketsOfMatch | src/tags.rs:27 | Removing `[` and `]` from a match leaves exactly its contents. |
| Tags.ExtractFromStrIsContents | src/tags.rs:25-30 | When a match exists, `extract_from_str` returns the contents between the brackets of the leftmost match. |
| Tags.ExtractFromStrSpec | src/tags.rs:25-30 | The result is `None` exactly when the pattern matches nowhere. Otherwise it is a valid tag (possibly empty) equal to the contents of the leftmost match. |
| Tags.ExtractRoundTrip | src/tags.rs:25-30 | For valid contents `t` and any suffix, `"[" + t + "]" + suffix` yields `t`. |
| Tags.ExtractTrackExample | src/tags.rs:152-156 | `"[TRACK-123]: Add feature"` yields `TRACK-123`. |
| Tags.ExtractSimpleExample | src/tags.rs:158-161 | `"[ABC]: Simple tag"` yields `ABC`. |
| Tags.NoBracketNoTag | src/tags.rs:25-30 | A text without `[` has no tag. |
| Tags.ExtractUntaggedExample | src/tags.rs:157 | `"No tag here"` yields `None`. |
| Tags.Validator | src/tags.rs:66-76 | The validator accepts an input exactly when the pattern matches somewhere in it. Otherwise it rejects the input with the fixed message. |
| Tags.ValidatorRejectsBareTag | src/tags.rs:66-76 | A bare `TRACK-123` without brackets is rejected. |
| Tags.FirstTaggedSpec | src/tags.rs:15-22 | Returns `None` exactly when no commit has a tag. Otherwise it returns the tag of the first commit that has one, paired with that commit unchanged. |
| Tags.ExtractFromVec | src/tags.rs:15-22 | The early-exit loop returns the first tagged commit and its tag, as `FirstTagged` specifies. |
| Tags.ExtractFromVecExample | src/tags.rs:165-176 | Of `["No tag here", "[TRACK-123]: Add feature", "[TRACK-456]: Another"]`, the second message and `TRACK-123` are returned. |
| Tags.Without | src/tags.rs:115 | `retain(t != tag)` removes every copy of `tag` and leaves the count of every other entry unchanged. |
| Tags.WithoutOrder | src/tags.rs:115 | The entries that `retain` keeps stay in their order. |
| Tags.WithoutAbsent | src/tags.rs:114-116 | When `tag` is absent, nothing is removed. |
| Tags.AddTagShape | src/tags.rs:113-122 | Whether or not the tag was present, `add` means: remove every copy, insert at the front, then cap. |
| Tags.CapShrinks | src/tags.rs:119-121 | Popping past the cap keeps the front entry and adds nothing. |
| Tags.AddTagFront | src/tags.rs:113-118 | After `add(tag)`, `tag` is first and occurs exactly once. No other entry occurs more often than before. |
| Tags.AddTagOrder | src/tags.rs:113-118 | The entries behind the front keep their relative order from before. |
| Tags.AddTagLength | src/tags.rs:113-121 | The new length is the old length, minus the removed copies of `tag`, plus one, minus one more when that exceeds 10. |
| Tags.AddTagKeepsInvariant | src/tags.rs:113-121 | A history of at most 10 entries stays at most 10. A history without duplicates stays without duplicates. |
| Tags.AddDistinct | src/tags.rs:113-121 | Adding distinct tags in turn to an empty history gives them newest first, cut to the first 10. |
| Tags.MaxLimit | src/tags.rs:195-207 | After at least 10 distinct adds, exactly 10 entries remain, the most recent first, in reverse order of adding. |
| Tags.ParseTags | src/tags.rs:94-98 | Loaded entries are non-empty and trimmed. |
| Tags.NonBlank | src/tags.rs:95-98 | Each line is trimmed and blank lines are dropped. The entries that remain are non-empty and trimmed. |
| Tags.SerializeIsJoin | src/tags.rs:125-132 | The text `save` writes is the tags joined by newlines, plus a final newline. |
| Tags.NonBlankOfClean | src/tags.rs:94-98 | Lines that are already trimmed and non-empty are all kept, and the empty line after the final newline is dropped. |
| Tags.ParseSerialize | src/tags.rs:125-132 | Loading what `save` wrote gives back the same history, when every tag is non-empty, trimmed and free of newlines. |
| Tags.AddAndReloadExample | src/tags.rs:179-193 | Adding `TRACK-123` twice and then `TRACK-124` gives `[TRACK-124, TRACK-123]`, and saving then reloading gives the same list. |
| Tags.WithPrefix | src/tags.rs:40-48 | The suggestions are exactly the stored tags that start with the input, in stored order. |
| Tags.WithPrefixCounts | src/tags.rs:40-48 | Each stored tag that starts with the input is suggested as many times as it is stored. No other tag is suggested. |
| Tags.TagHistory.Load | src/tags.rs:79-104 | A missing file gives an empty history. An existing file gives its parsed lines. The path is kept. |
| Tags.TagHistory.IsEmpty | src/tags.rs:141-143 | True exactly when the history has no entries. |
| Tags.TagHistory.Add | src/tags.rs:113-122 | The history becomes `AddTag` of the old history. |
| Tags.TagHistory.Save | src/tags.rs:125-132 | The writing loop produces the serialisation of the history. |
| Tags.TagHistory.AddAndSave | src/tags.rs:135-138 | `add` followed by `save`: the new history, and its serialisation as the written text. |
| Tags.TagHistory.GetSuggestions | src/tags.rs:40-48 | The loop returns exactly the tags that start with the input, in order. |
| Tags.TagHistory.GetCompletion | src/tags.rs:50-61 | Returns the first tag that starts with the input, or `None` when no tag does. The highlighted suggestion is ignored. |
| Git.Reachers | src/git.rs:73-76 | The map never records the current branch or `origin/<current>`. |
| Git.ReachersMeaning | src/git.rs:70-93 | A name reaches a commit exactly when some branch with that name has a reference name, is not excluded, and visits the commit in its walk. |
| Git.AddWalk | src/git.rs:82-91 | The `entry().and_modify().or_insert_with()` loop adds `name` to the set of every id in the walk and leaves every other id's set unchanged. |
| Git.ReachersSnoc | src/git.rs:70-93 | Considering one more branch adds its name to exactly the ids its walk visits. |
| Git.BuildCommitBranches | src/git.rs:67-93 | The map's keys are exactly the ids some considered branch visits. Each key maps to exactly the names of the branches that visit it. |
| Git.ForkIndex | src/git.rs:107-121 | The fork is the first position in the current walk whose commit some considered branch reaches. No earlier commit is reached. |
| Git.FirstMissing | src/git.rs:122 | Finds the first commit whose lookup fails, or says that every lookup succeeds. |
| Git.LeastLocalUnique | src/git.rs:111-113 | The least name not starting with `origin/` is unique, so the base does not depend on the `HashSet` iteration order. |
| Git.PickBase | src/git.rs:110-120 | Sort, filter out `origin/`, take one: at most one base, which is the least local name. There is exactly one base if and only if some name is local. |
| Git.WalkToFork | src/git.rs:104-129 | The walk loop collects the trimmed UTF-8 messages before the fork, in walk order, and stops at the fork with the chosen base. It fails on the first commit it cannot look up. |
| Git.GetBranchBasesAndCommits | src/git.rs:57-130 | The whole resolver equals the specification `Resolve`. |
| Git.ProtectedBranchRejected | src/git.rs:63-65 | On a protected branch the result is `CannotBeInMainBranch(name)`, whatever the branches and walks are. |
| Git.IsMainExactly | src/git.rs:133-136 | `is_main` holds exactly for `master`, `main`, `development`, `stage` and `production`. |
| Git.ResolvedBase | src/git.rs:110-120 | `bases` has at most one element. When it has one, the walk stopped at the fork, and the base is the least local name among the branches reaching the fork. Conversely, when the walk stops at a fork reached by some local branch, there is exactly one base. |
| Git.LeastLocalExists | src/git.rs:110-120 | Any set of names holding a local name has a least local name, so the sort-filter-take step always finds one. |
| Git.OnlyRemoteReachers | src/git.rs:113-119 | When only `origin/*` names reach the fork, `bases` is empty. |
| Git.NothingShared | src/git.rs:104-129 | When no commit of the walk is shared, `bases` is empty and `commits` holds the messages of the whole walk. |
| Git.ContainingIgnoreCase | src/git.rs:29-37 | The suggestions are exactly the commits whose lowercased text contains the lowercased input. |
| Git.ContainingIgnoreCaseCounts | src/git.rs:29-37 | Each matching commit message is suggested as many times as it occurs in the history. No other message is suggested. |
| Git.ContainingIgnoreCaseOrder | src/git.rs:29-37 | The suggestions keep the order of the commit history. |
| Git.CommitSuggestions | src/git.rs:29-37 | The loop over the commits in reverse returns the case-insensitive matches in reverse order. |
| Git.CommitCompletion | src/git.rs:39-53 | Returns the highlighted suggestion when there is one. Otherwise it returns the first commit that contains the input (case-sensitive), or `None` exactly when no commit does. |
| GitHub.Decimal | src/github.rs:242 | `to_string` of a number gives non-empty digits without a leading zero whose value is the number. |
| GitHub.AccumulateSpec | src/github.rs:240 | Digit accumulation succeeds exactly on all-digit text whose value fits in `u32`, and yields that value. |
| GitHub.ParseU32Spec | src/github.rs:240 | `u32::from_str` accepts an optional `+` followed by a non-empty run of digits whose value fits in `u32`, and yields that value. It rejects everything else. |
| GitHub.ParseDecimal | src/github.rs:240-242 | Parsing a rendered number gives the number back. |
| GitHub.ParsePathSegments | src/github.rs:233-244 | For `owner/repo/pull/num` plus any `/…` tail, the result depends only on whether `num` parses. A number `n` yields `(n, "/owner/repo/pull/" + n)` in canonical decimal. |
| GitHub.SchemeIrrelevant | src/github.rs:228-230 | The `https` and `http` prefixes give identical results. |
| GitHub.UnderHttps | src/github.rs:225-230 | Under `https://github.com/`, only the path matters, with trailing whitespace dropped. |
| GitHub.UnderHttp | src/github.rs:225-230 | The same holds under `http://github.com/`. |
| GitHub.OtherHostRejected | src/github.rs:228-230 | Any other prefix gives `None`. |
| GitHub.SurroundingWhitespaceIgnored | src/github.rs:225 | Whitespace around the URL does not change the result. |
| GitHub.ParsedShape | src/github.rs:238-244 | A parsed path is always `"/" + owner + "/" + repo + "/pull/" + n`, where `owner` and `repo` contain no `/`. |
| GitHub.ParseRoundTrip | src/github.rs:223-245 | If `u` parses to `(n, p)`, then `"https://github.com" + p` parses to `(n, p)` as well. |
| GitHub.ParseUrlSegments | src/github.rs:223-245 | A full URL `host/owner/repo/pull/num[/...]` parses as its number does: trailing segments are ignored, and a non-number such as `abc` or an overflowing value gives `None`. |
| GitHub.NotPullRejected | src/github.rs:233-236 | When the third segment is not `pull`, the result is `None`. |
| GitHub.ShortPathRejected | src/github.rs:233-236 | Fewer than four segments give `None`. |
| GitHub.GhResult | src/github.rs:337-346 | A `gh` call succeeds exactly when the process ran and exited successfully. The text it returns then has no whitespace at either end. |
| GitHub.PublishOutcome | src/github.rs:312-346 | Outside a dry run, `publish_pr` succeeds exactly when `gh` exits successfully on the `pr create` arguments. No other answer of `gh` can change its result. |
| GitHub.UpdateOutcome | src/github.rs:362-399 | Outside a dry run and for a resource path with at least four parts, `update_pr` succeeds exactly when `gh` exits successfully on the `pr edit` arguments for `owner/repo`. No other answer of `gh` can change its result. |
| GitHub.DryRunSkipsGh | src/github.rs:314-378 | With `dry_run`, `publish_pr` and `update_pr` do not depend on `gh`. They return their fixed dry-run messages, and `update_pr` still rejects a bad resource path first. |
| GitHub.ParsedPathTarget | src/github.rs:363-369 | For a path that `parse_pr_url` produced, `update_pr` targets `owner/repo`. |
| Template.FillOnce | src/template.rs:43-44 | With each placeholder occurring once, the description and then the implementation are put in their places and the rest of the text is unchanged. |
| Template.MakeBodyWithJira | src/template.rs:29-46 | With a Jira ticket and a non-empty Jira URL, the issue placeholder becomes `[t](url + t)` and the two fields are filled. |
| Template.MakeBodyWithoutJira | src/template.rs:37-44 | Otherwise the tracking line is removed and the two fields are filled. |
| Template.TicketUnusedWithoutLink | src/template.rs:37-41 | Without a link, the body does not depend on the ticket. |
| Template.TrimStartMatches | src/template.rs:74 | `trim_start_matches('/')` leaves no leading `/`. |
| Template.TrimStartMatchesIsSuffix | src/template.rs:74 | It removes exactly a leading run of `/`. |
| Template.PrLines | src/template.rs:72-81 | There is one line per PR, in input order, and each is that PR's line. |
| Template.RelatedBlockShape | src/template.rs:70-83 | The generated block starts with the start marker, ends with the end marker, and is joined by newlines. |
| Template.ThisPrLineExample | src/template.rs:190-192 | The line for PR 1 when the current PR is 1 is `- owner/repo/pull/1 - (this pr)`. |
| Template.OtherPrLineExample | src/template.rs:193 | The line for PR 2 when the current PR is 1 is `- owner/repo/pull/2`. |
| Template.LastClose | src/template.rs:88 | Finds the last end marker that ends a line within the bound, or proves that there is none. |
| Template.FindSpan | src/template.rs:86-92 | Finds the leftmost span that opens at a line start, and its longest closing. |
| Template.FindSpanSpec | src/template.rs:86-92 | The search finds no span exactly when none exists. Otherwise it finds the leftmost-longest span, as `regex` does. |
| Template.LeftmostLongestUnique | src/template.rs:88 | The leftmost-longest span is unique. |
| Template.SplicedFound | src/template.rs:92 | After the splice, the search finds the new block at the same position. |
| Template.SpanOfReplaced | src/template.rs:92 | The text before and after the replaced span is unchanged. The block sits at the span's start, and it is what the search finds next time. |
| Template.ReplaceSpanIdempotent | src/template.rs:86-92 | Replacing twice with the same block equals replacing once. |
| Template.ReplaceSpanWithoutMatch | src/template.rs:92 | With no span, the body is returned unchanged. |
| Template.RelatedPrsBodyIdempotent | src/template.rs:62-93 | `replace_related_prs` applied to its own output, with the same list and number, gives the same text. |
| Template.ReplaceRelatedPrs | src/template.rs:62-93 | The line-building loop and the splice compute `RelatedPrsBody`. |
| App.FilterRelatedPrs | src/app.rs:179-200 | A PR is kept exactly when its title contains the tag and the tag extracted from the title is that tag. The result is an order-preserving subsequence of the input. |
| App.BracketedTitleKept | src/app.rs:182-187 | A title starting with `[t]` is kept exactly when `t` is the tag. |
| App.UntaggedTitleDropped | src/app.rs:188-196 | A title with no extractable tag is dropped. |
| App.TagPrefixExample | src/app.rs:182-187 | With tag `TRACK-1`, `[TRACK-12]: x` is dropped although it contains the tag, and `[TRACK-1]: y` is kept. |
| App.ExtractedTagOccurs | src/app.rs:182-187 | An extracted tag always occurs in its title. |
| App.BuildPrFromBranch | src/app.rs:43-70 | The tag history gets the pushed tag at its front, the written text is its serialisation, and the result is `Built`. |
| App.BuiltDraft | src/app.rs:43-70 | A found tag gives the commit message as the title and `is_jira` true. No found tag gives `"[tag]: title"` and `is_jira` false. In both cases the pushed tag is the draft's tag and the other fields are empty. |
| App.PromptedTitleCarriesTag | src/app.rs:63 | For a bare valid tag, the composed title `"[tag]: title"` yields the tag again and contains it. |
| App.BuiltTitleCarriesTag | src/app.rs:43-70 | A draft built from a tagged commit, or from a bare valid tag typed at the prompt, has a title that contains its tag and yields that tag. So the PR is found again as its own related PR. |
| App.BracketedPromptedTagDropped | src/app.rs:57-63 | With an empty history the prompt wants a bracketed answer such as `[t]`, and the validator accepts it. The title `[[t]]: ...` then yields `t`, so `filter_related_prs` drops the PR under its own tag `[t]`. |
| App.SelectBaseBranch | src/app.rs:73-81 | A base comes from the candidates. The `NoBaseBranch` error comes exactly from an empty list or from a failed prompt that reports it. |
| App.SelectBaseBranchAgrees | src/app.rs:73-81 | On a non-empty list, the corrected selection equals the source's. |
| App.BaseSelectionPanics | src/app.rs:77 | A branch `feature` whose one commit is shared with no other branch resolves to no bases and one message. The source then panics on `bases[0]`, where the corrected selection returns `NoBaseBranch`. |
| App.ResolvedBaseNeedsNoPrompt | src/app.rs:76-79 | A single resolved base is returned without prompting. |
| App.UpdateAttempts | src/app.rs:142-173 | Each related PR is attempted exactly once, in order, whether or not earlier updates failed. |
| App.DollarFreeBlock | src/template.rs:70-83 | Markers and resource paths without `$` give a block without `$`. |
| App.UpdateRelatedPrs | src/app.rs:123-176 | A failed listing gives `GitHubCli` and no attempts. Otherwise the result is `Ok`, with one attempt per related PR. |
| App.AttemptedBodiesStable | src/app.rs:142-148 | Each attempted body carries that PR's own number and is already up to date. |
| App.Run | src/app.rs:13-40 | Git errors propagate. Empty commits give `NoCommits` before the tag history is loaded. Nothing is published with `update_only`. A published PR is the built draft on the selected base, with the answered description, implementation and reviewers, and `gh pr create` succeeded on it. A success means the draft was built and every related PR was attempted. |
| Pr.New | src/pr.rs:22-24 | Every string is empty, `is_jira` is false and there are no reviewers. |
| Pr.WithTitle | src/pr.rs:27-30 | Sets `title` and changes no other field. |
| Pr.WithTag | src/pr.rs:33-36 | Sets `tag` and changes no other field. |
| Pr.WithJira | src/pr.rs:39-42 | Sets `is_jira` and changes no other field. |
| Pr.WithDescription | src/pr.rs:45-48 | Sets `description` and changes no other field. |
| Pr.WithImplementation | src/pr.rs:51-54 | Sets `implementation` and changes no other field. |
| Pr.WithReviewers | src/pr.rs:57-60 | Sets `reviewers` and changes no other field. |
| Pr.WithBase | src/pr.rs:63-66 | Sets `base` and changes no other field. |
| Pr.LastWriteWins | src/pr.rs:27-66 | Setting the same field twice keeps the last value. |
| Pr.SettersCommute | src/pr.rs:27-66 | Every pair of distinct setters commutes, since each builder method changes only its own field. |
| Pr.BuiltFromNew | src/pr.rs:20-66 | Applying every setter to `new()` gives exactly the record of the given values. |

## Left out

- git2 access (opening the repository, `head`, `branches`, revwalk) is not modelled. Each branch's walk, its reference name and the commit messages are inputs, and libgit2's traversal order is not re-derived.
- `Error::Git`, `Error::Io` and the other error payloads carry a string (a branch name, a commit id or a message) instead of the library's error value.
- Rust's `\w` and `to_lowercase` are restricted to ASCII. `trim` follows Rust's full `White_Space` set.
- Template.ReplaceRelatedPrs: requires the generated block to contain no `$`, because `Regex::replace` expands `$name` in its replacement and that expansion is not modelled. App.UpdateRelatedPrs and App.Run carry the same requirement on the markers and resource paths.
- File I/O in `Tags::from_file` and `Tags::save` is not modelled. The file's contents, or whether it exists, and the error of a failed write are parameters.
- Terminal prompts (`src/ui.rs`) are not modelled. Their answers, including cancellation, are parameters.
- The `gh` subprocess is a function parameter. `get_pr_by_number`, `get_available_reviewers`, `get_authenticated_user` and the JSON response types are not modelled. The result of `get_user_prs` is a parameter.
- All printed and coloured output is left out.
- Configuration loading, `src/config.rs`, `src/cli.rs`, `src/lib.rs`, `src/jira.rs`, `src/main.rs` and `src/tags/tags.rs` are not part of this model. `Config` is a record of the template body, the Jira URL and the placeholder strings.
- Git.PickBase: the sort of the name set is modelled as a choice of the least local name from a set visited in an arbitrary order. It yields the same single base.
- Tags.TagHistory.Iter: returns the stored list and has no contract.
- The literal URL unit tests of `parse_pr_url` are covered by the general lemmas on `https`/`http`, surrounding whitespace, segment count, `pull`, number parsing and trailing segments, not by one lemma per URL.
- App.BuiltTitleCarriesTag: covers a tag from a tagged commit or a bare valid tag typed at the prompt. It does not cover a bracketed answer `[t]`, which is what the empty-history prompt's validator asks for. Such a title yields `t`, not `[t]`, so the PR is not found again under its own tag (App.BracketedPromptedTagDropped). It also does not cover an arbitrary answer typed when the history is non-empty, which is not validated at all.
- App.Run: uses the corrected base selection `App.SelectBaseBranch` rather than the panicking original; the two agree whenever there is a candidate.

## Findings

| source | as written | input that shows it | evidently intended | confidence | as-written member | corrected member |
|---|---|---|---|---|---|---|
| src/app.rs:73-81 | With zero or one candidate base, `select_base_branch` reads `bases[0]`, which panics on an empty list. | A branch `feature` whose one commit `c1` is shared with no other branch: `get_branch_bases_and_commits` returns `bases == []` and `commits == ["fix"]`, and `run` then reaches `bases[0]`. | Report a missing base as an error (`NoBaseBranch`, added to the error enum) instead of panicking. | not executed | App.SelectBaseBranchAsWritten, App.BaseSelectionPanics | App.SelectBaseBranch |
