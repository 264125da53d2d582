/**
  The rules of the application flow (src/app.rs): which PRs count as related,
  how the draft is built from the branch, how the base branch is chosen, how
  related PRs are updated, and the order of the steps of `run`. Prompt
  answers, file contents and the outcomes of `gh` are inputs.
 */
module App {
  import opened Wrappers
  import opened Text
  import opened Errors
  import Tags
  import Git
  import GitHub
  import Pr
  import Template

  // ---------------------------------------------------------------------
  // `filter_related_prs`
  // ---------------------------------------------------------------------

  /** The closure passed to `filter`: the title must contain the tag, and
      the tag extracted from the title must be that tag. */
  predicate Keep(pr: GitHub.PullRequest, tag: string) {
    if !Contains(pr.title, tag) then false
    else match Tags.ExtractFromStr(pr.title)
      case Some(extracted) => extracted == tag
      case None => false
  }

  function FilterRelatedPrs(prs: seq<GitHub.PullRequest>, tag: string): (r: seq<GitHub.PullRequest>)
    ensures forall pr :: pr in r <==>
              pr in prs && Contains(pr.title, tag) && Tags.ExtractFromStr(pr.title) == Some(tag)
    ensures IsSubsequence(r, prs)
  {
    if prs == [] then []
    else
      var rest := FilterRelatedPrs(prs[1..], tag);
      assert prs == [prs[0]] + prs[1..];
      if Keep(prs[0], tag) then
        assert ([prs[0]] + rest)[1..] == rest;
        [prs[0]] + rest
      else
        assert rest != [] ==> rest[0] != prs[0] by {
          if rest != [] { assert rest[0] in rest; }
        }
        rest
  }

  /** A title that starts with a bracketed tag `t` is kept exactly when `t`
      is the tag searched for; containing the tag as a substring is not
      enough. */
  lemma BracketedTitleKept(pr: GitHub.PullRequest, t: string, rest: string, tag: string)
    requires Tags.ValidTag(t) && pr.title == "[" + t + "]" + rest
    ensures FilterRelatedPrs([pr], tag) == (if t == tag then [pr] else [])
  {
    Tags.ExtractRoundTrip(t, rest);
    if t == tag {
      assert pr.title[1..1 + |t|] == t;
      assert OccursAt(pr.title, tag, 1);
    }
  }

  /** A title without any bracketed tag is dropped, whatever it contains. */
  lemma UntaggedTitleDropped(pr: GitHub.PullRequest, tag: string)
    requires !Tags.HasMatch(pr.title)
    ensures FilterRelatedPrs([pr], tag) == []
  {
    Tags.ExtractFromStrSpec(pr.title);
  }

  /** With tag `TRACK-1`, `[TRACK-12]: x` is dropped and `[TRACK-1]: y` kept. */
  lemma TagPrefixExample(p1: GitHub.PullRequest, p2: GitHub.PullRequest)
    requires p1.title == "[TRACK-12]: x" && p2.title == "[TRACK-1]: y"
    ensures FilterRelatedPrs([p1, p2], "TRACK-1") == [p2]
  {
    assert Tags.ValidTag("TRACK-12") && Tags.ValidTag("TRACK-1");
    assert p1.title == "[" + "TRACK-12" + "]" + ": x";
    assert p2.title == "[" + "TRACK-1" + "]" + ": y";
    BracketedTitleKept(p1, "TRACK-12", ": x", "TRACK-1");
    BracketedTitleKept(p2, "TRACK-1", ": y", "TRACK-1");
    assert [p1, p2][1..] == [p2];
  }

  // ---------------------------------------------------------------------
  // `build_pr_from_branch`
  // ---------------------------------------------------------------------

  /** The title of a draft built from an answered prompt. */
  function PromptedTitle(tag: string, title: string): string {
    "[" + tag + "]: " + title
  }

  /** The tag pushed onto the history, if the function gets that far. */
  function PushedTag(commits: seq<string>, titleAnswer: Result<string, Error>,
                     tagAnswer: Result<string, Error>): Option<string>
  {
    match Tags.FirstTagged(commits)
    case Some((tag, _)) => Some(tag)
    case None => if titleAnswer.Err? || tagAnswer.Err? then None else Some(tagAnswer.value)
  }

  /** The result of `build_pr_from_branch`. */
  function Built(commits: seq<string>, titleAnswer: Result<string, Error>,
                 tagAnswer: Result<string, Error>, writeError: Option<string>): Result<Pr.PullRequest, Error>
  {
    match Tags.FirstTagged(commits)
    case Some((tag, commit)) =>
      if writeError.Some? then Err(Io(writeError.value))
      else Ok(Pr.WithJira(Pr.WithTitle(Pr.WithTag(Pr.New(), tag), commit), true))
    case None =>
      if titleAnswer.Err? then Err(titleAnswer.error)
      else if tagAnswer.Err? then Err(tagAnswer.error)
      else if writeError.Some? then Err(Io(writeError.value))
      else
        var tag := tagAnswer.value;
        Ok(Pr.WithJira(Pr.WithTitle(Pr.WithTag(Pr.New(), tag), PromptedTitle(tag, titleAnswer.value)), false))
  }

  /** `build_pr_from_branch`. The answers to the title and tag prompts are
      inputs, and so is the failure, if any, of writing the tag file. The
      history is updated in memory before it is written, so it is updated even
      when writing fails. */
  method BuildPrFromBranch(info: Git.BranchInfo, tags: Tags.TagHistory,
                           titleAnswer: Result<string, Error>, tagAnswer: Result<string, Error>,
                           writeError: Option<string>)
    returns (r: Result<Pr.PullRequest, Error>, written: Option<string>)
    modifies tags`tags
    ensures var pushed := PushedTag(info.commits, titleAnswer, tagAnswer);
      && tags.tags == (if pushed.Some? then Tags.AddTag(old(tags.tags), pushed.value) else old(tags.tags))
      && written == (if pushed.Some? then Some(Tags.Serialize(tags.tags)) else None)
    ensures r == Built(info.commits, titleAnswer, tagAnswer, writeError)
  {
    var found := Tags.ExtractFromVec(info.commits);
    if found.Some? {
      var (tag, commit) := found.value;
      var text := tags.AddAndSave(tag);
      written := Some(text);
      if writeError.Some? {
        return Err(Io(writeError.value)), written;
      }
      r := Ok(Pr.WithJira(Pr.WithTitle(Pr.WithTag(Pr.New(), tag), commit), true));
    } else {
      if titleAnswer.Err? {
        return Err(titleAnswer.error), None;
      }
      var title := titleAnswer.value;
      if tagAnswer.Err? {
        return Err(tagAnswer.error), None;
      }
      var selectedTag := tagAnswer.value;
      tags.Add(selectedTag);
      var text := tags.Save();
      written := Some(text);
      if writeError.Some? {
        return Err(Io(writeError.value)), written;
      }
      var fullTitle := "[" + selectedTag + "]: " + title;
      r := Ok(Pr.WithJira(Pr.WithTitle(Pr.WithTag(Pr.New(), selectedTag), fullTitle), false));
    }
  }

  /** A draft built from a tagged commit has that commit as its title, the
      extracted tag as its tag and is marked as Jira; one built from prompts
      has the prompted title prefixed by the bracketed tag and is not. */
  lemma BuiltDraft(commits: seq<string>, titleAnswer: Result<string, Error>,
                   tagAnswer: Result<string, Error>, writeError: Option<string>)
    requires Built(commits, titleAnswer, tagAnswer, writeError).Ok?
    ensures var p := Built(commits, titleAnswer, tagAnswer, writeError).value;
      && PushedTag(commits, titleAnswer, tagAnswer) == Some(p.tag)
      && (p.isJira <==> Tags.FirstTagged(commits).Some?)
      && (p.isJira ==> exists k :: 0 <= k < |commits| && p.title == commits[k]
                                   && Tags.ExtractFromStr(commits[k]) == Some(p.tag))
      && (!p.isJira ==> p.title == PromptedTitle(tagAnswer.value, titleAnswer.value))
      && p.description == [] && p.implementation == [] && p.reviewers == [] && p.base == []
  {
    Tags.FirstTaggedSpec(commits);
  }

  /** A tag extracted from a text occurs in that text. */
  lemma ExtractedTagOccurs(title: string, tag: string)
    requires Tags.ExtractFromStr(title) == Some(tag)
    ensures Contains(title, tag)
  {
    Tags.ExtractFromStrSpec(title);
    var i: nat, j: nat :| Tags.LeftmostMatch(title, i, j) && tag == title[i + 1..j];
    assert OccursAt(title, tag, i + 1);
  }

  /** A prompted title gives a bare valid tag back and contains it. */
  lemma PromptedTitleCarriesTag(tag: string, title: string)
    requires Tags.ValidTag(tag)
    ensures Tags.ExtractFromStr(PromptedTitle(tag, title)) == Some(tag)
    ensures Contains(PromptedTitle(tag, title), tag)
  {
    assert PromptedTitle(tag, title) == "[" + tag + "]" + (": " + title);
    Tags.ExtractRoundTrip(tag, ": " + title);
    ExtractedTagOccurs(PromptedTitle(tag, title), tag);
  }

  /** The draft's title carries its own tag: extracting from the title gives
      the tag back, and the title contains it. So `filter_related_prs` finds
      the published PR again under its tag. A prompted tag must be a bare
      valid tag for this; `BracketedPromptedTagDropped` shows what happens to
      the bracketed answer the empty-history prompt asks for. */
  lemma BuiltTitleCarriesTag(commits: seq<string>, titleAnswer: Result<string, Error>,
                             tagAnswer: Result<string, Error>, writeError: Option<string>)
    requires Built(commits, titleAnswer, tagAnswer, writeError).Ok?
    requires Tags.FirstTagged(commits).None? ==> Tags.ValidTag(tagAnswer.value)
    ensures var p := Built(commits, titleAnswer, tagAnswer, writeError).value;
      Contains(p.title, p.tag) && Tags.ExtractFromStr(p.title) == Some(p.tag)
  {
    var p := Built(commits, titleAnswer, tagAnswer, writeError).value;
    BuiltDraft(commits, titleAnswer, tagAnswer, writeError);
    if Tags.FirstTagged(commits).Some? {
      ExtractedTagOccurs(p.title, p.tag);
    } else {
      PromptedTitleCarriesTag(tagAnswer.value, titleAnswer.value);
    }
  }

  /** With an empty history the tag prompt only accepts an answer holding a
      bracketed tag, so `[t]` is a typical answer. The title then reads
      `[[t]]: ...`, whose extracted tag is `t`, not the `[t]` the draft
      carries, and `filter_related_prs` drops the PR when searching for its
      own tag. */
  lemma BracketedPromptedTagDropped(t: string, title: string, pr: GitHub.PullRequest)
    requires Tags.ValidTag(t) && pr.title == PromptedTitle("[" + t + "]", title)
    ensures Tags.Validator("[" + t + "]").Valid?
    ensures Tags.ExtractFromStr(pr.title) == Some(t)
    ensures FilterRelatedPrs([pr], "[" + t + "]") == []
  {
    Tags.ValidatorAcceptsBracketed(t);
    assert pr.title == "[[" + t + "]" + ("]: " + title);
    Tags.ExtractDoubleBracket(t, "]: " + title);
    assert t != "[" + t + "]" by { assert |"[" + t + "]"| == |t| + 2; }
    assert !Keep(pr, "[" + t + "]");
    assert [pr][1..] == [];
  }

  // ---------------------------------------------------------------------
  // `select_base_branch`
  // ---------------------------------------------------------------------

  /** How a Rust function ends: a normal return, or a panic. */
  datatype Outcome<T> = Returned(result: T) | Panicked

  /** `select_base_branch` as written: with one candidate or none it reads
      `bases[0]`, which panics on an empty list. */
  function SelectBaseBranchAsWritten(bases: seq<string>, choice: Result<string, Error>): Outcome<Result<string, Error>> {
    if |bases| > 1 then Returned(choice)
    else if |bases| == 0 then Panicked
    else Returned(Ok(bases[0]))
  }

  /** The base selection the model uses: an empty candidate list is an
      error instead of a panic. `choice` is the answer to the selection
      prompt, shown only for several candidates. */
  function SelectBaseBranch(bases: seq<string>, choice: Result<string, Error>): (r: Result<string, Error>)
    ensures (choice.Ok? ==> choice.value in bases) ==> (r.Ok? ==> r.value in bases)
    ensures r == Err(NoBaseBranch) <==> bases == [] || (|bases| > 1 && choice == Err(NoBaseBranch))
  {
    if |bases| > 1 then choice
    else if |bases| == 0 then Err(NoBaseBranch)
    else Ok(bases[0])
  }

  /** On a non-empty list the corrected selection behaves as written. */
  lemma SelectBaseBranchAgrees(bases: seq<string>, choice: Result<string, Error>)
    requires bases != []
    ensures SelectBaseBranchAsWritten(bases, choice) == Returned(SelectBaseBranch(bases, choice))
  {
  }

  /** A branch that shares no commit with any other branch resolves without
      error, has commits, and has no base candidate: `run` passes the
      `NoCommits` check and `select_base_branch` as written panics. */
  lemma BaseSelectionPanics(choice: Result<string, Error>)
    ensures var repo := Git.Repository(true, true, Some(Some("feature")),
                                       [Git.Branch("feature", true, ["c1"])],
                                       Some(["c1"]), map["c1" := Some("fix")]);
      && Git.Resolve(repo) == Ok(Git.BranchInfo([], ["fix"]))
      && SelectBaseBranchAsWritten(Git.Resolve(repo).value.bases, choice) == Panicked
      && SelectBaseBranch(Git.Resolve(repo).value.bases, choice) == Err(NoBaseBranch)
  {
    var repo := Git.Repository(true, true, Some(Some("feature")),
                               [Git.Branch("feature", true, ["c1"])],
                               Some(["c1"]), map["c1" := Some("fix")]);
    assert Git.CurrentName(Some("feature")) == "feature";
    assert !Git.IsMain("feature");
    assert Git.Reachers(repo.branches, "feature", "c1") == {} by {
      assert Git.Excluded("feature", "feature");
    }
    assert Git.Resolve(repo).Ok?;
    Git.NothingShared(repo);
    assert Git.Messages(["c1"], repo.messages) == ["fix"] by {
      assert Trim("fix") == "fix" by { TrimOfTrimmed("fix"); }
    }
  }

  /** With the candidates `get_branch_bases_and_commits` produces (at most
      one), the selection prompt is never shown: the base is the single
      candidate. */
  lemma ResolvedBaseNeedsNoPrompt(repo: Git.Repository, choice: Result<string, Error>)
    requires Git.Resolve(repo).Ok? && Git.Resolve(repo).value.bases != []
    ensures SelectBaseBranch(Git.Resolve(repo).value.bases, choice) == Ok(Git.Resolve(repo).value.bases[0])
  {
    Git.ResolvedBase(repo);
  }

  // ---------------------------------------------------------------------
  // `update_related_prs`
  // ---------------------------------------------------------------------

  /** One call of `update_pr`: the PR, the body sent and what came back. */
  datatype Attempt = Attempt(number: GitHub.U32, body: string, outcome: Result<string, string>)

  /** The update of one related PR: its body rewritten with the whole list
      and its own number. */
  function UpdateAttempt(ph: Template.Placeholders, pr: GitHub.PullRequest, related: seq<GitHub.PullRequest>,
                         dryRun: bool, gh: seq<string> -> GitHub.GhOutput): Attempt
  {
    var body := Template.RelatedPrsBody(ph, pr.body, pr.number, related);
    Attempt(pr.number, body, GitHub.UpdatePr(pr.number, pr.resourcePath, body, dryRun, gh))
  }

  /** One attempt per PR of `targets`, in order, each rewritten with the
      whole `related` list. */
  function UpdateAttempts(ph: Template.Placeholders, targets: seq<GitHub.PullRequest>,
                          related: seq<GitHub.PullRequest>, dryRun: bool,
                          gh: seq<string> -> GitHub.GhOutput): (attempts: seq<Attempt>)
    ensures |attempts| == |targets|
    ensures forall k :: 0 <= k < |targets| ==> attempts[k] == UpdateAttempt(ph, targets[k], related, dryRun, gh)
  {
    seq(|targets|, k requires 0 <= k < |targets| => UpdateAttempt(ph, targets[k], related, dryRun, gh))
  }

  lemma UpdateAttemptsSnoc(ph: Template.Placeholders, targets: seq<GitHub.PullRequest>, k: nat,
                           related: seq<GitHub.PullRequest>, dryRun: bool, gh: seq<string> -> GitHub.GhOutput)
    requires k < |targets|
    ensures UpdateAttempts(ph, targets[..k + 1], related, dryRun, gh)
         == UpdateAttempts(ph, targets[..k], related, dryRun, gh) + [UpdateAttempt(ph, targets[k], related, dryRun, gh)]
  {
    var a := UpdateAttempts(ph, targets[..k + 1], related, dryRun, gh);
    var b := UpdateAttempts(ph, targets[..k], related, dryRun, gh) + [UpdateAttempt(ph, targets[k], related, dryRun, gh)];
    assert |a| == |b|;
    forall x | 0 <= x < |a| ensures a[x] == b[x] {
      assert targets[..k + 1][x] == targets[x];
      if x < k { assert targets[..k][x] == targets[x]; }
    }
  }

  /** The replacement text cannot contain `$`: neither the markers nor any
      resource path hold one. */
  predicate DollarFree(ph: Template.Placeholders, userPrs: Result<seq<GitHub.PullRequest>, string>) {
    && '$' !in ph.relatedPrStart && '$' !in ph.relatedPrEnd
    && (userPrs.Ok? ==> forall pr :: pr in userPrs.value ==> '$' !in pr.resourcePath)
  }

  lemma DollarFreeBlock(ph: Template.Placeholders, thisPr: GitHub.U32, related: seq<GitHub.PullRequest>)
    requires '$' !in ph.relatedPrStart && '$' !in ph.relatedPrEnd
    requires forall pr :: pr in related ==> '$' !in pr.resourcePath
    ensures '$' !in Template.RelatedBlock(ph, thisPr, related)
  {
    var lines := [ph.relatedPrStart] + Template.PrLines(related, thisPr) + [ph.relatedPrEnd];
    forall k | 0 <= k < |lines| ensures '$' !in lines[k] {
      if 0 < k < |lines| - 1 {
        var pr := related[k - 1];
        var path := pr.resourcePath;
        Template.TrimStartMatchesIsSuffix(path, '/');
        var trimmed := Template.TrimStartMatches(path, '/');
        assert '$' !in trimmed by {
          forall x | 0 <= x < |trimmed| ensures trimmed[x] != '$' {
            assert trimmed[x] == path[|path| - |trimmed| + x];
          }
        }
        assert '$' !in " - (this pr)" && '$' !in "- ";
        assert lines[k] == Template.PrLine(pr, thisPr);
      }
    }
    NotInJoin(lines, "\n", '$');
  }

  /** The loop of `update_related_prs`: every related PR is updated once,
      in order; a failed update is recorded and the loop goes on. */
  method UpdateRelatedPrs(config: Template.Config, pr: Pr.PullRequest, dryRun: bool,
                          userPrs: Result<seq<GitHub.PullRequest>, string>, gh: seq<string> -> GitHub.GhOutput)
    returns (r: Result<(), Error>, attempts: seq<Attempt>)
    requires DollarFree(config.placeholders, userPrs)
    ensures userPrs.Err? ==> r == Err(GitHubCli(userPrs.error)) && attempts == []
    ensures userPrs.Ok? ==>
              var related := FilterRelatedPrs(userPrs.value, pr.tag);
              r == Ok(()) && attempts == UpdateAttempts(config.placeholders, related, related, dryRun, gh)
  {
    if userPrs.Err? {
      return Err(GitHubCli(userPrs.error)), [];
    }
    var related := FilterRelatedPrs(userPrs.value, pr.tag);
    attempts := [];
    if related == [] {
      return Ok(()), attempts;
    }
    for k := 0 to |related|
      invariant attempts == UpdateAttempts(config.placeholders, related[..k], related, dryRun, gh)
    {
      var relatedPr := related[k];
      DollarFreeBlock(config.placeholders, relatedPr.number, related);
      var updatedBody := Template.ReplaceRelatedPrs(config, relatedPr.body, relatedPr.number, related);
      var outcome := GitHub.UpdatePr(relatedPr.number, relatedPr.resourcePath, updatedBody, dryRun, gh);
      UpdateAttemptsSnoc(config.placeholders, related, k, related, dryRun, gh);
      attempts := attempts + [Attempt(relatedPr.number, updatedBody, outcome)];
    }
    assert related[..|related|] == related;
    r := Ok(());
  }

  /** Every body sent is already up to date: rewriting it again with the same
      list and number gives the same text. */
  lemma AttemptedBodiesStable(ph: Template.Placeholders, related: seq<GitHub.PullRequest>,
                              dryRun: bool, gh: seq<string> -> GitHub.GhOutput, k: nat)
    requires k < |related|
    ensures var a := UpdateAttempts(ph, related, related, dryRun, gh)[k];
      a.number == related[k].number
      && Template.RelatedPrsBody(ph, a.body, related[k].number, related) == a.body
  {
    Template.RelatedPrsBodyIdempotent(ph, related[k].body, related[k].number, related);
  }

  // ---------------------------------------------------------------------
  // `run`
  // ---------------------------------------------------------------------

  /** The answers the user gives to the prompts `run` may show. */
  datatype Answers = Answers(
    title: Result<string, Error>,
    tag: Result<string, Error>,
    base: Result<string, Error>,
    description: Result<string, Error>,
    implementation: Result<string, Error>,
    reviewers: Result<seq<string>, Error>)

  /** `publish_pr` in src/app.rs: fill the template and create the PR. */
  function PublishPr(config: Template.Config, pr: Pr.PullRequest, dryRun: bool,
                     gh: seq<string> -> GitHub.GhOutput): Result<(), Error>
  {
    var body := Template.MakeBody(config, pr.tag, pr.isJira, pr.description, pr.implementation);
    match GitHub.PublishPr(pr.base, pr.title, body, pr.reviewers, dryRun, gh)
    case Ok(_) => Ok(())
    case Err(e) => Err(GitHubCli(e))
  }

  /** The draft `run` publishes: the built draft, on the selected base, with
      the answered description, implementation and reviewers. */
  function PublishedDraft(commits: seq<string>, bases: seq<string>, answers: Answers,
                          writeError: Option<string>): Pr.PullRequest
    requires Built(commits, answers.title, answers.tag, writeError).Ok?
    requires SelectBaseBranch(bases, answers.base).Ok?
    requires answers.description.Ok? && answers.implementation.Ok? && answers.reviewers.Ok?
  {
    var pr := Pr.WithBase(Built(commits, answers.title, answers.tag, writeError).value,
                          SelectBaseBranch(bases, answers.base).value);
    Pr.WithReviewers(Pr.WithImplementation(Pr.WithDescription(pr, answers.description.value),
                                           answers.implementation.value), answers.reviewers.value)
  }

  /** `run`, from the resolution of the branch onwards. The configuration is
      given; `tagsContents` is the tag file's text (`None` when it does not
      exist) or the error reading it. `loadedTags` tells whether the tag
      history was read, `published` whether a PR was created. */
  method Run(config: Template.Config, repo: Git.Repository, tagsPath: string,
             tagsContents: Result<Option<string>, string>, writeError: Option<string>,
             answers: Answers, updateOnly: bool, dryRun: bool,
             gh: seq<string> -> GitHub.GhOutput, userPrs: Result<seq<GitHub.PullRequest>, string>)
    returns (r: Result<(), Error>, loadedTags: bool, published: bool, attempts: seq<Attempt>)
    requires DollarFree(config.placeholders, userPrs)
    ensures Git.Resolve(repo).Err? ==>
              r == Err(Git.Resolve(repo).error) && !loadedTags && !published && attempts == []
    ensures Git.Resolve(repo).Ok? && Git.Resolve(repo).value.commits == [] ==>
              r == Err(NoCommits) && !loadedTags && !published && attempts == []
    ensures loadedTags <==> Git.Resolve(repo).Ok? && Git.Resolve(repo).value.commits != []
    ensures published ==> !updateOnly
    ensures published ==>
              var info := Git.Resolve(repo).value;
              && Built(info.commits, answers.title, answers.tag, writeError).Ok?
              && SelectBaseBranch(info.bases, answers.base).Ok?
              && answers.description.Ok? && answers.implementation.Ok? && answers.reviewers.Ok?
              && PublishPr(config, PublishedDraft(info.commits, info.bases, answers, writeError), dryRun, gh) == Ok(())
    ensures r.Ok? ==> loadedTags && (updateOnly || published) && userPrs.Ok?
    ensures r.Ok? ==>
              var built := Built(Git.Resolve(repo).value.commits, answers.title, answers.tag, writeError);
              && built.Ok?
              && var related := FilterRelatedPrs(userPrs.value, built.value.tag);
                 attempts == UpdateAttempts(config.placeholders, related, related, dryRun, gh)
  {
    var info := Git.GetBranchBasesAndCommits(repo);
    if info.Err? {
      return Err(info.error), false, false, [];
    }
    var branchInfo := info.value;
    if branchInfo.commits == [] {
      return Err(NoCommits), false, false, [];
    }
    loadedTags := true;
    published := false;
    attempts := [];
    if tagsContents.Err? {
      return Err(Io(tagsContents.error)), loadedTags, published, attempts;
    }
    var tags := new Tags.TagHistory.Load(tagsPath, tagsContents.value);
    var built, _ := BuildPrFromBranch(branchInfo, tags, answers.title, answers.tag, writeError);
    if built.Err? {
      return Err(built.error), loadedTags, published, attempts;
    }
    var pr := built.value;
    var base := SelectBaseBranch(branchInfo.bases, answers.base);
    if base.Err? {
      return Err(base.error), loadedTags, published, attempts;
    }
    pr := Pr.WithBase(pr, base.value);
    if !updateOnly {
      if answers.description.Err? {
        return Err(answers.description.error), loadedTags, published, attempts;
      }
      if answers.implementation.Err? {
        return Err(answers.implementation.error), loadedTags, published, attempts;
      }
      if answers.reviewers.Err? {
        return Err(answers.reviewers.error), loadedTags, published, attempts;
      }
      pr := Pr.WithReviewers(Pr.WithImplementation(Pr.WithDescription(pr, answers.description.value),
                                                   answers.implementation.value), answers.reviewers.value);
      var outcome := PublishPr(config, pr, dryRun, gh);
      if outcome.Err? {
        return Err(outcome.error), loadedTags, published, attempts;
      }
      published := true;
    }
    r, attempts := UpdateRelatedPrs(config, pr, dryRun, userPrs, gh);
  }
}
