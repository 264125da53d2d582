/**
  The PR draft (src/pr.rs): a record filled in by a consuming builder, where
  each setter takes the draft by value and returns it with one field replaced.
 */
module Pr {

  datatype PullRequest = PullRequest(
    title: string,
    tag: string,
    isJira: bool,
    description: string,
    implementation: string,
    reviewers: seq<string>,
    base: string)

  /** The fields of a draft, to say which one a setter may change. */
  datatype Field = Title | Tag | IsJira | Description | Implementation | Reviewers | Base

  /** `p` and `q` agree on every field except possibly `f`. */
  predicate AgreeExcept(p: PullRequest, q: PullRequest, f: Field) {
    && (f == Title || p.title == q.title)
    && (f == Tag || p.tag == q.tag)
    && (f == IsJira || p.isJira == q.isJira)
    && (f == Description || p.description == q.description)
    && (f == Implementation || p.implementation == q.implementation)
    && (f == Reviewers || p.reviewers == q.reviewers)
    && (f == Base || p.base == q.base)
  }

  /** `PullRequest::new`, the derived default. */
  function New(): (p: PullRequest)
    ensures p.title == [] && p.tag == [] && !p.isJira
    ensures p.description == [] && p.implementation == [] && p.reviewers == [] && p.base == []
  {
    PullRequest([], [], false, [], [], [], [])
  }

  function WithTitle(p: PullRequest, title: string): (r: PullRequest)
    ensures r.title == title && AgreeExcept(p, r, Title)
  {
    p.(title := title)
  }

  function WithTag(p: PullRequest, tag: string): (r: PullRequest)
    ensures r.tag == tag && AgreeExcept(p, r, Tag)
  {
    p.(tag := tag)
  }

  function WithJira(p: PullRequest, isJira: bool): (r: PullRequest)
    ensures r.isJira == isJira && AgreeExcept(p, r, IsJira)
  {
    p.(isJira := isJira)
  }

  function WithDescription(p: PullRequest, description: string): (r: PullRequest)
    ensures r.description == description && AgreeExcept(p, r, Description)
  {
    p.(description := description)
  }

  function WithImplementation(p: PullRequest, implementation: string): (r: PullRequest)
    ensures r.implementation == implementation && AgreeExcept(p, r, Implementation)
  {
    p.(implementation := implementation)
  }

  function WithReviewers(p: PullRequest, reviewers: seq<string>): (r: PullRequest)
    ensures r.reviewers == reviewers && AgreeExcept(p, r, Reviewers)
  {
    p.(reviewers := reviewers)
  }

  function WithBase(p: PullRequest, base: string): (r: PullRequest)
    ensures r.base == base && AgreeExcept(p, r, Base)
  {
    p.(base := base)
  }

  /** Two drafts that agree everywhere except on a field they also agree on are equal. */
  lemma AgreeExceptEqual(p: PullRequest, q: PullRequest, f: Field)
    requires AgreeExcept(p, q, f)
    requires match f
      case Title => p.title == q.title
      case Tag => p.tag == q.tag
      case IsJira => p.isJira == q.isJira
      case Description => p.description == q.description
      case Implementation => p.implementation == q.implementation
      case Reviewers => p.reviewers == q.reviewers
      case Base => p.base == q.base
    ensures p == q
  {
  }

  /** Setting a field twice keeps the last value. */
  lemma LastWriteWins(p: PullRequest, s1: string, s2: string, b1: bool, b2: bool,
                      v1: seq<string>, v2: seq<string>)
    ensures WithTitle(WithTitle(p, s1), s2) == WithTitle(p, s2)
    ensures WithTag(WithTag(p, s1), s2) == WithTag(p, s2)
    ensures WithJira(WithJira(p, b1), b2) == WithJira(p, b2)
    ensures WithDescription(WithDescription(p, s1), s2) == WithDescription(p, s2)
    ensures WithImplementation(WithImplementation(p, s1), s2) == WithImplementation(p, s2)
    ensures WithReviewers(WithReviewers(p, v1), v2) == WithReviewers(p, v2)
    ensures WithBase(WithBase(p, s1), s2) == WithBase(p, s2)
  {
  }

  /** Setters on different fields commute: every pair of distinct setters
      gives the same draft in either order. */
  lemma SettersCommute(p: PullRequest, title: string, tag: string, isJira: bool, description: string,
                       implementation: string, reviewers: seq<string>, base: string)
    ensures WithTag(WithTitle(p, title), tag) == WithTitle(WithTag(p, tag), title)
    ensures WithJira(WithTitle(p, title), isJira) == WithTitle(WithJira(p, isJira), title)
    ensures WithDescription(WithTitle(p, title), description) == WithTitle(WithDescription(p, description), title)
    ensures WithImplementation(WithTitle(p, title), implementation) == WithTitle(WithImplementation(p, implementation), title)
    ensures WithReviewers(WithTitle(p, title), reviewers) == WithTitle(WithReviewers(p, reviewers), title)
    ensures WithBase(WithTitle(p, title), base) == WithTitle(WithBase(p, base), title)
    ensures WithJira(WithTag(p, tag), isJira) == WithTag(WithJira(p, isJira), tag)
    ensures WithDescription(WithTag(p, tag), description) == WithTag(WithDescription(p, description), tag)
    ensures WithImplementation(WithTag(p, tag), implementation) == WithTag(WithImplementation(p, implementation), tag)
    ensures WithReviewers(WithTag(p, tag), reviewers) == WithTag(WithReviewers(p, reviewers), tag)
    ensures WithBase(WithTag(p, tag), base) == WithTag(WithBase(p, base), tag)
    ensures WithDescription(WithJira(p, isJira), description) == WithJira(WithDescription(p, description), isJira)
    ensures WithImplementation(WithJira(p, isJira), implementation) == WithJira(WithImplementation(p, implementation), isJira)
    ensures WithReviewers(WithJira(p, isJira), reviewers) == WithJira(WithReviewers(p, reviewers), isJira)
    ensures WithBase(WithJira(p, isJira), base) == WithJira(WithBase(p, base), isJira)
    ensures WithImplementation(WithDescription(p, description), implementation) == WithDescription(WithImplementation(p, implementation), description)
    ensures WithReviewers(WithDescription(p, description), reviewers) == WithDescription(WithReviewers(p, reviewers), description)
    ensures WithBase(WithDescription(p, description), base) == WithDescription(WithBase(p, base), description)
    ensures WithReviewers(WithImplementation(p, implementation), reviewers) == WithImplementation(WithReviewers(p, reviewers), implementation)
    ensures WithBase(WithImplementation(p, implementation), base) == WithImplementation(WithBase(p, base), implementation)
    ensures WithBase(WithReviewers(p, reviewers), base) == WithReviewers(WithBase(p, base), reviewers)
  {
  }

  /** A draft built from `new()` by every setter holds exactly the values set. */
  lemma BuiltFromNew(title: string, tag: string, isJira: bool, description: string,
                     implementation: string, reviewers: seq<string>, base: string)
    ensures WithBase(WithReviewers(WithImplementation(WithDescription(WithJira(WithTag(WithTitle(
              New(), title), tag), isJira), description), implementation), reviewers), base)
         == PullRequest(title, tag, isJira, description, implementation, reviewers, base)
  {
  }
}
