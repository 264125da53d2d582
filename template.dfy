/**
  PR body templating (src/template.rs): filling the placeholders of the
  configured template, and rewriting the related-PR block that sits between
  two marker lines. `Config` is reduced to the strings these two operations
  read.
 */
module Template {
  import opened Wrappers
  import opened Text
  import GitHub

  /** The placeholder and marker strings of the template configuration. */
  datatype Placeholders = Placeholders(
    issueUrl: string,
    trackingLinePrefix: string,
    description: string,
    implementation: string,
    relatedPrStart: string,
    relatedPrEnd: string)

  /** The configuration as `make_body` and `replace_related_prs` see it:
      the template body, the Jira browse URL (empty when none is set) and the
      placeholders. */
  datatype Config = Config(body: string, jiraUrl: string, placeholders: Placeholders)

  // ---------------------------------------------------------------------
  // `make_body`
  // ---------------------------------------------------------------------

  /** The Markdown link to the ticket. */
  function TrackingLink(ticket: string, jiraUrl: string): string {
    "[" + ticket + "](" + jiraUrl + ticket + ")"
  }

  /** Whether the tracking link is written instead of dropping the tracking line. */
  predicate Links(config: Config, isJiraTicket: bool) {
    isJiraTicket && config.jiraUrl != []
  }

  /** The first step of `make_body`: link the ticket, or remove every
      `tracking_line_prefix + "\n"`. */
  function TrackingStep(config: Config, ticket: string, isJiraTicket: bool): string {
    var ph := config.placeholders;
    if Links(config, isJiraTicket) then
      ReplaceAll(config.body, ph.issueUrl, TrackingLink(ticket, config.jiraUrl))
    else
      ReplaceAll(config.body, ph.trackingLinePrefix + "\n", "")
  }

  /** `make_body`: the tracking step, then the description placeholder, then
      the implementation placeholder, each replaced everywhere. */
  function MakeBody(config: Config, ticket: string, isJiraTicket: bool,
                    description: string, implementation: string): string
  {
    var ph := config.placeholders;
    ReplaceAll(ReplaceAll(TrackingStep(config, ticket, isJiraTicket), ph.description, description),
               ph.implementation, implementation)
  }

  /** The two placeholder steps after the tracking step, for a text in which
      each placeholder occurs once, at the time it is replaced. */
  lemma FillOnce(a: string, d: string, c: string, m: string, e: string,
                 description: string, implementation: string)
    requires d != [] && m != []
    requires !Contains(a + d[..|d| - 1], d) && !Contains(c + m + e, d)
    requires !Contains(a + description + c + m[..|m| - 1], m) && !Contains(e, m)
    ensures ReplaceAll(ReplaceAll(a + d + c + m + e, d, description), m, implementation)
            == a + description + c + implementation + e
  {
    calc {
      ReplaceAll(a + d + c + m + e, d, description);
      { assert a + d + c + m + e == a + d + (c + m + e); ReplaceAllAtFirst(a, d, c + m + e, description); }
      a + description + ReplaceAll(c + m + e, d, description);
      { ReplaceAllAbsent(c + m + e, d, description); }
      a + description + (c + m + e);
    }
    calc {
      ReplaceAll(a + description + (c + m + e), m, implementation);
      { assert a + description + (c + m + e) == (a + description + c) + m + e;
        ReplaceAllAtFirst(a + description + c, m, e, implementation); }
      a + description + c + implementation + ReplaceAll(e, m, implementation);
      { ReplaceAllAbsent(e, m, implementation); }
      a + description + c + implementation + e;
    }
  }

  /** With a Jira ticket and a Jira URL, a template holding each placeholder
      once gets the link, the description and the implementation in their
      places, and nothing else changes. */
  lemma MakeBodyWithJira(config: Config, ticket: string, description: string, implementation: string,
                         a: string, b: string, c: string, e: string)
    requires config.jiraUrl != []
    requires var ph := config.placeholders;
      && ph.issueUrl != [] && ph.description != [] && ph.implementation != []
      && config.body == a + ph.issueUrl + b + ph.description + c + ph.implementation + e
      && !Contains(a + ph.issueUrl[..|ph.issueUrl| - 1], ph.issueUrl)
      && !Contains(b + ph.description + c + ph.implementation + e, ph.issueUrl)
      && var link := TrackingLink(ticket, config.jiraUrl);
      && !Contains(a + link + b + ph.description[..|ph.description| - 1], ph.description)
      && !Contains(c + ph.implementation + e, ph.description)
      && !Contains(a + link + b + description + c + ph.implementation[..|ph.implementation| - 1], ph.implementation)
      && !Contains(e, ph.implementation)
    ensures MakeBody(config, ticket, true, description, implementation)
            == a + TrackingLink(ticket, config.jiraUrl) + b + description + c + implementation + e
  {
    var ph := config.placeholders;
    var link := TrackingLink(ticket, config.jiraUrl);
    var rest := b + ph.description + c + ph.implementation + e;
    calc {
      TrackingStep(config, ticket, true);
      ReplaceAll(config.body, ph.issueUrl, link);
      { assert config.body == a + ph.issueUrl + rest; }
      ReplaceAll(a + ph.issueUrl + rest, ph.issueUrl, link);
      { ReplaceOnce(a, ph.issueUrl, rest, link); }
      a + link + rest;
      a + link + b + ph.description + c + ph.implementation + e;
    }
    FillOnce(a + link + b, ph.description, c, ph.implementation, e, description, implementation);
  }

  /** Without a Jira ticket, or without a Jira URL, a template holding the
      tracking line once loses that line (and its newline), and the
      description and implementation are filled in. */
  lemma MakeBodyWithoutJira(config: Config, ticket: string, isJiraTicket: bool,
                            description: string, implementation: string,
                            a: string, b: string, c: string, e: string)
    requires !Links(config, isJiraTicket)
    requires var ph := config.placeholders;
      var line := ph.trackingLinePrefix + "\n";
      && ph.description != [] && ph.implementation != []
      && config.body == a + line + b + ph.description + c + ph.implementation + e
      && !Contains(a + line[..|line| - 1], line)
      && !Contains(b + ph.description + c + ph.implementation + e, line)
      && !Contains(a + b + ph.description[..|ph.description| - 1], ph.description)
      && !Contains(c + ph.implementation + e, ph.description)
      && !Contains(a + b + description + c + ph.implementation[..|ph.implementation| - 1], ph.implementation)
      && !Contains(e, ph.implementation)
    ensures MakeBody(config, ticket, isJiraTicket, description, implementation)
            == a + b + description + c + implementation + e
  {
    var ph := config.placeholders;
    var line := ph.trackingLinePrefix + "\n";
    var rest := b + ph.description + c + ph.implementation + e;
    var filled := a + b + ph.description + c + ph.implementation + e;
    calc {
      TrackingStep(config, ticket, isJiraTicket);
      ReplaceAll(config.body, line, "");
      { assert config.body == a + line + rest; }
      ReplaceAll(a + line + rest, line, "");
      { ReplaceOnce(a, line, rest, ""); }
      a + "" + rest;
      filled;
    }
    FillOnce(a + b, ph.description, c, ph.implementation, e, description, implementation);
  }

  /** Replacing a text that occurs once. */
  lemma ReplaceOnce(a: string, p: string, rest: string, rep: string)
    requires p != []
    requires !Contains(a + p[..|p| - 1], p) && !Contains(rest, p)
    ensures ReplaceAll(a + p + rest, p, rep) == a + rep + rest
  {
    ReplaceAllAtFirst(a, p, rest, rep);
    ReplaceAllAbsent(rest, p, rep);
  }

  /** Without a link the ticket name is not used at all. */
  lemma TicketUnusedWithoutLink(config: Config, t1: string, t2: string, isJiraTicket: bool,
                                description: string, implementation: string)
    requires !Links(config, isJiraTicket)
    ensures MakeBody(config, t1, isJiraTicket, description, implementation)
            == MakeBody(config, t2, isJiraTicket, description, implementation)
  {
  }

  // ---------------------------------------------------------------------
  // The related-PR block
  // ---------------------------------------------------------------------

  /** `trim_start_matches(c)`: drops every leading `c`. */
  function TrimStartMatches(s: string, c: char): (r: string)
    ensures r == [] || r[0] != c
    ensures |r| <= |s|
    decreases |s|
  {
    if s != [] && s[0] == c then TrimStartMatches(s[1..], c) else s
  }

  /** What `TrimStartMatches` removes is a run of `c`, and it keeps the rest. */
  lemma {:induction false} TrimStartMatchesIsSuffix(s: string, c: char)
    ensures var r := TrimStartMatches(s, c);
      r == s[|s| - |r|..] && forall k :: 0 <= k < |s| - |r| ==> s[k] == c
    decreases |s|
  {
    if s != [] && s[0] == c {
      TrimStartMatchesIsSuffix(s[1..], c);
    }
  }

  /** One line of the block: the path without its leading `/`, marked when
      it is the PR being updated. */
  function PrLine(pr: GitHub.PullRequest, thisPr: GitHub.U32): string {
    "- " + TrimStartMatches(pr.resourcePath, '/') + (if pr.number == thisPr then " - (this pr)" else "")
  }

  function PrLines(prs: seq<GitHub.PullRequest>, thisPr: GitHub.U32): (lines: seq<string>)
    ensures |lines| == |prs|
    ensures forall k :: 0 <= k < |prs| ==> lines[k] == PrLine(prs[k], thisPr)
  {
    seq(|prs|, k requires 0 <= k < |prs| => PrLine(prs[k], thisPr))
  }

  /** The replacement block: the start marker, one line per PR, the end marker. */
  function RelatedBlock(ph: Placeholders, thisPr: GitHub.U32, prs: seq<GitHub.PullRequest>): string {
    Join([ph.relatedPrStart] + PrLines(prs, thisPr) + [ph.relatedPrEnd], "\n")
  }

  /** The block starts with the start marker and ends with the end marker,
      one line apart at least. */
  lemma RelatedBlockShape(ph: Placeholders, thisPr: GitHub.U32, prs: seq<GitHub.PullRequest>)
    ensures var b := RelatedBlock(ph, thisPr, prs);
      && |b| >= |ph.relatedPrStart| + 1 + |ph.relatedPrEnd|
      && Framed(b, ph.relatedPrStart, ph.relatedPrEnd)
  {
    var head := [ph.relatedPrStart] + PrLines(prs, thisPr);
    JoinAppend(head, [ph.relatedPrEnd], "\n");
    JoinStartsWithFirst(head, "\n");
    assert Join([ph.relatedPrEnd], "\n") == ph.relatedPrEnd;
  }

  /** A single leading `/` before a segment is dropped. */
  lemma LeadingSlashDropped(rest: string)
    requires rest != [] && rest[0] != '/'
    ensures TrimStartMatches("/" + rest, '/') == rest
  {
    assert ("/" + rest)[1..] == rest;
  }

  /** The line of the PR being updated is marked. */
  lemma ThisPrLineExample()
    ensures PrLine(GitHub.PullRequest("1", "PR 1", "/owner/repo/pull/1", 1, ""), 1)
            == "- owner/repo/pull/1 - (this pr)"
  {
    assert "/owner/repo/pull/1" == "/" + "owner/repo/pull/1";
    LeadingSlashDropped("owner/repo/pull/1");
  }

  /** The line of another PR is not. */
  lemma OtherPrLineExample()
    ensures PrLine(GitHub.PullRequest("2", "PR 2", "/owner/repo/pull/2", 2, ""), 1)
            == "- owner/repo/pull/2"
  {
    assert "/owner/repo/pull/2" == "/" + "owner/repo/pull/2";
    LeadingSlashDropped("owner/repo/pull/2");
  }

  // ---------------------------------------------------------------------
  // The span matched by `(?sm)^START(.*)END$`
  // ---------------------------------------------------------------------

  /** `^` in multi-line mode: the start of the text or just after a line feed. */
  predicate StartsLine(s: string, i: nat) {
    i == 0 || (i <= |s| && s[i - 1] == '\n')
  }

  /** `$` in multi-line mode: the end of the text or just before a line feed. */
  predicate EndsLine(s: string, k: nat) {
    k == |s| || (k < |s| && s[k] == '\n')
  }

  predicate OpensAt(s: string, ms: string, i: nat) {
    OccursAt(s, ms, i) && StartsLine(s, i)
  }

  predicate ClosesAt(s: string, me: string, j: nat) {
    OccursAt(s, me, j) && EndsLine(s, j + |me|)
  }

  /** A match of the pattern: the start marker at `i` at a line start, the
      end marker at `j` ending a line, with `.*` (which also crosses line
      feeds) in between. */
  predicate IsSpan(s: string, ms: string, me: string, i: nat, j: nat) {
    OpensAt(s, ms, i) && i + |ms| <= j && ClosesAt(s, me, j)
  }

  /** The match the regex engine reports: the leftmost start, and for it the
      longest `.*`. */
  ghost predicate LeftmostLongest(s: string, ms: string, me: string, i: nat, j: nat) {
    && IsSpan(s, ms, me, i, j)
    && (forall i': nat, j': nat :: IsSpan(s, ms, me, i', j') ==> i <= i')
    && (forall j': nat :: IsSpan(s, ms, me, i, j') ==> j' <= j)
  }

  /** The last position in `lo..hi` where the end marker ends a line. */
  function LastClose(s: string, me: string, lo: nat, hi: nat): (r: Option<nat>)
    ensures r.Some? ==> lo <= r.value <= hi && ClosesAt(s, me, r.value)
    ensures r.Some? ==> forall j: nat :: r.value < j <= hi ==> !ClosesAt(s, me, j)
    ensures r.None? ==> forall j: nat :: lo <= j <= hi ==> !ClosesAt(s, me, j)
    decreases hi
  {
    if hi < lo then None
    else if ClosesAt(s, me, hi) then Some(hi)
    else if hi == lo then None
    else LastClose(s, me, lo, hi - 1)
  }

  /** The first span starting at or after `from`, with its last possible end. */
  function FindSpan(s: string, ms: string, me: string, from: nat): (r: Option<(nat, nat)>)
    ensures r.Some? ==> from <= r.value.0 && IsSpan(s, ms, me, r.value.0, r.value.1)
    ensures r.Some? ==> forall i: nat, j: nat :: from <= i < r.value.0 ==> !IsSpan(s, ms, me, i, j)
    ensures r.Some? ==> forall j: nat :: r.value.1 < j ==> !IsSpan(s, ms, me, r.value.0, j)
    ensures r.None? ==> forall i: nat, j: nat :: from <= i ==> !IsSpan(s, ms, me, i, j)
    decreases |s| + 1 - from
  {
    if from > |s| then None
    else if OpensAt(s, ms, from) && LastClose(s, me, from + |ms|, |s|).Some? then
      Some((from, LastClose(s, me, from + |ms|, |s|).value))
    else FindSpan(s, ms, me, from + 1)
  }

  /** `FindSpan` from the start finds exactly the match the regex reports. */
  lemma FindSpanSpec(s: string, ms: string, me: string)
    ensures FindSpan(s, ms, me, 0).None? <==> forall i: nat, j: nat :: !IsSpan(s, ms, me, i, j)
    ensures FindSpan(s, ms, me, 0).Some? ==>
              LeftmostLongest(s, ms, me, FindSpan(s, ms, me, 0).value.0, FindSpan(s, ms, me, 0).value.1)
  {
  }

  /** There is only one leftmost-longest match. */
  lemma LeftmostLongestUnique(s: string, ms: string, me: string, i1: nat, j1: nat, i2: nat, j2: nat)
    requires LeftmostLongest(s, ms, me, i1, j1) && LeftmostLongest(s, ms, me, i2, j2)
    ensures i1 == i2 && j1 == j2
  {
  }

  /** `Regex::replace`: the first match is replaced by `block`; without a
      match the text is returned as it is. */
  function ReplaceSpan(s: string, ms: string, me: string, block: string): string {
    match FindSpan(s, ms, me, 0)
    case None => s
    case Some((i, j)) => s[..i] + block + s[j + |me|..]
  }

  /** Texts agreeing on their first `n` characters open the block at the same
      places before `n`. */
  lemma OpensAtSamePrefix(r: string, s: string, ms: string, n: nat, i: nat)
    requires n <= |r| && n <= |s| && r[..n] == s[..n] && i + |ms| <= n
    ensures OpensAt(r, ms, i) <==> OpensAt(s, ms, i)
  {
    assert r[i..i + |ms|] == r[..n][i..i + |ms|];
    assert s[i..i + |ms|] == s[..n][i..i + |ms|];
    if i > 0 {
      assert r[i - 1] == r[..n][i - 1] && s[i - 1] == s[..n][i - 1];
    }
  }

  /** Texts agreeing from `a` and `b` onwards close the block at positions
      `a + t` and `b + t` alike. */
  lemma ClosesAtSameSuffix(r: string, s: string, me: string, a: nat, b: nat, t: nat)
    requires a <= |r| && b <= |s| && r[a..] == s[b..]
    ensures ClosesAt(r, me, a + t) <==> ClosesAt(s, me, b + t)
  {
    assert |r| - a == |s| - b;
    if a + t + |me| <= |r| {
      var rr, ss := r[a + t..a + t + |me|], s[b + t..b + t + |me|];
      forall x | 0 <= x < |me| ensures rr[x] == ss[x] {
        assert rr[x] == r[a..][t + x];
        assert ss[x] == s[b..][t + x];
      }
      assert rr == ss;
      if a + t + |me| < |r| {
        assert r[a + t + |me|] == r[a..][t + |me|];
        assert s[b + t + |me|] == s[b..][t + |me|];
      }
    }
  }

  /** A block that starts with the start marker and ends with the end marker. */
  predicate Framed(block: string, ms: string, me: string) {
    |block| >= |ms| + |me| && block[..|ms|] == ms && block[|block| - |me|..] == me
  }

  /** The text with `block` in place of the span from `i` to the end marker at `j`. */
  function Spliced(s: string, me: string, block: string, i: nat, j: nat): string
    requires i <= j && j + |me| <= |s|
  {
    s[..i] + block + s[j + |me|..]
  }

  /** The spliced text agrees with the old one up to the end of the start
      marker, and from the new end marker on with the old one from the old
      end marker on. */
  lemma SplicedAgrees(s: string, ms: string, me: string, block: string, i: nat, j: nat)
    requires IsSpan(s, ms, me, i, j) && Framed(block, ms, me)
    ensures var r := Spliced(s, me, block, i, j);
      && r[..i + |ms|] == s[..i + |ms|]
      && r[i + |block| - |me|..] == s[j..]
  {
    var r := Spliced(s, me, block, i, j);
    var k := j + |me|;
    assert r[i..i + |ms|] == block[..|ms|];
    assert r[..i + |ms|] == r[..i] + r[i..i + |ms|];
    assert s[..i + |ms|] == s[..i] + s[i..i + |ms|];
    var m := i + |block| - |me|;
    assert r[m..m + |me|] == block[|block| - |me|..];
    assert r[m..] == r[m..m + |me|] + r[i + |block|..];
    assert s[j..] == s[j..k] + s[k..];
  }

  lemma SplicedIsSpan(s: string, ms: string, me: string, block: string, i: nat, j: nat)
    requires IsSpan(s, ms, me, i, j) && Framed(block, ms, me)
    ensures IsSpan(Spliced(s, me, block, i, j), ms, me, i, i + |block| - |me|)
  {
    var r := Spliced(s, me, block, i, j);
    SplicedAgrees(s, ms, me, block, i, j);
    OpensAtSamePrefix(r, s, ms, i + |ms|, i);
    ClosesAtSameSuffix(r, s, me, i + |block| - |me|, j, 0);
  }

  lemma SplicedLeftmost(s: string, ms: string, me: string, block: string, i: nat, j: nat)
    requires LeftmostLongest(s, ms, me, i, j) && Framed(block, ms, me)
    ensures forall i': nat, j': nat :: IsSpan(Spliced(s, me, block, i, j), ms, me, i', j') ==> i <= i'
  {
    var r := Spliced(s, me, block, i, j);
    SplicedAgrees(s, ms, me, block, i, j);
    forall i': nat, j': nat | IsSpan(r, ms, me, i', j') ensures i <= i' {
      if i' < i {
        OpensAtSamePrefix(r, s, ms, i + |ms|, i');
        assert IsSpan(s, ms, me, i', j);
      }
    }
  }

  lemma SplicedLongest(s: string, ms: string, me: string, block: string, i: nat, j: nat)
    requires LeftmostLongest(s, ms, me, i, j) && Framed(block, ms, me)
    ensures forall j': nat :: IsSpan(Spliced(s, me, block, i, j), ms, me, i, j') ==> j' <= i + |block| - |me|
  {
    var r := Spliced(s, me, block, i, j);
    var m := i + |block| - |me|;
    SplicedAgrees(s, ms, me, block, i, j);
    forall j': nat | IsSpan(r, ms, me, i, j') ensures j' <= m {
      if j' > m {
        ClosesAtSameSuffix(r, s, me, m, j, j' - m);
        assert IsSpan(s, ms, me, i, j + (j' - m));
      }
    }
  }

  /** The three parts of a spliced text. */
  lemma SplicedSlices(s: string, me: string, block: string, i: nat, j: nat)
    requires i <= j && j + |me| <= |s|
    ensures var r := Spliced(s, me, block, i, j);
      r[..i] == s[..i] && r[i..i + |block|] == block && r[i + |block|..] == s[j + |me|..]
  {
  }

  /** In the spliced text the span found is the new block. */
  lemma SplicedFound(s: string, ms: string, me: string, block: string, i: nat, j: nat)
    requires LeftmostLongest(s, ms, me, i, j) && Framed(block, ms, me)
    ensures FindSpan(Spliced(s, me, block, i, j), ms, me, 0) == Some((i, i + |block| - |me|))
  {
    var r := Spliced(s, me, block, i, j);
    var m := i + |block| - |me|;
    SplicedIsSpan(s, ms, me, block, i, j);
    SplicedLeftmost(s, ms, me, block, i, j);
    SplicedLongest(s, ms, me, block, i, j);
    assert LeftmostLongest(r, ms, me, i, m);
    FindSpanSpec(r, ms, me);
    var (i2, j2) := FindSpan(r, ms, me, 0).value;
    LeftmostLongestUnique(r, ms, me, i, m, i2, j2);
  }

  /** After splicing a block that starts with the start marker and ends with
      the end marker, the match in the new text is exactly that block: the
      text before it and after it is the text around the old match. */
  lemma SpanOfReplaced(s: string, ms: string, me: string, block: string, i: nat, j: nat)
    requires Framed(block, ms, me)
    requires FindSpan(s, ms, me, 0) == Some((i, j))
    ensures var r := ReplaceSpan(s, ms, me, block);
      && r[..i] == s[..i]
      && r[i..i + |block|] == block
      && r[i + |block|..] == s[j + |me|..]
      && FindSpan(r, ms, me, 0) == Some((i, i + |block| - |me|))
  {
    assert LeftmostLongest(s, ms, me, i, j) by { FindSpanSpec(s, ms, me); }
    assert ReplaceSpan(s, ms, me, block) == Spliced(s, me, block, i, j);
    SplicedSlices(s, me, block, i, j);
    SplicedFound(s, ms, me, block, i, j);
  }

  /** Splicing the same block a second time changes nothing. */
  lemma ReplaceSpanIdempotent(s: string, ms: string, me: string, block: string)
    requires Framed(block, ms, me)
    ensures ReplaceSpan(ReplaceSpan(s, ms, me, block), ms, me, block) == ReplaceSpan(s, ms, me, block)
  {
    if FindSpan(s, ms, me, 0).Some? {
      var (i, j) := FindSpan(s, ms, me, 0).value;
      var r := ReplaceSpan(s, ms, me, block);
      SpanOfReplaced(s, ms, me, block, i, j);
      assert r[..i] + block + r[i + |block|..] == r by {
        assert r == r[..i] + r[i..i + |block|] + r[i + |block|..];
      }
    }
  }

  /** A text without a match is returned unchanged. */
  lemma ReplaceSpanWithoutMatch(s: string, ms: string, me: string, block: string)
    requires forall i: nat, j: nat :: !IsSpan(s, ms, me, i, j)
    ensures ReplaceSpan(s, ms, me, block) == s
  {
    FindSpanSpec(s, ms, me);
  }

  /** What `replace_related_prs` returns. */
  function RelatedPrsBody(ph: Placeholders, body: string, thisPr: GitHub.U32,
                          prs: seq<GitHub.PullRequest>): string
  {
    ReplaceSpan(body, ph.relatedPrStart, ph.relatedPrEnd, RelatedBlock(ph, thisPr, prs))
  }

  /** Rewriting a body a second time with the same PRs and number changes nothing. */
  lemma RelatedPrsBodyIdempotent(ph: Placeholders, body: string, thisPr: GitHub.U32,
                                 prs: seq<GitHub.PullRequest>)
    ensures RelatedPrsBody(ph, RelatedPrsBody(ph, body, thisPr, prs), thisPr, prs)
            == RelatedPrsBody(ph, body, thisPr, prs)
  {
    RelatedBlockShape(ph, thisPr, prs);
    ReplaceSpanIdempotent(body, ph.relatedPrStart, ph.relatedPrEnd, RelatedBlock(ph, thisPr, prs));
  }

  /** `replace_related_prs`: builds the block line by line, then splices it
      over the first match. The replacement text is used literally, so it
      must hold no `$` (which `Regex::replace` would expand). */
  method ReplaceRelatedPrs(config: Config, body: string, thisPr: GitHub.U32,
                           prs: seq<GitHub.PullRequest>) returns (r: string)
    requires '$' !in RelatedBlock(config.placeholders, thisPr, prs)
    ensures r == RelatedPrsBody(config.placeholders, body, thisPr, prs)
  {
    var ph := config.placeholders;
    var lines := [ph.relatedPrStart];
    for k := 0 to |prs|
      invariant lines == [ph.relatedPrStart] + PrLines(prs[..k], thisPr)
    {
      var path := TrimStartMatches(prs[k].resourcePath, '/');
      if thisPr == prs[k].number {
        lines := lines + ["- " + path + " - (this pr)"];
      } else {
        lines := lines + ["- " + path];
        assert "- " + path == PrLine(prs[k], thisPr) by {
          assert "- " + path + "" == "- " + path;
        }
      }
      assert PrLines(prs[..k + 1], thisPr) == PrLines(prs[..k], thisPr) + [PrLine(prs[k], thisPr)];
    }
    assert prs[..|prs|] == prs;
    lines := lines + [ph.relatedPrEnd];
    r := ReplaceSpan(body, ph.relatedPrStart, ph.relatedPrEnd, Join(lines, "\n"));
  }
}
