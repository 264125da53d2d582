/**
  The pure parts of the GitHub layer (src/github.rs): parsing a pull-request
  URL, deriving the repository from a resource path, and the dry-run and
  result handling around the `gh` command line. The `gh` process itself is a
  function parameter: given the argument list, it yields what the process
  produced.
 */
module GitHub {
  import opened Wrappers
  import opened Text

  /** Rust's `u32`. */
  type U32 = x: nat | x < 0x1_0000_0000

  /** `PullRequest` as `gh` returns it. */
  datatype PullRequest = PullRequest(id: string, title: string, resourcePath: string, number: U32, body: string)

  // ---------------------------------------------------------------------
  // Decimal numbers (`u32::from_str` and `to_string`)
  // ---------------------------------------------------------------------

  predicate IsDigit(c: char) {
    '0' <= c <= '9'
  }

  predicate AllDigits(s: string) {
    forall k :: 0 <= k < |s| ==> IsDigit(s[k])
  }

  function DigitValue(c: char): nat
    requires IsDigit(c)
  {
    c as nat - '0' as nat
  }

  function DigitChar(d: nat): (c: char)
    requires d < 10
    ensures IsDigit(c) && DigitValue(c) == d
  {
    ('0' as nat + d) as char
  }

  /** The value of the digits `ds` read after the already accumulated value `acc`. */
  function ValueFrom(acc: nat, ds: string): (v: nat)
    requires AllDigits(ds)
    ensures v >= acc
    decreases |ds|
  {
    if ds == [] then acc else ValueFrom(acc * 10 + DigitValue(ds[0]), ds[1..])
  }

  lemma {:induction false} ValueFromSnoc(acc: nat, ds: string, c: char)
    requires AllDigits(ds) && IsDigit(c)
    ensures AllDigits(ds + [c])
    ensures ValueFrom(acc, ds + [c]) == ValueFrom(acc, ds) * 10 + DigitValue(c)
    decreases |ds|
  {
    if ds == [] {
      assert [] + [c] == [c];
    } else {
      assert (ds + [c])[1..] == ds[1..] + [c];
      ValueFromSnoc(acc * 10 + DigitValue(ds[0]), ds[1..], c);
    }
  }

  /** `to_string` on an unsigned number: its decimal digits, no leading zero. */
  function Decimal(n: nat): (s: string)
    ensures s != [] && AllDigits(s)
    ensures ValueFrom(0, s) == n
    ensures |s| > 1 ==> s[0] != '0'
  {
    if n < 10 then [DigitChar(n)]
    else
      var init := Decimal(n / 10);
      ValueFromSnoc(0, init, DigitChar(n % 10));
      init + [DigitChar(n % 10)]
  }

  /** The digit loop of `u32::from_str`: `None` on a non-digit or as soon as the value leaves `u32`. */
  function Accumulate(ds: string, acc: U32): Option<U32>
    decreases |ds|
  {
    if ds == [] then Some(acc)
    else if !IsDigit(ds[0]) then None
    else
      var next := acc * 10 + DigitValue(ds[0]);
      if next >= 0x1_0000_0000 then None else Accumulate(ds[1..], next)
  }

  /** `u32::from_str`: an optional `+`, then at least one ASCII digit. */
  function ParseU32(s: string): Option<U32> {
    if s == [] then None
    else
      var ds := if s[0] == '+' then s[1..] else s;
      if ds == [] then None else Accumulate(ds, 0)
  }

  lemma {:induction false} AccumulateSpec(ds: string, acc: U32)
    ensures Accumulate(ds, acc).Some? <==> AllDigits(ds) && ValueFrom(acc, ds) < 0x1_0000_0000
    ensures Accumulate(ds, acc).Some? ==> Accumulate(ds, acc).value == ValueFrom(acc, ds)
    decreases |ds|
  {
    if ds != [] {
      if IsDigit(ds[0]) {
        var next := acc * 10 + DigitValue(ds[0]);
        if next < 0x1_0000_0000 {
          AccumulateSpec(ds[1..], next);
          assert AllDigits(ds) <==> AllDigits(ds[1..]);
        } else if AllDigits(ds) {
          assert ValueFrom(acc, ds) == ValueFrom(next, ds[1..]);
        }
      }
    }
  }

  /** `parse::<u32>()` succeeds exactly on an optional `+` followed by a
      non-empty run of digits whose value fits in 32 bits, and yields that value. */
  lemma ParseU32Spec(s: string)
    ensures var ds := if s != [] && s[0] == '+' then s[1..] else s;
      && (ParseU32(s).Some? <==> ds != [] && AllDigits(ds) && ValueFrom(0, ds) < 0x1_0000_0000)
      && (ParseU32(s).Some? ==> ParseU32(s).value == ValueFrom(0, ds))
  {
    if s != [] {
      AccumulateSpec(if s[0] == '+' then s[1..] else s, 0);
    }
  }

  /** Parsing the canonical rendering of a `u32` gives it back. */
  lemma ParseDecimal(n: U32)
    ensures ParseU32(Decimal(n)) == Some(n)
  {
    AccumulateSpec(Decimal(n), 0);
  }

  // ---------------------------------------------------------------------
  // `parse_pr_url`
  // ---------------------------------------------------------------------

  const HttpsHost := "https://github.com/"
  const HttpHost := "http://github.com/"

  /** The path after the host, when the trimmed URL starts with either accepted prefix. */
  function StripHost(u: string): Option<string> {
    if StartsWith(u, HttpsHost) then Some(u[|HttpsHost|..])
    else if StartsWith(u, HttpHost) then Some(u[|HttpHost|..])
    else None
  }

  /** The part of `parse_pr_url` after the host: `owner/repo/pull/number[/...]`. */
  function ParsePath(path: string): Option<(U32, string)> {
    var parts := Split(path, "/");
    if |parts| < 4 || parts[2] != "pull" then None
    else match ParseU32(parts[3])
      case None => None
      case Some(n) => Some((n, "/" + parts[0] + "/" + parts[1] + "/pull/" + Decimal(n)))
  }

  /** `parse_pr_url`. */
  function ParsePrUrl(url: string): Option<(U32, string)> {
    match StripHost(Trim(url))
    case None => None
    case Some(path) => ParsePath(path)
  }

  /** Splitting on `/` peels off three leading segments that hold no `/`. */
  lemma SplitThreeSegments(a: string, b: string, c: string, rest: string)
    requires '/' !in a && '/' !in b && '/' !in c
    ensures Split(a + "/" + b + "/" + c + "/" + rest, "/") == [a, b, c] + Split(rest, "/")
  {
    calc {
      Split(a + "/" + b + "/" + c + "/" + rest, "/");
      { assert a + "/" + b + "/" + c + "/" + rest == a + ['/'] + (b + ['/'] + (c + ['/'] + rest)); }
      Split(a + ['/'] + (b + ['/'] + (c + ['/'] + rest)), ['/']);
      { SplitAtFirstSeparator(a, '/', b + ['/'] + (c + ['/'] + rest)); }
      [a] + Split(b + ['/'] + (c + ['/'] + rest), ['/']);
      { SplitAtFirstSeparator(b, '/', c + ['/'] + rest); }
      [a] + ([b] + Split(c + ['/'] + rest, ['/']));
      { SplitAtFirstSeparator(c, '/', rest); }
      [a] + ([b] + ([c] + Split(rest, ['/'])));
      [a, b, c] + Split(rest, "/");
    }
  }

  /** The first `/`-separated segment of `num + tail` is `num`. */
  lemma FirstSegment(num: string, tail: string)
    requires '/' !in num
    requires tail == [] || tail[0] == '/'
    ensures Split(num + tail, "/")[0] == num
  {
    if tail == [] {
      calc {
        Split(num + tail, "/");
        { assert num + tail == num; }
        Split(num, ['/']);
        { SplitWithoutSeparator(num, '/'); }
        [num];
      }
    } else {
      calc {
        Split(num + tail, "/");
        { assert num + tail == num + ['/'] + tail[1..]; }
        Split(num + ['/'] + tail[1..], ['/']);
        { SplitAtFirstSeparator(num, '/', tail[1..]); }
        [num] + Split(tail[1..], ['/']);
      }
    }
  }

  /** A path of the form `owner/repo/pull/number` followed by nothing or by
      `/...` parses as the number, with the canonical path; the segments after
      the number are ignored. */
  lemma ParsePathSegments(owner: string, repo: string, num: string, tail: string)
    requires '/' !in owner && '/' !in repo && '/' !in num
    requires tail == [] || tail[0] == '/'
    ensures ParsePath(owner + "/" + repo + "/pull/" + num + tail)
            == match ParseU32(num)
               case None => None
               case Some(n) => Some((n, "/" + owner + "/" + repo + "/pull/" + Decimal(n)))
  {
    var path := owner + "/" + repo + "/pull/" + num + tail;
    var parts := Split(path, "/");
    assert parts == [owner, repo, "pull"] + Split(num + tail, "/") by {
      assert path == owner + "/" + repo + "/" + "pull" + "/" + (num + tail);
      SplitThreeSegments(owner, repo, "pull", num + tail);
    }
    assert parts[3] == num by {
      FirstSegment(num, tail);
    }
  }

  /** Both accepted prefixes give the same result. */
  lemma SchemeIrrelevant(rest: string)
    ensures ParsePrUrl(HttpsHost + rest) == ParsePrUrl(HttpHost + rest)
  {
    UnderHttps(rest);
    UnderHttp(rest);
  }

  /** Trimming a text that starts with a host prefix trims only its end. */
  lemma TrimAfterHost(h: string, rest: string)
    requires h != [] && !IsWhitespace(h[0]) && !IsWhitespace(h[|h| - 1])
    ensures Trim(h + rest) == h + TrimEnd(rest)
  {
    assert TrimStart(h + rest) == h + rest;
    TrimEndAppend(h, rest);
  }

  /** A text that starts with one prefix and the rest behind it. */
  lemma PrefixThenRest(h: string, rest: string)
    ensures StartsWith(h + rest, h) && (h + rest)[|h|..] == rest
  {
    assert (h + rest)[..|h|] == h;
  }

  /** A text that differs from `h` at position `k` does not start with `h`. */
  lemma DiffersFrom(h: string, u: string, k: nat)
    requires k < |h| && k < |u| && u[k] != h[k]
    ensures !StartsWith(u, h)
  {
  }

  /** The two prefixes part at their fifth character. */
  lemma HostsDiffer()
    ensures |HttpHost| > 4 && |HttpsHost| > 4 && HttpHost[4] != HttpsHost[4]
  {
  }

  /** Behind the `https` prefix only the path, trimmed at its end, matters. */
  lemma UnderHttps(rest: string)
    ensures ParsePrUrl(HttpsHost + rest) == ParsePath(TrimEnd(rest))
  {
    TrimAfterHost(HttpsHost, rest);
    PrefixThenRest(HttpsHost, TrimEnd(rest));
  }

  /** Behind the `http` prefix only the path, trimmed at its end, matters. */
  lemma UnderHttp(rest: string)
    ensures ParsePrUrl(HttpHost + rest) == ParsePath(TrimEnd(rest))
  {
    var u := HttpHost + TrimEnd(rest);
    HostsDiffer();
    assert u[4] == HttpHost[4];
    DiffersFrom(HttpsHost, u, 4);
    TrimAfterHost(HttpHost, rest);
    PrefixThenRest(HttpHost, TrimEnd(rest));
  }

  /** A URL starting with neither prefix (after trimming) is rejected. */
  lemma OtherHostRejected(url: string)
    requires !StartsWith(Trim(url), HttpsHost) && !StartsWith(Trim(url), HttpHost)
    ensures ParsePrUrl(url) == None
  {
  }

  /** Whitespace around the URL is ignored. */
  lemma SurroundingWhitespaceIgnored(a: string, url: string, b: string)
    requires AllWhitespace(a) && AllWhitespace(b)
    ensures ParsePrUrl(a + url + b) == ParsePrUrl(url)
  {
    TrimIgnoresSurroundings(a, url, b);
  }

  /** A successful parse yields a canonical path `/owner/repo/pull/n`, owner
      and repository free of `/`, and `n` in canonical decimal. */
  lemma ParsedShape(url: string)
    requires ParsePrUrl(url).Some?
    ensures var (n, p) := ParsePrUrl(url).value;
      exists owner, repo :: '/' !in owner && '/' !in repo && p == "/" + owner + "/" + repo + "/pull/" + Decimal(n)
  {
    var path := StripHost(Trim(url)).value;
    var parts := Split(path, "/");
    NoSeparatorInPieces(path, '/');
    assert '/' !in parts[0] && '/' !in parts[1];
  }

  /** Canonical decimal digits hold no `/`. */
  lemma NoSlashInDecimal(n: nat)
    ensures '/' !in Decimal(n)
  {
    var d := Decimal(n);
    forall k | 0 <= k < |d| ensures d[k] != '/' {
      assert IsDigit(d[k]);
    }
  }

  /** Regrouping the concatenation of a URL prefix and a path. */
  lemma MoveSeparator(h: string, s: string, a: string, b: string, m: string, d: string)
    ensures h + (s + a + s + b + m + d) == (h + s) + (a + s + b + m + d)
  {
  }

  /** Regrouping a path whose middle segment starts with the separator. */
  lemma RegroupPath(s: string, a: string, b: string, q: string, d: string)
    ensures s + a + s + b + (s + q) + d == [] + s + a + s + b + s + (q + d)
  {
  }

  lemma DigitNotWhitespace(c: char)
    requires IsDigit(c)
    ensures !IsWhitespace(c)
  {
  }

  /** Re-parsing the canonical URL of a parsed pull request gives the same result. */
  lemma ParseRoundTrip(url: string)
    requires ParsePrUrl(url).Some?
    ensures var (n, p) := ParsePrUrl(url).value;
      ParsePrUrl("https://github.com" + p) == Some((n, p))
  {
    var (n, p) := ParsePrUrl(url).value;
    ParsedShape(url);
    var owner, repo :| '/' !in owner && '/' !in repo && p == "/" + owner + "/" + repo + "/pull/" + Decimal(n);
    var u := "https://github.com" + p;
    var path := owner + "/" + repo + "/pull/" + Decimal(n);
    assert u == HttpsHost + path by {
      MoveSeparator("https://github.com", "/", owner, repo, "/pull/", Decimal(n));
      assert "https://github.com" + "/" == HttpsHost;
    }
    UnderHttps(path);
    assert TrimEnd(path) == path by {
      var d := Decimal(n);
      assert path[|path| - 1] == d[|d| - 1];
      DigitNotWhitespace(d[|d| - 1]);
    }
    assert ParsePath(path) == Some((n, p)) by {
      NoSlashInDecimal(n);
      assert path + [] == path;
      ParsePathSegments(owner, repo, Decimal(n), []);
      ParseDecimal(n);
    }
  }

  // ---------------------------------------------------------------------
  // Running `gh`
  // ---------------------------------------------------------------------

  /** What running `gh` produced: the process could not be spawned, or it
      exited with a status and its output. */
  datatype GhOutput = SpawnFailed(reason: string) | Exited(success: bool, stdout: string, stderr: string)

  /** The shared handling of a `gh` invocation's outcome: it succeeds exactly
      when `gh` ran and exited successfully, and what it hands back then has
      no whitespace left at either end. */
  function GhResult(output: GhOutput, failure: string): (r: Result<string, string>)
    ensures r.Ok? <==> output.Exited? && output.success
    ensures r.Ok? ==> r.value == [] || (!IsWhitespace(r.value[0]) && !IsWhitespace(r.value[|r.value| - 1]))
  {
    match output
    case SpawnFailed(reason) => Err("Failed to execute gh command: " + reason)
    case Exited(success, stdout, stderr) =>
      if !success then Err(failure + stderr) else Ok(Trim(stdout))
  }

  /** The argument list of `gh pr create`. */
  function CreateArgs(base: string, title: string, body: string, reviewers: seq<string>): seq<string> {
    ["pr", "create", "-B", base, "-t", title, "-a", "@me", "-b", body, "-r", Join(reviewers, ",")]
  }

  /** `publish_pr`. */
  function PublishPr(base: string, title: string, body: string, reviewers: seq<string>, dryRun: bool,
                     gh: seq<string> -> GhOutput): Result<string, string>
  {
    if dryRun then Ok("Dry run - no PR created")
    else GhResult(gh(CreateArgs(base, title, body, reviewers)), "Failed to create PR: ")
  }

  /** The `owner/repo` taken from a resource path, or the error for a path
      with fewer than four `/`-separated parts. */
  function UpdateTarget(resourcePath: string): Result<string, string> {
    var parts := Split(resourcePath, "/");
    if |parts| < 4 then Err("Invalid resource path: " + resourcePath)
    else Ok(parts[1] + "/" + parts[2])
  }

  /** `update_pr`. */
  function UpdatePr(number: U32, resourcePath: string, body: string, dryRun: bool,
                    gh: seq<string> -> GhOutput): Result<string, string>
  {
    match UpdateTarget(resourcePath)
    case Err(e) => Err(e)
    case Ok(repo) =>
      if dryRun then Ok("Dry run - no PR updated")
      else GhResult(gh(EditArgs(number, repo, body)), "Failed to update PR: ")
  }

  /** The argument list of `gh pr edit`. */
  function EditArgs(number: U32, repo: string, body: string): seq<string> {
    ["pr", "edit", Decimal(number), "--repo", repo, "-b", body]
  }

  /** Outside a dry run, `publish_pr` runs `gh` once, on the `pr create`
      arguments: it succeeds exactly when that run exits successfully, and no
      other answer of `gh` can change its result. */
  lemma PublishOutcome(base: string, title: string, body: string, reviewers: seq<string>,
                       gh1: seq<string> -> GhOutput, gh2: seq<string> -> GhOutput)
    ensures var out := gh1(CreateArgs(base, title, body, reviewers));
            PublishPr(base, title, body, reviewers, false, gh1).Ok? <==> out.Exited? && out.success
    ensures gh1(CreateArgs(base, title, body, reviewers)) == gh2(CreateArgs(base, title, body, reviewers)) ==>
            PublishPr(base, title, body, reviewers, false, gh1) == PublishPr(base, title, body, reviewers, false, gh2)
  {
  }

  /** Outside a dry run and for a well-formed resource path, `update_pr` runs
      `gh` once, on the `pr edit` arguments for `owner/repo`: it succeeds
      exactly when that run exits successfully, and no other answer of `gh`
      can change its result. */
  lemma UpdateOutcome(number: U32, resourcePath: string, body: string,
                      gh1: seq<string> -> GhOutput, gh2: seq<string> -> GhOutput)
    requires UpdateTarget(resourcePath).Ok?
    ensures var out := gh1(EditArgs(number, UpdateTarget(resourcePath).value, body));
            UpdatePr(number, resourcePath, body, false, gh1).Ok? <==> out.Exited? && out.success
    ensures var args := EditArgs(number, UpdateTarget(resourcePath).value, body);
            gh1(args) == gh2(args) ==> UpdatePr(number, resourcePath, body, false, gh1) == UpdatePr(number, resourcePath, body, false, gh2)
  {
  }

  /** With `dry_run`, neither operation depends on what `gh` would do. */
  lemma DryRunSkipsGh(gh1: seq<string> -> GhOutput, gh2: seq<string> -> GhOutput,
                      base: string, title: string, body: string, reviewers: seq<string>,
                      number: U32, resourcePath: string)
    ensures PublishPr(base, title, body, reviewers, true, gh1) == PublishPr(base, title, body, reviewers, true, gh2)
            == Ok("Dry run - no PR created")
    ensures UpdatePr(number, resourcePath, body, true, gh1) == UpdatePr(number, resourcePath, body, true, gh2)
    ensures UpdateTarget(resourcePath).Ok? ==> UpdatePr(number, resourcePath, body, true, gh1) == Ok("Dry run - no PR updated")
  {
  }

  /** Every path that `parse_pr_url` produces passes the check in `update_pr`,
      which then targets `owner/repo`. */
  lemma ParsedPathTarget(url: string)
    requires ParsePrUrl(url).Some?
    ensures var (n, p) := ParsePrUrl(url).value;
      exists owner, repo :: p == "/" + owner + "/" + repo + "/pull/" + Decimal(n)
                            && UpdateTarget(p) == Ok(owner + "/" + repo)
  {
    var (n, p) := ParsePrUrl(url).value;
    ParsedShape(url);
    var owner, repo :| '/' !in owner && '/' !in repo && p == "/" + owner + "/" + repo + "/pull/" + Decimal(n);
    var parts := Split(p, "/");
    assert parts == [[], owner, repo] + Split("pull/" + Decimal(n), "/") by {
      assert "/pull/" == "/" + "pull/";
      RegroupPath("/", owner, repo, "pull/", Decimal(n));
      SplitThreeSegments([], owner, repo, "pull/" + Decimal(n));
    }
    assert |parts| >= 4 && parts[1] == owner && parts[2] == repo;
  }

  // ---------------------------------------------------------------------
  // The cases exercised by the unit tests of `parse_pr_url`
  // ---------------------------------------------------------------------

  /** A trimmed URL with either accepted prefix, followed by
      `owner/repo/pull/number` and nothing or `/...`, parses as `ParsePath` of
      its path. */
  lemma ParseUrlSegments(host: string, owner: string, repo: string, num: string, tail: string)
    requires host == HttpsHost || host == HttpHost
    requires '/' !in owner && '/' !in repo && '/' !in num
    requires tail == [] || tail[0] == '/'
    requires num + tail != [] && !IsWhitespace((num + tail)[|num + tail| - 1])
    ensures ParsePrUrl(host + owner + "/" + repo + "/pull/" + num + tail)
            == match ParseU32(num)
               case None => None
               case Some(n) => Some((n, "/" + owner + "/" + repo + "/pull/" + Decimal(n)))
  {
    var path := owner + "/" + repo + "/pull/" + num + tail;
    var u := host + owner + "/" + repo + "/pull/" + num + tail;
    assert u == host + path by {
      RegroupUrl(host, owner, "/", repo, "/pull/", num, tail);
    }
    assert Trim(u) == u by {
      assert u[0] == 'h';
      assert u[|u| - 1] == (num + tail)[|num + tail| - 1];
      TrimOfTrimmed(u);
    }
    assert StripHost(u) == Some(path) by {
      assert u[..|host|] == host;
      assert u[|host|..] == path;
      if host == HttpHost {
        assert u[4] != HttpsHost[4];
      }
    }
    ParsePathSegments(owner, repo, num, tail);
  }

  /** Regrouping a URL into its prefix and its path. */
  lemma RegroupUrl(h: string, a: string, s: string, b: string, m: string, c: string, t: string)
    ensures h + a + s + b + m + c + t == h + (a + s + b + m + c + t)
  {
  }

  /** A path whose third segment is not `pull` is rejected. */
  lemma NotPullRejected(owner: string, repo: string, kind: string, rest: string)
    requires '/' !in owner && '/' !in repo && '/' !in kind
    requires kind != "pull"
    ensures ParsePath(owner + "/" + repo + "/" + kind + "/" + rest) == None
  {
    SplitThreeSegments(owner, repo, kind, rest);
  }

  /** Splitting two segments that hold no `/`. */
  lemma SplitTwo(owner: string, repo: string)
    requires '/' !in owner && '/' !in repo
    ensures Split(owner + "/" + repo, "/") == [owner, repo]
  {
    assert owner + "/" + repo == owner + ['/'] + repo;
    SplitAtFirstSeparator(owner, '/', repo);
    SplitWithoutSeparator(repo, '/');
  }

  /** Splitting three segments that hold no `/`. */
  lemma SplitThree(owner: string, repo: string, kind: string)
    requires '/' !in owner && '/' !in repo && '/' !in kind
    ensures Split(owner + "/" + repo + "/" + kind, "/") == [owner, repo, kind]
  {
    assert owner + "/" + repo + "/" + kind == owner + ['/'] + (repo + "/" + kind);
    SplitAtFirstSeparator(owner, '/', repo + "/" + kind);
    SplitTwo(repo, kind);
  }

  /** A path with fewer than three `/` is rejected. */
  lemma ShortPathRejected(owner: string, repo: string, kind: string)
    requires '/' !in owner && '/' !in repo && '/' !in kind
    ensures ParsePath(owner) == None
    ensures ParsePath(owner + "/" + repo) == None
    ensures ParsePath(owner + "/" + repo + "/" + kind) == None
  {
    SplitWithoutSeparator(owner, '/');
    SplitTwo(owner, repo);
    SplitThree(owner, repo, kind);
  }
}
