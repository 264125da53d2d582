/**
  Tag extraction and the history of previously used tags (src/tags.rs).

  The tag pattern `\[(\w+\-?)*]` is modelled as a grammar, with `\w`
  restricted to ASCII letters, digits and `_`.
 */
module Tags {
  import opened Wrappers
  import opened Text

  // ---------------------------------------------------------------------
  // The tag pattern
  // ---------------------------------------------------------------------

  predicate IsWordChar(c: char) {
    'a' <= c <= 'z' || 'A' <= c <= 'Z' || '0' <= c <= '9' || c == '_'
  }

  predicate IsTagChar(c: char) {
    IsWordChar(c) || c == '-'
  }

  /** `(\w+\-?)*` as a grammar: nothing, or a word character that starts a Run. */
  predicate Blocks(t: string)
    decreases |t|
  {
    t == [] || (IsWordChar(t[0]) && Run(t[1..]))
  }

  /** The rest of a block `\w+\-?` after its first word character: more word
      characters, or a hyphen ending the block before further Blocks, or nothing. */
  predicate Run(t: string)
    decreases |t|
  {
    t == [] || (IsWordChar(t[0]) && Run(t[1..])) || (t[0] == '-' && Blocks(t[1..]))
  }

  predicate AllTagChars(t: string) {
    forall k :: 0 <= k < |t| ==> IsTagChar(t[k])
  }

  predicate NoDoubleHyphen(t: string) {
    forall k :: 0 <= k < |t| - 1 ==> !(t[k] == '-' && t[k + 1] == '-')
  }

  /** The bracket contents the pattern accepts, stated directly: empty, or a
      word character followed by word characters and hyphens, never two
      hyphens in a row. */
  predicate ValidTag(t: string) {
    t == [] || (IsWordChar(t[0]) && AllTagChars(t) && NoDoubleHyphen(t))
  }

  lemma {:induction false} RunMeansTagChars(t: string)
    ensures Run(t) <==> AllTagChars(t) && NoDoubleHyphen(t)
    decreases |t|
  {
    if t != [] {
      RunMeansTagChars(t[1..]);
      if IsWordChar(t[0]) {
        assert AllTagChars(t) <==> AllTagChars(t[1..]);
        assert NoDoubleHyphen(t) <==> NoDoubleHyphen(t[1..]);
      } else if t[0] == '-' && |t| >= 2 {
        RunMeansTagChars(t[2..]);
        assert t[1..][1..] == t[2..];
        assert AllTagChars(t) <==> IsTagChar(t[1]) && AllTagChars(t[2..]);
        assert NoDoubleHyphen(t) <==> t[1] != '-' && NoDoubleHyphen(t[1..]);
        if IsWordChar(t[1]) {
          assert NoDoubleHyphen(t[1..]) <==> NoDoubleHyphen(t[2..]);
        }
      }
    }
  }

  /** The grammar accepts exactly the contents described by ValidTag. */
  lemma BlocksMeansValidTag(t: string)
    ensures Blocks(t) <==> ValidTag(t)
  {
    if t != [] {
      RunMeansTagChars(t[1..]);
      if IsWordChar(t[0]) {
        assert AllTagChars(t) <==> AllTagChars(t[1..]);
        assert NoDoubleHyphen(t) <==> NoDoubleHyphen(t[1..]);
      }
    }
  }

  /** The first index at or after `k` whose character cannot occur between the brackets. */
  function TagEnd(s: string, k: nat): (j: nat)
    requires k <= |s|
    ensures k <= j <= |s|
    ensures forall m :: k <= m < j ==> IsTagChar(s[m])
    ensures j < |s| ==> !IsTagChar(s[j])
    decreases |s| - k
  {
    if k == |s| || !IsTagChar(s[k]) then k else TagEnd(s, k + 1)
  }

  /** The pattern matches at `i`: the contents run to the first character that
      is neither a word character nor a hyphen, which must be `]`. */
  predicate MatchAt(s: string, i: nat) {
    i < |s| && s[i] == '[' && TagEnd(s, i + 1) < |s| && s[TagEnd(s, i + 1)] == ']'
    && Blocks(s[i + 1..TagEnd(s, i + 1)])
  }

  /** `s[i..j+1]` is an occurrence of the pattern: `[`, valid contents, `]`. */
  predicate IsMatch(s: string, i: nat, j: nat) {
    i < j < |s| && s[i] == '[' && s[j] == ']' && ValidTag(s[i + 1..j])
  }

  ghost predicate HasMatch(s: string) {
    exists i: nat, j: nat :: IsMatch(s, i, j)
  }

  /** The match `s[i..j+1]` starts no later than any other match. */
  ghost predicate LeftmostMatch(s: string, i: nat, j: nat) {
    IsMatch(s, i, j) && forall i': nat, j': nat :: IsMatch(s, i', j') ==> i <= i'
  }

  /** A match starting at `i` can only end at `TagEnd(s, i + 1)`. */
  lemma MatchEnd(s: string, i: nat, j: nat)
    requires IsMatch(s, i, j)
    ensures j == TagEnd(s, i + 1) && MatchAt(s, i)
  {
    BlocksMeansValidTag(s[i + 1..j]);
  }

  lemma MatchAtIsMatch(s: string, i: nat)
    requires MatchAt(s, i)
    ensures IsMatch(s, i, TagEnd(s, i + 1))
  {
    BlocksMeansValidTag(s[i + 1..TagEnd(s, i + 1)]);
  }

  /** The leftmost position at or after `from` where the pattern matches. */
  function FirstMatchFrom(s: string, from: nat): (r: Option<nat>)
    requires from <= |s|
    ensures r.Some? ==> from <= r.value < |s| && MatchAt(s, r.value)
    ensures r.Some? ==> forall k: nat :: from <= k < r.value ==> !MatchAt(s, k)
    ensures r.None? ==> forall k: nat :: from <= k < |s| ==> !MatchAt(s, k)
    decreases |s| - from
  {
    if from == |s| then None
    else if MatchAt(s, from) then Some(from)
    else FirstMatchFrom(s, from + 1)
  }

  /** `m.as_str().replace(['[', ']'], "")`. */
  function RemoveBrackets(m: string): string {
    if m == [] then []
    else (if m[0] == '[' || m[0] == ']' then [] else [m[0]]) + RemoveBrackets(m[1..])
  }

  lemma {:induction false} RemoveBracketsBeforeClose(t: string)
    requires '[' !in t && ']' !in t
    ensures RemoveBrackets(t + "]") == t
    decreases |t|
  {
    if t == [] {
      assert RemoveBrackets("]") == [] + RemoveBrackets([]);
    } else {
      assert (t + "]")[1..] == t[1..] + "]";
      RemoveBracketsBeforeClose(t[1..]);
      assert [t[0]] + t[1..] == t;
    }
  }

  /** Removing the brackets around bracket-free contents gives the contents back. */
  lemma RemoveBracketsOfMatch(t: string)
    requires AllTagChars(t)
    ensures RemoveBrackets("[" + t + "]") == t
  {
    assert '[' !in t && ']' !in t by {
      forall k | 0 <= k < |t| ensures t[k] != '[' && t[k] != ']' {
        assert IsTagChar(t[k]);
      }
    }
    RemoveBracketsBeforeClose(t);
    assert ("[" + t + "]")[1..] == t + "]";
  }

  /** `extract_from_str`: the contents of the leftmost match, brackets removed. */
  function ExtractFromStr(message: string): Option<string> {
    match FirstMatchFrom(message, 0)
    case None => None
    case Some(i) => Some(RemoveBrackets(message[i..TagEnd(message, i + 1) + 1]))
  }

  /** Removing the brackets from a match leaves exactly its contents. */
  lemma ExtractFromStrIsContents(s: string)
    ensures FirstMatchFrom(s, 0).Some? ==>
      var i := FirstMatchFrom(s, 0).value;
      ExtractFromStr(s) == Some(s[i + 1..TagEnd(s, i + 1)]) && IsMatch(s, i, TagEnd(s, i + 1))
  {
    if FirstMatchFrom(s, 0).Some? {
      var i := FirstMatchFrom(s, 0).value;
      var j := TagEnd(s, i + 1);
      var t := s[i + 1..j];
      MatchAtIsMatch(s, i);
      assert s[i..j + 1] == "[" + t + "]";
      RemoveBracketsOfMatch(t);
    }
  }

  /** `extract_from_str` returns the contents of the leftmost match, and
      nothing exactly when there is no match. */
  lemma ExtractFromStrSpec(s: string)
    ensures ExtractFromStr(s).None? <==> !HasMatch(s)
    ensures ExtractFromStr(s).Some? ==>
      var t := ExtractFromStr(s).value;
      ValidTag(t) && exists i: nat, j: nat :: LeftmostMatch(s, i, j) && t == s[i + 1..j]
  {
    ExtractFromStrIsContents(s);
    var r := FirstMatchFrom(s, 0);
    if r.None? {
      forall i: nat, j: nat | IsMatch(s, i, j) ensures false {
        MatchEnd(s, i, j);
      }
    } else {
      var i := r.value;
      var j := TagEnd(s, i + 1);
      MatchAtIsMatch(s, i);
      var t := ExtractFromStr(s).value;
      forall i': nat, j': nat | IsMatch(s, i', j') ensures i <= i' {
        MatchEnd(s, i', j');
      }
      assert LeftmostMatch(s, i, j);
    }
  }

  /** A bracketed valid tag at the start of a message is what gets extracted,
      whatever follows it. */
  lemma ExtractRoundTrip(t: string, rest: string)
    requires ValidTag(t)
    ensures ExtractFromStr("[" + t + "]" + rest) == Some(t)
  {
    var s := "[" + t + "]" + rest;
    assert s[1..|t| + 1] == t;
    assert IsMatch(s, 0, |t| + 1);
    MatchEnd(s, 0, |t| + 1);
    assert FirstMatchFrom(s, 0) == Some(0);
    ExtractFromStrIsContents(s);
  }

  /** A valid tag inside doubled opening brackets is still what gets
      extracted: no match starts at the outer `[`, because the inner `[` can
      neither continue nor close a tag. */
  lemma ExtractDoubleBracket(t: string, rest: string)
    requires ValidTag(t)
    ensures ExtractFromStr("[[" + t + "]" + rest) == Some(t)
  {
    var s := "[[" + t + "]" + rest;
    assert s[1] == '[' && !IsTagChar(s[1]);
    assert !MatchAt(s, 0);
    assert s[2..|t| + 2] == t;
    assert IsMatch(s, 1, |t| + 2);
    MatchEnd(s, 1, |t| + 2);
    assert FirstMatchFrom(s, 0) == Some(1);
    ExtractFromStrIsContents(s);
  }

  /** The extraction example `[TRACK-123]: Add feature`. */
  lemma ExtractTrackExample()
    ensures ExtractFromStr("[TRACK-123]: Add feature") == Some("TRACK-123")
  {
    assert "[TRACK-123]: Add feature" == "[" + "TRACK-123" + "]" + ": Add feature";
    ExtractRoundTrip("TRACK-123", ": Add feature");
  }

  /** The extraction example `[ABC]: Simple tag`. */
  lemma ExtractSimpleExample()
    ensures ExtractFromStr("[ABC]: Simple tag") == Some("ABC")
  {
    assert "[ABC]: Simple tag" == "[" + "ABC" + "]" + ": Simple tag";
    ExtractRoundTrip("ABC", ": Simple tag");
  }

  /** A title without an opening bracket has no tag. */
  lemma NoBracketNoTag(s: string)
    requires '[' !in s
    ensures ExtractFromStr(s) == None
  {
    forall k: nat | k < |s| ensures !MatchAt(s, k) {
      assert s[k] in s;
    }
  }

  /** The example `No tag here`. */
  lemma ExtractUntaggedExample()
    ensures ExtractFromStr("No tag here") == None
  {
    assert '[' !in "No tag here";
    NoBracketNoTag("No tag here");
  }

  datatype Validation = Valid | Invalid(message: string)

  /** `Tags::validator`: accepts the input exactly when the pattern matches somewhere in it. */
  function Validator(ticket: string): (v: Validation)
    ensures v.Valid? <==> HasMatch(ticket)
    ensures v.Invalid? ==> v.message == "This does not look like a valid tag (e.g., TRACK-123)"
  {
    ExtractFromStrSpec(ticket);
    if FirstMatchFrom(ticket, 0).Some? then Valid
    else Invalid("This does not look like a valid tag (e.g., TRACK-123)")
  }

  /** A valid tag in brackets passes the validator. */
  lemma ValidatorAcceptsBracketed(t: string)
    requires ValidTag(t)
    ensures Validator("[" + t + "]").Valid?
  {
    var s := "[" + t + "]";
    assert s[1..|t| + 1] == t;
    assert IsMatch(s, 0, |t| + 1);
  }

  /** A bare tag without brackets does not pass the validator. */
  lemma ValidatorRejectsBareTag()
    ensures Validator("TRACK-123").Invalid?
  {
    assert '[' !in "TRACK-123";
  }

  // ---------------------------------------------------------------------
  // Extraction from a list of commit messages
  // ---------------------------------------------------------------------

  /** The first message, in order, that holds a tag, paired with that message. */
  function FirstTagged(commits: seq<string>): Option<(string, string)> {
    if commits == [] then None
    else match ExtractFromStr(commits[0])
      case Some(tag) => Some((tag, commits[0]))
      case None => FirstTagged(commits[1..])
  }

  /** `None` exactly when no message holds a tag; otherwise the tag of the
      first tagged message, paired with that message unchanged. */
  lemma {:induction false} FirstTaggedSpec(commits: seq<string>)
    ensures FirstTagged(commits).None? <==> forall k :: 0 <= k < |commits| ==> ExtractFromStr(commits[k]).None?
    ensures FirstTagged(commits).Some? ==>
      exists k :: 0 <= k < |commits| && ExtractFromStr(commits[k]).Some?
                  && FirstTagged(commits).value == (ExtractFromStr(commits[k]).value, commits[k])
                  && forall m :: 0 <= m < k ==> ExtractFromStr(commits[m]).None?
    decreases |commits|
  {
    if commits != [] && ExtractFromStr(commits[0]).None? {
      var rest := commits[1..];
      FirstTaggedSpec(rest);
      forall k | 0 < k < |commits| ensures commits[k] == rest[k - 1] { }
      if FirstTagged(rest).Some? {
        var k :| 0 <= k < |rest| && ExtractFromStr(rest[k]).Some?
                 && FirstTagged(rest).value == (ExtractFromStr(rest[k]).value, rest[k])
                 && forall m :: 0 <= m < k ==> ExtractFromStr(rest[m]).None?;
        assert ExtractFromStr(commits[k + 1]).Some?;
      }
    }
  }

  /** `extract_from_vec`: scans the messages in order and stops at the first tagged one. */
  method ExtractFromVec(commits: seq<string>) returns (found: Option<(string, string)>)
    ensures found == FirstTagged(commits)
  {
    var i := 0;
    while i < |commits|
      invariant i <= |commits|
      invariant FirstTagged(commits[i..]) == FirstTagged(commits)
    {
      var tag := ExtractFromStr(commits[i]);
      if tag.Some? {
        found := Some((tag.value, commits[i]));
        return;
      }
      assert commits[i..][1..] == commits[i + 1..];
      i := i + 1;
    }
    found := None;
  }

  /** The example list: the untagged message is skipped and the first tagged one wins. */
  lemma ExtractFromVecExample()
    ensures FirstTagged(["No tag here", "[TRACK-123]: Add feature", "[TRACK-456]: Another"])
            == Some(("TRACK-123", "[TRACK-123]: Add feature"))
  {
    ExtractTrackExample();
    ExtractUntaggedExample();
  }

  // ---------------------------------------------------------------------
  // The tag history
  // ---------------------------------------------------------------------

  const MaxTags := 10

  /** `retain(|t| t != &tag)`: every copy of `tag` removed, the rest in order. */
  function Without(ts: seq<string>, tag: string): (r: seq<string>)
    ensures multiset(r) == multiset(ts)[tag := 0]
  {
    if ts == [] then []
    else
      assert ts == [ts[0]] + ts[1..];
      var rest := Without(ts[1..], tag);
      if ts[0] == tag then rest else [ts[0]] + rest
  }

  /** The entries `retain` keeps stay in their order. */
  lemma {:induction false} WithoutOrder(ts: seq<string>, tag: string)
    ensures IsSubsequence(Without(ts, tag), ts)
    decreases |ts|
  {
    if ts != [] {
      var rest := Without(ts[1..], tag);
      WithoutOrder(ts[1..], tag);
      if ts[0] == tag {
        if rest != [] {
          assert rest[0] in multiset(rest);
        }
      } else {
        assert ([ts[0]] + rest)[1..] == rest;
      }
    }
  }

  lemma WithoutAbsent(ts: seq<string>, tag: string)
    requires tag !in ts
    ensures Without(ts, tag) == ts
  {
  }

  /** The history after `add(tag)`: `tag` moved or inserted at the front, the
      oldest entry dropped when the list grows past `MaxTags`. */
  function AddTag(ts: seq<string>, tag: string): seq<string> {
    var kept := if tag in ts then Without(ts, tag) else ts;
    var r := [tag] + kept;
    if |r| > MaxTags then r[..|r| - 1] else r
  }

  ghost predicate NoDuplicates(ts: seq<string>) {
    forall x :: multiset(ts)[x] <= 1
  }

  lemma SubsequencePrefix(a: seq<string>, b: seq<string>, n: nat)
    requires IsSubsequence(a, b) && n <= |a|
    ensures IsSubsequence(a[..n], b)
    decreases |b|
  {
    if n > 0 && a[0] == b[0] {
      SubsequencePrefix(a[1..], b[1..], n - 1);
      assert a[..n][1..] == a[1..][..n - 1];
    } else if n > 0 {
      SubsequencePrefix(a, b[1..], n);
    }
  }

  /** Dropping the last element when the list grows past `MaxTags`. */
  function Cap(r: seq<string>): seq<string> {
    if |r| > MaxTags then r[..|r| - 1] else r
  }

  /** Whether or not `tag` was present, `add` is "remove every copy, push to the front, cap". */
  lemma AddTagShape(ts: seq<string>, tag: string)
    ensures AddTag(ts, tag) == Cap([tag] + Without(ts, tag))
  {
    if tag !in ts {
      WithoutAbsent(ts, tag);
    }
  }

  /** Capping keeps the front and never adds entries. */
  lemma CapShrinks(r: seq<string>)
    ensures multiset(Cap(r)) <= multiset(r)
    ensures r != [] ==> Cap(r)[0] == r[0]
  {
    if |r| > MaxTags {
      assert r == Cap(r) + [r[|r| - 1]];
    }
  }

  /** After `add(tag)`, `tag` is first, and the entries are drawn from the
      old ones with every copy of `tag` replaced by a single one: `tag` occurs
      exactly once and nothing else occurs more often than before. */
  lemma AddTagFront(ts: seq<string>, tag: string)
    ensures AddTag(ts, tag)[0] == tag
    ensures multiset(AddTag(ts, tag)) <= multiset(ts)[tag := 0] + multiset{tag}
  {
    AddTagShape(ts, tag);
    var full := [tag] + Without(ts, tag);
    assert multiset(full) == multiset(ts)[tag := 0] + multiset{tag};
    CapShrinks(full);
  }

  /** The entries behind the front keep their relative order from before `add`. */
  lemma AddTagOrder(ts: seq<string>, tag: string)
    ensures IsSubsequence(AddTag(ts, tag)[1..], ts)
  {
    AddTagShape(ts, tag);
    var kept := Without(ts, tag);
    WithoutOrder(ts, tag);
    CapTail(tag, kept);
    SubsequencePrefix(kept, ts, |Cap([tag] + kept)| - 1);
  }

  /** Behind the pushed entry, a capped list holds a prefix of the old one. */
  lemma CapTail(x: string, s: seq<string>)
    ensures 1 <= |Cap([x] + s)| <= |s| + 1
    ensures Cap([x] + s)[1..] == s[..|Cap([x] + s)| - 1]
  {
  }

  /** The length after `add`: the old length less the removed copies of
      `tag`, plus one, less one more when that exceeds the cap. */
  lemma AddTagLength(ts: seq<string>, tag: string)
    ensures |AddTag(ts, tag)| == (var n := |ts| - multiset(ts)[tag] + 1; if n > MaxTags then n - 1 else n)
  {
    AddTagShape(ts, tag);
    assert |Without(ts, tag)| == |multiset(Without(ts, tag))|;
  }

  /** A history within the cap stays within it, and a history without
      duplicates stays without them. */
  lemma AddTagKeepsInvariant(ts: seq<string>, tag: string)
    ensures |ts| <= MaxTags ==> |AddTag(ts, tag)| <= MaxTags
    ensures NoDuplicates(ts) ==> NoDuplicates(AddTag(ts, tag))
  {
    AddTagFront(ts, tag);
    AddTagLength(ts, tag);
    var r := AddTag(ts, tag);
    if NoDuplicates(ts) {
      forall x ensures multiset(r)[x] <= 1 {
        assert multiset(r)[x] <= (multiset(ts)[tag := 0] + multiset{tag})[x];
      }
    }
  }

  /** The history after a sequence of `add` calls, in order. */
  function AddAll(ts: seq<string>, adds: seq<string>): seq<string>
    decreases |adds|
  {
    if adds == [] then ts else AddTag(AddAll(ts, adds[..|adds| - 1]), adds[|adds| - 1])
  }

  function Min(a: nat, b: nat): nat {
    if a <= b then a else b
  }

  /** Pushing a tag in front of the first `MaxTags` entries of a list and
      capping gives the first `MaxTags` entries of the longer list. */
  lemma CapFront(x: string, s: seq<string>)
    ensures Cap([x] + s[..Min(|s|, MaxTags)]) == ([x] + s)[..Min(|s| + 1, MaxTags)]
  {
  }

  /** No entry occurs twice. */
  predicate Distinct(s: seq<string>) {
    forall i, j :: 0 <= i < j < |s| ==> s[i] != s[j]
  }

  /** Dropping the last entry of a list without repeats leaves a list
      without repeats that does not hold that entry. */
  lemma DistinctInit(s: seq<string>)
    requires s != [] && Distinct(s)
    ensures Distinct(s[..|s| - 1]) && s[|s| - 1] !in s[..|s| - 1]
  {
    var init := s[..|s| - 1];
    forall i, j | 0 <= i < j < |init| ensures init[i] != init[j] {
      assert init[i] == s[i] && init[j] == s[j];
    }
    forall k | 0 <= k < |init| ensures init[k] != s[|s| - 1] {
      assert init[k] == s[k];
    }
  }

  /** The first entries of the reversal of a list hold no element outside it. */
  lemma NotInReversedPrefix(s: seq<string>, x: string, n: nat)
    requires x !in s && n <= |s|
    ensures x !in Reversed(s)[..n]
  {
    var p := Reversed(s)[..n];
    forall k | 0 <= k < |p| ensures p[k] != x {
      assert p[k] == s[|s| - 1 - k];
    }
  }

  /** Adding distinct tags to an empty history leaves the most recent
      `MaxTags` of them, newest first. */
  lemma {:induction false} AddDistinct(adds: seq<string>)
    requires Distinct(adds)
    ensures AddAll([], adds) == Reversed(adds)[..Min(|adds|, MaxTags)]
    decreases |adds|
  {
    if adds != [] {
      var init := adds[..|adds| - 1];
      var last := adds[|adds| - 1];
      DistinctInit(adds);
      AddDistinct(init);
      assert adds == init + [last];
      AddFresh(init, last);
    }
  }

  /** One more `add` of a tag not added before, when the history holds the
      most recent `MaxTags` earlier tags newest first. */
  lemma AddFresh(init: seq<string>, last: string)
    requires last !in init
    ensures AddTag(Reversed(init)[..Min(|init|, MaxTags)], last)
            == Reversed(init + [last])[..Min(|init| + 1, MaxTags)]
  {
    var prev := Reversed(init)[..Min(|init|, MaxTags)];
    NotInReversedPrefix(init, last, Min(|init|, MaxTags));
    calc {
      AddTag(prev, last);
      { WithoutAbsent(prev, last); }
      Cap([last] + prev);
      { CapFront(last, Reversed(init)); }
      ([last] + Reversed(init))[..Min(|init| + 1, MaxTags)];
      { ReversedSnoc(init, last); }
      Reversed(init + [last])[..Min(|init| + 1, MaxTags)];
    }
  }

  /** Adding at least `MaxTags` distinct tags to an empty history keeps
      exactly `MaxTags` of them, the last one added first (fifteen adds in
      the history's own example). */
  lemma MaxLimit(adds: seq<string>)
    requires Distinct(adds) && |adds| >= MaxTags
    ensures |AddAll([], adds)| == MaxTags
    ensures AddAll([], adds)[0] == adds[|adds| - 1]
    ensures forall k :: 0 <= k < MaxTags ==> AddAll([], adds)[k] == adds[|adds| - 1 - k]
  {
    AddDistinct(adds);
  }

  /** No whitespace at either end. */
  predicate IsTrimmed(t: string) {
    t == [] || (!IsWhitespace(t[0]) && !IsWhitespace(t[|t| - 1]))
  }

  /** The history file's text as `from_file` reads it: lines trimmed, blank ones dropped. */
  function ParseTags(contents: string): (ts: seq<string>)
    ensures forall k :: 0 <= k < |ts| ==> ts[k] != [] && IsTrimmed(ts[k])
  {
    NonBlank(Split(contents, "\n"))
  }

  function NonBlank(lines: seq<string>): (ts: seq<string>)
    ensures forall k :: 0 <= k < |ts| ==> ts[k] != [] && IsTrimmed(ts[k])
  {
    if lines == [] then []
    else
      var t := Trim(lines[0]);
      (if t == [] then [] else [t]) + NonBlank(lines[1..])
  }

  /** What `save` writes: each tag followed by a newline, most recent first. */
  function Serialize(ts: seq<string>): string {
    if ts == [] then [] else ts[0] + "\n" + Serialize(ts[1..])
  }

  lemma {:induction false} SerializeSnoc(ts: seq<string>, t: string)
    ensures Serialize(ts + [t]) == Serialize(ts) + t + "\n"
    decreases |ts|
  {
    if ts == [] {
      assert [] + [t] == [t];
    } else {
      assert (ts + [t])[1..] == ts[1..] + [t];
      SerializeSnoc(ts[1..], t);
    }
  }

  lemma {:induction false} SerializeIsJoin(ts: seq<string>)
    ensures Serialize(ts) == Join(ts + [[]], "\n")
    decreases |ts|
  {
    if ts != [] {
      SerializeIsJoin(ts[1..]);
      assert (ts + [[]])[1..] == ts[1..] + [[]];
    }
  }

  /** Entries that are already trimmed and non-blank survive `NonBlank`; the
      final empty line after the last newline is dropped. */
  lemma {:induction false} NonBlankOfClean(ts: seq<string>)
    requires forall k :: 0 <= k < |ts| ==> ts[k] != [] && IsTrimmed(ts[k])
    ensures NonBlank(ts + [[]]) == ts
    decreases |ts|
  {
    if ts == [] {
      assert Trim([]) == [] by {
        assert TrimStart([]) == [];
      }
      assert NonBlank([[]]) == [] + NonBlank([]);
    } else {
      var lines := ts + [[]];
      assert lines[0] == ts[0];
      assert lines[1..] == ts[1..] + [[]];
      NonBlankOfClean(ts[1..]);
      assert NonBlank(lines) == [ts[0]] + NonBlank(lines[1..]) by {
        TrimOfTrimmed(ts[0]);
      }
      assert [ts[0]] + ts[1..] == ts;
    }
  }

  /** Reading back what `save` wrote gives the same history, when every tag is
      non-empty, already trimmed and free of newlines. */
  lemma ParseSerialize(ts: seq<string>)
    requires forall k :: 0 <= k < |ts| ==> ts[k] != [] && IsTrimmed(ts[k]) && '\n' !in ts[k]
    ensures ParseTags(Serialize(ts)) == ts
  {
    var lines := ts + [[]];
    assert forall k :: 0 <= k < |lines| ==> '\n' !in lines[k] by {
      forall k | 0 <= k < |lines| ensures '\n' !in lines[k] {
        if k < |ts| { assert lines[k] == ts[k]; }
      }
    }
    calc {
      ParseTags(Serialize(ts));
      NonBlank(Split(Serialize(ts), "\n"));
      { SerializeIsJoin(ts); }
      NonBlank(Split(Join(lines, "\n"), "\n"));
      { SplitJoin(lines, '\n'); }
      NonBlank(lines);
      { NonBlankOfClean(ts); }
      ts;
    }
  }

  /** The history examples: adding `TRACK-123` twice and then `TRACK-124`
      gives two entries, newest first, and they survive saving and reloading. */
  lemma AddAndReloadExample()
    ensures AddAll([], ["TRACK-123", "TRACK-123", "TRACK-124"]) == ["TRACK-124", "TRACK-123"]
    ensures ParseTags(Serialize(["TRACK-124", "TRACK-123"])) == ["TRACK-124", "TRACK-123"]
  {
    var a, b := "TRACK-123", "TRACK-124";
    assert a != b by {
      assert a[8] != b[8];
    }
    assert AddAll([], [a]) == [a] by {
      var none: seq<string> := [];
      assert [a][..0] == none;
    }
    assert AddAll([], [a, a]) == [a] by {
      assert [a, a][..1] == [a];
      assert Without([a], a) == [];
    }
    assert AddAll([], [a, a, b]) == [b, a] by {
      assert [a, a, b][..2] == [a, a];
      WithoutAbsent([a], b);
    }
    var h := [b, a];
    assert IsTrimmed(a) && IsTrimmed(b);
    ParseSerialize(h);
  }

  // ---------------------------------------------------------------------
  // Autocompletion over the history
  // ---------------------------------------------------------------------

  /** The tags that start with `input`, in stored order. */
  function WithPrefix(ts: seq<string>, input: string): (r: seq<string>)
    ensures forall x :: x in r <==> x in ts && StartsWith(x, input)
    ensures IsSubsequence(r, ts)
  {
    if ts == [] then []
    else
      var rest := WithPrefix(ts[1..], input);
      assert ts == [ts[0]] + ts[1..];
      if StartsWith(ts[0], input) then [ts[0]] + rest
      else
        assert rest != [] ==> rest[0] != ts[0] by {
          if rest != [] { assert rest[0] in rest; }
        }
        rest
  }

  /** Each matching tag is suggested as often as it is stored. */
  lemma {:induction false} WithPrefixCounts(ts: seq<string>, input: string)
    ensures forall x :: multiset(WithPrefix(ts, input))[x] == if StartsWith(x, input) then multiset(ts)[x] else 0
    decreases |ts|
  {
    if ts != [] {
      WithPrefixCounts(ts[1..], input);
      assert ts == [ts[0]] + ts[1..];
    }
  }

  lemma {:induction false} WithPrefixAppend(a: seq<string>, b: seq<string>, input: string)
    ensures WithPrefix(a + b, input) == WithPrefix(a, input) + WithPrefix(b, input)
    decreases |a|
  {
    if a == [] {
      assert a + b == b;
    } else {
      assert (a + b)[1..] == a[1..] + b;
      WithPrefixAppend(a[1..], b, input);
    }
  }

  /** Tags previously used, most recent first (`Tags`), persisted in the file at `file`. */
  class TagHistory {
    var file: string
    var tags: seq<string>

    /** `Tags::from_file`: `contents` is the file's text, or `None` when no file exists. */
    constructor Load(path: string, contents: Option<string>)
      ensures file == path
      ensures tags == if contents.Some? then ParseTags(contents.value) else []
    {
      file := path;
      tags := if contents.Some? then ParseTags(contents.value) else [];
    }

    /** `Tags::iter`. */
    function Iter(): seq<string>
      reads this
    {
      tags
    }

    /** `Tags::is_empty`. */
    predicate IsEmpty()
      reads this
      ensures IsEmpty() <==> |Iter()| == 0
    {
      tags == []
    }

    /** `Tags::add`. */
    method Add(tag: string)
      modifies this`tags
      ensures tags == AddTag(old(tags), tag)
    {
      if tag in tags {
        tags := Without(tags, tag);
      }
      tags := [tag] + tags;
      if |tags| > MaxTags {
        tags := tags[..|tags| - 1];
      }
    }

    /** `Tags::save`: returns the text written to `file`. */
    method Save() returns (written: string)
      ensures written == Serialize(tags)
    {
      written := [];
      var i := 0;
      while i < |tags|
        invariant i <= |tags|
        invariant written == Serialize(tags[..i])
      {
        SerializeSnoc(tags[..i], tags[i]);
        assert tags[..i + 1] == tags[..i] + [tags[i]];
        written := written + tags[i] + "\n";
        i := i + 1;
      }
      assert tags[..i] == tags;
    }

    /** `Tags::add_and_save`. */
    method AddAndSave(tag: string) returns (written: string)
      modifies this`tags
      ensures tags == AddTag(old(tags), tag)
      ensures written == Serialize(tags)
    {
      Add(tag);
      written := Save();
    }

    /** `get_suggestions`. */
    method GetSuggestions(input: string) returns (suggestions: seq<string>)
      ensures suggestions == WithPrefix(tags, input)
    {
      suggestions := [];
      var i := 0;
      while i < |tags|
        invariant i <= |tags|
        invariant suggestions == WithPrefix(tags[..i], input)
      {
        WithPrefixAppend(tags[..i], [tags[i]], input);
        assert tags[..i + 1] == tags[..i] + [tags[i]];
        if StartsWith(tags[i], input) {
          suggestions := suggestions + [tags[i]];
        }
        i := i + 1;
      }
      assert tags[..i] == tags;
    }

    /** `get_completion`: the first suggestion, if any (the highlighted
        suggestion the widget passes in is ignored). */
    method GetCompletion(input: string) returns (completion: Option<string>)
      ensures var s := WithPrefix(tags, input);
        completion == if s == [] then None else Some(s[0])
    {
      var i := 0;
      while i < |tags|
        invariant i <= |tags|
        invariant WithPrefix(tags[..i], input) == []
      {
        WithPrefixAppend(tags[..i], tags[i..], input);
        assert tags[..i] + tags[i..] == tags;
        if StartsWith(tags[i], input) {
          assert tags[i..] == [tags[i]] + tags[i + 1..];
          completion := Some(tags[i]);
          return;
        }
        WithPrefixAppend(tags[..i], [tags[i]], input);
        assert tags[..i + 1] == tags[..i] + [tags[i]];
        i := i + 1;
      }
      assert tags[..i] == tags;
      completion := None;
    }
  }
}
