/**
  The string operations of Rust's standard library that the program relies on
  (`trim`, `starts_with`, `contains`, `split`, `join`, `replace`,
  `to_lowercase`, `Ord for String`). Case folding is restricted to ASCII
  letters; whitespace follows Rust's full definition.
 */
module Text {

  // ---------------------------------------------------------------------
  // Whitespace and trimming (`str::trim`, `char::is_whitespace`)
  // ---------------------------------------------------------------------

  /** `char::is_whitespace`: the characters with the Unicode White_Space property. */
  predicate IsWhitespace(c: char) {
    || c == ' ' || '\t' <= c <= '\r'
    || c == '\U{0085}' || c == '\U{00A0}' || c == '\U{1680}'
    || '\U{2000}' <= c <= '\U{200A}'
    || c == '\U{2028}' || c == '\U{2029}' || c == '\U{202F}' || c == '\U{205F}' || c == '\U{3000}'
  }

  predicate AllWhitespace(s: string) {
    forall k :: 0 <= k < |s| ==> IsWhitespace(s[k])
  }

  function TrimStart(s: string): (r: string)
    ensures r == [] || !IsWhitespace(r[0])
    decreases |s|
  {
    if s != [] && IsWhitespace(s[0]) then TrimStart(s[1..]) else s
  }

  function TrimEnd(s: string): (r: string)
    ensures r == [] || !IsWhitespace(r[|r| - 1])
    decreases |s|
  {
    if s != [] && IsWhitespace(s[|s| - 1]) then TrimEnd(s[..|s| - 1]) else s
  }

  /** `trim_start` removes a whitespace prefix. */
  lemma {:induction false} TrimStartIsSuffix(s: string)
    ensures var r := TrimStart(s); |r| <= |s| && r == s[|s| - |r|..] && AllWhitespace(s[..|s| - |r|])
    decreases |s|
  {
    if s != [] && IsWhitespace(s[0]) {
      TrimStartIsSuffix(s[1..]);
      var r := TrimStart(s);
      assert s[1..][|s| - 1 - |r|..] == s[|s| - |r|..];
      assert forall k :: 0 < k < |s| - |r| ==> s[k] == s[1..][..|s| - 1 - |r|][k - 1];
    }
  }

  /** `trim_end` removes a whitespace suffix. */
  lemma {:induction false} TrimEndIsPrefix(s: string)
    ensures var r := TrimEnd(s); |r| <= |s| && r == s[..|r|] && AllWhitespace(s[|r|..])
    decreases |s|
  {
    if s != [] && IsWhitespace(s[|s| - 1]) {
      TrimEndIsPrefix(s[..|s| - 1]);
      var r := TrimEnd(s);
      assert s[..|s| - 1][..|r|] == s[..|r|];
      assert forall k :: |r| <= k < |s| - 1 ==> s[k] == s[..|s| - 1][|r|..][k - |r|];
    }
  }

  /** `str::trim`: the longest slice with neither leading nor trailing whitespace. */
  function Trim(s: string): (r: string)
    ensures r == [] || (!IsWhitespace(r[0]) && !IsWhitespace(r[|r| - 1]))
  {
    TrimEndIsPrefix(TrimStart(s));
    TrimEnd(TrimStart(s))
  }

  /** What `trim` removes is whitespace on either side of the slice it returns. */
  lemma TrimIsSlice(s: string)
    ensures var r := Trim(s);
      exists i :: 0 <= i <= |s| - |r| && r == s[i..i + |r|]
                  && AllWhitespace(s[..i]) && AllWhitespace(s[i + |r|..])
  {
    var t := TrimStart(s);
    var r := TrimEnd(t);
    var i := |s| - |t|;
    TrimStartIsSuffix(s);
    TrimEndIsPrefix(t);
    assert r == s[i..i + |r|];
    assert s[i + |r|..] == t[|r|..];
  }

  lemma {:induction false} TrimStartSkipsWhitespace(a: string, x: string)
    requires AllWhitespace(a)
    ensures TrimStart(a + x) == TrimStart(x)
    decreases |a|
  {
    if a != [] {
      var y := a + x;
      assert y[0] == a[0];
      assert y[1..] == a[1..] + x;
      assert AllWhitespace(a[1..]);
      TrimStartSkipsWhitespace(a[1..], x);
      assert TrimStart(y) == TrimStart(y[1..]);
    } else {
      assert a + x == x;
    }
  }

  lemma {:induction false} TrimEndSkipsWhitespace(x: string, b: string)
    requires AllWhitespace(b)
    ensures TrimEnd(x + b) == TrimEnd(x)
    decreases |b|
  {
    if b != [] {
      assert (x + b)[..|x + b| - 1] == x + b[..|b| - 1];
      TrimEndSkipsWhitespace(x, b[..|b| - 1]);
    } else {
      assert x + b == x;
    }
  }

  lemma {:induction false} TrimStartAppend(u: string, b: string)
    requires TrimStart(u) != []
    ensures TrimStart(u + b) == TrimStart(u) + b
    decreases |u|
  {
    if IsWhitespace(u[0]) {
      assert (u + b)[1..] == u[1..] + b;
      TrimStartAppend(u[1..], b);
    }
  }

  /** When `a` is not empty and does not end in whitespace, trimming the end of `a + b` only touches `b`. */
  lemma {:induction false} TrimEndAppend(a: string, b: string)
    requires a != [] && !IsWhitespace(a[|a| - 1])
    ensures TrimEnd(a + b) == a + TrimEnd(b)
    decreases |b|
  {
    if b == [] {
      assert a + b == a;
    } else if IsWhitespace(b[|b| - 1]) {
      assert (a + b)[..|a + b| - 1] == a + b[..|b| - 1];
      TrimEndAppend(a, b[..|b| - 1]);
    }
  }

  lemma AllWhitespaceTrimStart(s: string)
    requires AllWhitespace(s)
    ensures TrimStart(s) == []
  {
  }

  /** Surrounding whitespace never changes what `trim` returns. */
  lemma TrimIgnoresSurroundings(a: string, u: string, b: string)
    requires AllWhitespace(a) && AllWhitespace(b)
    ensures Trim(a + u + b) == Trim(u)
  {
    assert a + u + b == a + (u + b);
    TrimStartSkipsWhitespace(a, u + b);
    if TrimStart(u) != [] {
      TrimStartAppend(u, b);
      TrimEndSkipsWhitespace(TrimStart(u), b);
    } else {
      assert AllWhitespace(u) by {
        TrimStartIsSuffix(u);
        assert u[..|u|] == u;
      }
      TrimStartSkipsWhitespace(u, b);
      AllWhitespaceTrimStart(b);
    }
  }

  /** A string that neither starts nor ends with whitespace is its own trim. */
  lemma TrimOfTrimmed(s: string)
    requires s == [] || (!IsWhitespace(s[0]) && !IsWhitespace(s[|s| - 1]))
    ensures Trim(s) == s
  {
  }

  // ---------------------------------------------------------------------
  // Prefixes and substrings (`starts_with`, `contains`)
  // ---------------------------------------------------------------------

  predicate StartsWith(s: string, p: string) {
    |p| <= |s| && s[..|p|] == p
  }

  predicate OccursAt(s: string, p: string, i: nat) {
    i + |p| <= |s| && s[i..i + |p|] == p
  }

  /** `str::contains` with a string pattern. */
  predicate Contains(s: string, p: string) {
    exists i: nat :: i <= |s| - |p| && OccursAt(s, p, i)
  }

  lemma OccursInLonger(s: string, p: string, a: string, b: string, i: nat)
    requires OccursAt(s, p, i)
    ensures OccursAt(a + s + b, p, |a| + i)
  {
    assert (a + s + b)[|a| + i..|a| + i + |p|] == s[i..i + |p|];
  }

  // ---------------------------------------------------------------------
  // Joining and splitting (`[String]::join`, `str::split`)
  // ---------------------------------------------------------------------

  /** `pieces.join(d)`. */
  function Join(pieces: seq<string>, d: string): string {
    if pieces == [] then []
    else if |pieces| == 1 then pieces[0]
    else pieces[0] + d + Join(pieces[1..], d)
  }

  lemma {:induction false} JoinAppend(ps: seq<string>, qs: seq<string>, d: string)
    requires ps != [] && qs != []
    ensures Join(ps + qs, d) == Join(ps, d) + d + Join(qs, d)
    decreases |ps|
  {
    if |ps| == 1 {
      assert (ps + qs)[1..] == qs;
    } else {
      assert (ps + qs)[1..] == ps[1..] + qs;
      JoinAppend(ps[1..], qs, d);
    }
  }

  lemma JoinStartsWithFirst(ps: seq<string>, d: string)
    requires ps != []
    ensures StartsWith(Join(ps, d), ps[0])
  {
  }

  lemma JoinConsHead(c: char, ps: seq<string>, d: string)
    requires ps != []
    ensures Join([[c] + ps[0]] + ps[1..], d) == [c] + Join(ps, d)
  {
    var qs := [[c] + ps[0]] + ps[1..];
    assert qs[1..] == ps[1..];
  }

  /** A character in neither the pieces nor the delimiter is not in the joined text. */
  lemma {:induction false} NotInJoin(ps: seq<string>, d: string, c: char)
    requires forall k :: 0 <= k < |ps| ==> c !in ps[k]
    requires c !in d
    ensures c !in Join(ps, d)
    decreases |ps|
  {
    if |ps| > 1 {
      NotInJoin(ps[1..], d, c);
      assert c !in ps[0];
    }
  }

  /** `s.split(p)` for a non-empty pattern `p`: the pieces between the
      leftmost non-overlapping occurrences of `p`. */
  function Split(s: string, p: string): (pieces: seq<string>)
    requires p != []
    ensures |pieces| >= 1
    ensures Join(pieces, p) == s
    ensures forall k :: 0 <= k < |pieces| ==> !Contains(pieces[k], p)
    decreases |s|
  {
    if |s| < |p| then
      [s]
    else if s[..|p|] == p then
      var rest := Split(s[|p|..], p);
      assert Join([[]] + rest, p) == [] + p + Join(rest, p) by {
        assert ([[]] + rest)[1..] == rest;
      }
      assert !Contains([], p);
      [[]] + rest
    else
      var rest := Split(s[1..], p);
      var head := [s[0]] + rest[0];
      JoinConsHead(s[0], rest, p);
      JoinStartsWithFirst(rest, p);
      HeadFree(s, p, rest[0]);
      [head] + rest[1..]
  }

  /** A piece that grows by one character at the front still holds no
      separator when the text does not start with one. */
  lemma HeadFree(s: string, p: string, r0: string)
    requires p != [] && |s| >= |p| && s[..|p|] != p
    requires StartsWith(s[1..], r0) && !Contains(r0, p)
    ensures !Contains([s[0]] + r0, p)
  {
    var head := [s[0]] + r0;
    forall i: nat | i <= |head| - |p| ensures !OccursAt(head, p, i) {
      if i == 0 {
        assert head == s[..|head|];
        assert head[..|p|] == s[..|p|];
      } else {
        assert head[i..i + |p|] == r0[i - 1..i - 1 + |p|];
        assert !OccursAt(r0, p, i - 1);
      }
    }
  }

  lemma {:induction false} SplitWithoutSeparator(x: string, c: char)
    requires c !in x
    ensures Split(x, [c]) == [x]
    decreases |x|
  {
    if |x| >= 1 {
      assert x[..1] != [c] by { assert x[0] != c; }
      SplitWithoutSeparator(x[1..], c);
      assert [x[0]] + x[1..] == x;
    }
  }

  lemma {:induction false} SplitAtFirstSeparator(x: string, c: char, t: string)
    requires c !in x
    ensures Split(x + [c] + t, [c]) == [x] + Split(t, [c])
    decreases |x|
  {
    var s := x + [c] + t;
    if x == [] {
      assert s[..1] == [c];
      assert s[1..] == t;
    } else {
      assert s[..1] != [c] by { assert s[0] == x[0] != c; }
      assert s[1..] == x[1..] + [c] + t;
      SplitAtFirstSeparator(x[1..], c, t);
      assert [s[0]] + x[1..] == x;
    }
  }

  /** Splitting on a character undoes joining with it, when no piece holds that character. */
  lemma {:induction false} SplitJoin(ps: seq<string>, c: char)
    requires |ps| >= 1
    requires forall k :: 0 <= k < |ps| ==> c !in ps[k]
    ensures Split(Join(ps, [c]), [c]) == ps
    decreases |ps|
  {
    if |ps| == 1 {
      SplitWithoutSeparator(ps[0], c);
    } else {
      SplitJoin(ps[1..], c);
      SplitAtFirstSeparator(ps[0], c, Join(ps[1..], [c]));
      assert [ps[0]] + ps[1..] == ps;
    }
  }

  lemma NoSeparatorInPieces(s: string, c: char)
    ensures forall k :: 0 <= k < |Split(s, [c])| ==> c !in Split(s, [c])[k]
  {
    var ps := Split(s, [c]);
    forall k | 0 <= k < |ps| ensures c !in ps[k] {
      if c in ps[k] {
        var j :| 0 <= j < |ps[k]| && ps[k][j] == c;
        assert OccursAt(ps[k], [c], j);
      }
    }
  }

  /** Splitting `a + c + b` on `c` splits `a` and `b` separately. */
  lemma SplitConcat(a: string, c: char, b: string)
    ensures Split(a + [c] + b, [c]) == Split(a, [c]) + Split(b, [c])
  {
    var pa, pb := Split(a, [c]), Split(b, [c]);
    NoSeparatorInPieces(a, c);
    NoSeparatorInPieces(b, c);
    JoinAppend(pa, pb, [c]);
    SplitJoin(pa + pb, c);
  }

  // ---------------------------------------------------------------------
  // Replacement (`str::replace`)
  // ---------------------------------------------------------------------

  /** `s.replace(p, rep)`: every leftmost non-overlapping occurrence of `p`
      becomes `rep`; an empty pattern matches before every character and at the end. */
  function ReplaceAll(s: string, p: string, rep: string): string
    decreases |s|
  {
    if p == [] then
      if s == [] then rep else rep + [s[0]] + ReplaceAll(s[1..], p, rep)
    else if |s| < |p| then
      s
    else if s[..|p|] == p then
      rep + ReplaceAll(s[|p|..], p, rep)
    else
      [s[0]] + ReplaceAll(s[1..], p, rep)
  }

  /** `replace` is splitting on the pattern and joining with the replacement:
      together with `Split`'s contract, every occurrence of `p` is replaced and
      the text between occurrences is kept as it was. */
  lemma {:induction false} ReplaceAllIsSplitJoin(s: string, p: string, rep: string)
    requires p != []
    ensures ReplaceAll(s, p, rep) == Join(Split(s, p), rep)
    decreases |s|
  {
    if |s| < |p| {
    } else if s[..|p|] == p {
      var rest := Split(s[|p|..], p);
      ReplaceAllIsSplitJoin(s[|p|..], p, rep);
      assert ([[]] + rest)[1..] == rest;
    } else {
      var rest := Split(s[1..], p);
      ReplaceAllIsSplitJoin(s[1..], p, rep);
      JoinConsHead(s[0], rest, rep);
    }
  }

  /** A pattern that does not occur leaves the text unchanged. */
  lemma {:induction false} ReplaceAllAbsent(s: string, p: string, rep: string)
    requires p != [] && !Contains(s, p)
    ensures ReplaceAll(s, p, rep) == s
    decreases |s|
  {
    if |s| >= |p| {
      assert !OccursAt(s, p, 0);
      assert !Contains(s[1..], p) by {
        forall i: nat | i <= |s[1..]| - |p| ensures !OccursAt(s[1..], p, i) {
          assert s[1..][i..i + |p|] == s[i + 1..i + 1 + |p|];
          assert !OccursAt(s, p, i + 1);
        }
      }
      ReplaceAllAbsent(s[1..], p, rep);
      assert [s[0]] + s[1..] == s;
    }
  }

  /** When the first occurrence of `p` in `x + p + y` is the one after `x`,
      replacing keeps `x`, replaces that occurrence and continues after it. */
  lemma {:induction false} ReplaceAllAtFirst(x: string, p: string, y: string, rep: string)
    requires p != [] && !Contains(x + p[..|p| - 1], p)
    ensures ReplaceAll(x + p + y, p, rep) == x + rep + ReplaceAll(y, p, rep)
    decreases |x|
  {
    var s := x + p + y;
    if x == [] {
      assert s[..|p|] == p && s[|p|..] == y;
    } else {
      var w := x + p[..|p| - 1];
      assert s[..|p|] != p by {
        assert !OccursAt(w, p, 0);
        assert s[..|p|] == w[..|p|];
      }
      var v := x[1..] + p[..|p| - 1];
      assert !Contains(v, p) by {
        forall i: nat | i <= |v| - |p| ensures !OccursAt(v, p, i) {
          assert v[i..i + |p|] == w[i + 1..i + 1 + |p|];
          assert !OccursAt(w, p, i + 1);
        }
      }
      calc {
        ReplaceAll(s, p, rep);
        [s[0]] + ReplaceAll(s[1..], p, rep);
        { assert s[1..] == x[1..] + p + y; }
        [x[0]] + ReplaceAll(x[1..] + p + y, p, rep);
        { ReplaceAllAtFirst(x[1..], p, y, rep); }
        [x[0]] + (x[1..] + rep + ReplaceAll(y, p, rep));
        { assert [x[0]] + x[1..] == x; }
        x + rep + ReplaceAll(y, p, rep);
      }
    }
  }

  // ---------------------------------------------------------------------
  // Case folding (`str::to_lowercase`, ASCII letters only)
  // ---------------------------------------------------------------------

  function LowerChar(c: char): char {
    if 'A' <= c <= 'Z' then (c as int + 32) as char else c
  }

  function AsciiLower(s: string): (r: string)
    ensures |r| == |s|
    ensures forall k :: 0 <= k < |s| ==> r[k] == LowerChar(s[k])
  {
    seq(|s|, k requires 0 <= k < |s| => LowerChar(s[k]))
  }

  // ---------------------------------------------------------------------
  // Ordering of strings (`Ord for String`)
  // ---------------------------------------------------------------------

  /** Lexicographic order on code points, which for UTF-8 text is the byte
      order Rust uses to compare `String`s. */
  predicate LexLe(a: string, b: string)
    decreases |a|
  {
    a == [] || (b != [] && (a[0] < b[0] || (a[0] == b[0] && LexLe(a[1..], b[1..]))))
  }

  lemma {:induction false} LexLeTotal(a: string, b: string)
    ensures LexLe(a, b) || LexLe(b, a)
    decreases |a|
  {
    if a != [] && b != [] && a[0] == b[0] {
      LexLeTotal(a[1..], b[1..]);
    }
  }

  lemma {:induction false} LexLeAntisymmetric(a: string, b: string)
    requires LexLe(a, b) && LexLe(b, a)
    ensures a == b
    decreases |a|
  {
    if a != [] {
      LexLeAntisymmetric(a[1..], b[1..]);
      assert a == [a[0]] + a[1..] && b == [b[0]] + b[1..];
    }
  }

  lemma {:induction false} LexLeTransitive(a: string, b: string, c: string)
    requires LexLe(a, b) && LexLe(b, c)
    ensures LexLe(a, c)
    decreases |a|
  {
    if a != [] && a[0] == b[0] && b[0] == c[0] {
      LexLeTransitive(a[1..], b[1..], c[1..]);
    }
  }

  // ---------------------------------------------------------------------
  // Sequences
  // ---------------------------------------------------------------------

  /** `a` is `b` with some elements left out, the rest in the same order. */
  predicate IsSubsequence<T(==)>(a: seq<T>, b: seq<T>)
    decreases |b|
  {
    a == [] || (b != [] && (if a[0] == b[0] then IsSubsequence(a[1..], b[1..]) else IsSubsequence(a, b[1..])))
  }

  function Reversed<T>(s: seq<T>): (r: seq<T>)
    ensures |r| == |s|
    ensures forall k :: 0 <= k < |s| ==> r[k] == s[|s| - 1 - k]
  {
    if s == [] then [] else Reversed(s[1..]) + [s[0]]
  }

  lemma ReversedSnoc<T>(s: seq<T>, x: T)
    ensures Reversed(s + [x]) == [x] + Reversed(s)
  {
    var r := Reversed(s + [x]);
    forall k | 0 <= k < |r| ensures r[k] == ([x] + Reversed(s))[k] {
      if k > 0 {
        assert Reversed(s)[k - 1] == s[|s| - 1 - (k - 1)];
      }
    }
  }
}
