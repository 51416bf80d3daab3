/** The two `content.replace` passes of the version stamper: every stylesheet reference
    `href="styles.css?v=X"` and every script reference `src="script.js?v=X"`, X a non-empty
    run of digits and dots, gets X replaced by the configured version. */
module VersionRewrite {
  import opened Wrappers

  const Quote: char := '"'

  /** Group 1 of the stylesheet pattern: everything up to and including `?v=`. */
  const StylesPrefix: string := "href=\"styles.css?v="

  /** Group 1 of the script pattern. */
  const ScriptPrefix: string := "src=\"script.js?v="

  /** A character of the class `[0-9\.]`. */
  predicate IsVersionChar(c: char)
  {
    '0' <= c <= '9' || c == '.'
  }

  /** What `[0-9\.]+` accepts: a non-empty run of digits and dots. */
  predicate IsVersion(x: string)
  {
    |x| > 0 && forall i :: 0 <= i < |x| ==> IsVersionChar(x[i])
  }

  /** The pattern `(p)([0-9\.]+)(")` matches at the start of `s` with `x` as its second group. */
  ghost predicate MatchesWith(s: string, p: string, x: string)
  {
    IsVersion(x) && |p| + |x| < |s| && s[..|p|] == p && s[|p|..|p| + |x|] == x && s[|p| + |x|] == Quote
  }

  /** The length of the longest run of version characters at the start of `s`. */
  function VersionRun(s: string): (n: nat)
    ensures n <= |s|
    ensures forall i :: 0 <= i < n ==> IsVersionChar(s[i])
    ensures n < |s| ==> !IsVersionChar(s[n])
  {
    if |s| > 0 && IsVersionChar(s[0]) then 1 + VersionRun(s[1..]) else 0
  }

  /** The version the pattern with prefix `p` captures at the start of `s`, if it matches there.
      The closing quote is not a version character, so at most one version can match. */
  function MatchAt(s: string, p: string): (r: Option<string>)
    ensures forall x :: MatchesWith(s, p, x) <==> r == Some(x)
  {
    if |p| <= |s| && s[..|p|] == p then
      var n := VersionRun(s[|p|..]);
      MatchedVersionIsRun(s, p);
      if 0 < n && |p| + n < |s| && s[|p| + n] == Quote then
        VersionRunMatches(s, p);
        Some(s[|p|..|p| + n])
      else
        None
    else
      None
  }

  /** A version that matches after the prefix is exactly the run of version characters there. */
  lemma MatchedVersionIsRun(s: string, p: string)
    requires |p| <= |s|
    ensures forall x {:trigger MatchesWith(s, p, x)} :: MatchesWith(s, p, x) ==>
      |x| == VersionRun(s[|p|..]) && x == s[|p|..|p| + |x|]
  {
    var rest := s[|p|..];
    var n := VersionRun(rest);
    forall x | MatchesWith(s, p, x) ensures |x| == n {
      assert forall i :: 0 <= i < |x| ==> rest[i] == x[i];
    }
  }

  /** The run of version characters after the prefix matches when the closing quote follows it. */
  lemma VersionRunMatches(s: string, p: string)
    requires |p| <= |s| && s[..|p|] == p
    requires var n := VersionRun(s[|p|..]); 0 < n && |p| + n < |s| && s[|p| + n] == Quote
    ensures MatchesWith(s, p, s[|p|..|p| + VersionRun(s[|p|..])])
  {
    var n := VersionRun(s[|p|..]);
    var x := s[|p|..|p| + n];
    assert forall i :: 0 <= i < n ==> x[i] == s[|p|..][i];
  }

  /** `s.replace(/(p)([0-9\.]+)(")/g, "$1" + v + "$3")`: the text is scanned from the left; at a
      match the prefix, `v` and the quote are written and the scan resumes after the match;
      anywhere else one character is copied. */
  function ReplaceAll(s: string, p: string, v: string): string
    decreases |s|
  {
    if |s| == 0 then
      []
    else
      match MatchAt(s, p)
      case Some(x) =>
        assert MatchesWith(s, p, x);
        p + v + [Quote] + ReplaceAll(s[|p| + |x| + 1..], p, v)
      case None =>
        [s[0]] + ReplaceAll(s[1..], p, v)
  }

  /** The stamper's rewrite of one file: the stylesheet pass, then the script pass. */
  function Stamp(text: string, version: string): string
  {
    ReplaceAll(ReplaceAll(text, StylesPrefix, version), ScriptPrefix, version)
  }

  /** A text seen by one pass: characters copied one by one, and references carrying a version. */
  datatype Piece = Literal(c: char) | Reference(version: string)

  /** The text one piece stands for, with `p` as the reference prefix. */
  function PieceText(a: Piece, p: string): string
  {
    match a
    case Literal(c) => [c]
    case Reference(x) => p + x + [Quote]
  }

  /** The text a sequence of pieces stands for. */
  function Render(ps: seq<Piece>, p: string): string
  {
    if ps == [] then [] else PieceText(ps[0], p) + Render(ps[1..], p)
  }

  /** A piece with its version, if it has one, replaced by `v`. */
  function Restamped(a: Piece, v: string): Piece
  {
    if a.Reference? then Reference(v) else a
  }

  /** The same pieces with every reference's version replaced by `v`. */
  function Restamp(ps: seq<Piece>, v: string): seq<Piece>
  {
    if ps == [] then [] else [Restamped(ps[0], v)] + Restamp(ps[1..], v)
  }

  /** Every reference with prefix `p`, wherever it starts in `s`, carries version `v`. */
  ghost predicate OnlyVersion(s: string, p: string, v: string)
  {
    forall j :: 0 <= j <= |s| ==> MatchAt(s[j..], p) in {None, Some(v)}
  }

  // ---------------------------------------------------------------------------------------
  // Conditions on the reference prefixes

  /** An occurrence of `q` starting `n` characters into an occurrence of `p` agrees with it on their overlap. */
  ghost predicate Overlaps(p: string, q: string, n: nat)
  {
    forall i :: n <= i < |p| && i - n < |q| ==> p[i] == q[i - n]
  }

  /** No occurrence of `q` can start strictly inside an occurrence of `p`. */
  ghost predicate NoInnerStart(p: string, q: string)
  {
    forall n :: 0 < n < |p| ==> !Overlaps(p, q, n)
  }

  /** A prefix whose first character can neither belong to a version nor close one. */
  predicate Anchored(p: string)
  {
    |p| > 0 && !IsVersionChar(p[0]) && p[0] != Quote
  }

  /** Neither prefix can begin inside an occurrence of itself, the script prefix cannot begin
      inside the stylesheet prefix, and the stylesheet prefix's first letter never occurs in the
      script prefix. */
  lemma PrefixesSeparated()
    ensures Anchored(StylesPrefix) && Anchored(ScriptPrefix)
    ensures NoInnerStart(StylesPrefix, StylesPrefix)
    ensures NoInnerStart(ScriptPrefix, ScriptPrefix)
    ensures NoInnerStart(StylesPrefix, ScriptPrefix)
    ensures forall i :: 0 <= i < |ScriptPrefix| ==> ScriptPrefix[i] != StylesPrefix[0]
  {
    SeparatedByTwoLetters(StylesPrefix, StylesPrefix);
    SeparatedByTwoLetters(ScriptPrefix, ScriptPrefix);
    SeparatedByTwoLetters(StylesPrefix, ScriptPrefix);
  }

  /** Two leading letters suffice to rule out an inner start. */
  lemma SeparatedByTwoLetters(p: string, q: string)
    requires |q| >= 2
    requires forall n :: 0 < n < |p| ==> p[n] != q[0] || (n + 1 < |p| && p[n + 1] != q[1])
    ensures NoInnerStart(p, q)
  {
    forall n | 0 < n < |p| ensures !Overlaps(p, q, n) {
      if p[n] != q[0] {
        assert !(p[n] == q[n - n]);
      } else {
        assert n + 1 < |p| && p[n + 1] != q[1];
        assert !(p[n + 1] == q[n + 1 - n]);
      }
    }
  }

  // ---------------------------------------------------------------------------------------
  // Where a match can and cannot start

  /** A version run is decided by the characters up to the first non-version character. */
  lemma {:induction false} RunAgrees(a: string, b: string, k: nat)
    requires k < |a| && k < |b| && forall i :: 0 <= i <= k ==> a[i] == b[i]
    requires !IsVersionChar(a[k])
    ensures VersionRun(a) == VersionRun(b) <= k
  {
    if k > 0 && IsVersionChar(a[0]) {
      RunAgrees(a[1..], b[1..], k - 1);
    }
  }

  /** Two texts with the same first `k` characters agree at every index below `k`. */
  lemma CharsAgree(w: string, w': string, k: nat)
    requires k <= |w| && k <= |w'| && w[..k] == w'[..k]
    ensures forall i :: 0 <= i < k ==> w[i] == w'[i]
  {
    forall i | 0 <= i < k ensures w[i] == w'[i] {
      assert w[i] == w[..k][i] && w'[i] == w'[..k][i];
    }
  }

  /** Whether `p` matches at the start of a text is decided by the text up to any
      non-version character that lies past the prefix. */
  lemma MatchAtLocal(w: string, w': string, p: string, m: nat)
    requires |p| <= m < |w| && m < |w'| && w[..m + 1] == w'[..m + 1]
    requires !IsVersionChar(w[m])
    ensures MatchAt(w, p) == MatchAt(w', p)
  {
    LocalPieces(w, w', p, m);
  }

  /** The pieces `MatchAt` inspects agree between two texts that agree up to index `m`. */
  lemma LocalPieces(w: string, w': string, p: string, m: nat)
    requires |p| <= m < |w| && m < |w'| && w[..m + 1] == w'[..m + 1]
    requires !IsVersionChar(w[m])
    ensures w[..|p|] == w'[..|p|]
    ensures VersionRun(w[|p|..]) == VersionRun(w'[|p|..]) <= m - |p|
    ensures var n := VersionRun(w[|p|..]);
      w[|p| + n] == w'[|p| + n] && w[|p|..|p| + n] == w'[|p|..|p| + n]
  {
    CharsAgree(w, w', m + 1);
    assert w[..|p|] == w'[..|p|];
    RunAgrees(w[|p|..], w'[|p|..], m - |p|);
    var n := VersionRun(w[|p|..]);
    assert w[|p|..|p| + n] == w'[|p|..|p| + n];
  }

  /** Two texts that agree up to and including an occurrence of `q` at index `n > 0` have the
      same match of `p` at their start, provided `q` cannot start inside `p` and starts with a
      character that ends any version. */
  lemma MatchAtStable(w: string, w': string, p: string, q: string, n: nat)
    requires NoInnerStart(p, q) && |q| > 0 && !IsVersionChar(q[0])
    requires 0 < n && n + |q| <= |w| && n + |q| <= |w'|
    requires w[..n + |q|] == w'[..n + |q|] && w[n..n + |q|] == q
    ensures MatchAt(w, p) == MatchAt(w', p)
  {
    assert w[n] == w[n..n + |q|][0];
    if n < |p| {
      assert !Overlaps(p, q, n);
      var i :| n <= i < |p| && i - n < |q| && p[i] != q[i - n];
      assert w[i] == w[n..n + |q|][i - n] && w[i] == w[..n + |q|][i] == w'[..n + |q|][i] == w'[i];
      assert !(p <= w) && !(p <= w') by {
        assert p[i] != w[i] && p[i] != w'[i];
      }
    } else {
      assert w[..n + 1] == w[..n + |q|][..n + 1] == w'[..n + |q|][..n + 1] == w'[..n + 1];
      MatchAtLocal(w, w', p, n);
    }
  }

  /** A text without `p`'s first letter at its start has no match there. */
  lemma NoMatchWithoutLead(s: string, p: string)
    requires |p| > 0 && |s| > 0 && s[0] != p[0]
    ensures MatchAt(s, p) == None
  {
    forall x ensures !MatchesWith(s, p, x) {
      assert |p| <= |s| ==> s[..|p|][0] == s[0];
    }
  }

  // ---------------------------------------------------------------------------------------
  // How one pass treats pieces of its input

  /** Characters at which no match starts are copied unchanged, and the pass goes on after them. */
  lemma SkipLiterals(u: string, w: string, p: string, v: string)
    requires forall j :: 0 <= j < |u| ==> MatchAt((u + w)[j..], p) == None
    ensures ReplaceAll(u + w, p, v) == u + ReplaceAll(w, p, v)
  {
    var s := u + w;
    NoMatchBelowFromAll(s, |u|, p);
    SkipFrom(s, |u|, p, v);
    assert s[..|u|] == u && s[|u|..] == w;
  }

  /** No match starts before index `k`. */
  predicate NoMatchBelow(s: string, k: nat, p: string)
    requires k <= |s|
  {
    k == 0 || (MatchAt(s[k - 1..], p) == None && NoMatchBelow(s, k - 1, p))
  }

  lemma {:induction false} NoMatchBelowFromAll(s: string, k: nat, p: string)
    requires k <= |s| && forall j :: 0 <= j < k ==> MatchAt(s[j..], p) == None
    ensures NoMatchBelow(s, k, p)
  {
    if k > 0 {
      NoMatchBelowFromAll(s, k - 1, p);
    }
  }

  /** The first `k` characters of a text, where no match starts, are copied unchanged. */
  lemma {:induction false} SkipFrom(s: string, k: nat, p: string, v: string)
    requires k <= |s| && NoMatchBelow(s, k, p)
    ensures ReplaceAll(s, p, v) == s[..k] + ReplaceAll(s[k..], p, v)
  {
    if k == 0 {
      assert s[..0] == [] && s[0..] == s;
    } else {
      assert MatchAt(s[k - 1..], p) == None && NoMatchBelow(s, k - 1, p);
      SkipFrom(s, k - 1, p, v);
      CopyAt(s, k, p, v);
      Chain(ReplaceAll(s, p, v), s[..k - 1] + ReplaceAll(s[k - 1..], p, v), s[..k] + ReplaceAll(s[k..], p, v));
    }
  }

  /** Equality carried through one intermediate text. */
  lemma Chain(a: string, b: string, c: string)
    requires a == b && b == c
    ensures a == c
  {
  }

  /** Copying the character before index `k` moves the boundary between copied text and the
      rest of the pass one place to the right. */
  lemma CopyAt(s: string, k: nat, p: string, v: string)
    requires 0 < k <= |s| && MatchAt(s[k - 1..], p) == None
    ensures s[..k - 1] + ReplaceAll(s[k - 1..], p, v) == s[..k] + ReplaceAll(s[k..], p, v)
  {
    var t := s[k - 1..];
    CopyStep(t, p, v);
    assert t[0] == s[k - 1] && t[1..] == s[k..];
    assert s[..k - 1] + [s[k - 1]] == s[..k];
  }

  /** Where no match starts, a pass copies one character and goes on. */
  lemma CopyStep(s: string, p: string, v: string)
    requires |s| > 0 && MatchAt(s, p) == None
    ensures ReplaceAll(s, p, v) == [s[0]] + ReplaceAll(s[1..], p, v)
  {
  }

  /** A text made only of characters other than `p`'s first letter passes unchanged. */
  lemma SkipWithoutLead(u: string, w: string, p: string, v: string)
    requires |p| > 0 && forall i :: 0 <= i < |u| ==> u[i] != p[0]
    ensures ReplaceAll(u + w, p, v) == u + ReplaceAll(w, p, v)
  {
    forall j | 0 <= j < |u| ensures MatchAt((u + w)[j..], p) == None {
      NoMatchWithoutLead((u + w)[j..], p);
    }
    SkipLiterals(u, w, p, v);
  }

  /** A reference carrying version `x` is matched at the start of a text. */
  lemma MatchOfReference(p: string, x: string, w: string)
    requires IsVersion(x)
    ensures MatchAt(p + x + [Quote] + w, p) == Some(x)
  {
    assert MatchesWith(p + x + [Quote] + w, p, x);
  }

  /** The pass after a reference at the start of a text. */
  lemma PassOverReference(p: string, x: string, w: string, v: string)
    requires IsVersion(x)
    ensures ReplaceAll(p + x + [Quote] + w, p, v) == p + v + [Quote] + ReplaceAll(w, p, v)
  {
    MatchOfReference(p, x, w);
    assert (p + x + [Quote] + w)[|p| + |x| + 1..] == w;
  }

  /** Up to its first match, and through that match's prefix, a pass leaves the text as it was:
      either nothing changes, or the returned `n` is the first match and input and output agree
      up to index `n + |p|`. */
  lemma {:induction false} FirstMatchKept(t: string, p: string, v: string) returns (n: nat)
    ensures var r := ReplaceAll(t, p, v);
      r == t || (n + |p| <= |t| && n + |p| <= |r| && t[..n + |p|] == r[..n + |p|] && t[n..n + |p|] == p)
  {
    var r := ReplaceAll(t, p, v);
    n := 0;
    if |t| > 0 {
      match MatchAt(t, p)
      case Some(x) =>
        RewriteStep(t, p, v, x);
      case None =>
        var n1 := FirstMatchKept(t[1..], p, v);
        CopyStep(t, p, v);
        if ReplaceAll(t[1..], p, v) != t[1..] {
          n := n1 + 1;
          KeptBehindHead(t, ReplaceAll(t[1..], p, v), p, n1);
        } else {
          assert r == [t[0]] + t[1..] == t;
        }
    }
  }

  /** At a match, a pass writes the prefix, the new version and the quote, and goes on after the
      match. */
  lemma RewriteStep(s: string, p: string, v: string, x: string)
    requires MatchAt(s, p) == Some(x)
    ensures |p| + |x| < |s| && s[..|p|] == p && s[0..|p|] == p
    ensures ReplaceAll(s, p, v) == p + v + [Quote] + ReplaceAll(s[|p| + |x| + 1..], p, v)
    ensures |p| <= |ReplaceAll(s, p, v)| && ReplaceAll(s, p, v)[..|p|] == p
  {
    assert MatchesWith(s, p, x);
    assert MatchAt(s, p).Some? && MatchAt(s, p).value == x && |s| != 0;
    var r := ReplaceAll(s, p, v);
    assert r[..|p|] == (p + v + [Quote] + ReplaceAll(s[|p| + |x| + 1..], p, v))[..|p|];
  }

  /** Agreement up to an occurrence of `p` survives putting the same character in front. */
  lemma KeptBehindHead(t: string, r1: string, p: string, n1: nat)
    requires |t| > 0
    requires n1 + |p| <= |t[1..]| && n1 + |p| <= |r1|
    requires t[1..][..n1 + |p|] == r1[..n1 + |p|] && t[1..][n1..n1 + |p|] == p
    ensures var r := [t[0]] + r1; var n := n1 + 1;
      n + |p| <= |t| && n + |p| <= |r| && t[..n + |p|] == r[..n + |p|] && t[n..n + |p|] == p
  {
    var n := n1 + 1;
    assert t[..n + |p|] == [t[0]] + t[1..][..n1 + |p|];
    assert ([t[0]] + r1)[..n + |p|] == [t[0]] + r1[..n1 + |p|];
    assert t[n..n + |p|] == t[1..][n1..n1 + |p|];
  }

  /** A character copied by pass `q` keeps its match status for pattern `p`: whether `p` matches
      at a character followed by the rest of the text is the same before and after `q` has
      rewritten that rest. */
  lemma LiteralHeadStable(c: char, t: string, p: string, q: string, v: string)
    requires NoInnerStart(p, q) && |q| > 0 && !IsVersionChar(q[0])
    ensures MatchAt([c] + ReplaceAll(t, q, v), p) == MatchAt([c] + t, p)
  {
    var n := FirstMatchKept(t, q, v);
    HeadStableFor(c, t, ReplaceAll(t, q, v), p, q, n);
  }

  /** `LiteralHeadStable` for any rewrite `r` of `t` that is `t` itself or agrees with it up to
      an occurrence of `q`. */
  lemma HeadStableFor(c: char, t: string, r: string, p: string, q: string, n: nat)
    requires NoInnerStart(p, q) && |q| > 0 && !IsVersionChar(q[0])
    requires r == t || (n + |q| <= |t| && n + |q| <= |r| && t[..n + |q|] == r[..n + |q|] && t[n..n + |q|] == q)
    ensures MatchAt([c] + r, p) == MatchAt([c] + t, p)
  {
    if r != t {
      ConsAgree(c, t, r, q, n);
      MatchAtStable([c] + t, [c] + r, p, q, n + 1);
    }
  }

  /** Agreement up to an occurrence of `q` at `n` becomes agreement up to one at `n + 1` when
      the same character is put in front. */
  lemma ConsAgree(c: char, t: string, r: string, q: string, n: nat)
    requires n + |q| <= |t| && n + |q| <= |r| && t[..n + |q|] == r[..n + |q|] && t[n..n + |q|] == q
    ensures var w, w' := [c] + t, [c] + r;
      n + 1 + |q| <= |w| && n + 1 + |q| <= |w'|
      && w[..n + 1 + |q|] == w'[..n + 1 + |q|] && w[n + 1..n + 1 + |q|] == q
  {
    var w, w' := [c] + t, [c] + r;
    assert w[..n + 1 + |q|] == [c] + t[..n + |q|];
    assert w'[..n + 1 + |q|] == [c] + r[..n + |q|];
    assert w[n + 1..n + 1 + |q|] == t[n..n + |q|];
  }

  /** No occurrence of `q` starts strictly inside an occurrence of `p` at the start of `s`. */
  lemma NoInnerMatch(s: string, p: string, q: string, j: nat)
    requires NoInnerStart(p, q)
    requires |p| <= |s| && s[..|p|] == p && 0 < j < |p|
    ensures MatchAt(s[j..], q) == None
  {
    assert !Overlaps(p, q, j);
    var i :| j <= i < |p| && i - j < |q| && p[i] != q[i - j];
    assert s[j..][i - j] == s[..|p|][i] == p[i];
    forall y ensures !MatchesWith(s[j..], q, y) {
      assert |q| <= |s[j..]| ==> s[j..][..|q|][i - j] == s[j..][i - j];
    }
  }

  /** A pass for `q` copies a whole reference for `p` when `q` cannot start inside it. */
  lemma SkipForeignReference(p: string, x: string, w: string, q: string, v: string)
    requires IsVersion(x) && Anchored(q) && NoInnerStart(p, q) && |p| > 0 && p[0] != q[0]
    ensures ReplaceAll(p + x + [Quote] + w, q, v) == p + x + [Quote] + ReplaceAll(w, q, v)
  {
    var u := p + x + [Quote];
    assert u + w == p + x + [Quote] + w;
    forall j | 0 <= j < |u| ensures MatchAt((u + w)[j..], q) == None {
      if j == 0 {
        NoMatchWithoutLead((u + w)[j..], q);
      } else if j < |p| {
        assert (u + w)[..|p|] == p;
        NoInnerMatch(u + w, p, q, j);
      } else {
        assert (u + w)[j..][0] == (u + w)[j] == u[j];
        assert j < |p| + |x| ==> u[j] == x[j - |p|];
        NoMatchWithoutLead((u + w)[j..], q);
      }
    }
    SkipLiterals(u, w, q, v);
  }

  /** A reference that a pass leaves unchanged already carries the pass's version. */
  lemma FixedReference(p: string, x: string, w: string, v: string)
    requires IsVersion(x) && IsVersion(v)
    requires ReplaceAll(p + x + [Quote] + w, p, v) == p + x + [Quote] + w
    ensures x == v && ReplaceAll(w, p, v) == w
  {
    var s := p + x + [Quote] + w;
    var r := p + v + [Quote] + ReplaceAll(w, p, v);
    PassOverReference(p, x, w, v);
    MatchOfReference(p, x, w);
    MatchOfReference(p, v, ReplaceAll(w, p, v));
    assert r == s;
    assert w == s[|p| + |x| + 1..] == r[|p| + |v| + 1..] == ReplaceAll(w, p, v);
  }

  // ---------------------------------------------------------------------------------------
  // Properties of one pass

  /** The pass leaves every character at which no reference starts exactly as it was: the text
      splits into copied characters and references, and the output is the same split with the
      version of every reference, and nothing else, replaced by `v`. No copied character is
      the start of a reference, so every reference is rewritten. */
  lemma {:induction false} PassRewritesOnlyVersions(s: string, p: string, v: string) returns (ps: seq<Piece>)
    ensures Render(ps, p) == s
    ensures Render(Restamp(ps, v), p) == ReplaceAll(s, p, v)
    ensures forall i :: 0 <= i < |ps| && ps[i].Reference? ==> IsVersion(ps[i].version)
    ensures forall i :: 0 <= i < |ps| && ps[i].Literal? ==> MatchAt(Render(ps[i..], p), p) == None
    decreases |s|
  {
    if |s| == 0 {
      ps := [];
    } else {
      var head, rest := HeadPiece(s, p, v);
      var ps1 := PassRewritesOnlyVersions(rest, p, v);
      ps := [head] + ps1;
      PiecesCons(head, ps1, p, v);
      PiecesConsUnmatched(head, ps1, p);
      Assemble(s, rest, ReplaceAll(s, p, v), ReplaceAll(rest, p, v), head, ps1, p, v);
    }
  }

  /** Rendering a piece in front of pieces that render a text and its pass renders the longer
      text and its pass. */
  lemma Assemble(s: string, rest: string, out: string, out1: string, head: Piece, ps1: seq<Piece>, p: string, v: string)
    requires s == PieceText(head, p) + rest && out == PieceText(Restamped(head, v), p) + out1
    requires Render(ps1, p) == rest && Render(Restamp(ps1, v), p) == out1
    requires Render([head] + ps1, p) == PieceText(head, p) + Render(ps1, p)
    requires Restamp([head] + ps1, v) == [Restamped(head, v)] + Restamp(ps1, v)
    ensures Render([head] + ps1, p) == s && Render(Restamp([head] + ps1, v), p) == out
  {
    var qs := Restamp([head] + ps1, v);
    assert qs[1..] == Restamp(ps1, v);
  }

  /** The first piece a pass sees in a non-empty text, and the text after it. */
  lemma HeadPiece(s: string, p: string, v: string) returns (head: Piece, rest: string)
    requires |s| > 0
    ensures |rest| < |s| && s == PieceText(head, p) + rest
    ensures ReplaceAll(s, p, v) == PieceText(Restamped(head, v), p) + ReplaceAll(rest, p, v)
    ensures head.Reference? ==> IsVersion(head.version)
    ensures head.Literal? ==> MatchAt(s, p) == None
  {
    match MatchAt(s, p) {
      case Some(x) =>
        rest := SplitReference(s, p, x);
        RewriteStep(s, p, v, x);
        head := Reference(x);
      case None =>
        CopyStep(s, p, v);
        head, rest := Literal(s[0]), s[1..];
        assert s == [s[0]] + s[1..];
    }
  }

  /** Copied characters stay unmatched when a piece is put in front. */
  lemma PiecesConsUnmatched(head: Piece, ps: seq<Piece>, p: string)
    requires head.Literal? ==> MatchAt(Render([head] + ps, p), p) == None
    requires forall i :: 0 <= i < |ps| && ps[i].Literal? ==> MatchAt(Render(ps[i..], p), p) == None
    ensures forall i :: 0 <= i < |[head] + ps| && ([head] + ps)[i].Literal? ==>
      MatchAt(Render(([head] + ps)[i..], p), p) == None
  {
    var qs := [head] + ps;
    forall i | 0 <= i < |qs| && qs[i].Literal? ensures MatchAt(Render(qs[i..], p), p) == None {
      if i == 0 {
        assert qs[0..] == qs;
      } else {
        assert qs[i] == ps[i - 1] && qs[i..] == ps[i - 1..];
      }
    }
  }

  /** How rendering and restamping treat the first piece. */
  lemma PiecesCons(head: Piece, ps: seq<Piece>, p: string, v: string)
    ensures Render([head] + ps, p) == PieceText(head, p) + Render(ps, p)
    ensures Restamp([head] + ps, v) == [Restamped(head, v)] + Restamp(ps, v)
    ensures forall i :: 0 < i <= |ps| ==> ([head] + ps)[i..] == ps[i - 1..]
  {
    assert ([head] + ps)[1..] == ps;
  }

  /** A text in which no reference starts anywhere passes through unchanged. */
  lemma PassWithoutReferences(s: string, p: string, v: string)
    requires forall j, x :: 0 <= j < |s| ==> !MatchesWith(s[j..], p, x)
    ensures ReplaceAll(s, p, v) == s
  {
    forall j | 0 <= j < |s| ensures MatchAt((s + [])[j..], p) == None {
      assert (s + [])[j..] == s[j..];
    }
    SkipLiterals(s, [], p, v);
    assert s + [] == s;
  }

  /** A reference whose version is empty or holds a character other than a digit or a dot is not
      matched; when it holds neither a quote nor the prefix's first letter, it is copied as it is. */
  lemma RejectedReferenceUntouched(p: string, x: string, w: string, v: string)
    requires Anchored(p) && NoInnerStart(p, p) && !IsVersion(x)
    requires forall i :: 0 <= i < |x| ==> x[i] != Quote && x[i] != p[0]
    ensures MatchAt(p + x + [Quote] + w, p) == None
    ensures ReplaceAll(p + x + [Quote] + w, p, v) == p + x + [Quote] + ReplaceAll(w, p, v)
  {
    var u := p + x + [Quote];
    var s := u + w;
    assert s == p + x + [Quote] + w;
    assert s[..|p|] == p;
    var rest := s[|p|..];
    assert rest == x + [Quote] + w;
    var n := VersionRun(rest);
    if |x| == 0 {
      assert rest[0] == Quote;
      assert n == 0;
    } else {
      var k :| 0 <= k < |x| && !IsVersionChar(x[k]);
      assert rest[k] == x[k];
      assert n <= k;
      assert s[|p| + n] == rest[n] == x[n];
    }
    forall j | 0 <= j < |u| ensures MatchAt(s[j..], p) == None {
      if 0 < j < |p| {
        NoInnerMatch(s, p, p, j);
      } else if j >= |p| {
        assert s[j..][0] == u[j];
        assert j < |p| + |x| ==> u[j] == x[j - |p|];
        NoMatchWithoutLead(s[j..], p);
      }
    }
    SkipLiterals(u, w, p, v);
  }

  /** Every reference left after a pass carries the pass's version: no old version survives. */
  lemma {:induction false} PassLeavesOnlyVersion(s: string, p: string, v: string)
    requires IsVersion(v) && Anchored(p) && NoInnerStart(p, p)
    ensures OnlyVersion(ReplaceAll(s, p, v), p, v)
    decreases |s|
  {
    var r := ReplaceAll(s, p, v);
    if |s| == 0 {
      assert MatchAt(r[0..], p) == None;
    } else {
      match MatchAt(s, p)
      case Some(x) =>
        assert MatchesWith(s, p, x);
        var rest := s[|p| + |x| + 1..];
        var r1 := ReplaceAll(rest, p, v);
        PassLeavesOnlyVersion(rest, p, v);
        assert r == p + v + [Quote] + r1;
        forall j | 0 <= j <= |r| ensures MatchAt(r[j..], p) in {None, Some(v)} {
          if j == 0 {
            MatchOfReference(p, v, r1);
          } else if j < |p| {
            assert r[..|p|] == p;
            NoInnerMatch(r, p, p, j);
          } else if j <= |p| + |v| {
            assert r[j..][0] == r[j];
            assert j < |p| + |v| ==> r[j] == v[j - |p|];
            NoMatchWithoutLead(r[j..], p);
          } else {
            assert r[j..] == r1[j - |p| - |v| - 1..];
          }
        }
      case None =>
        var r1 := ReplaceAll(s[1..], p, v);
        PassLeavesOnlyVersion(s[1..], p, v);
        LiteralHeadStable(s[0], s[1..], p, p, v);
        assert [s[0]] + s[1..] == s;
        assert r == [s[0]] + r1;
        forall j | 0 <= j <= |r| ensures MatchAt(r[j..], p) in {None, Some(v)} {
          if j == 0 {
            assert r[0..] == r;
          } else {
            assert r[j..] == r1[j - 1..];
          }
        }
    }
  }

  /** With a well-formed version, running a pass twice gives the same text as running it once. */
  lemma {:induction false} PassIdempotent(s: string, p: string, v: string)
    requires IsVersion(v) && Anchored(p) && NoInnerStart(p, p)
    ensures ReplaceAll(ReplaceAll(s, p, v), p, v) == ReplaceAll(s, p, v)
    decreases |s|
  {
    if |s| > 0 {
      match MatchAt(s, p)
      case Some(x) =>
        var rest := SplitReference(s, p, x);
        PassIdempotent(rest, p, v);
        PassOverReference(p, x, rest, v);
        PassOverReference(p, v, ReplaceAll(rest, p, v), v);
      case None =>
        var r1 := ReplaceAll(s[1..], p, v);
        CopyStep(s, p, v);
        LiteralHeadStable(s[0], s[1..], p, p, v);
        assert [s[0]] + s[1..] == s;
        CopyStep([s[0]] + r1, p, v);
        assert ([s[0]] + r1)[1..] == r1;
        PassIdempotent(s[1..], p, v);
    }
  }

  /** A pass for `q` does not disturb a text that the pass for `p` already leaves unchanged,
      provided neither prefix can start inside the other's references. */
  lemma {:induction false} OtherPassKeepsStamped(a: string, p: string, q: string, v: string)
    requires IsVersion(v) && Anchored(p) && Anchored(q) && NoInnerStart(p, q)
    requires forall i :: 0 <= i < |q| ==> q[i] != p[0]
    requires ReplaceAll(a, p, v) == a
    ensures ReplaceAll(ReplaceAll(a, q, v), p, v) == ReplaceAll(a, q, v)
    decreases |a|
  {
    if |a| > 0 {
      match MatchAt(a, p) {
        case Some(x) =>
          var a1 := SplitReference(a, p, x);
          FixedReference(p, x, a1, v);
          OtherPassKeepsStamped(a1, p, q, v);
          KeptAtOwnReference(p, v, a1, q);
        case None =>
          var a1 := a[1..];
          assert a == [a[0]] + a1;
          assert ReplaceAll(a1, p, v) == a1 by {
            assert ReplaceAll(a, p, v) == [a[0]] + ReplaceAll(a1, p, v);
          }
          match MatchAt(a, q) {
            case Some(y) =>
              var a2 := SplitReference(a, q, y);
              ScriptReferenceSkipped(q, y, a2, p, v);
              OtherPassKeepsStamped(a2, p, q, v);
              KeptAtOtherReference(q, y, a2, p, v);
            case None =>
              OtherPassKeepsStamped(a1, p, q, v);
              LiteralUnderOtherPass(a[0], a1, p, q, v);
          }
      }
    }
  }

  /** A text with a reference at its start is that reference followed by the rest. */
  lemma SplitReference(a: string, p: string, x: string) returns (rest: string)
    requires MatchAt(a, p) == Some(x)
    ensures IsVersion(x) && a == p + x + [Quote] + rest && rest == a[|p| + |x| + 1..]
  {
    assert MatchesWith(a, p, x);
    rest := a[|p| + |x| + 1..];
    assert a == a[..|p|] + a[|p|..|p| + |x|] + [a[|p| + |x|]] + rest;
  }

  /** The step of `OtherPassKeepsStamped` at a reference for `p` that already carries `v`. */
  lemma KeptAtOwnReference(p: string, v: string, a1: string, q: string)
    requires IsVersion(v) && Anchored(q) && NoInnerStart(p, q) && |p| > 0 && p[0] != q[0]
    requires ReplaceAll(ReplaceAll(a1, q, v), p, v) == ReplaceAll(a1, q, v)
    ensures ReplaceAll(ReplaceAll(p + v + [Quote] + a1, q, v), p, v) == ReplaceAll(p + v + [Quote] + a1, q, v)
  {
    SkipForeignReference(p, v, a1, q, v);
    PassOverReference(p, v, ReplaceAll(a1, q, v), v);
  }

  /** The step of `OtherPassKeepsStamped` at a reference for `q`. */
  lemma KeptAtOtherReference(q: string, y: string, a2: string, p: string, v: string)
    requires IsVersion(y) && IsVersion(v) && Anchored(p)
    requires forall i :: 0 <= i < |q| ==> q[i] != p[0]
    requires ReplaceAll(ReplaceAll(a2, q, v), p, v) == ReplaceAll(a2, q, v)
    ensures ReplaceAll(ReplaceAll(q + y + [Quote] + a2, q, v), p, v) == ReplaceAll(q + y + [Quote] + a2, q, v)
  {
    PassOverReference(q, y, a2, v);
    ScriptReferenceSkipped(q, v, ReplaceAll(a2, q, v), p, v);
  }

  /** A reference for `q` holds no character that starts a reference for `p`. */
  lemma ScriptReferenceSkipped(q: string, y: string, w: string, p: string, v: string)
    requires IsVersion(y) && Anchored(p)
    requires forall i :: 0 <= i < |q| ==> q[i] != p[0]
    ensures ReplaceAll(q + y + [Quote] + w, p, v) == q + y + [Quote] + ReplaceAll(w, p, v)
  {
    var u := q + y + [Quote];
    forall i | 0 <= i < |u| ensures u[i] != p[0] {
      if |q| <= i < |q| + |y| {
        assert u[i] == y[i - |q|];
      }
    }
    SkipWithoutLead(u, w, p, v);
  }

  /** The step of `OtherPassKeepsStamped` at a character that starts neither kind of reference. */
  lemma LiteralUnderOtherPass(c: char, a1: string, p: string, q: string, v: string)
    requires NoInnerStart(p, q) && Anchored(q)
    requires MatchAt([c] + a1, p) == None && MatchAt([c] + a1, q) == None
    requires ReplaceAll(ReplaceAll(a1, q, v), p, v) == ReplaceAll(a1, q, v)
    ensures ReplaceAll(ReplaceAll([c] + a1, q, v), p, v) == ReplaceAll([c] + a1, q, v)
  {
    var r1 := ReplaceAll(a1, q, v);
    assert ([c] + a1)[1..] == a1;
    assert ReplaceAll([c] + a1, q, v) == [c] + r1;
    LiteralHeadStable(c, a1, p, q, v);
    assert ([c] + r1)[1..] == r1;
  }

  /** Characters free of quotes start no reference for `p`, whose quote sits at index `d`, as long
      as no quote follows within `d` characters either. */
  lemma SkipQuoteFree(u: string, w: string, p: string, v: string, d: nat)
    requires d < |p| && p[d] == Quote
    requires forall i :: 0 <= i < |u| ==> u[i] != Quote
    requires forall i :: 0 <= i < d && i < |w| ==> w[i] != Quote
    ensures ReplaceAll(u + w, p, v) == u + ReplaceAll(w, p, v)
  {
    forall j | 0 <= j < |u| ensures MatchAt((u + w)[j..], p) == None {
      var t := (u + w)[j..];
      if d < |t| {
        assert t[d] == (u + w)[j + d];
        assert j + d >= |u| ==> (u + w)[j + d] == w[j + d - |u|];
        forall y ensures !MatchesWith(t, p, y) {
          assert |p| <= |t| ==> t[..|p|][d] == t[d];
        }
      }
    }
    SkipLiterals(u, w, p, v);
  }

  // ---------------------------------------------------------------------------------------
  // Properties of the whole stamp

  /** With a version made of digits and dots, stamping a stamped text changes nothing. */
  lemma StampIdempotent(text: string, v: string)
    requires IsVersion(v)
    ensures Stamp(Stamp(text, v), v) == Stamp(text, v)
  {
    PrefixesSeparated();
    var a := ReplaceAll(text, StylesPrefix, v);
    var b := ReplaceAll(a, ScriptPrefix, v);
    PassIdempotent(text, StylesPrefix, v);
    OtherPassKeepsStamped(a, StylesPrefix, ScriptPrefix, v);
    PassIdempotent(a, ScriptPrefix, v);
  }

  /** After stamping, every stylesheet and script reference in the text carries the configured
      version: all occurrences were replaced. */
  lemma StampLeavesOnlyVersion(text: string, v: string)
    requires IsVersion(v)
    ensures OnlyVersion(Stamp(text, v), StylesPrefix, v)
    ensures OnlyVersion(Stamp(text, v), ScriptPrefix, v)
  {
    PrefixesSeparated();
    var a := ReplaceAll(text, StylesPrefix, v);
    var b := ReplaceAll(a, ScriptPrefix, v);
    PassIdempotent(text, StylesPrefix, v);
    OtherPassKeepsStamped(a, StylesPrefix, ScriptPrefix, v);
    PassLeavesOnlyVersion(b, StylesPrefix, v);
    PassLeavesOnlyVersion(a, ScriptPrefix, v);
  }

  /** A text containing neither kind of reference is returned unchanged. */
  lemma StampWithoutReferences(text: string, v: string)
    requires forall j, x :: 0 <= j < |text| ==> !MatchesWith(text[j..], StylesPrefix, x)
    requires forall j, x :: 0 <= j < |text| ==> !MatchesWith(text[j..], ScriptPrefix, x)
    ensures Stamp(text, v) == text
  {
    PassWithoutReferences(text, StylesPrefix, v);
    PassWithoutReferences(text, ScriptPrefix, v);
  }

  /** `u` does not contain `c`. */
  predicate Avoids(u: string, c: char)
  {
    forall i :: 0 <= i < |u| ==> u[i] != c
  }

  /** Free of quotes and of the letter `h`: no reference of either kind can start here. */
  predicate Plain(u: string)
  {
    Avoids(u, Quote) && Avoids(u, 'h')
  }

  /** A page with one stylesheet and one script reference, separated by plain text, gets exactly
      the two versions replaced and every other character kept. */
  lemma StampRewritesBothReferences(a: string, x: string, b: string, y: string, c: string, v: string)
    requires IsVersion(x) && IsVersion(y) && IsVersion(v)
    requires Plain(a) && Plain(b) && Plain(c)
    ensures Stamp(a + StylesPrefix + x + [Quote] + b + ScriptPrefix + y + [Quote] + c, v)
         == a + StylesPrefix + v + [Quote] + b + ScriptPrefix + v + [Quote] + c
  {
    PrefixesSeparated();
    var S, J := StylesPrefix, ScriptPrefix;
    assert S[0] == 'h' && J[4] == Quote;
    assert forall i :: 0 <= i < 4 ==> S[i] != Quote && J[i] != Quote;
    FirstPassOnPage(S, J, a, x, b, y, c, v);
    SecondPassOnPage(S, J, 4, a, v, b, y, c, v);
  }

  /** The pass for `p` over `a`, a `p` reference, `b`, a `q` reference and `c`, when none of the
      plain parts and not `q` contain `p`'s first letter. */
  lemma FirstPassOnPage(p: string, q: string, a: string, x: string, b: string, y: string, c: string, v: string)
    requires IsVersion(x) && IsVersion(y) && Anchored(p)
    requires Avoids(q, p[0]) && Avoids(a, p[0]) && Avoids(b, p[0]) && Avoids(c, p[0])
    ensures ReplaceAll(a + p + x + [Quote] + b + q + y + [Quote] + c, p, v)
         == a + p + v + [Quote] + b + q + y + [Quote] + c
  {
    var tail := b + q + y + [Quote] + c;
    forall i | 0 <= i < |tail| ensures tail[i] != p[0] {
      if i < |b| {
        assert tail[i] == b[i];
      } else if i < |b| + |q| {
        assert tail[i] == q[i - |b|];
      } else if i < |b| + |q| + |y| {
        assert tail[i] == y[i - |b| - |q|];
      } else if i > |b| + |q| + |y| {
        assert tail[i] == c[i - |b| - |q| - |y| - 1];
      }
    }
    SkipWithoutLead(tail, [], p, v);
    assert tail + [] == tail;
    PassOverReference(p, x, tail, v);
    SkipWithoutLead(a, p + x + [Quote] + tail, p, v);
    Regroup(a, p, x, b, q, y, c);
    Regroup(a, p, v, b, q, y, c);
  }

  /** The ways of grouping a page that the lemmas above need. */
  lemma Regroup(a: string, p: string, x: string, b: string, q: string, y: string, c: string)
    ensures a + p + x + [Quote] + b + q + y + [Quote] + c == a + (p + x + [Quote] + (b + q + y + [Quote] + c))
    ensures a + p + x + [Quote] + b + q + y + [Quote] + c == a + (p + x + [Quote] + (b + (q + y + [Quote] + c)))
  {
  }

  /** The pass for `q`, whose quote sits at index `d`, over the same kind of page: only the `q`
      reference changes. */
  lemma SecondPassOnPage(p: string, q: string, d: nat, a: string, w: string, b: string, y: string, c: string, v: string)
    requires IsVersion(w) && IsVersion(y) && Anchored(q) && NoInnerStart(p, q) && |p| > 0 && p[0] != q[0]
    requires d < |q| && d <= |p| && q[d] == Quote
    requires forall i :: 0 <= i < d ==> p[i] != Quote && q[i] != Quote
    requires Avoids(a, Quote) && Avoids(b, Quote) && Avoids(c, Quote)
    ensures ReplaceAll(a + p + w + [Quote] + b + q + y + [Quote] + c, q, v)
         == a + p + w + [Quote] + b + q + v + [Quote] + c
  {
    var tail := q + y + [Quote] + c;
    var tail' := q + v + [Quote] + c;
    PassOverReference(q, y, c, v);
    SkipQuoteFree(c, [], q, v, d);
    assert c + [] == c;
    assert ReplaceAll(tail, q, v) == tail';
    forall i | 0 <= i < d && i < |tail| ensures tail[i] != Quote {
      assert tail[i] == q[i];
    }
    SkipQuoteFree(b, tail, q, v, d);
    SkipForeignReference(p, w, b + tail, q, v);
    var rest := p + w + [Quote] + (b + tail);
    forall i | 0 <= i < d && i < |rest| ensures rest[i] != Quote {
      assert rest[i] == p[i];
    }
    SkipQuoteFree(a, rest, q, v, d);
    Regroup(a, p, w, b, q, y, c);
    Regroup(a, p, w, b, q, v, c);
  }

  /** The fragment `<link href="styles.css?v=1.0"><script src="script.js?v=1.0"></script>`
      stamped with any version `v` carries `v` in both references and is otherwise unchanged. */
  lemma StampExample(v: string)
    requires IsVersion(v)
    ensures Stamp("<link " + StylesPrefix + "1.0\"><script " + ScriptPrefix + "1.0\"></script>", v)
         == "<link " + StylesPrefix + v + "\"><script " + ScriptPrefix + v + "\"></script>"
  {
    var a, b, c := "<link ", "><script ", "></script>";
    ExamplePlainParts(a, b, c);
    assert IsVersion("1.0");
    StampRewritesBothReferences(a, "1.0", b, "1.0", c, v);
    ExampleJoins(a, b, c);
    Grouped(a, StylesPrefix, "1.0", b, ScriptPrefix, "1.0", c);
    Grouped(a, StylesPrefix, v, b, ScriptPrefix, v, c);
  }

  /** The example fragment cut into plain parts and references: the parts are plain, */
  lemma ExamplePlainParts(a: string, b: string, c: string)
    requires a == "<link " && b == "><script " && c == "></script>"
    ensures Plain(a) && Plain(b) && Plain(c)
  {
  }

  /** and the literal pieces of the fragment are made of them. */
  lemma ExampleJoins(a: string, b: string, c: string)
    requires a == "<link " && b == "><script " && c == "></script>"
    ensures "1.0\"><script " == "1.0" + [Quote] + b && "1.0\"></script>" == "1.0" + [Quote] + c
    ensures "\"><script " == [Quote] + b && "\"></script>" == [Quote] + c
  {
  }

  /** A page with its references' closing quotes grouped with the parts after them. */
  lemma Grouped(a: string, p: string, x: string, b: string, q: string, y: string, c: string)
    ensures a + p + (x + [Quote] + b) + q + (y + [Quote] + c) == a + p + x + [Quote] + b + q + y + [Quote] + c
    ensures a + p + x + ([Quote] + b) + q + y + ([Quote] + c) == a + p + x + [Quote] + b + q + y + [Quote] + c
  {
  }
}
