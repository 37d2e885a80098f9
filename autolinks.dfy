/**
 * `convertAutolinksToLinks` of components/EventCard.tsx: every match of
 * the global regular expression `<https?:\/\/[^\s]+>` in an event
 * description is replaced by the Markdown link `[U](U)`, where `U` is the
 * match without its first and last character.
 */
module Autolinks {
  import opened Wrappers

  /** ECMAScript `\s`: the WhiteSpace and LineTerminator code points. */
  predicate IsJsWhitespace(c: char) {
    || c == '\t' || c == '\n' || c == '\U{000B}' || c == '\U{000C}' || c == '\r' || c == ' '
    || c == '\U{00A0}' || c == '\U{1680}' || ('\U{2000}' <= c <= '\U{200A}')
    || c == '\U{2028}' || c == '\U{2029}' || c == '\U{202F}' || c == '\U{205F}'
    || c == '\U{3000}' || c == '\U{FEFF}'
  }

  predicate NoWhitespace(s: string) {
    forall i :: 0 <= i < |s| ==> !IsJsWhitespace(s[i])
  }

  predicate StartsWith(s: string, p: string) {
    |p| <= |s| && s[..|p|] == p
  }

  /**
   * Reference definition of the regular expression: `w` as a whole is
   * `<http://X>` or `<https://X>` with `X` non-empty and free of whitespace.
   */
  predicate IsAutolink(w: string) {
    || (StartsWith(w, "<https://") && |w| >= 11 && w[|w| - 1] == '>' && NoWhitespace(w[9..|w| - 1]))
    || (StartsWith(w, "<http://") && |w| >= 10 && w[|w| - 1] == '>' && NoWhitespace(w[8..|w| - 1]))
  }

  /** A URL that the regular expression accepts between angle brackets. */
  predicate IsAutolinkUrl(u: string) {
    && ((StartsWith(u, "https://") && |u| > 8) || (StartsWith(u, "http://") && |u| > 7))
    && NoWhitespace(u)
  }

  /** Length of the `<http://` or `<https://` that `s` starts with. */
  function SchemeLength(s: string): (n: Option<nat>)
    ensures n.None? <==> !StartsWith(s, "<https://") && !StartsWith(s, "<http://")
    ensures n == Some(9) <==> StartsWith(s, "<https://")
    ensures n == Some(8) <==> StartsWith(s, "<http://")
  {
    SchemesExclusive(s);
    if StartsWith(s, "<https://") then Some(9)
    else if StartsWith(s, "<http://") then Some(8)
    else None
  }

  /** `<https://` and `<http://` differ at their sixth character, so no string starts with both. */
  lemma SchemesExclusive(s: string)
    ensures StartsWith(s, "<https://") ==> !StartsWith(s, "<http://")
  {
    if StartsWith(s, "<https://") {
      assert s[..9][5] == s[5] == 's';
      assert s[..8][5] == 's';
    }
  }

  /** A text that does not start with `<` starts no autolink. */
  lemma NoSchemeWithoutLt(s: string)
    requires s != [] && s[0] != '<'
    ensures SchemeLength(s).None?
  {
    if |s| >= 8 { assert s[..8][0] == s[0]; }
    if |s| >= 9 { assert s[..9][0] == s[0]; }
  }

  lemma NoWhitespaceSlice(x: string, i: nat, j: nat)
    requires NoWhitespace(x) && i <= j <= |x|
    ensures NoWhitespace(x[i..j])
  {
    assert forall k :: 0 <= k < j - i ==> x[i..j][k] == x[i + k];
  }

  /** Number of leading characters of `t` that are not whitespace. */
  function RunLength(t: string): (n: nat)
    ensures n <= |t|
    ensures NoWhitespace(t[..n])
    ensures n < |t| ==> IsJsWhitespace(t[n])
  {
    if t == [] || IsJsWhitespace(t[0]) then 0 else 1 + RunLength(t[1..])
  }

  /** The largest `j` with `1 <= j < n` and `t[j] == '>'`. */
  function LastClose(t: string, n: nat): (j: Option<nat>)
    requires n <= |t|
    ensures j.Some? ==> 1 <= j.value < n && t[j.value] == '>'
    ensures j.Some? ==> forall k :: j.value < k < n ==> t[k] != '>'
    ensures j.None? ==> forall k :: 1 <= k < n ==> t[k] != '>'
  {
    if n <= 1 then None
    else if t[n - 1] == '>' then Some(n - 1)
    else LastClose(t, n - 1)
  }

  /**
   * Length of the regular expression's match at the start of `s`: the
   * greedy `[^\s]+` takes the whole whitespace-free run after the scheme
   * and gives back characters until a `>` follows.
   */
  function MatchLength(s: string): (m: Option<nat>)
    ensures m.Some? ==> 10 <= m.value <= |s| && s[0] == '<' && s[m.value - 1] == '>'
  {
    match SchemeLength(s)
    case None => None
    case Some(p) =>
      var rest := s[p..];
      match LastClose(rest, RunLength(rest))
      case None => None
      case Some(j) => Some(p + j + 1)
  }

  /** The Markdown link the callback returns for a URL. */
  function Link(url: string): string {
    "[" + url + "](" + url + ")"
  }

  /** `text.replace(/<https?:\/\/[^\s]+>/g, m => "[" + m.slice(1, -1) + "](" + m.slice(1, -1) + ")")` */
  function ConvertAutolinksToLinks(text: string): (r: string)
    decreases |text|
  {
    if text == [] then []
    else match MatchLength(text)
      case Some(n) => Link(text[1..n - 1]) + ConvertAutolinksToLinks(text[n..])
      case None => [text[0]] + ConvertAutolinksToLinks(text[1..])
  }

  lemma {:induction false} RunLengthAppend(a: string, b: string)
    requires NoWhitespace(a)
    ensures RunLength(a + b) == |a| + RunLength(b)
  {
    if a != [] {
      assert (a + b)[0] == a[0] && !IsJsWhitespace(a[0]);
      assert (a + b)[1..] == a[1..] + b;
      NoWhitespaceSlice(a, 1, |a|);
      RunLengthAppend(a[1..], b);
      assert RunLength(a + b) == 1 + RunLength((a + b)[1..]);
    } else {
      assert a + b == b;
    }
  }

  /** Every autolink prefix of `s` starts with the scheme `s` starts with and ends inside the run after it. */
  lemma AutolinkPrefixInRun(s: string, n: nat)
    requires n <= |s| && IsAutolink(s[..n])
    ensures SchemeLength(s).Some?
    ensures var p := SchemeLength(s).value; 1 <= n - 1 - p < RunLength(s[p..]) && s[p..][n - 1 - p] == '>'
  {
    var w := s[..n];
    if StartsWith(w, "<https://") {
      SchemesExclusive(w);
      assert s[..9] == w[..9];
      AutolinkBodyInRun(s, 9, n);
    } else {
      assert s[..8] == w[..8];
      SchemesExclusive(s);
      AutolinkBodyInRun(s, 8, n);
    }
  }

  /** What `MatchLength` finds is an autolink by the reference definition. */
  lemma MatchIsAutolink(s: string)
    requires MatchLength(s).Some?
    ensures IsAutolink(s[..MatchLength(s).value])
  {
    var p := SchemeLength(s).value;
    var rest := s[p..];
    var j := LastClose(rest, RunLength(rest)).value;
    var n := p + j + 1;
    var w := s[..n];
    SliceFacts(s, p, j, RunLength(rest));
    NoWhitespaceSlice(rest[..RunLength(rest)], 0, j);
  }

  lemma SliceFacts(s: string, p: nat, j: nat, r: nat)
    requires p + j + 1 <= |s| && j <= r <= |s| - p
    ensures var n := p + j + 1;
      && s[..n][p..n - 1] == s[p..][..r][..j]
      && s[..n][..p] == s[..p]
  {
    var n := p + j + 1;
    forall i | 0 <= i < j ensures s[..n][p..n - 1][i] == s[p..][..r][..j][i] {
      assert s[..n][p..n - 1][i] == s[p + i];
      assert s[p..][..r][..j][i] == s[p + i];
    }
    forall i | 0 <= i < p ensures s[..n][..p][i] == s[..p][i] { }
  }

  /** `MatchLength` finds the longest prefix of `s` that is an autolink, and only that. */
  lemma MatchLengthIsLongestAutolink(s: string)
    ensures MatchLength(s).Some? ==> IsAutolink(s[..MatchLength(s).value])
    ensures MatchLength(s).Some? ==>
      forall n :: MatchLength(s).value < n <= |s| ==> !IsAutolink(s[..n])
    ensures MatchLength(s).None? ==> forall n :: 0 <= n <= |s| ==> !IsAutolink(s[..n])
  {
    if MatchLength(s).Some? {
      MatchIsAutolink(s);
    }
    forall n | 0 <= n <= |s| && IsAutolink(s[..n])
      ensures MatchLength(s).Some? && n <= MatchLength(s).value
    {
      AutolinkPrefixInRun(s, n);
    }
  }

  /** The body of an autolink prefix of `s` lies inside the whitespace-free run after the scheme. */
  lemma AutolinkBodyInRun(s: string, p: nat, n: nat)
    requires p <= n <= |s| && p + 2 <= n
    requires s[n - 1] == '>'
    requires NoWhitespace(s[..n][p..n - 1])
    ensures n - 1 - p < RunLength(s[p..])
  {
    var rest := s[p..];
    var body := s[..n][p..n - 1];
    assert rest == body + s[n - 1..];
    RunLengthAppend(body, s[n - 1..]);
    assert !IsJsWhitespace('>');
  }

  /** Text with no `<http://` or `<https://` anywhere is returned unchanged. */
  lemma {:induction false} NoAutolinkUnchanged(text: string)
    requires forall i :: 0 <= i <= |text| ==>
      !StartsWith(text[i..], "<http://") && !StartsWith(text[i..], "<https://")
    ensures ConvertAutolinksToLinks(text) == text
    decreases |text|
  {
    if text != [] {
      assert text[0..] == text;
      var tail := text[1..];
      forall i | 0 <= i <= |tail|
        ensures !StartsWith(tail[i..], "<http://") && !StartsWith(tail[i..], "<https://")
      {
        assert tail[i..] == text[i + 1..];
      }
      NoAutolinkUnchanged(tail);
    }
  }

  /** A character other than `<` is copied and conversion goes on after it. */
  lemma CopyStep(s: string)
    requires s != [] && s[0] != '<'
    ensures ConvertAutolinksToLinks(s) == [s[0]] + ConvertAutolinksToLinks(s[1..])
  {
    NoSchemeWithoutLt(s);
    assert MatchLength(s).None?;
  }

  /** Text before the first `<` is copied through unchanged. */
  lemma {:induction false} PlainPrefix(prefix: string, t: string)
    requires '<' !in prefix
    ensures ConvertAutolinksToLinks(prefix + t) == prefix + ConvertAutolinksToLinks(t)
  {
    if prefix != [] {
      var s := prefix + t;
      assert s[0] == prefix[0] != '<';
      CopyStep(s);
      assert s[1..] == prefix[1..] + t;
      PlainPrefix(prefix[1..], t);
      assert [prefix[0]] + prefix[1..] == prefix;
    } else {
      assert prefix + t == t;
    }
  }

  /** Dropping `p` characters of `<` + url + tail drops `p - 1` of the url. */
  lemma DropAfterLt(url: string, tail: string, p: nat)
    requires 1 <= p <= |url| + 1
    ensures ("<" + url + tail)[p..] == url[p - 1..] + tail
  {
    var a := "<" + url[..p - 1];
    assert url == url[..p - 1] + url[p - 1..];
    assert "<" + url + tail == a + (url[p - 1..] + tail);
    assert |a| == p;
  }

  /** Length of the scheme, angle bracket included, that an autolink URL starts with. */
  function SchemeOf(url: string): nat {
    if StartsWith(url, "https://") then 9 else 8
  }

  lemma SchemeOfAutolink(url: string, tail: string)
    requires IsAutolinkUrl(url)
    ensures SchemeLength("<" + url + tail) == Some(SchemeOf(url))
    ensures SchemeOf(url) <= |url|
  {
    var s := "<" + url + tail;
    var p := SchemeOf(url);
    assert s[..p] == "<" + url[..p - 1];
    if |url| >= 8 { assert s[1..9] == url[..8]; }
  }

  /** After the scheme, `<U>` + tail continues with the rest of `U`, then `>`, then the tail. */
  lemma RestOfAutolink(url: string, tail: string)
    requires IsAutolinkUrl(url)
    ensures SchemeOf(url) <= |url|
    ensures ("<" + url + ">" + tail)[SchemeOf(url)..] == (url[SchemeOf(url) - 1..] + ">") + tail
    ensures NoWhitespace(url[SchemeOf(url) - 1..] + ">")
  {
    var p := SchemeOf(url);
    SchemeOfAutolink(url, []);
    assert "<" + url + ">" + tail == "<" + url + (">" + tail);
    DropAfterLt(url, ">" + tail, p);
    NoWhitespaceSlice(url, p - 1, |url|);
    NoWhitespaceConcat(url[p - 1..], ">");
  }

  /**
   * No `>` before the first whitespace of `t`: the greedy match cannot
   * backtrack to a later `>` in the same word.
   */
  predicate NoCloseInRun(t: string) {
    forall i :: 0 <= i < RunLength(t) ==> t[i] != '>'
  }

  /** The backtracking stops at a `>` at `a - 1` when none follows it before `n`. */
  lemma {:induction false} LastCloseAt(t: string, n: nat, a: nat)
    requires 2 <= a <= n <= |t| && t[a - 1] == '>'
    requires forall k :: a <= k < n ==> t[k] != '>'
    ensures LastClose(t, n) == Some(a - 1)
    decreases n
  {
    if n > a {
      LastCloseAt(t, n - 1, a);
    }
  }

  /** The regular expression matches exactly the `<U>` at the head of `<U>` + suffix. */
  lemma MatchOfAutolink(url: string, suffix: string)
    requires IsAutolinkUrl(url)
    requires NoCloseInRun(suffix)
    ensures MatchLength("<" + url + ">" + suffix) == Some(|url| + 2)
  {
    var s := "<" + url + ">" + suffix;
    assert s == "<" + url + (">" + suffix);
    SchemeOfAutolink(url, ">" + suffix);
    RestOfAutolink(url, suffix);
    var p := SchemeOf(url);
    var run := url[p - 1..] + ">";
    RunLengthAppend(run, suffix);
    var rest := s[p..];
    assert rest == run + suffix;
    assert rest[|run| - 1] == '>';
    forall k | |run| <= k < |run| + RunLength(suffix) ensures rest[k] != '>' {
      assert rest[k] == suffix[k - |run|];
    }
    LastCloseAt(rest, RunLength(rest), |run|);
  }

  /**
   * An autolink `<U>` becomes `[U](U)`, angle brackets stripped, unless a
   * `>` follows in the same word (then the greedy match runs on to it).
   */
  lemma SingleAutolink(url: string, suffix: string)
    requires IsAutolinkUrl(url)
    requires NoCloseInRun(suffix)
    ensures ConvertAutolinksToLinks("<" + url + ">" + suffix) == Link(url) + ConvertAutolinksToLinks(suffix)
  {
    var s := "<" + url + ">" + suffix;
    MatchOfAutolink(url, suffix);
    assert s[1..|url| + 1] == url;
    assert s[|url| + 2..] == suffix;
  }

  /** An autolink `<U>` after text without `<`, and with no `>` later in its word, becomes `[U](U)`. */
  lemma AutolinkInText(prefix: string, url: string, suffix: string)
    requires '<' !in prefix
    requires IsAutolinkUrl(url)
    requires NoCloseInRun(suffix)
    ensures ConvertAutolinksToLinks(prefix + "<" + url + ">" + suffix)
         == prefix + Link(url) + ConvertAutolinksToLinks(suffix)
  {
    assert prefix + "<" + url + ">" + suffix == prefix + ("<" + url + ">" + suffix);
    PlainPrefix(prefix, "<" + url + ">" + suffix);
    SingleAutolink(url, suffix);
  }

  /** A text that is exactly one autolink `<U>` becomes `[U](U)`. */
  lemma WholeTextAutolink(url: string)
    requires IsAutolinkUrl(url)
    ensures ConvertAutolinksToLinks("<" + url + ">") == Link(url)
  {
    assert "<" + url + ">" == "<" + url + ">" + [];
    SingleAutolink(url, []);
  }

  lemma NoWhitespaceConcat(a: string, b: string)
    requires NoWhitespace(a) && NoWhitespace(b)
    ensures NoWhitespace(a + b)
  {
    assert forall i :: |a| <= i < |a + b| ==> (a + b)[i] == b[i - |a|];
  }

  /** `U><V` is itself a URL the regular expression accepts between angle brackets. */
  lemma AdjacentUrl(u: string, v: string)
    requires IsAutolinkUrl(u) && IsAutolinkUrl(v)
    ensures IsAutolinkUrl(u + "><" + v)
  {
    var w := u + "><" + v;
    assert w == u + ("><" + v);
    assert w[..7] == u[..7];
    if |u| >= 8 { assert w[..8] == u[..8]; }
    NoWhitespaceConcat("><", v);
    NoWhitespaceConcat(u, "><" + v);
  }

  /**
   * As written, the match at the head of `<U><V>` is the whole text:
   * `[^\s]+` also accepts `>`, so the greedy match runs on to the last `>`
   * before whitespace, and the URL it yields contains `><`.
   */
  lemma GreedyMatchOfAdjacent(u: string, v: string)
    requires IsAutolinkUrl(u) && IsAutolinkUrl(v)
    ensures var s := "<" + u + ">" + "<" + v + ">"; MatchLength(s) == Some(|s|)
  {
    var w := u + "><" + v;
    AdjacentUrl(u, v);
    assert "<" + u + ">" + "<" + v + ">" == "<" + w + ">" + [];
    MatchOfAutolink(w, []);
  }

  /** As written: `<U><V>` becomes one link to the URL `U><V`, not two links. */
  lemma GreedyMergesAdjacentAutolinks(u: string, v: string)
    requires IsAutolinkUrl(u) && IsAutolinkUrl(v)
    ensures ConvertAutolinksToLinks("<" + u + ">" + "<" + v + ">") == Link(u + "><" + v)
    ensures ConvertAutolinksToLinks("<" + u + ">" + "<" + v + ">") != Link(u) + Link(v)
  {
    var s := "<" + u + ">" + "<" + v + ">";
    GreedyMatchOfAdjacent(u, v);
    assert s[1..|s| - 1] == u + "><" + v;
    assert s[|s|..] == [];
    var merged := Link(u + "><" + v);
    assert merged[1 + |u|] == '>';
    assert (Link(u) + Link(v))[1 + |u|] == ']';
  }

  /** The evident intent, `<https?:\/\/[^\s>]+>`: leading characters that are neither whitespace nor `>`. */
  function StrictRunLength(t: string): (n: nat)
    ensures n <= |t|
    ensures forall i :: 0 <= i < n ==> !IsJsWhitespace(t[i]) && t[i] != '>'
    ensures n < |t| ==> IsJsWhitespace(t[n]) || t[n] == '>'
  {
    if t == [] || IsJsWhitespace(t[0]) || t[0] == '>' then 0 else 1 + StrictRunLength(t[1..])
  }

  /** Match length of `<https?:\/\/[^\s>]+>` at the start of `s`. */
  function StrictMatchLength(s: string): (m: Option<nat>)
    ensures m.Some? ==> 10 <= m.value <= |s| && s[0] == '<' && s[m.value - 1] == '>'
  {
    match SchemeLength(s)
    case None => None
    case Some(p) =>
      var rest := s[p..];
      var n := StrictRunLength(rest);
      if 1 <= n < |rest| && rest[n] == '>' then Some(p + n + 1)
      else None
  }

  /** `convertAutolinksToLinks` with the corrected regular expression `<https?:\/\/[^\s>]+>`. */
  function ConvertAutolinksStrict(text: string): (r: string)
    decreases |text|
  {
    if text == [] then []
    else match StrictMatchLength(text)
      case Some(n) => Link(text[1..n - 1]) + ConvertAutolinksStrict(text[n..])
      case None => [text[0]] + ConvertAutolinksStrict(text[1..])
  }

  lemma {:induction false} StrictRunLengthAppend(a: string, b: string)
    requires NoWhitespace(a) && '>' !in a
    ensures StrictRunLength(a + b) == |a| + StrictRunLength(b)
  {
    if a != [] {
      assert (a + b)[0] == a[0] && !IsJsWhitespace(a[0]);
      assert (a + b)[1..] == a[1..] + b;
      NoWhitespaceSlice(a, 1, |a|);
      StrictRunLengthAppend(a[1..], b);
      assert StrictRunLength(a + b) == 1 + StrictRunLength((a + b)[1..]);
    } else {
      assert a + b == b;
    }
  }

  /** Corrected: an autolink `<U>` is replaced by `[U](U)` whatever follows it. */
  lemma StrictAutolinkSelfDelimiting(url: string, t: string)
    requires IsAutolinkUrl(url) && '>' !in url
    ensures ConvertAutolinksStrict("<" + url + ">" + t) == Link(url) + ConvertAutolinksStrict(t)
  {
    var s := "<" + url + ">" + t;
    SchemeOfAutolink(url, ">" + t);
    assert s == "<" + url + (">" + t);
    var p := SchemeOf(url);
    var rest := s[p..];
    var body := url[p - 1..];
    DropAfterLt(url, ">" + t, p);
    assert rest == body + (">" + t);
    NoWhitespaceSlice(url, p - 1, |url|);
    assert '>' !in body;
    StrictRunLengthAppend(body, ">" + t);
    assert StrictRunLength(rest) == |body|;
    assert rest[|body|] == '>';
    assert StrictMatchLength(s) == Some(|url| + 2);
    assert s[1..|url| + 1] == url;
    assert s[|url| + 2..] == t;
  }

  /** Corrected: `<U><V>` becomes the two links `[U](U)[V](V)`. */
  lemma StrictSeparatesAdjacentAutolinks(u: string, v: string)
    requires IsAutolinkUrl(u) && '>' !in u
    requires IsAutolinkUrl(v) && '>' !in v
    ensures ConvertAutolinksStrict("<" + u + ">" + "<" + v + ">") == Link(u) + Link(v)
  {
    assert "<" + u + ">" + "<" + v + ">" == "<" + u + ">" + ("<" + v + ">");
    StrictAutolinkSelfDelimiting(u, "<" + v + ">");
    assert "<" + v + ">" == "<" + v + ">" + [];
    StrictAutolinkSelfDelimiting(v, []);
    assert Link(u) + Link(v) + [] == Link(u) + Link(v);
  }
}
