/**
 * The three regular expressions of the converter, written out as functions
 * over characters: the leading-slash test `/^\/\w?/`, the trailing path
 * parameter `/(:\w+)$/` and the global label cleaner `/\w+\s+/g`.
 * Character classes follow JavaScript without the `u` flag.
 */
module Patterns {
  import opened Text

  /** `\w`: an ASCII letter, digit or underscore. */
  predicate IsWordChar(ch: char) {
    || 'A' <= ch <= 'Z'
    || 'a' <= ch <= 'z'
    || '0' <= ch <= '9'
    || ch == '_'
  }

  /** `\s`: JavaScript's white space and line terminators. */
  predicate IsSpace(ch: char) {
    || ch == ' '
    || '\t' <= ch <= '\r'
    || ch == '\U{00A0}'
    || ch == '\U{1680}'
    || '\U{2000}' <= ch <= '\U{200A}'
    || ch == '\U{2028}'
    || ch == '\U{2029}'
    || ch == '\U{202F}'
    || ch == '\U{205F}'
    || ch == '\U{3000}'
    || ch == '\U{FEFF}'
  }

  /**
   * `/^\/\w?/.test(url)`. The `\w?` may match nothing, so the test holds
   * exactly when the url opens with a slash.
   */
  predicate StartsWithSlash(url: string) {
    |url| > 0 && url[0] == '/'
  }

  /** The path the title uses: the url, with a slash put in front when it has none. */
  function WithLeadingSlash(url: string): (path: string)
    ensures StartsWithSlash(path)
    ensures StartsWithSlash(url) ==> path == url
    ensures !StartsWithSlash(url) ==> path[1..] == url
  {
    if StartsWithSlash(url) then url else "/" + url
  }

  /** Length of the longest run of word characters that ends `s`. */
  function TrailingWordLen(s: string): (n: nat)
    ensures n <= |s|
    ensures forall j :: |s| - n <= j < |s| ==> IsWordChar(s[j])
    ensures n < |s| ==> !IsWordChar(s[|s| - n - 1])
  {
    if s == [] || !IsWordChar(s[|s| - 1]) then 0
    else
      var n := TrailingWordLen(s[..|s| - 1]);
      1 + n
  }

  /** `(:\w+)$` matches `s` at position `i`: a colon, then word characters up to the end. */
  predicate ParamAt(s: string, i: int) {
    && 0 <= i
    && i + 1 < |s|
    && s[i] == ':'
    && forall j :: i < j < |s| ==> IsWordChar(s[j])
  }

  /** The pattern matches at most one position, so leftmost-first search finds that one. */
  lemma ParamAtUnique(s: string, i: int, k: int)
    requires ParamAt(s, i) && ParamAt(s, k)
    ensures i == k
  {
  }

  /**
   * `s.replace(/(:\w+)$/, …)` with the callback that turns the captured
   * `:name` into `{name}` (the callback drops the first colon of the capture).
   */
  function RewriteTrailingParam(s: string): (r: string)
    ensures forall i :: ParamAt(s, i) ==> r == s[..i] + "{" + s[i + 1..] + "}"
    ensures (forall i :: !ParamAt(s, i)) ==> r == s
    ensures |s| > 0 && s[0] != ':' ==> |r| > 0 && r[0] == s[0]
  {
    var n := TrailingWordLen(s);
    if 0 < n < |s| && s[|s| - n - 1] == ':' then
      var i := |s| - n - 1;
      assert ParamAt(s, i);
      var capture := s[i..];
      assert capture == [':'] + s[i + 1..];
      RewriteAt(s, i, n);
      RemoveFirstSpec(capture, ':');
      s[..i] + "{" + RemoveFirst(capture, ':') + "}"
    else
      NoParam(s, n);
      s
  }

  lemma RewriteAt(s: string, i: int, n: nat)
    requires n == TrailingWordLen(s) && 0 < n < |s| && i == |s| - n - 1 && ParamAt(s, i)
    ensures forall k :: ParamAt(s, k) ==> k == i
  {
    forall k | ParamAt(s, k) ensures k == i {
      ParamAtUnique(s, i, k);
    }
  }

  /** A match, where there is one, begins just before the trailing word run. */
  lemma ParamAtTrailing(s: string, i: int)
    requires ParamAt(s, i)
    ensures TrailingWordLen(s) == |s| - i - 1
  {
  }

  lemma NoParam(s: string, n: nat)
    requires n == TrailingWordLen(s)
    requires !(0 < n < |s| && s[|s| - n - 1] == ':')
    ensures forall i :: !ParamAt(s, i)
  {
    forall i | 0 <= i < |s| ensures !ParamAt(s, i) {
      if ParamAt(s, i) {
        ParamAtTrailing(s, i);
      }
    }
  }

  /** Length of the longest run of word characters that opens `s`. */
  function LeadingWordLen(s: string): (n: nat)
    ensures n <= |s|
    ensures forall j :: 0 <= j < n ==> IsWordChar(s[j])
    ensures n < |s| ==> !IsWordChar(s[n])
  {
    if s == [] || !IsWordChar(s[0]) then 0 else 1 + LeadingWordLen(s[1..])
  }

  /** Length of the longest run of white space that opens `s`. */
  function LeadingSpaceLen(s: string): (n: nat)
    ensures n <= |s|
    ensures forall j :: 0 <= j < n ==> IsSpace(s[j])
    ensures n < |s| ==> !IsSpace(s[n])
  {
    if s == [] || !IsSpace(s[0]) then 0 else 1 + LeadingSpaceLen(s[1..])
  }

  /**
   * Length of the match of `\w+\s+` at the start of `s`, 0 when there is none.
   * Both runs are greedy; a shorter word run cannot be followed by white space,
   * so backtracking finds nothing else.
   */
  function MatchLen(s: string): (m: nat)
    ensures m <= |s|
  {
    var w := LeadingWordLen(s);
    if 0 < w < |s| && IsSpace(s[w]) then w + LeadingSpaceLen(s[w..]) else 0
  }

  /**
   * `s.replace(/\w+\s+/g, '')`: scanning left to right, each match is dropped
   * and the scan resumes after it; where no match starts, one character is kept.
   */
  function StripWordSpaceRuns(s: string): (r: string)
    decreases |s|
  {
    if s == [] then ""
    else
      var m := MatchLen(s);
      if m > 0 then StripWordSpaceRuns(s[m..]) else [s[0]] + StripWordSpaceRuns(s[1..])
  }

  /** No word character is directly followed by white space: `\w+\s+` cannot match. */
  predicate NoWordBeforeSpace(s: string) {
    forall i :: 0 <= i < |s| - 1 ==> !(IsWordChar(s[i]) && IsSpace(s[i + 1]))
  }

  /** After the replacement the pattern matches nowhere in the result. */
  lemma {:induction false} StripLeavesNoMatch(s: string)
    ensures NoWordBeforeSpace(StripWordSpaceRuns(s))
  {
    if s != [] {
      var m := MatchLen(s);
      if m > 0 {
        StripLeavesNoMatch(s[m..]);
      } else {
        var rest := StripWordSpaceRuns(s[1..]);
        StripLeavesNoMatch(s[1..]);
        if IsWordChar(s[0]) && |rest| > 0 {
          // The word run starting at s[0] ends in front of a non-space (or the end).
          var t := s[1..];
          assert LeadingWordLen(s) == 1 + LeadingWordLen(t);
          assert MatchLen(t) == 0;
          assert rest[0] == t[0];
          assert !IsSpace(rest[0]);
        }
        assert StripWordSpaceRuns(s) == [s[0]] + rest;
      }
    }
  }

  /** A text in which the pattern matches nowhere is left as it is. */
  lemma {:induction false} StripKeepsClean(s: string)
    requires NoWordBeforeSpace(s)
    ensures StripWordSpaceRuns(s) == s
  {
    if s != [] {
      var w := LeadingWordLen(s);
      if 0 < w < |s| {
        assert IsWordChar(s[w - 1]);
        assert !IsSpace(s[w]);
      }
      assert MatchLen(s) == 0;
      var t := s[1..];
      StripKeepsClean(t);
      assert s == [s[0]] + t;
    }
  }

  /** A run of white space in front of `v` adds its length to the leading white space. */
  lemma {:induction false} SpaceRunThen(sp: string, v: string)
    requires forall j :: 0 <= j < |sp| ==> IsSpace(sp[j])
    ensures LeadingSpaceLen(sp + v) == |sp| + LeadingSpaceLen(v)
  {
    if sp == [] {
      assert sp + v == v;
    } else {
      assert (sp + v)[0] == sp[0];
      assert (sp + v)[1..] == sp[1..] + v;
      SpaceRunThen(sp[1..], v);
    }
  }

  /**
   * A match at the front is dropped whole: the word run, all the white space
   * after it, including white space that `v` opens with, and nothing more.
   */
  lemma StripDropsLeadingMatch(w: string, sp: string, v: string)
    requires |w| > 0 && forall j :: 0 <= j < |w| ==> IsWordChar(w[j])
    requires |sp| > 0 && forall j :: 0 <= j < |sp| ==> IsSpace(sp[j])
    ensures StripWordSpaceRuns(w + sp + v) == StripWordSpaceRuns(v[LeadingSpaceLen(v)..])
  {
    var s := w + sp + v;
    var n := LeadingWordLen(s);
    assert forall j :: 0 <= j < |w| ==> s[j] == w[j];
    assert s[|w|] == sp[0];
    assert !IsWordChar(s[|w|]);
    assert n == |w|;
    assert s[|w|..] == sp + v;
    SpaceRunThen(sp, v);
    assert MatchLen(s) == |w| + |sp| + LeadingSpaceLen(v);
    assert s[MatchLen(s)..] == v[LeadingSpaceLen(v)..];
  }

  /**
   * Text in which no match starts, and which does not end inside a word run,
   * is kept in front of whatever the rest becomes.
   */
  lemma {:induction false} StripKeepsCleanPrefix(u: string, v: string)
    requires NoWordBeforeSpace(u)
    requires u == [] || !IsWordChar(u[|u| - 1])
    ensures StripWordSpaceRuns(u + v) == u + StripWordSpaceRuns(v)
  {
    if u != [] {
      var t := u[1..];
      CleanFirstKept(u, v);
      CleanTail(u);
      StripKeepsCleanPrefix(t, v);
      var r := StripWordSpaceRuns(v);
      Regroup3([u[0]], t, r);
      assert u == [u[0]] + t;
    } else {
      assert u + v == v;
    }
  }

  /** The first character of such a text is kept, and the scan goes on behind it. */
  lemma CleanFirstKept(u: string, v: string)
    requires u != [] && NoWordBeforeSpace(u) && !IsWordChar(u[|u| - 1])
    ensures StripWordSpaceRuns(u + v) == [u[0]] + StripWordSpaceRuns(u[1..] + v)
  {
    CleanPrefixNoMatch(u, v);
    assert (u + v)[0] == u[0] && (u + v)[1..] == u[1..] + v;
    StripUnmatchedStep(u + v);
  }

  /** Dropping the first character keeps both conditions. */
  lemma CleanTail(u: string)
    requires u != [] && NoWordBeforeSpace(u) && !IsWordChar(u[|u| - 1])
    ensures var t := u[1..]; NoWordBeforeSpace(t) && (t == [] || !IsWordChar(t[|t| - 1]))
  {
    var t := u[1..];
    assert forall i :: 0 <= i < |t| ==> t[i] == u[i + 1];
  }

  /**
   * One match after clean text: the text in front is kept as it is, the
   * match is dropped, and the scan goes on after the white space.
   */
  lemma StripOneMatch(u: string, w: string, sp: string, v: string)
    requires NoWordBeforeSpace(u) && (u == [] || !IsWordChar(u[|u| - 1]))
    requires |w| > 0 && forall j :: 0 <= j < |w| ==> IsWordChar(w[j])
    requires |sp| > 0 && forall j :: 0 <= j < |sp| ==> IsSpace(sp[j])
    ensures StripWordSpaceRuns(u + w + sp + v) == u + StripWordSpaceRuns(v[LeadingSpaceLen(v)..])
  {
    var m := w + sp + v;
    assert u + w + sp + v == u + m by {
      Regroup3(u, w, sp);
      Regroup3(u, w + sp, v);
    }
    StripKeepsCleanPrefix(u, m);
    StripDropsLeadingMatch(w, sp, v);
  }

  /** Where no match starts, the first character is kept. */
  lemma StripUnmatchedStep(s: string)
    requires s != [] && MatchLen(s) == 0
    ensures StripWordSpaceRuns(s) == [s[0]] + StripWordSpaceRuns(s[1..])
  {
  }

  /** No match starts at the front of such a text, whatever follows it. */
  lemma CleanPrefixNoMatch(u: string, v: string)
    requires u != [] && NoWordBeforeSpace(u) && !IsWordChar(u[|u| - 1])
    ensures MatchLen(u + v) == 0
  {
    var s := u + v;
    var n := LeadingWordLen(s);
    assert s[|u| - 1] == u[|u| - 1];
    assert n < |u|;
    if 0 < n {
      assert s[n - 1] == u[n - 1] && s[n] == u[n];
      assert !IsSpace(s[n]);
    }
  }

  /** Cleaning a label twice is cleaning it once. */
  lemma StripIdempotent(s: string)
    ensures StripWordSpaceRuns(StripWordSpaceRuns(s)) == StripWordSpaceRuns(s)
  {
    StripLeavesNoMatch(s);
    StripKeepsClean(StripWordSpaceRuns(s));
  }

  /** The status code in front of a response label goes, with its space. */
  lemma StripStatusLabel()
    ensures StripWordSpaceRuns("200 OK") == "OK"
  {
    assert LeadingWordLen("200 OK") == 3;
    assert MatchLen("200 OK") == 4;
    assert "200 OK"[4..] == "OK";
    assert LeadingWordLen("OK") == 2;
    assert StripWordSpaceRuns("K") == "K";
  }
}
