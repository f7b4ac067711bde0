/** The grammar tokenizer: the default expander `/([\[<])\S+([\]>])/g` that cuts an
    assertion map into raw tokens, and the default stripper `/[<>\[\]]/g` followed by
    `trim` that removes the decoration from one token. */
module Grammar {
  import opened Wrappers
  import opened JsString

  predicate IsOpener(c: char) {
    c == '[' || c == '<'
  }

  predicate IsCloser(c: char) {
    c == ']' || c == '>'
  }

  predicate IsBracket(c: char) {
    IsOpener(c) || IsCloser(c)
  }

  /** Number of non-space characters at the start of `s`. */
  function RunLength(s: string): (n: nat)
    ensures n <= |s|
    ensures forall i :: 0 <= i < n ==> !IsSpace(s[i])
    ensures n == |s| || IsSpace(s[n])
  {
    if |s| == 0 || IsSpace(s[0]) then 0 else 1 + RunLength(s[1..])
  }

  /** The largest `j` with `lo <= j < hi` and `s[j]` a closer, or -1. */
  function LastCloserIn(s: string, lo: nat, hi: nat): (j: int)
    requires hi <= |s|
    ensures j == -1 || (lo <= j < hi && IsCloser(s[j]))
    ensures forall k :: (if j < 0 then lo else j + 1) <= k < hi ==> !IsCloser(s[k])
    decreases hi
  {
    if hi <= lo then -1
    else if IsCloser(s[hi - 1]) then hi - 1
    else LastCloserIn(s, lo, hi - 1)
  }

  // ---------------------------------------------------------------------------------
  // The regular expression, as the matcher runs it

  /** Length of the match that starts at `s[0]`, an opener: `\S+` first takes the whole
      run of non-space characters after the opener and then gives characters back until
      a closer follows, so the match ends at the last closer of the run, at least two
      characters after the opener. */
  function MatchLength(s: string): (r: Option<nat>)
    requires |s| > 0
    ensures r.Some? ==> 3 <= r.value <= |s|
  {
    var q := 1 + RunLength(s[1..]);
    var j := LastCloserIn(s, 2, q);
    if j < 0 then None else Some(j + 1)
  }

  /** All matches of the global expander, leftmost first; after a match the search
      resumes just past it, and after a failed attempt one character further on. */
  function ScanMatches(s: string): seq<string>
    decreases |s|
  {
    if |s| == 0 then []
    else if IsOpener(s[0]) && MatchLength(s).Some? then
      var n := MatchLength(s).value;
      [s[..n]] + ScanMatches(s[n..])
    else ScanMatches(s[1..])
  }

  // ---------------------------------------------------------------------------------
  // The same tokens described word by word

  /** The position of the first opener in `w`, or -1. */
  function FirstOpener(w: string): (p: int)
    ensures -1 <= p < |w|
    ensures p >= 0 ==> IsOpener(w[p])
    ensures forall k :: 0 <= k < (if p < 0 then |w| else p) ==> !IsOpener(w[k])
  {
    if |w| == 0 then -1
    else if IsOpener(w[0]) then 0
    else var p := FirstOpener(w[1..]); if p < 0 then -1 else p + 1
  }

  /** The token a whitespace-free word contributes: from its first opener to its last
      closer, when that closer is at least two characters after the opener. */
  function WordToken(w: string): Option<string> {
    var p := FirstOpener(w);
    var e := LastCloserIn(w, 0, |w|);
    if 0 <= p && p + 2 <= e then Some(w[p..e + 1]) else None
  }

  /** A raw token: opener, at least one character, closer, and no white space. */
  predicate WellFormedToken(t: string) {
    |t| >= 3 && IsOpener(t[0]) && IsCloser(t[|t| - 1]) && NoSpace(t)
  }

  /** The tokens of a map string, one per word that has an opener followed (two or more
      characters later) by a closer. */
  function Tokens(s: string): (r: seq<string>)
    ensures forall i :: 0 <= i < |r| ==> WellFormedToken(r[i])
    decreases |s|
  {
    if |s| == 0 then []
    else if IsSpace(s[0]) then Tokens(s[1..])
    else
      var n := RunLength(s);
      var w := s[..n];
      var t := WordToken(w);
      assert t.Some? ==> WellFormedToken(t.value) by {
        if t.Some? {
          var p := FirstOpener(w);
          var e := LastCloserIn(w, 0, |w|);
          assert t.value == w[p..e + 1];
          assert forall i :: 0 <= i < |t.value| ==> t.value[i] == s[p + i];
        }
      }
      t.ToSeq() + Tokens(s[n..])
  }

  // ---------------------------------------------------------------------------------
  // The matcher and the word-by-word description agree

  /** Scanning the part `s[m..n]` of a word that holds no closer produces nothing. */
  lemma {:induction false} ScanCloserFree(s: string, m: nat, n: nat)
    requires m <= n <= |s|
    requires forall i :: m <= i < n ==> !IsSpace(s[i]) && !IsCloser(s[i])
    requires n == |s| || IsSpace(s[n])
    ensures ScanMatches(s[m..]) == ScanMatches(s[n..])
    decreases n - m
  {
    if m < n {
      ScanCloserFreeStep(s, m, n);
      ScanCloserFree(s, m + 1, n);
    }
  }

  lemma ScanCloserFreeStep(s: string, m: nat, n: nat)
    requires m < n <= |s|
    requires forall i :: m <= i < n ==> !IsSpace(s[i]) && !IsCloser(s[i])
    requires n == |s| || IsSpace(s[n])
    ensures ScanMatches(s[m..]) == ScanMatches(s[m + 1..])
  {
    var t := s[m..];
    forall i | 0 <= i < n - m
      ensures !IsSpace(t[i]) && !IsCloser(t[i])
    {
      assert t[i] == s[m + i];
    }
    assert n - m == |t| || t[n - m] == s[n];
    RunLengthOfWord(t, n - m);
    assert t[1..] == s[m + 1..];
  }

  /** The run length of a string that starts with a word of length `n` is `n`. */
  lemma {:induction false} RunLengthOfWord(s: string, n: nat)
    requires 0 < n <= |s|
    requires forall i :: 0 <= i < n ==> !IsSpace(s[i])
    requires n == |s| || IsSpace(s[n])
    ensures RunLength(s) == n
    ensures 1 + RunLength(s[1..]) == n
    decreases n
  {
    if n > 1 {
      RunLengthOfWord(s[1..], n - 1);
    }
  }

  /** A prefix long enough to hold the range has the same last closer in it. */
  lemma {:induction false} LastCloserPrefix(s: string, m: nat, lo: nat, hi: nat)
    requires hi <= m <= |s|
    ensures LastCloserIn(s[..m], lo, hi) == LastCloserIn(s, lo, hi)
    decreases hi
  {
    if hi > lo && !IsCloser(s[hi - 1]) {
      LastCloserPrefix(s, m, lo, hi - 1);
    }
  }

  /** Dropping the first character shifts every position down by one. */
  lemma {:induction false} LastCloserShift(s: string, lo: nat, hi: nat)
    requires hi + 1 <= |s|
    ensures LastCloserIn(s, lo + 1, hi + 1)
         == (if LastCloserIn(s[1..], lo, hi) < 0 then -1 else LastCloserIn(s[1..], lo, hi) + 1)
    decreases hi
  {
    if hi > lo && !IsCloser(s[hi]) {
      LastCloserShift(s, lo, hi - 1);
    }
  }

  /** Raising the lower bound keeps the last closer if it is still in range. */
  lemma {:induction false} LastCloserNarrow(s: string, lo: nat, lo': nat, hi: nat)
    requires lo <= lo' && hi <= |s|
    ensures LastCloserIn(s, lo', hi)
         == (if LastCloserIn(s, lo, hi) >= lo' then LastCloserIn(s, lo, hi) else -1)
    decreases hi
  {
    if hi > lo && !IsCloser(s[hi - 1]) {
      LastCloserNarrow(s, lo, lo', hi - 1);
    }
  }

  /** Dropping a first character that is not an opener does not change a word's token. */
  lemma WordTokenTail(w: string)
    requires |w| > 0 && !IsOpener(w[0])
    ensures WordToken(w) == WordToken(w[1..])
  {
    TailPositions(w);
    var p := FirstOpener(w);
    var e := LastCloserIn(w, 0, |w|);
    if 0 <= p && p + 2 <= e {
      SliceOfTail(w, p, e + 1);
    }
  }

  lemma SliceOfTail(w: string, a: nat, b: nat)
    requires 1 <= a <= b <= |w|
    ensures w[a..b] == w[1..][a - 1..b - 1]
  {
  }

  /** Without a leading opener, the first opener and the last closer of a word sit one
      place further on than in the word without its first character. */
  lemma TailPositions(w: string)
    requires |w| > 0 && !IsOpener(w[0])
    ensures var p1 := FirstOpener(w[1..]);
            FirstOpener(w) == (if p1 < 0 then -1 else p1 + 1)
    ensures var e := LastCloserIn(w, 0, |w|);
            var e1 := LastCloserIn(w[1..], 0, |w| - 1);
            (if e1 < 0 then -1 else e1 + 1) == (if e >= 1 then e else -1)
  {
    LastCloserShift(w, 0, |w| - 1);
    LastCloserNarrow(w, 0, 1, |w|);
  }

  /** Where the opener's attempt succeeds, the match is the word's token. */
  lemma MatchInWord(s: string, n: nat)
    requires 0 < n <= |s|
    requires forall i :: 0 <= i < n ==> !IsSpace(s[i])
    requires n == |s| || IsSpace(s[n])
    requires IsOpener(s[0]) && MatchLength(s).Some?
    ensures MatchLength(s).value <= n
    ensures WordToken(s[..n]) == Some(s[..MatchLength(s).value])
  {
    var w := s[..n];
    MatchAtLastCloser(s, n);
    var e := LastCloserIn(w, 0, n);
    assert FirstOpener(w) == 0;
    assert w[0..e + 1] == s[..e + 1];
  }

  /** A successful match ends just after the word's last closer, which sits at least
      two places after the opener. */
  lemma MatchAtLastCloser(s: string, n: nat)
    requires 0 < n <= |s|
    requires forall i :: 0 <= i < n ==> !IsSpace(s[i])
    requires n == |s| || IsSpace(s[n])
    requires IsOpener(s[0]) && MatchLength(s).Some?
    ensures LastCloserIn(s[..n], 0, n) >= 2
    ensures MatchLength(s).value == LastCloserIn(s[..n], 0, n) + 1 <= n
  {
    RunLengthOfWord(s, n);
    LastCloserPrefix(s, n, 0, n);
    LastCloserNarrow(s, 0, 2, n);
  }

  /** `ScanWord` when the word starts with an opener whose attempt succeeds. */
  lemma ScanWordMatch(s: string, n: nat)
    requires 0 < n <= |s|
    requires forall i :: 0 <= i < n ==> !IsSpace(s[i])
    requires n == |s| || IsSpace(s[n])
    requires IsOpener(s[0]) && MatchLength(s).Some?
    ensures ScanMatches(s) == WordToken(s[..n]).ToSeq() + ScanMatches(s[n..])
  {
    var m := MatchLength(s).value;
    MatchInWord(s, n);
    ScanAfterMatch(s, n);
    assert ScanMatches(s) == [s[..m]] + ScanMatches(s[m..]);
  }

  /** The rest of a word after a successful match holds no closer, so scanning resumes
      as if from the end of the word. */
  lemma ScanAfterMatch(s: string, n: nat)
    requires 0 < n <= |s|
    requires forall i :: 0 <= i < n ==> !IsSpace(s[i])
    requires n == |s| || IsSpace(s[n])
    requires IsOpener(s[0]) && MatchLength(s).Some?
    ensures MatchLength(s).value <= n
    ensures ScanMatches(s[MatchLength(s).value..]) == ScanMatches(s[n..])
  {
    MatchEnd(s, n);
    ScanCloserFree(s, MatchLength(s).value, n);
  }

  lemma MatchEnd(s: string, n: nat)
    requires 0 < n <= |s|
    requires forall i :: 0 <= i < n ==> !IsSpace(s[i])
    requires n == |s| || IsSpace(s[n])
    requires IsOpener(s[0]) && MatchLength(s).Some?
    ensures MatchLength(s).value <= n
    ensures forall i :: MatchLength(s).value <= i < n ==> !IsCloser(s[i])
  {
    RunLengthOfWord(s, n);
  }

  /** Where a word's first character starts no match, its token is that of the rest. */
  lemma WordTokenSkip(s: string, n: nat)
    requires 1 < n <= |s|
    requires forall i :: 0 <= i < n ==> !IsSpace(s[i])
    requires n == |s| || IsSpace(s[n])
    requires !(IsOpener(s[0]) && MatchLength(s).Some?)
    ensures WordToken(s[..n]) == WordToken(s[1..][..n - 1])
  {
    var w := s[..n];
    assert s[1..][..n - 1] == w[1..];
    if IsOpener(s[0]) {
      RunLengthOfWord(s, n);
      LastCloserPrefix(s, n, 0, n);
      LastCloserNarrow(s, 0, 2, n);
      assert FirstOpener(w) == 0;
      assert WordToken(w).None?;
      // the opener's own attempt failed: no closer sits two or more places after
      // it, so none sits two or more places after a later opener either
      LastCloserShift(w, 0, n - 1);
      LastCloserNarrow(w, 0, 1, n);
      assert WordToken(w[1..]).None?;
    } else {
      WordTokenTail(w);
    }
  }

  /** Scanning a string that starts with a word yields the word's token (if any) followed
      by the scan of what comes after the word. */
  lemma {:induction false} ScanWord(s: string, n: nat)
    requires 0 < n <= |s|
    requires forall i :: 0 <= i < n ==> !IsSpace(s[i])
    requires n == |s| || IsSpace(s[n])
    ensures ScanMatches(s) == WordToken(s[..n]).ToSeq() + ScanMatches(s[n..])
    decreases n
  {
    if IsOpener(s[0]) && MatchLength(s).Some? {
      ScanWordMatch(s, n);
    } else if n == 1 {
      var w := s[..n];
      if IsOpener(s[0]) {
        RunLengthOfWord(s, n);
        assert FirstOpener(w) == 0;
      } else {
        assert FirstOpener(w) < 0;
      }
      assert WordToken(w).None?;
    } else {
      ScanWord(s[1..], n - 1);
      WordTokenSkip(s, n);
      assert s[1..][n - 1..] == s[n..];
    }
  }

  /** The matcher finds exactly the word-by-word tokens. */
  lemma {:induction false} ScanMatchesIsTokens(s: string)
    ensures ScanMatches(s) == Tokens(s)
    decreases |s|
  {
    if |s| > 0 {
      if IsSpace(s[0]) {
        ScanMatchesIsTokens(s[1..]);
      } else {
        var n := RunLength(s);
        ScanWord(s, n);
        ScanMatchesIsTokens(s[n..]);
      }
    }
  }

  // ---------------------------------------------------------------------------------
  // Expander and stripper

  /** White space before a string adds no tokens. */
  lemma {:induction false} TokensLeadingSpace(a: string, b: string)
    requires AllSpace(a)
    ensures Tokens(a + b) == Tokens(b)
    decreases |a|
  {
    if |a| > 0 {
      assert (a + b)[1..] == a[1..] + b;
      TokensLeadingSpace(a[1..], b);
    } else {
      assert a + b == b;
    }
  }

  /** White space after a string adds no tokens. */
  lemma {:induction false} TokensTrailingSpace(a: string, b: string)
    requires AllSpace(b)
    ensures Tokens(a + b) == Tokens(a)
    decreases |a| + |b|
  {
    if |a| == 0 {
      assert a + b == b;
      if |b| > 0 {
        TokensTrailingSpace(a, b[1..]);
        assert b[1..] == a + b[1..];
      }
    } else if IsSpace(a[0]) {
      assert (a + b)[1..] == a[1..] + b;
      TokensTrailingSpace(a[1..], b);
    } else {
      var n := RunLength(a);
      RunLengthOfWord(a + b, n);
      RunLengthOfWord(a, n);
      assert (a + b)[..n] == a[..n];
      assert (a + b)[n..] == a[n..] + b;
      TokensTrailingSpace(a[n..], b);
    }
  }

  /** Trimming the map first does not change its tokens. */
  lemma TokensTrim(s: string)
    ensures Tokens(Trim(s)) == Tokens(s)
  {
    var t := TrimStart(s);
    TokensTrimStart(s);
    TokensTrimEnd(t);
  }

  lemma TokensTrimStart(s: string)
    ensures Tokens(TrimStart(s)) == Tokens(s)
  {
    var t := TrimStart(s);
    var a := s[..|s| - |t|];
    assert s == a + t;
    TokensLeadingSpace(a, t);
  }

  lemma TokensTrimEnd(t: string)
    ensures Tokens(TrimEnd(t)) == Tokens(t)
  {
    var r := TrimEnd(t);
    var b := t[|r|..];
    assert t == r + b;
    TokensTrailingSpace(r, b);
  }

  /** A word followed by white space (or nothing) contributes its token and then the
      tokens of the rest. */
  lemma TokensWord(w: string, rest: string)
    requires |w| > 0 && NoSpace(w)
    requires rest == [] || IsSpace(rest[0])
    ensures Tokens(w + rest) == WordToken(w).ToSeq() + Tokens(rest)
  {
    var s := w + rest;
    RunLengthOfWord(s, |w|);
    assert s[..|w|] == w;
    assert s[|w|..] == rest;
  }

  /** The default expander: `(map || '').trim().match(expander)`; `match` returns null
      when nothing matches. The tokens are those of the word-by-word description. */
  function Expand(grammar: string): (r: Option<seq<string>>)
    ensures r.None? <==> |Tokens(grammar)| == 0
    ensures r.Some? ==> r.value == Tokens(grammar)
  {
    var found := ScanMatches(Trim(grammar));
    ScanMatchesIsTokens(Trim(grammar));
    TokensTrim(grammar);
    if |found| == 0 then None else Some(found)
  }

  /** Every `<`, `>`, `[` and `]` removed, not just the outer pair; all other characters
      kept in order (see `RemoveBracketsFree` and `RemoveBracketsAppend`). */
  function RemoveBrackets(s: string): (r: string)
    ensures |r| <= |s|
    ensures forall i :: 0 <= i < |r| ==> !IsBracket(r[i])
  {
    if |s| == 0 then ""
    else (if IsBracket(s[0]) then "" else [s[0]]) + RemoveBrackets(s[1..])
  }

  /** The default stripper: `str.replace(/[<>\[\]]/g, '').trim()`. */
  function Strip(token: string): (r: string)
    ensures forall i :: 0 <= i < |r| ==> !IsBracket(r[i])
    ensures r == [] || (!IsSpace(r[0]) && !IsSpace(r[|r| - 1]))
    ensures NoSpace(token) ==> r == RemoveBrackets(token)
  {
    var b := RemoveBrackets(token);
    NoSpaceKept(token);
    TrimKeepsNoBracket(b);
    Trim(b)
  }

  /** Trimming keeps a subsequence of the characters, so it adds no bracket. */
  lemma TrimKeepsNoBracket(s: string)
    requires NoBracket(s)
    ensures NoBracket(Trim(s))
  {
    var t := TrimStart(s);
    var r := TrimEnd(t);
    assert Trim(s) == r;
    forall i | 0 <= i < |r|
      ensures !IsBracket(r[i])
    {
      assert r[i] == t[i] == s[|s| - |t| + i];
    }
  }

  /** Removing brackets introduces no white space. */
  lemma {:induction false} NoSpaceKept(token: string)
    ensures NoSpace(token) ==> NoSpace(RemoveBrackets(token))
    decreases |token|
  {
    if |token| > 0 && NoSpace(token) {
      NoSpaceKept(token[1..]);
      var h: string := if IsBracket(token[0]) then "" else [token[0]];
      var t := RemoveBrackets(token[1..]);
      assert RemoveBrackets(token) == h + t;
      assert forall i :: 0 <= i < |h| ==> !IsSpace(h[i]);
    }
  }

  /** A well-formed token is the token of its own word. */
  lemma WordTokenWhole(w: string)
    requires WellFormedToken(w)
    ensures WordToken(w) == Some(w)
  {
    assert FirstOpener(w) == 0;
    assert LastCloserIn(w, 0, |w|) == |w| - 1;
    assert w[0..|w|] == w;
  }

  /** Well-formed tokens written out with single spaces between them tokenize back to
      the same list. */
  lemma {:induction false} TokensJoin(ws: seq<string>)
    requires forall i :: 0 <= i < |ws| ==> WellFormedToken(ws[i])
    ensures Tokens(Join(ws, " ")) == ws
    decreases |ws|
  {
    if |ws| == 1 {
      TokensSingle(ws[0]);
    } else if |ws| > 1 {
      TokensJoin(ws[1..]);
      TokensJoinStep(ws);
    }
  }

  lemma TokensSingle(w: string)
    requires WellFormedToken(w)
    ensures Tokens(Join([w], " ")) == [w]
  {
    WordTokenWhole(w);
    TokensWord(w, []);
    assert w + [] == w;
  }

  lemma TokensJoinStep(ws: seq<string>)
    requires |ws| > 1 && WellFormedToken(ws[0])
    requires Tokens(Join(ws[1..], " ")) == ws[1..]
    ensures Tokens(Join(ws, " ")) == ws
  {
    var rest := Join(ws[1..], " ");
    TokensSpaced(ws[0], rest);
    JoinSpaced(ws);
    assert ws == [ws[0]] + ws[1..];
  }

  lemma JoinSpaced(ws: seq<string>)
    requires |ws| > 1
    ensures Join(ws, " ") == ws[0] + (" " + Join(ws[1..], " "))
  {
  }

  /** A raw token, a space, then more text: the token comes first. */
  lemma TokensSpaced(w: string, rest: string)
    requires WellFormedToken(w)
    ensures Tokens(w + (" " + rest)) == [w] + Tokens(rest)
  {
    WordTokenWhole(w);
    TokensWord(w, " " + rest);
    TokensLeadingSpace(" ", rest);
  }

  predicate NoBracket(s: string) {
    forall i :: 0 <= i < |s| ==> !IsBracket(s[i])
  }

  lemma {:induction false} RemoveBracketsAppend(a: string, b: string)
    ensures RemoveBrackets(a + b) == RemoveBrackets(a) + RemoveBrackets(b)
    decreases |a|
  {
    if |a| > 0 {
      var h: string := if IsBracket(a[0]) then "" else [a[0]];
      assert (a + b)[0] == a[0];
      assert (a + b)[1..] == a[1..] + b;
      assert RemoveBrackets(a + b) == h + RemoveBrackets(a[1..] + b);
      assert RemoveBrackets(a) == h + RemoveBrackets(a[1..]);
      RemoveBracketsAppend(a[1..], b);
      var x := RemoveBrackets(a[1..]);
      var y := RemoveBrackets(b);
      assert h + (x + y) == (h + x) + y;
    } else {
      assert a + b == b;
    }
  }

  lemma {:induction false} RemoveBracketsFree(s: string)
    requires NoBracket(s)
    ensures RemoveBrackets(s) == s
    decreases |s|
  {
    if |s| > 0 {
      RemoveBracketsFree(s[1..]);
      assert s == [s[0]] + s[1..];
    }
  }

  /** Stripping a bracketed word gives back what was inside the brackets. */
  lemma StripWrapped(open: char, inner: string, close: char)
    requires IsBracket(open) && IsBracket(close)
    requires NoBracket(inner) && NoSpace(inner)
    ensures Strip([open] + inner + [close]) == inner
  {
    var t := [open] + inner + [close];
    assert NoSpace(t) by {
      assert forall i :: 0 < i < |t| - 1 ==> t[i] == inner[i - 1];
    }
    RemoveBracketsAppend([open] + inner, [close]);
    RemoveBracketsAppend([open], inner);
    RemoveBracketsFree(inner);
    assert RemoveBrackets([open]) == [];
    assert RemoveBrackets([close]) == [];
    assert [] + inner + [] == inner;
  }
}
