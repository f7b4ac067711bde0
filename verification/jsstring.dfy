/** The few JavaScript string operations the assertion engine relies on: `trim`,
    `indexOf`, `lastIndexOf`, `replace` with a string pattern, `split` and `join` with a
    string separator, number-to-string conversion and the `%s`/`%%` subset of Node's
    `util.format`. Strings are sequences of characters. */
module JsString {

  /** JavaScript white space and line terminators: what `trim` removes and `\s` matches. */
  predicate IsSpace(c: char) {
    || c == ' ' || c == '\t' || c == '\n' || c == '\U{000B}' || c == '\U{000C}' || c == '\r'
    || c == '\U{00A0}' || c == '\U{1680}' || ('\U{2000}' <= c <= '\U{200A}')
    || c == '\U{2028}' || c == '\U{2029}' || c == '\U{202F}' || c == '\U{205F}'
    || c == '\U{3000}' || c == '\U{FEFF}'
  }

  predicate NoSpace(s: string) {
    forall i :: 0 <= i < |s| ==> !IsSpace(s[i])
  }

  predicate AllSpace(s: string) {
    forall i :: 0 <= i < |s| ==> IsSpace(s[i])
  }

  function TrimStart(s: string): (r: string)
    ensures |r| <= |s| && r == s[|s| - |r|..]
    ensures AllSpace(s[..|s| - |r|])
    ensures r == [] || !IsSpace(r[0])
  {
    if |s| > 0 && IsSpace(s[0]) then
      var r := TrimStart(s[1..]);
      assert s[1..][|s| - 1 - |r|..] == s[|s| - |r|..];
      assert forall i :: 1 <= i < |s| - |r| ==> s[i] == s[1..][..|s| - 1 - |r|][i - 1];
      r
    else s
  }

  function TrimEnd(s: string): (r: string)
    ensures |r| <= |s| && r == s[..|r|]
    ensures AllSpace(s[|r|..])
    ensures r == [] || !IsSpace(r[|r| - 1])
  {
    if |s| > 0 && IsSpace(s[|s| - 1]) then
      var r := TrimEnd(s[..|s| - 1]);
      assert s[..|s| - 1][..|r|] == s[..|r|];
      assert forall i :: |r| <= i < |s| - 1 ==> s[i] == s[..|s| - 1][|r|..][i - |r|];
      r
    else s
  }

  /** `r` sits at position `k` of `s` with only white space around it. */
  predicate TrimmedAt(s: string, r: string, k: int) {
    0 <= k && k + |r| <= |s| && r == s[k..k + |r|] && AllSpace(s[..k]) && AllSpace(s[k + |r|..])
  }

  /** `String.prototype.trim`: the input with its leading and trailing white space removed. */
  function Trim(s: string): (r: string)
    ensures |r| <= |s|
    ensures exists k :: TrimmedAt(s, r, k)
    ensures r == [] || (!IsSpace(r[0]) && !IsSpace(r[|r| - 1]))
    ensures NoSpace(s) ==> r == s
  {
    var t := TrimStart(s);
    assert TrimmedAt(s, TrimEnd(t), |s| - |t|) by {
      TrimFrame(s, t, TrimEnd(t));
    }
    assert NoSpace(s) ==> t == s by {
      if NoSpace(s) && |s| > 0 {
        assert !IsSpace(s[0]);
      }
    }
    assert NoSpace(s) ==> TrimEnd(t) == t by {
      if NoSpace(s) && |s| > 0 {
        assert !IsSpace(t[|t| - 1]);
      }
    }
    TrimEnd(t)
  }

  predicate OccursAt(s: string, p: string, k: int) {
    0 <= k && k + |p| <= |s| && s[k..k + |p|] == p
  }

  /** The first position at or after `k` where `p` occurs, or -1. */
  function IndexFrom(s: string, p: string, k: nat): (r: int)
    ensures r == -1 || (k <= r <= |s| && OccursAt(s, p, r))
    ensures forall j :: k <= j < (if r < 0 then |s| + 1 else r) ==> !OccursAt(s, p, j)
    decreases |s| + 1 - k
  {
    if k > |s| then -1
    else if OccursAt(s, p, k) then k
    else IndexFrom(s, p, k + 1)
  }

  /** `s.indexOf(p)`: the first position where `p` occurs, or -1. */
  function IndexOf(s: string, p: string): (r: int)
    ensures -1 <= r <= |s|
    ensures r >= 0 ==> OccursAt(s, p, r)
    ensures forall k :: 0 <= k < (if r < 0 then |s| + 1 else r) ==> !OccursAt(s, p, k)
  {
    IndexFrom(s, p, 0)
  }

  predicate Contains(s: string, p: string) {
    IndexOf(s, p) >= 0
  }

  /** A suffix `t` of `s` after white space, cut down to a prefix `r` before white
      space, sits inside `s` with only white space around it. */
  lemma TrimFrame(s: string, t: string, r: string)
    requires |t| <= |s| && t == s[|s| - |t|..] && AllSpace(s[..|s| - |t|])
    requires |r| <= |t| && r == t[..|r|] && AllSpace(t[|r|..])
    ensures TrimmedAt(s, r, |s| - |t|)
  {
    var k := |s| - |t|;
    assert t[..|r|] == s[k..k + |r|];
    assert t[|r|..] == s[k + |r|..];
  }

  /** `p` occurs at `k` and at no earlier position. */
  predicate FirstAt(s: string, p: string, k: int) {
    OccursAt(s, p, k) && forall j :: 0 <= j < k ==> !OccursAt(s, p, j)
  }

  /** `s.replace(p, rep)` with a string pattern: only the first occurrence is replaced. */
  function ReplaceFirst(s: string, p: string, rep: string): (r: string)
    ensures !Contains(s, p) ==> r == s
    ensures Contains(s, p) ==> exists k :: FirstAt(s, p, k) && r == s[..k] + rep + s[k + |p|..]
    ensures Contains(s, p) ==> |r| == |s| - |p| + |rep|
  {
    var k := IndexOf(s, p);
    if k < 0 then s else s[..k] + rep + s[k + |p|..]
  }

  /** `s.lastIndexOf(c)` for a one-character pattern. */
  function LastIndexOfChar(s: string, c: char): (r: int)
    ensures -1 <= r < |s|
    ensures r >= 0 ==> s[r] == c
    ensures forall k :: r < k < |s| ==> s[k] != c
  {
    if |s| == 0 then -1
    else if s[|s| - 1] == c then |s| - 1
    else LastIndexOfChar(s[..|s| - 1], c)
  }

  /** `s.split(sep)` with a string separator: the pieces between the non-overlapping
      occurrences of `sep`, scanned from the left. An empty separator splits into single
      characters, so only then can the result be empty. */
  function Split(s: string, sep: string): (r: seq<string>)
    ensures sep != [] ==> |r| >= 1
    ensures sep == [] ==> |r| == |s|
    decreases |s|
  {
    if sep == [] then
      (if |s| == 0 then [] else [s[..1]] + Split(s[1..], sep))
    else
      var k := IndexOf(s, sep);
      if k < 0 then [s] else [s[..k]] + Split(s[k + |sep|..], sep)
  }

  /** `parts.join(sep)`. */
  function Join(parts: seq<string>, sep: string): string {
    if |parts| == 0 then ""
    else if |parts| == 1 then parts[0]
    else parts[0] + sep + Join(parts[1..], sep)
  }

  lemma JoinCons(a: string, rest: seq<string>, sep: string)
    requires |rest| >= 1
    ensures Join([a] + rest, sep) == a + sep + Join(rest, sep)
  {
    assert ([a] + rest)[1..] == rest;
  }

  /** Splitting and joining on the same separator gives back the string. */
  lemma JoinSplit(s: string, sep: string)
    ensures Join(Split(s, sep), sep) == s
  {
    if sep == [] {
      JoinSplitChars(s);
    } else {
      JoinSplitOn(s, sep);
    }
  }

  /** The empty separator cuts the string into its characters. */
  lemma {:induction false} JoinSplitChars(s: string)
    ensures Join(Split(s, []), []) == s
    decreases |s|
  {
    if |s| == 1 {
      assert Split(s, []) == [s[..1]] + [];
      assert s[..1] == s;
    } else if |s| > 1 {
      var rest := Split(s[1..], []);
      JoinSplitChars(s[1..]);
      JoinCons(s[..1], rest, []);
      assert s == s[..1] + [] + s[1..];
    }
  }

  /** A non-empty separator cuts the string at each occurrence. */
  lemma {:induction false} JoinSplitOn(s: string, sep: string)
    requires sep != []
    ensures Join(Split(s, sep), sep) == s
    decreases |s|
  {
    var k := IndexOf(s, sep);
    if k >= 0 {
      var tail := s[k + |sep|..];
      var rest := Split(tail, sep);
      JoinSplitOn(tail, sep);
      JoinCons(s[..k], rest, sep);
      assert s == s[..k] + sep + tail by {
        assert s[k..k + |sep|] == sep;
      }
    }
  }

  /** No piece of a split holds the (non-empty) separator. */
  lemma {:induction false} SplitPiecesFree(s: string, sep: string)
    requires sep != []
    ensures forall i :: 0 <= i < |Split(s, sep)| ==> !Contains(Split(s, sep)[i], sep)
    decreases |s|
  {
    var k := IndexOf(s, sep);
    if k >= 0 {
      var rest := s[k + |sep|..];
      SplitPiecesFree(rest, sep);
      var piece := s[..k];
      var j := IndexOf(piece, sep);
      if j >= 0 {
        assert piece[j..j + |sep|] == s[j..j + |sep|];
        assert OccursAt(s, sep, j);
        assert false;
      }
      assert Split(s, sep) == [piece] + Split(rest, sep);
    }
  }

  /** Every character of a piece of a split comes from the string split. */
  lemma {:induction false} SplitPiecesWithin(s: string, sep: string)
    ensures forall i :: 0 <= i < |Split(s, sep)| ==> forall c :: c in Split(s, sep)[i] ==> c in s
    decreases |s|
  {
    if sep == [] {
      if |s| > 0 {
        SplitPiecesWithin(s[1..], sep);
        assert Split(s, sep) == [s[..1]] + Split(s[1..], sep);
        assert forall c :: c in s[1..] ==> c in s;
      }
    } else {
      var k := IndexOf(s, sep);
      if k >= 0 {
        var rest := s[k + |sep|..];
        SplitPiecesWithin(rest, sep);
        assert Split(s, sep) == [s[..k]] + Split(rest, sep);
        assert forall c :: c in rest ==> c in s;
        assert forall c :: c in s[..k] ==> c in s;
      }
    }
  }

  /** A pattern whose first character does not occur in `s` does not occur in it. */
  lemma NotContains(s: string, p: string)
    requires |p| > 0 && p[0] !in s
    ensures !Contains(s, p)
  {
    forall k | 0 <= k <= |s|
      ensures !OccursAt(s, p, k)
    {
      if k + |p| <= |s| {
        assert s[k..k + |p|][0] == s[k];
      }
    }
  }

  /** A one-character separator that does not occur leaves the string whole. */
  lemma SplitWhole(s: string, sep: string)
    requires |sep| == 1 && sep[0] !in s
    ensures Split(s, sep) == [s]
  {
    assert forall k :: 0 <= k < |s| ==> !OccursAt(s, sep, k) by {
      forall k | 0 <= k < |s|
        ensures !OccursAt(s, sep, k)
      {
        assert s[k..k + 1][0] == s[k];
      }
    }
  }

  /** Splitting at the first occurrence of a one-character separator. */
  lemma SplitAt(a: string, sep: string, b: string)
    requires |sep| == 1 && sep[0] !in a
    ensures Split(a + sep + b, sep) == [a] + Split(b, sep)
  {
    var s := a + sep + b;
    forall k | 0 <= k < |a|
      ensures !OccursAt(s, sep, k)
    {
      assert s[k..k + 1][0] == s[k] == a[k];
    }
    assert s[|a|..|a| + 1] == sep;
    assert OccursAt(s, sep, |a|);
    var r := IndexOf(s, sep);
    assert !(0 <= r < |a|);
    assert r == |a|;
    assert s[..|a|] == a;
    assert s[|a| + 1..] == b;
  }

  /** The last occurrence of `c` when nothing after it is `c`. */
  lemma {:induction false} LastIndexAt(a: string, c: char, b: string)
    requires c !in b
    ensures LastIndexOfChar(a + [c] + b, c) == |a|
    decreases |b|
  {
    var s := a + [c] + b;
    if |b| > 0 {
      var b' := b[..|b| - 1];
      assert s[..|s| - 1] == a + [c] + b';
      assert s[|s| - 1] == b[|b| - 1];
      LastIndexAt(a, c, b');
    } else {
      assert s[|s| - 1] == c;
    }
  }

  function DigitChar(d: nat): char
    requires d < 10
  {
    "0123456789"[d]
  }

  function DigitValue(c: char): nat {
    if '0' <= c <= '9' then (c as int - '0' as int) as nat else 0
  }

  /** Decimal text of a natural number, as JavaScript's `String(n)` writes it. */
  function NatToString(n: nat): (r: string)
    ensures |r| >= 1
    ensures forall i :: 0 <= i < |r| ==> '0' <= r[i] <= '9'
    decreases n
  {
    if n < 10 then [DigitChar(n)] else NatToString(n / 10) + [DigitChar(n % 10)]
  }

  function IntToString(n: int): (r: string)
    ensures n < 0 <==> (|r| > 0 && r[0] == '-')
  {
    if n < 0 then "-" + NatToString(-n) else NatToString(n)
  }

  /** Reading decimal digits back, most significant first. */
  function ParseNat(s: string): nat {
    if |s| == 0 then 0 else 10 * ParseNat(s[..|s| - 1]) + DigitValue(s[|s| - 1])
  }

  /** The decimal text of a number reads back as that number. */
  lemma {:induction false} ParseNatToString(n: nat)
    ensures ParseNat(NatToString(n)) == n
    decreases n
  {
    if n >= 10 {
      ParseNatToString(n / 10);
      var r := NatToString(n);
      var q := NatToString(n / 10);
      var d := n % 10;
      assert r == q + [DigitChar(d)];
      assert r[..|r| - 1] == q;
      DigitRoundTrip(d);
      assert ParseNat(r) == 10 * ParseNat(q) + d;
      assert n == 10 * (n / 10) + d;
    } else {
      DigitRoundTrip(n);
    }
  }

  lemma DigitRoundTrip(d: nat)
    requires d < 10
    ensures DigitValue(DigitChar(d)) == d
  {
  }

  /** Text produced so far by the placeholder pass and the arguments it has not used. */
  datatype Filled = Filled(text: string, unused: seq<string>)

  /** The placeholder pass of Node's `util.format`: each `%s` takes the next argument
      while arguments remain (a `%s` with none left stays as it is), `%%` becomes `%`,
      and any other `%x` pair is copied unchanged. */
  function Substitute(t: string, args: seq<string>): (r: Filled)
    ensures |r.unused| <= |args|
    decreases |t|
  {
    if |t| < 2 then Filled(t, args)
    else if t[0] == '%' then
      if t[1] == 's' && |args| > 0 then
        var f := Substitute(t[2..], args[1..]);
        Filled(args[0] + f.text, f.unused)
      else if t[1] == '%' then
        var f := Substitute(t[2..], args);
        Filled("%" + f.text, f.unused)
      else
        var f := Substitute(t[2..], args);
        Filled(t[..2] + f.text, f.unused)
    else
      var f := Substitute(t[1..], args);
      Filled([t[0]] + f.text, f.unused)
  }

  /** Arguments left over after the placeholders, each appended after a space. */
  function Appended(rest: seq<string>): string {
    if |rest| == 0 then "" else " " + rest[0] + Appended(rest[1..])
  }

  /** `util.format(t, ...args)` for string arguments and `%s`/`%%` placeholders. */
  function Format(t: string, args: seq<string>): string {
    var f := Substitute(t, args);
    f.text + Appended(f.unused)
  }

  predicate NoPercent(t: string) {
    forall i :: 0 <= i < |t| ==> t[i] != '%'
  }

  /** Text without `%` passes through the placeholder pass unchanged, and the text after
      it is processed as if on its own. */
  lemma {:induction false} SubstituteLiteral(p: string, t: string, args: seq<string>)
    requires NoPercent(p)
    ensures Substitute(p + t, args) == Filled(p + Substitute(t, args).text, Substitute(t, args).unused)
    decreases |p|
  {
    if |p| > 0 {
      var pt := p + t;
      assert pt[0] == p[0];
      if |pt| < 2 {
        assert t == [] && pt == p;
      } else {
        assert pt[1..] == p[1..] + t;
        SubstituteLiteral(p[1..], t, args);
        var x := Substitute(t, args).text;
        assert [p[0]] + (p[1..] + x) == p + x;
      }
    } else {
      assert p + t == t;
    }
  }

  /** A leading `%s` takes the first argument. */
  lemma SubstitutePlaceholder(t: string, a: string, args: seq<string>)
    ensures Substitute("%s" + t, [a] + args) == Filled(a + Substitute(t, args).text, Substitute(t, args).unused)
  {
    assert ("%s" + t)[2..] == t;
    assert ([a] + args)[1..] == args;
  }

  /** Literal text, then a `%s` that takes the first argument. */
  lemma FillOne(p: string, t: string, a: string, rest: seq<string>)
    requires NoPercent(p)
    ensures Substitute(p + "%s" + t, [a] + rest)
         == Filled(p + a + Substitute(t, rest).text, Substitute(t, rest).unused)
  {
    var x, y := "%s" + t, [a] + rest;
    var f := Substitute(t, rest);
    SubstitutePlaceholder(t, a, rest);
    SubstituteLiteral(p, x, y);
    assert p + "%s" + t == p + x;
    assert p + (a + f.text) == p + a + f.text;
  }

  /** Text without `%` is left as it is, with every argument unused. */
  lemma SubstituteNoPercent(r: string, args: seq<string>)
    requires NoPercent(r)
    ensures Substitute(r, args) == Filled(r, args)
  {
    SubstituteLiteral(r, [], args);
    assert r + [] == r;
  }

  /** The placeholder pass on `p %s r` with one argument. */
  lemma SubstituteOne(p: string, r: string, a: string)
    requires NoPercent(p) && NoPercent(r)
    ensures Substitute(p + "%s" + r, [a]) == Filled(p + a + r, [])
  {
    SubstituteNoPercent(r, []);
    FillOne(p, r, a, []);
    assert [a] + [] == [a];
  }

  /** The placeholder pass on `p %s q %s r` with two arguments. */
  lemma SubstituteTwo(p: string, q: string, r: string, a: string, b: string)
    requires NoPercent(p) && NoPercent(q) && NoPercent(r)
    ensures Substitute(p + "%s" + q + "%s" + r, [a, b]) == Filled(p + a + q + b + r, [])
  {
    SubstituteOne(q, r, b);
    FillOne(p, q + "%s" + r, a, [b]);
    assert [a] + [b] == [a, b];
    assert p + "%s" + (q + "%s" + r) == p + "%s" + q + "%s" + r;
    assert p + a + (q + b + r) == p + a + q + b + r;
  }

  /** The placeholder pass on `p %s q %s r %s u` with three arguments. */
  lemma SubstituteThree(p: string, q: string, r: string, u: string, a: string, b: string, c: string)
    requires NoPercent(p) && NoPercent(q) && NoPercent(r) && NoPercent(u)
    ensures Substitute(p + "%s" + q + "%s" + r + "%s" + u, [a, b, c]) == Filled(p + a + q + b + r + c + u, [])
  {
    var t := q + "%s" + r + "%s" + u;
    SubstituteTwo(q, r, u, b, c);
    FillOne(p, t, a, [b, c]);
    assert [a] + [b, c] == [a, b, c];
    var P := p + "%s";
    Assoc(P, q + "%s" + r + "%s", u);
    Assoc(P, q + "%s" + r, "%s");
    Assoc(P, q + "%s", r);
    Assoc(P, q, "%s");
    var A := p + a;
    Assoc(A, q + b + r + c, u);
    Assoc(A, q + b + r, c);
    Assoc(A, q + b, r);
    Assoc(A, q, b);
  }

  lemma Assoc(x: string, y: string, z: string)
    ensures x + (y + z) == x + y + z
  {
    assert x + (y + z) == x + y + z;
  }

  /** Filling a template of the shape `p %s q %s r` with two arguments. */
  lemma FormatTwo(p: string, q: string, r: string, a: string, b: string)
    requires NoPercent(p) && NoPercent(q) && NoPercent(r)
    ensures Format(p + "%s" + q + "%s" + r, [a, b]) == p + a + q + b + r
  {
    SubstituteTwo(p, q, r, a, b);
    assert p + a + q + b + r + "" == p + a + q + b + r;
  }

  /** Filling a template of the shape `p %s q %s r %s u` with three arguments. */
  lemma FormatThree(p: string, q: string, r: string, u: string, a: string, b: string, c: string)
    requires NoPercent(p) && NoPercent(q) && NoPercent(r) && NoPercent(u)
    ensures Format(p + "%s" + q + "%s" + r + "%s" + u, [a, b, c]) == p + a + q + b + r + c + u
  {
    SubstituteThree(p, q, r, u, a, b, c);
    assert p + a + q + b + r + c + u + "" == p + a + q + b + r + c + u;
  }

}
