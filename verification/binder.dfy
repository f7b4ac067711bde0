/** The argument binder (`parseMap`): one descriptor per normalized token, holding the
    position, display name, required flag, allowed types, the supplied value and its
    guessed type, plus the aggregate index lists and counts of the result object. */
module Binder {
  import opened Wrappers
  import opened JsString
  import opened Values
  import opened Grammar
  import opened Config

  datatype Descriptor = Descriptor(
    index: nat,
    name: Option<string>,   // `undefined` when neither the token nor `positions` names it
    required: bool,
    types: seq<string>,
    value: Value,
    vtype: string)

  /** A validation failure: the error message and, for type mismatches, the offending
      argument. */
  datatype Failure = Failure(message: string, argument: Option<Descriptor>)

  /** The result object of one `assert` call. */
  datatype Bound = Bound(
    name: string,          // the caller's label, empty when absent
    keys: seq<nat>,
    required: seq<nat>,
    optional: seq<nat>,
    actual: int,
    max: nat,
    args: seq<Descriptor>,
    failure: Option<Failure>)

  /** `c.startsWith('<')`: angle brackets mark a required argument. */
  predicate IsRequiredToken(t: string) {
    |t| > 0 && t[0] == '<'
  }

  /** The name segments and type list written in a stripped token. */
  datatype Parts = Parts(hasNames: bool, names: seq<string>, types: seq<string>)

  /** Text before the last `:` split on `:`, text after it split on the separator; with no
      `:` the whole text is the type list. */
  function SplitToken(c: string, sep: string): (p: Parts)
    ensures p.hasNames <==> ':' in c
    ensures p.hasNames ==> |p.names| >= 1
    ensures !p.hasNames ==> p.names == []
  {
    var last := LastIndexOfChar(c, ':');
    if last >= 0 then Parts(true, Split(c[..last], ":"), Split(c[last + 1..], sep))
    else Parts(false, [], Split(c, sep))
  }

  /** Joining the parts back gives the stripped token, and the type list holds no `:`:
      the names end at the last `:`. */
  lemma SplitTokenRoundTrip(c: string, sep: string)
    ensures var p := SplitToken(c, sep);
            && (p.hasNames ==> Join(p.names, ":") + ":" + Join(p.types, sep) == c)
            && (!p.hasNames ==> Join(p.types, sep) == c)
            && (forall i :: 0 <= i < |p.names| ==> !Contains(p.names[i], ":"))
            && (forall i :: 0 <= i < |p.types| ==> !Contains(p.types[i], ":"))
            && (sep != [] ==> forall i :: 0 <= i < |p.types| ==> !Contains(p.types[i], sep))
  {
    var last := LastIndexOfChar(c, ':');
    if last >= 0 {
      assert SplitToken(c, sep) == Parts(true, Split(c[..last], ":"), Split(c[last + 1..], sep));
      NamedParts(c, sep, last, c[..last], c[last + 1..]);
    } else {
      assert SplitToken(c, sep) == Parts(false, [], Split(c, sep));
      TypeParts(c, sep);
    }
  }

  /** The names/types split at a `:` after which no `:` occurs. */
  lemma NamedParts(c: string, sep: string, last: nat, head: string, tail: string)
    requires last < |c| && c[last] == ':' && head == c[..last] && tail == c[last + 1..]
    requires forall k :: last < k < |c| ==> c[k] != ':'
    ensures Join(Split(head, ":"), ":") + ":" + Join(Split(tail, sep), sep) == c
    ensures forall i :: 0 <= i < |Split(head, ":")| ==> !Contains(Split(head, ":")[i], ":")
    ensures forall i :: 0 <= i < |Split(tail, sep)| ==> !Contains(Split(tail, sep)[i], ":")
    ensures sep != [] ==> forall i :: 0 <= i < |Split(tail, sep)| ==> !Contains(Split(tail, sep)[i], sep)
  {
    assert Join(Split(head, ":"), ":") == head by { JoinSplit(head, ":"); }
    assert Join(Split(tail, sep), sep) == tail by { JoinSplit(tail, sep); }
    assert c == head + ":" + tail;
    SplitPiecesFree(head, ":");
    assert ':' !in tail by {
      forall k | 0 <= k < |tail| ensures tail[k] != ':' {
        assert tail[k] == c[last + 1 + k];
      }
    }
    TypeParts(tail, sep);
  }

  /** A token with no `:` is one type list. */
  lemma TypeParts(c: string, sep: string)
    requires ':' !in c
    ensures Join(Split(c, sep), sep) == c
    ensures forall i :: 0 <= i < |Split(c, sep)| ==> !Contains(Split(c, sep)[i], ":")
    ensures sep != [] ==> forall i :: 0 <= i < |Split(c, sep)| ==> !Contains(Split(c, sep)[i], sep)
  {
    JoinSplit(c, sep);
    if sep != [] {
      SplitPiecesFree(c, sep);
    }
    SplitPiecesWithout(c, sep, ':');
    assert [':'] == ":";
  }

  /** A character that does not occur in a string occurs in none of its pieces. */
  lemma SplitPiecesWithout(s: string, sep: string, x: char)
    requires x !in s
    ensures forall i :: 0 <= i < |Split(s, sep)| ==> !Contains(Split(s, sep)[i], [x])
  {
    SplitPiecesWithin(s, sep);
    forall i | 0 <= i < |Split(s, sep)|
      ensures !Contains(Split(s, sep)[i], [x])
    {
      NotContains(Split(s, sep)[i], [x]);
    }
  }

  /** `names[0] || options.positions[i]`: the first name segment unless it is empty, else
      the positional name, else `undefined`. */
  function DeclaredName(names: seq<string>, positions: seq<string>, i: nat): Option<string> {
    if |names| > 0 && names[0] != "" then Some(names[0])
    else if i < |positions| then Some(positions[i])
    else None
  }

  /** `values[i]`, which reads `undefined` past the end. */
  function ValueAt(values: seq<Value>, i: nat): Value {
    if i < |values| then values[i] else Undefined
  }

  /** Outside strict mode an optional argument whose value is `undefined` or `null`
      accepts that type as well. */
  predicate Lenient(opts: Options, required: bool, vtype: string) {
    !opts.strict && !required && (vtype == "undefined" || vtype == "null")
  }

  /** The allowed types of one position: the declared list, `[any]` when it is empty
      outside strict mode, plus the lenient `undefined`/`null` type. */
  function AllowedTypes(opts: Options, declared: seq<string>, required: bool, vtype: string): (ts: seq<string>)
    ensures opts.strict ==> ts == declared
    ensures |declared| > 0 ==> |declared| <= |ts| && ts[..|declared|] == declared
    ensures forall t :: t in ts <==>
              (t in declared || (|declared| == 0 && !opts.strict && t == opts.any)
               || (t == vtype && Lenient(opts, required, vtype)))
    ensures !opts.strict ==> |ts| > 0
  {
    var types1 := if |declared| == 0 && !opts.strict then [opts.any] else declared;
    var types2 := if !required && vtype == "undefined" && !opts.strict then types1 + ["undefined"] else types1;
    if !required && vtype == "null" && !opts.strict then types2 + ["null"] else types2
  }

  /** The descriptor of token `token` at position `i`. */
  function Describe(opts: Options, token: string, i: nat, values: seq<Value>): (d: Descriptor)
    ensures d.index == i && d.required == IsRequiredToken(token)
    ensures d.value == ValueAt(values, i) && d.vtype == TypeOf(d.value)
    ensures var p := SplitToken(Strip(token), opts.separator);
            && d.name == DeclaredName(p.names, opts.positions, i)
            && d.types == AllowedTypes(opts, p.types, d.required, d.vtype)
  {
    var req := IsRequiredToken(token);
    var p := SplitToken(Strip(token), opts.separator);
    var v := ValueAt(values, i);
    Descriptor(i, DeclaredName(p.names, opts.positions, i), req, AllowedTypes(opts, p.types, req, TypeOf(v)), v, TypeOf(v))
  }

  /** The positions below `k` whose token is required (`want`) or optional (`!want`), in
      ascending order: what the `reduce` pushes onto `required` and `optional`. */
  function IndexList(tokens: seq<string>, k: nat, want: bool): seq<nat>
    requires k <= |tokens|
    decreases k
  {
    if k == 0 then []
    else if IsRequiredToken(tokens[k - 1]) == want then IndexList(tokens, k - 1, want) + [k - 1]
    else IndexList(tokens, k - 1, want)
  }

  predicate Ascending(xs: seq<nat>) {
    forall i, j :: 0 <= i < j < |xs| ==> xs[i] < xs[j]
  }

  /** The two index lists over the first `n` tokens: ascending, below `n`, holding exactly
      the positions of the `<...>` tokens and of the other tokens, and together `n` long. */
  predicate ListsShaped(required: seq<nat>, optional: seq<nat>, tokens: seq<string>, n: nat)
    requires n <= |tokens|
  {
    && Ascending(required) && Ascending(optional)
    && (forall j :: 0 <= j < |required| ==> required[j] < n)
    && (forall j :: 0 <= j < |optional| ==> optional[j] < n)
    && (forall i :: 0 <= i < n ==> (i in required <==> IsRequiredToken(tokens[i])))
    && (forall i :: 0 <= i < n ==> (i in optional <==> !IsRequiredToken(tokens[i])))
    && |required| + |optional| == n
  }

  lemma {:induction false} IndexListsShaped(tokens: seq<string>, k: nat)
    requires k <= |tokens|
    ensures ListsShaped(IndexList(tokens, k, true), IndexList(tokens, k, false), tokens, k)
    decreases k
  {
    if k > 0 {
      IndexListsShaped(tokens, k - 1);
      if IsRequiredToken(tokens[k - 1]) {
        PushRequired(IndexList(tokens, k - 1, true), IndexList(tokens, k - 1, false), tokens, k - 1);
      } else {
        PushOptional(IndexList(tokens, k - 1, true), IndexList(tokens, k - 1, false), tokens, k - 1);
      }
    }
  }

  /** Pushing a `<...>` position onto the required list keeps the lists shaped. */
  lemma PushRequired(req: seq<nat>, opt: seq<nat>, tokens: seq<string>, i: nat)
    requires i < |tokens| && IsRequiredToken(tokens[i])
    requires ListsShaped(req, opt, tokens, i)
    ensures ListsShaped(req + [i], opt, tokens, i + 1)
  {
    Push(req, i);
    assert i !in opt;
  }

  /** Pushing any other position onto the optional list keeps the lists shaped. */
  lemma PushOptional(req: seq<nat>, opt: seq<nat>, tokens: seq<string>, i: nat)
    requires i < |tokens| && !IsRequiredToken(tokens[i])
    requires ListsShaped(req, opt, tokens, i)
    ensures ListsShaped(req, opt + [i], tokens, i + 1)
  {
    Push(opt, i);
    assert i !in req;
  }

  /** Appending a number above every element of an ascending list. */
  lemma Push(xs: seq<nat>, n: nat)
    requires Ascending(xs) && forall j :: 0 <= j < |xs| ==> xs[j] < n
    ensures Ascending(xs + [n])
    ensures forall j :: 0 <= j < |xs + [n]| ==> (xs + [n])[j] < n + 1
    ensures forall j :: j in xs + [n] <==> j in xs || j == n
  {
  }

  /** `parseMap(name, expanded, values, len)`: exactly one descriptor per token, at its own
      index; `max` is the token count, `actual` the effective length; the required and
      optional lists are ascending, disjoint and together cover `0 .. max - 1`, a position
      being required exactly when its raw token starts with `<`. */
  function ParseMap(opts: Options, caller: string, tokens: seq<string>, values: seq<Value>, len: int): (r: Bound)
    ensures r.name == caller && r.actual == len && r.failure.None?
    ensures r.max == |tokens| && |r.args| == |tokens| && |r.keys| == |tokens|
    ensures forall i :: 0 <= i < |tokens| ==> r.keys[i] == i
    ensures forall i :: 0 <= i < |tokens| ==> r.args[i] == Describe(opts, tokens[i], i, values)
    ensures ListsShaped(r.required, r.optional, tokens, |tokens|)
  {
    var n := |tokens|;
    IndexListsShaped(tokens, n);
    Bound(caller, seq(n, i => i), IndexList(tokens, n, true), IndexList(tokens, n, false), len, n,
          seq(n, i requires 0 <= i < n => Describe(opts, tokens[i], i, values)), None)
  }
}
