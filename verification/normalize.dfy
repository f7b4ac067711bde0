/** Normalization of one `assert` call (`normalize`): trailing `undefined` values are
    dropped, the effective length is fixed, the map is expanded into raw tokens, the
    repeat marker `...` is materialized and, outside strict mode, missing tokens are
    padded with `[any]`. */
module Normalization {
  import opened Wrappers
  import opened JsString
  import opened Values
  import opened Grammar
  import opened Config

  /** `while (args.length && args[args.length - 1] === undefined) args.pop()`. */
  function TrimUndefined(values: seq<Value>): (args: seq<Value>)
    ensures |args| <= |values| && args == values[..|args|]
    ensures args == [] || args[|args| - 1] != Undefined
    ensures forall i :: |args| <= i < |values| ==> values[i] == Undefined
  {
    if |values| > 0 && values[|values| - 1] == Undefined then TrimUndefined(values[..|values| - 1])
    else values
  }

  /** `v.replace('...', '')`: only the first marker goes. */
  function DropEllipsis(t: string): string {
    ReplaceFirst(t, "...", "")
  }

  /** The index of the last raw token holding a repeat marker. */
  function LastRepeat(raw: seq<string>): (k: Option<nat>)
    ensures k.Some? ==> k.value < |raw| && Contains(raw[k.value], "...")
    ensures forall i :: (if k.Some? then k.value + 1 else 0) <= i < |raw| ==> !Contains(raw[i], "...")
  {
    if |raw| == 0 then None
    else if Contains(raw[|raw| - 1], "...") then Some(|raw| - 1)
    else LastRepeat(raw[..|raw| - 1])
  }

  function Copies(t: string, n: nat): (r: seq<string>)
    ensures |r| == n && forall i :: 0 <= i < n ==> r[i] == t
  {
    seq(n, _ => t)
  }

  /** How many copies of the repeated token are appended: `max(0, len - (k + 1))` for the
      last marked index `k`, and none when there is no marker or `len` is not positive. */
  function RepeatCount(raw: seq<string>, len: int): nat {
    match LastRepeat(raw)
    case None => 0
    case Some(k) => if len > 0 && len - (k + 1) > 0 then len - (k + 1) else 0
  }

  /** The raw tokens with the repeat marker materialized: each token loses its first
      `...`, and copies of the last marked token are appended at the end of the list
      (not after the marked position). */
  function Repeat(raw: seq<string>, len: int): (r: seq<string>)
    ensures |r| == |raw| + RepeatCount(raw, len)
    ensures forall i :: 0 <= i < |raw| ==> r[i] == DropEllipsis(raw[i])
    ensures RepeatCount(raw, len) > 0 ==>
      forall i :: |raw| <= i < |r| ==> r[i] == DropEllipsis(raw[LastRepeat(raw).value])
  {
    var marked := seq(|raw|, i requires 0 <= i < |raw| => DropEllipsis(raw[i]));
    match LastRepeat(raw)
    case Some(k) => marked + Copies(marked[k], RepeatCount(raw, len))
    case None => marked
  }

  /** `while (expanded.length < len) expanded.push('[any]')`, outside strict mode only. */
  function Pad(tokens: seq<string>, len: int, strict: bool, any: string): (r: seq<string>)
    ensures strict ==> r == tokens
    ensures !strict ==> |r| == if |tokens| < len then len else |tokens|
    ensures |tokens| <= |r| && r[..|tokens|] == tokens
    ensures forall i :: |tokens| <= i < |r| ==> r[i] == "[" + any + "]"
  {
    if |tokens| < len && !strict then tokens + Copies("[" + any + "]", len - |tokens|)
    else tokens
  }

  datatype Normalized = Normalized(args: seq<Value>, tokens: seq<string>, len: int)

  /** `len = len || args.length`: a zero override means "use the count of values". */
  function EffectiveLength(args: seq<Value>, override: int): int {
    if override != 0 then override else |args|
  }

  /** `normalize(map, values, len)`; `None` when the expander finds no token, where the
      source's `.map` on a null match throws. */
  function Normalize(opts: Options, grammar: string, values: seq<Value>, override: int): (r: Option<Normalized>)
    ensures r.None? <==> |Tokens(grammar)| == 0
    ensures r.Some? ==>
      var n := r.value;
      var m := |Tokens(grammar)| + RepeatCount(Tokens(grammar), n.len);
      && n.args == TrimUndefined(values)
      && n.len == EffectiveLength(n.args, override)
      && (opts.strict ==> |n.tokens| == m)
      && (!opts.strict ==> |n.tokens| == if m < n.len then n.len else m)
  {
    var args := TrimUndefined(values);
    var len := EffectiveLength(args, override);
    match Expand(grammar)
    case None => None
    case Some(raw) => Some(Normalized(args, Pad(Repeat(raw, len), len, opts.strict, opts.any), len))
  }

  /** Where each normalized token comes from: the raw tokens with their first `...`
      removed, then the copies of the last marked token, then `[any]` padding. */
  lemma NormalizeTokens(opts: Options, grammar: string, values: seq<Value>, override: int)
    requires |Tokens(grammar)| > 0
    ensures var n := Normalize(opts, grammar, values, override).value;
            var raw := Tokens(grammar);
            var c := RepeatCount(raw, n.len);
            && (forall i :: 0 <= i < |raw| ==> n.tokens[i] == DropEllipsis(raw[i]))
            && (c > 0 ==> forall i :: |raw| <= i < |raw| + c ==> n.tokens[i] == DropEllipsis(raw[LastRepeat(raw).value]))
            && (forall i :: |raw| + c <= i < |n.tokens| ==> n.tokens[i] == "[" + opts.any + "]")
  {
    var n := Normalize(opts, grammar, values, override).value;
    assert n.tokens == Pad(Repeat(Tokens(grammar), n.len), n.len, opts.strict, opts.any);
    PaddedRepeat(Tokens(grammar), n.len, opts.strict, opts.any, n.tokens, Repeat(Tokens(grammar), n.len));
  }

  lemma PaddedRepeat(raw: seq<string>, len: int, strict: bool, any: string, tokens: seq<string>, rep: seq<string>)
    requires rep == Repeat(raw, len)
    requires tokens == Pad(rep, len, strict, any)
    ensures var c := RepeatCount(raw, len);
            && (forall i :: 0 <= i < |raw| ==> tokens[i] == DropEllipsis(raw[i]))
            && (c > 0 ==> forall i :: |raw| <= i < |raw| + c ==> tokens[i] == DropEllipsis(raw[LastRepeat(raw).value]))
            && (forall i :: |raw| + c <= i < |tokens| ==> tokens[i] == "[" + any + "]")
  {
    PrefixAgrees(tokens, rep);
  }

  lemma PrefixAgrees(a: seq<string>, b: seq<string>)
    requires |b| <= |a| && a[..|b|] == b
    ensures forall i :: 0 <= i < |b| ==> a[i] == b[i]
  {
    forall i | 0 <= i < |b|
      ensures a[i] == b[i]
    {
      assert a[..|b|][i] == b[i];
    }
  }

  /** Without a repeat marker the normalized tokens are the raw tokens, padded with
      `[any]` outside strict mode. */
  lemma NormalizeUnmarked(opts: Options, grammar: string, values: seq<Value>, override: int)
    requires |Tokens(grammar)| > 0
    requires forall i :: 0 <= i < |Tokens(grammar)| ==> !Contains(Tokens(grammar)[i], "...")
    ensures var args := TrimUndefined(values);
            var len := EffectiveLength(args, override);
            Normalize(opts, grammar, values, override)
              == Some(Normalized(args, Pad(Tokens(grammar), len, opts.strict, opts.any), len))
  {
    var raw := Tokens(grammar);
    var len := EffectiveLength(TrimUndefined(values), override);
    assert LastRepeat(raw) == None;
    assert Repeat(raw, len) == raw;
  }

  /** A map with at least one token always normalizes. */
  lemma NormalizeDefined(opts: Options, grammar: string, values: seq<Value>, override: int)
    requires |Tokens(grammar)| > 0
    ensures Normalize(opts, grammar, values, override).Some?
  {
  }
}
