/** The end-to-end scenarios of the test suite (src/test.spec.ts), taken in the order the
    suite declares them, sharing one instance configured with `strict: true` and
    `onError: false`. Each `assert`
    scenario takes the map string and the values as parameters fixed by its
    precondition, and is proved from small facts about the tokens, the bound result and
    the verdicts of the built-in validators. */
module Scenarios {
  import opened Wrappers
  import opened JsString
  import opened Values
  import opened Grammar
  import opened Config
  import opened Normalization
  import opened Binder
  import opened Validators
  import opened Registry
  import opened Pipeline

  const TestOptions := Defaults.(strict := true, onError := Silent)

  /** `configure({strict: true, onError: false})`. */
  const Start := Configure(TestOptions, None)

  /** After `option('strict', false)`. */
  const Lenient3 := Apply(Start, SetStrict(false))

  /** After `option('strict', true).disable('extra')`. */
  const NoExtra := Disable(Apply(Lenient3, SetStrict(true)), ["extra"])

  /** After `once('unmet')`. */
  const OnceUnmet := Once(NoExtra, ["unmet"])

  /** After `disable()`. */
  const AllOff := Disable(OnceUnmet, [])

  /** After `enable()`. */
  const AllOn := Enable(AllOff, [])

  /** The three built-in entries with the given enabled flags. */
  function Builtins(u: bool, e: bool, m: bool): seq<Entry> {
    [Entry("unmet", u, Unmet), Entry("extra", e, Extra), Entry("mismatch", m, Mismatch)]
  }

  // ---------------------------------------------------------------------------------
  // The registry along the suite

  lemma BuiltinsNames(u: bool, e: bool, m: bool)
    ensures Names(Builtins(u, e, m)) == ["unmet", "extra", "mismatch"]
  {
  }

  /** A registry with the built-in names and implementations is fixed by its flags. */
  lemma BuiltinsAre(reg: seq<Entry>, u: bool, e: bool, m: bool)
    requires Names(reg) == ["unmet", "extra", "mismatch"]
    requires reg[0].impl == Unmet && reg[1].impl == Extra && reg[2].impl == Mismatch
    requires reg[0].enabled == u && reg[1].enabled == e && reg[2].enabled == m
    ensures reg == Builtins(u, e, m)
  {
    assert reg[0].name == "unmet" && reg[1].name == "extra" && reg[2].name == "mismatch";
  }

  /** A built-in name runs its own validator when enabled and is skipped otherwise. */
  lemma ConsultBuiltins(opts: Options, u: bool, e: bool, m: bool, behave: Behaviour, r: Bound)
    ensures Consult(opts, Builtins(u, e, m), behave, r, ByName("unmet")) == if u then Some(UnmetArgs(opts, r)) else None
    ensures Consult(opts, Builtins(u, e, m), behave, r, ByName("extra")) == if e then Some(ExtraArgs(opts, r)) else None
    ensures Consult(opts, Builtins(u, e, m), behave, r, ByName("mismatch")) == if m then Some(MismatchArgs(opts, r)) else None
  {
    var reg := Builtins(u, e, m);
    BuiltinsNames(u, e, m);
    assert Find(reg, "unmet") == Some(0);
    assert Find(reg, "extra") == Some(1);
    assert Find(reg, "mismatch") == Some(2);
  }

  /** The options of the suite's instance, with the given strictness. */
  predicate SuiteOptions(opts: Options, strict: bool) {
    && opts.strict == strict && opts.any == "any" && opts.separator == "|"
    && opts.templates == DefaultTemplates && opts.onError == Silent
  }

  lemma StartShape()
    ensures SuiteOptions(Start.opts, true) && Start.registry == Builtins(true, true, true) && Start.once.None?
  {
  }

  lemma Lenient3Shape()
    ensures SuiteOptions(Lenient3.opts, false) && Lenient3.registry == Builtins(true, true, true) && Lenient3.once.None?
  {
    StartShape();
  }

  lemma NoExtraShape()
    ensures SuiteOptions(NoExtra.opts, true) && NoExtra.registry == Builtins(true, false, true) && NoExtra.once.None?
  {
    Lenient3Shape();
    StrictNoExtra(Lenient3);
  }

  /** `option('strict', true).disable('extra')` on the lenient instance. */
  lemma StrictNoExtra(st: State)
    requires SuiteOptions(st.opts, false) && st.registry == Builtins(true, true, true) && st.once.None?
    ensures var r := Disable(Apply(st, SetStrict(true)), ["extra"]);
            SuiteOptions(r.opts, true) && r.registry == Builtins(true, false, true) && r.once.None?
  {
    DisableExtra(Apply(st, SetStrict(true)));
  }

  /** `disable('extra')` on the three enabled built-ins. */
  lemma DisableExtra(st: State)
    requires st.registry == Builtins(true, true, true)
    ensures var r := Disable(st, ["extra"]);
            r.opts == st.opts && r.registry == Builtins(true, false, true) && r.once.None?
  {
    BuiltinsNames(true, true, true);
    BuiltinsAre(Disable(st, ["extra"]).registry, true, false, true);
  }

  lemma OnceUnmetShape()
    ensures SuiteOptions(OnceUnmet.opts, true) && OnceUnmet.registry == Builtins(false, false, false)
  {
    NoExtraShape();
    SwitchAll(NoExtra, false, true, false, true);
  }

  lemma AllOffShape()
    ensures SuiteOptions(AllOff.opts, true) && AllOff.registry == Builtins(false, false, false) && AllOff.once.None?
  {
    OnceUnmetShape();
    SwitchAll(OnceUnmet, false, false, false, false);
  }

  lemma AllOnShape()
    ensures SuiteOptions(AllOn.opts, true) && AllOn.registry == Builtins(true, true, true) && AllOn.once.None?
  {
    AllOffShape();
    SwitchAll(AllOff, true, false, false, false);
  }

  /** `enable()` and `disable()` with no names switch every built-in entry, and `once`
      switches them all off. */
  lemma SwitchAll(st: State, on: bool, u: bool, e: bool, m: bool)
    requires st.registry == Builtins(u, e, m)
    ensures var r := if on then Enable(st, []) else Disable(st, []);
            && r.opts == st.opts && r.once.None? && r.registry == Builtins(on, on, on)
    ensures var r := Once(st, ["unmet"]);
            r.opts == st.opts && r.registry == Builtins(false, false, false)
  {
    BuiltinsNames(u, e, m);
    var r := if on then Enable(st, []) else Disable(st, []);
    BuiltinsAre(r.registry, on, on, on);
    BuiltinsAre(Disable(st, []).registry, false, false, false);
  }

  /** When no explicit validator is requested and `once` is empty, every registered
      name is selected, in insertion order. */
  lemma SelectsAll(st: State, c: Call, u: bool, e: bool, m: bool)
    requires WellTyped(c) && c.len == Absent && c.validator == Absent
    requires st.registry == Builtins(u, e, m) && st.once.None?
    ensures Selected(st, Requested(c)) == [ByName("unmet"), ByName("extra"), ByName("mismatch")]
  {
    BuiltinsNames(u, e, m);
  }

  /** `onError: false` hands the failure back on the result. */
  lemma SilentHandles(st: State, r: Bound, f: Failure)
    requires st.opts.onError == Silent && st.once.None?
    ensures HandleError(st.(once := None), r, f) == Answer(Returned(r.(failure := Some(f))), st)
  {
  }

  // ---------------------------------------------------------------------------------
  // Maps, tokens and descriptors

  /** A map string starting with `<` is taken as the map, not as a label. */
  lemma LabelShifts(g: string, a1: Arg, a2: Arg, a3: Arg)
    requires |g| > 0 && g[0] == '<'
    ensures Shift(g, a1, a2, a3, Absent) == Call("", Text(g), a1, a2, a3)
  {
    assert OccursAt(g, "<", 0);
  }

  /** Tokens without a `.` hold no repeat marker. */
  lemma Unmarked(toks: seq<string>)
    requires forall i :: 0 <= i < |toks| ==> '.' !in toks[i]
    ensures forall i :: 0 <= i < |toks| ==> !Contains(toks[i], "...")
  {
    forall i | 0 <= i < |toks|
      ensures !Contains(toks[i], "...")
    {
      NotContains(toks[i], "...");
    }
  }

  /** A map given as its words, its trimmed values and its padded tokens normalizes to
      exactly those. */
  lemma NormalizeTo(opts: Options, g: string, ws: seq<string>, values: seq<Value>, args: seq<Value>, toks: seq<string>)
    requires Join(ws, " ") == g && |ws| > 0
    requires forall i :: 0 <= i < |ws| ==> WellFormedToken(ws[i]) && '.' !in ws[i]
    requires TrimUndefined(values) == args && Pad(ws, |args|, opts.strict, opts.any) == toks
    ensures Normalize(opts, g, values, 0) == Some(Normalized(args, toks, |args|))
  {
    NormalizeWords(opts, g, ws, values);
  }

  /** The same, for a map whose tokens need no padding. */
  lemma NormalizeExact(opts: Options, g: string, ws: seq<string>, values: seq<Value>, args: seq<Value>)
    requires Join(ws, " ") == g && |ws| > 0
    requires forall i :: 0 <= i < |ws| ==> WellFormedToken(ws[i]) && '.' !in ws[i]
    requires TrimUndefined(values) == args && (opts.strict || |args| <= |ws|)
    ensures Normalize(opts, g, values, 0) == Some(Normalized(args, ws, |args|))
  {
    NormalizeWords(opts, g, ws, values);
  }

  lemma JoinTwo(ws: seq<string>, g: string, a: string, b: string)
    requires ws == [a, b] && g == a + " " + b
    ensures Join(ws, " ") == g
  {
    JoinCons(a, [b], " ");
  }

  lemma JoinThree(ws: seq<string>, g: string, a: string, b: string, c: string)
    requires ws == [a, b, c] && g == a + " " + b + " " + c
    ensures Join(ws, " ") == g
  {
    JoinCons(b, [c], " ");
    JoinCons(a, [b, c], " ");
  }

  /** Trailing `undefined` values are dropped. */
  lemma TrimOne(values: seq<Value>, a: Value)
    requires values == [a, Undefined, Undefined] && a != Undefined
    ensures TrimUndefined(values) == [a]
  {
    var two := values[..2];
    assert two == [a, Undefined];
    assert TrimUndefined(values) == TrimUndefined(two);
    assert two[..1] == [a];
  }

  lemma TrimTwo(values: seq<Value>, a: Value, b: Value)
    requires values == [a, b, Undefined] && b != Undefined
    ensures TrimUndefined(values) == [a, b]
  {
    assert values[..2] == [a, b];
  }

  /** A map of words that are well-formed tokens, and hold no `.`, normalizes to those
      words, padded outside strict mode. */
  lemma NormalizeWords(opts: Options, g: string, ws: seq<string>, values: seq<Value>)
    requires Join(ws, " ") == g && |ws| > 0
    requires forall i :: 0 <= i < |ws| ==> WellFormedToken(ws[i]) && '.' !in ws[i]
    ensures var args := TrimUndefined(values);
            Normalize(opts, g, values, 0) == Some(Normalized(args, Pad(ws, |args|, opts.strict, opts.any), |args|))
  {
    TokensJoin(ws);
    Unmarked(ws);
    NormalizeUnmarked(opts, g, values, 0);
  }

  /** The descriptor of a token `open inner close` without a name segment: positional
      name, and the types of `inner` split on the separator. */
  lemma DescribePlain(opts: Options, open: char, inner: string, close: char, i: nat, values: seq<Value>)
    requires IsBracket(open) && IsBracket(close) && NoBracket(inner) && NoSpace(inner) && ':' !in inner
    ensures var d := Describe(opts, [open] + inner + [close], i, values);
            && d.required == (open == '<')
            && d.name == DeclaredName([], opts.positions, i)
            && d.types == AllowedTypes(opts, Split(inner, opts.separator), open == '<', TypeOf(ValueAt(values, i)))
  {
    StripWrapped(open, inner, close);
  }

  /** The descriptor of a token `open name:inner close`: the name, and the types of
      `inner` split on the separator. */
  lemma DescribeNamed(opts: Options, open: char, name: string, inner: string, close: char, i: nat, values: seq<Value>)
    requires IsBracket(open) && IsBracket(close) && NoBracket(name + ":" + inner) && NoSpace(name + ":" + inner)
    requires name != "" && ':' !in name && ':' !in inner
    ensures var d := Describe(opts, [open] + (name + ":" + inner) + [close], i, values);
            && d.required == (open == '<')
            && d.name == Some(name)
            && d.types == AllowedTypes(opts, Split(inner, opts.separator), open == '<', TypeOf(ValueAt(values, i)))
  {
    StripWrapped(open, name + ":" + inner, close);
    NamedParts(name, inner, opts.separator);
  }

  /** `name:inner` splits into the one name and the types of `inner`. */
  lemma NamedParts(name: string, inner: string, sep: string)
    requires ':' !in name && ':' !in inner
    ensures SplitToken(name + ":" + inner, sep) == Parts(true, [name], Split(inner, sep))
  {
    var c := name + ":" + inner;
    LastIndexAt(name, ':', inner);
    assert c == name + [':'] + inner;
    assert c[..|name|] == name && c[|name| + 1..] == inner;
    SplitWhole(name, ":");
  }

  /** A descriptor matches when its value's type, or the `any` type, is declared. */
  lemma DeclaredMatches(opts: Options, d: Descriptor, declared: seq<string>)
    requires d.types == AllowedTypes(opts, declared, d.required, d.vtype)
    requires d.vtype in declared || opts.any in declared
    ensures Matches(opts, d)
  {
    if d.vtype in declared {
      assert d.vtype in d.types;
    } else {
      assert opts.any in d.types;
    }
  }

  lemma OneType(t: string)
    requires '|' !in t
    ensures Split(t, "|") == [t]
  {
    SplitWhole(t, "|");
  }

  /** Every listed position of the bound result matches, so `mismatchArgs` passes. */
  lemma MismatchPasses(opts: Options, r: Bound)
    requires KeysInRange(r)
    requires forall k :: 0 <= k < |r.args| ==> Matches(opts, r.args[k])
    ensures MismatchArgs(opts, r) == Pass
  {
    var keys := r.required + r.optional;
    forall i | 0 <= i < |keys|
      ensures Passes(opts, r, keys[i])
    {
      if i < |r.required| {
        assert keys[i] == r.required[i];
      } else {
        assert keys[i] == r.optional[i - |r.required|];
      }
    }
  }

  /** A word of lower-case ASCII letters, as every built-in type tag is. */
  predicate Lower(s: string) {
    forall i :: 0 <= i < |s| ==> 'a' <= s[i] <= 'z'
  }

  lemma LowerPlain(s: string)
    requires Lower(s)
    ensures NoBracket(s) && NoSpace(s) && ':' !in s && '|' !in s
  {
    assert forall i :: 0 <= i < |s| ==> s[i] != ':' && s[i] != '|';
  }

  lemma TypeNameLower(v: Value)
    ensures Lower(TypeOf(v))
  {
  }

  /** `t|other` holds no bracket, space or colon. */
  lemma UnionPlain(t: string, other: string)
    requires Lower(t) && Lower(other)
    ensures var inner := t + "|" + other; NoBracket(inner) && NoSpace(inner) && ':' !in inner
  {
    var inner := t + "|" + other;
    forall i | 0 <= i < |inner|
      ensures inner[i] == '|' || 'a' <= inner[i] <= 'z'
    {
      if i < |t| {
        assert inner[i] == t[i];
      } else if i > |t| {
        assert inner[i] == other[i - |t| - 1];
      }
    }
  }

  lemma UnionTypes(t: string, other: string)
    requires Lower(t) && Lower(other)
    ensures Split(t + "|" + other, "|") == [t, other]
  {
    LowerPlain(t);
    LowerPlain(other);
    SplitAt(t, "|", other);
    OneType(other);
  }

  /** `name:t` holds no bracket or space. */
  lemma NamedPlain(name: string, t: string)
    requires Lower(name) && Lower(t)
    ensures var inner := name + ":" + t; NoBracket(inner) && NoSpace(inner)
  {
    var inner := name + ":" + t;
    forall i | 0 <= i < |inner|
      ensures inner[i] == ':' || 'a' <= inner[i] <= 'z'
    {
      if i < |name| {
        assert inner[i] == name[i];
      } else if i > |name| {
        assert inner[i] == t[i - |name| - 1];
      }
    }
  }

  /** `<t>` where `t` is the value's own type tag matches. */
  lemma TypeTokenMatches(opts: Options, tok: string, k: nat, vals: seq<Value>)
    requires opts.separator == "|" && tok == "<" + TypeOf(ValueAt(vals, k)) + ">"
    ensures Matches(opts, Describe(opts, tok, k, vals))
  {
    var t := TypeOf(ValueAt(vals, k));
    TypeNameLower(ValueAt(vals, k));
    LowerPlain(t);
    assert tok == ['<'] + t + ['>'];
    DescribePlain(opts, '<', t, '>', k, vals);
    OneType(t);
    DeclaredMatches(opts, Describe(opts, tok, k, vals), [t]);
  }

  /** `<t|other>` where `t` is the value's own type tag matches. */
  lemma UnionTokenMatches(opts: Options, tok: string, k: nat, vals: seq<Value>, other: string)
    requires opts.separator == "|" && Lower(other)
    requires tok == "<" + TypeOf(ValueAt(vals, k)) + "|" + other + ">"
    ensures Matches(opts, Describe(opts, tok, k, vals))
  {
    var t := TypeOf(ValueAt(vals, k));
    TypeNameLower(ValueAt(vals, k));
    var inner := t + "|" + other;
    UnionPlain(t, other);
    assert tok == ['<'] + inner + ['>'];
    DescribePlain(opts, '<', inner, '>', k, vals);
    UnionTypes(t, other);
    DeclaredMatches(opts, Describe(opts, tok, k, vals), [t, other]);
  }

  /** `[any]`, the padding token, matches every value. */
  lemma AnyTokenMatches(opts: Options, tok: string, k: nat, vals: seq<Value>)
    requires opts.separator == "|" && Lower(opts.any) && tok == "[" + opts.any + "]"
    ensures Matches(opts, Describe(opts, tok, k, vals))
  {
    LowerPlain(opts.any);
    assert tok == ['['] + opts.any + [']'];
    DescribePlain(opts, '[', opts.any, ']', k, vals);
    OneType(opts.any);
    DeclaredMatches(opts, Describe(opts, tok, k, vals), [opts.any]);
  }

  /** The token forms the suite's passing calls use at position `k`: the value's own type,
      that type or one `other`, the `any` type, or an optional position left empty
      outside strict mode. */
  predicate Fits(opts: Options, tok: string, k: nat, vals: seq<Value>, other: string) {
    var t := TypeOf(ValueAt(vals, k));
    || tok == "<" + t + ">"
    || (Lower(other) && tok == "<" + t + "|" + other + ">")
    || (Lower(opts.any) && tok == "[" + opts.any + "]")
    || (!opts.strict && !IsRequiredToken(tok) && ValueAt(vals, k) == Undefined)
  }

  lemma FitsMatches(opts: Options, tok: string, k: nat, vals: seq<Value>, other: string)
    requires opts.separator == "|" && Fits(opts, tok, k, vals, other)
    ensures Matches(opts, Describe(opts, tok, k, vals))
  {
    var t := TypeOf(ValueAt(vals, k));
    if tok == "<" + t + ">" {
      TypeTokenMatches(opts, tok, k, vals);
    } else if Lower(other) && tok == "<" + t + "|" + other + ">" {
      UnionTokenMatches(opts, tok, k, vals, other);
    } else if Lower(opts.any) && tok == "[" + opts.any + "]" {
      AnyTokenMatches(opts, tok, k, vals);
    } else {
      LenientPositionMatches(opts, tok, k, vals);
    }
  }

  /** When every token fits its value, every bound position matches. */
  lemma FittingTokensMatch(opts: Options, caller: string, toks: seq<string>, vals: seq<Value>, len: int, others: seq<string>)
    requires opts.separator == "|" && |others| == |toks|
    requires forall k :: 0 <= k < |toks| ==> Fits(opts, toks[k], k, vals, others[k])
    ensures var r := ParseMap(opts, caller, toks, vals, len);
            forall k :: 0 <= k < |r.args| ==> Matches(opts, r.args[k])
  {
    var r := ParseMap(opts, caller, toks, vals, len);
    forall k | 0 <= k < |r.args|
      ensures Matches(opts, r.args[k])
    {
      FitsMatches(opts, toks[k], k, vals, others[k]);
    }
  }

  /** `<name:t>` in strict mode admits exactly `t`, under the declared name. */
  lemma NamedTokenDescriptor(opts: Options, tok: string, k: nat, vals: seq<Value>, name: string, t: string)
    requires opts.separator == "|" && opts.strict && Lower(name) && Lower(t) && name != ""
    requires tok == "<" + name + ":" + t + ">"
    ensures var d := Describe(opts, tok, k, vals);
            d.types == [t] && d.name == Some(name) && d.vtype == TypeOf(ValueAt(vals, k))
  {
    var inner := name + ":" + t;
    NamedPlain(name, t);
    LowerPlain(name);
    LowerPlain(t);
    assert tok == ['<'] + inner + ['>'];
    DescribeNamed(opts, '<', name, t, '>', k, vals);
    OneType(t);
  }

  /** No validator objects: `unmetArgs` and `extraArgs` (when enabled) pass and every
      position matches, so the call returns its result untouched. */
  lemma AllPass(st: State, behave: Behaviour, c: Call, r: Bound, e: bool)
    requires WellTyped(c) && c.len == Absent && c.validator == Absent
    requires st.registry == Builtins(true, e, true) && st.once.None?
    requires r.actual >= |r.required| && (e ==> r.actual <= r.max)
    requires KeysInRange(r) && forall k :: 0 <= k < |r.args| ==> Matches(st.opts, r.args[k])
    ensures Validate(st, behave, Requested(c), r) == Answer(Returned(r), st)
  {
    SelectsAll(st, c, true, e, true);
    MismatchPasses(st.opts, r);
    ConsultBuiltins(st.opts, true, e, true, behave, r);
    ValidatePasses(st, behave, Requested(c), r);
  }

  lemma Digits()
    ensures IntToString(1) == "1" && IntToString(2) == "2" && IntToString(3) == "3"
  {
  }

  // ---------------------------------------------------------------------------------
  // Scenario 1: "should return error expecting 2 arguments."

  /** A map of a required string, one well-formed middle token and an optional string
      normalizes to those three words, padded outside strict mode. */
  lemma MiddleNormalizes(opts: Options, g: string, mid: string, values: seq<Value>, args: seq<Value>)
    requires g == "<string> " + mid + " [string]" && WellFormedToken(mid) && '.' !in mid
    requires TrimUndefined(values) == args && (opts.strict || |args| <= 3)
    ensures Normalize(opts, g, values, 0) == Some(Normalized(args, ["<string>", mid, "[string]"], |args|))
  {
    var ws := ["<string>", mid, "[string]"];
    assert Join(ws, " ") == g by {
      JoinThree(ws, g, "<string>", mid, "[string]");
    }
    assert forall i :: 0 <= i < |ws| ==> WellFormedToken(ws[i]) && '.' !in ws[i] by {
      StringWords();
    }
    NormalizeExact(opts, g, ws, values, args);
  }

  /** The maps of the first and the fourth scenario around their middle token. */
  lemma MiddleSplits(g: string, mid: string)
    requires (g == "<string> <number> [string]" && mid == "<number>")
          || (g == "<string> <string|number> [string]" && mid == "<string|number>")
    ensures g == "<string> " + mid + " [string]"
  {
  }

  /** The middle tokens of the first and the fourth scenario are well formed. */
  lemma MiddleWord(mid: string)
    requires mid == "<number>" || mid == "<string|number>"
    ensures WellFormedToken(mid) && '.' !in mid
  {
  }

  /** The required and the optional string token are well formed and hold no `.`. */
  lemma StringWords()
    ensures WellFormedToken("<string>") && '.' !in "<string>"
    ensures WellFormedToken("[string]") && '.' !in "[string]"
  {
  }

  lemma Map1Normalizes(opts: Options, g: string, values: seq<Value>)
    requires g == "<string> <number> [string]" && opts.strict
    requires values == [Str, Undefined, Undefined]
    ensures Normalize(opts, g, values, 0) == Some(Normalized([Str], ["<string>", "<number>", "[string]"], 1))
  {
    MiddleSplits(g, "<number>");
    MiddleWord("<number>");
    TrimOne(values, Str);
    MiddleNormalizes(opts, g, "<number>", values, [Str]);
  }

  lemma UnmetText(p: string, a: string, b: string)
    requires p == "" && a == "2" && b == "1"
    ensures p + ("expected at least " + a + " argument(s) but got " + b + ".") == "expected at least 2 argument(s) but got 1."
  {
  }

  lemma Bound1Shape(opts: Options, toks: seq<string>)
    requires toks == ["<string>", "<number>", "[string]"]
    ensures var r := ParseMap(opts, "", toks, [Str], 1);
            |r.required| == 2 && r.actual == 1 && r.name == ""
  {
    assert IndexList(toks, 3, true) == [0, 1];
  }

  /** With the default templates, an unlabelled result binding one value to two
      required positions fails `unmetArgs` with the suite's message. */
  lemma UnmetFires(opts: Options, behave: Behaviour, r: Bound)
    requires opts.templates == DefaultTemplates
    requires |r.required| == 2 && r.actual == 1 && r.name == ""
    ensures Consult(opts, Builtins(true, true, true), behave, r, ByName("unmet"))
         == Some(Message("expected at least 2 argument(s) but got 1."))
  {
    ConsultBuiltins(opts, true, true, true, behave, r);
    UnmetMessage(opts, r);
    Digits();
    UnmetText(Prefix(r.name), IntToString(|r.required|), IntToString(r.actual));
  }

  /** The call binds three tokens to one value. */
  lemma UnmetBinds(st: State, behave: Behaviour, g: string, vs: Arg)
    requires g == "<string> <number> [string]" && vs == List([Str, Undefined, Undefined]) && st.opts.strict
    ensures Assert(st, behave, g, vs, Absent, Absent, Absent)
         == Validate(st, behave, Requested(Call("", Text(g), vs, Absent, Absent)),
                     ParseMap(st.opts, "", ["<string>", "<number>", "[string]"], [Str], 1))
  {
    var c := Call("", Text(g), vs, Absent, Absent);
    LabelShifts(g, vs, Absent, Absent);
    Map1Normalizes(st.opts, g, vs.items);
    assert ValuesOf(c.values) == vs.items && Override(c) == 0;
    AssertBinds(st, behave, g, vs, Absent, Absent, Absent, c, Normalized([Str], ["<string>", "<number>", "[string]"], 1));
  }

  /** `unmetArgs` is consulted first and fails; `onError: false` returns the failure. */
  lemma UnmetValidates(st: State, behave: Behaviour, c: Call, r: Bound)
    requires SuiteOptions(st.opts, true) && st.registry == Builtins(true, true, true) && st.once.None?
    requires WellTyped(c) && c.len == Absent && c.validator == Absent
    requires |r.required| == 2 && r.actual == 1 && r.name == ""
    ensures Validate(st, behave, Requested(c), r)
         == Answer(Returned(r.(failure := Some(Failure("expected at least 2 argument(s) but got 1.", None)))), st)
  {
    var msg := "expected at least 2 argument(s) but got 1.";
    SelectsAll(st, c, true, true, true);
    UnmetFires(st.opts, behave, r);
    ValidateStopsAt(st, behave, Requested(c), r, 0, Message(msg));
    SilentHandles(st, r, Failure(msg, None));
  }

  /** Two required positions and one value: `unmetArgs` fails, and the failure comes
      back on the result. */
  lemma UnmetScenario(behave: Behaviour, g: string, vs: Arg)
    requires g == "<string> <number> [string]" && vs == List([Str, Undefined, Undefined])
    ensures var ans := Assert(Start, behave, g, vs, Absent, Absent, Absent);
            && ans.state == Start
            && ans.outcome.Returned?
            && ans.outcome.result.failure == Some(Failure("expected at least 2 argument(s) but got 1.", None))
  {
    StartShape();
    UnmetBinds(Start, behave, g, vs);
    var toks := ["<string>", "<number>", "[string]"];
    Bound1Shape(Start.opts, toks);
    UnmetValidates(Start, behave, Call("", Text(g), vs, Absent, Absent), ParseMap(Start.opts, "", toks, [Str], 1));
  }

  // ---------------------------------------------------------------------------------
  // Scenarios 2 and 5: '<string> <number>' with three values in strict mode

  lemma Words2(ws: seq<string>)
    requires ws == ["<string>", "<number>"]
    ensures forall i :: 0 <= i < |ws| ==> WellFormedToken(ws[i]) && '.' !in ws[i]
  {
    assert WellFormedToken(ws[0]) && '.' !in ws[0];
    assert WellFormedToken(ws[1]) && '.' !in ws[1];
  }

  lemma Map2Normalizes(opts: Options, g: string)
    requires g == "<string> <number>" && opts.strict
    ensures Normalize(opts, g, [Str, Num, Str], 0) == Some(Normalized([Str, Num, Str], ["<string>", "<number>"], 3))
  {
    var ws := ["<string>", "<number>"];
    var vals := [Str, Num, Str];
    Words2(ws);
    JoinTwo(ws, g, "<string>", "<number>");
    NormalizeTo(opts, g, ws, vals, vals, ws);
  }

  lemma Bound2Shape(opts: Options, toks: seq<string>)
    requires toks == ["<string>", "<number>"]
    ensures var r := ParseMap(opts, "", toks, [Str, Num, Str], 3);
            && |r.required| == 2 && r.actual == 3 && r.max == 2 && r.name == ""
  {
    assert IndexList(toks, 2, true) == [0, 1];
  }

  lemma ExtraText(p: string, a: string, b: string)
    requires p == "" && a == "2" && b == "3"
    ensures p + ("expected no more than " + a + " argument(s) but got " + b + ".") == "expected no more than 2 argument(s) but got 3."
  {
  }

  /** Three values for two tokens: `unmetArgs` passes and `extraArgs` fails with the
      suite's message. */
  lemma ExtraFires(opts: Options, behave: Behaviour, r: Bound)
    requires opts.templates == DefaultTemplates
    requires |r.required| == 2 && r.actual == 3 && r.max == 2 && r.name == ""
    ensures Consult(opts, Builtins(true, true, true), behave, r, ByName("unmet")) == Some(Pass)
    ensures Consult(opts, Builtins(true, true, true), behave, r, ByName("extra"))
         == Some(Message("expected no more than 2 argument(s) but got 3."))
  {
    ConsultBuiltins(opts, true, true, true, behave, r);
    ExtraMessage(opts, r);
    Digits();
    ExtraText(Prefix(r.name), IntToString(r.max), IntToString(r.actual));
  }

  /** In strict mode the call binds two tokens to three values. */
  lemma StrictBinds(st: State, behave: Behaviour, g: string, vs: Arg)
    requires g == "<string> <number>" && vs == List([Str, Num, Str]) && st.opts.strict
    ensures Assert(st, behave, g, vs, Absent, Absent, Absent)
         == Validate(st, behave, Requested(Call("", Text(g), vs, Absent, Absent)),
                     ParseMap(st.opts, "", ["<string>", "<number>"], [Str, Num, Str], 3))
  {
    var c := Call("", Text(g), vs, Absent, Absent);
    LabelShifts(g, vs, Absent, Absent);
    Map2Normalizes(st.opts, g);
    assert ValuesOf(c.values) == vs.items && Override(c) == 0;
    AssertBinds(st, behave, g, vs, Absent, Absent, Absent, c, Normalized([Str, Num, Str], ["<string>", "<number>"], 3));
  }

  /** `unmetArgs` passes and `extraArgs` fails; `onError: false` returns the failure. */
  lemma ExtraValidates(st: State, behave: Behaviour, c: Call, r: Bound)
    requires SuiteOptions(st.opts, true) && st.registry == Builtins(true, true, true) && st.once.None?
    requires WellTyped(c) && c.len == Absent && c.validator == Absent
    requires |r.required| == 2 && r.actual == 3 && r.max == 2 && r.name == ""
    ensures Validate(st, behave, Requested(c), r)
         == Answer(Returned(r.(failure := Some(Failure("expected no more than 2 argument(s) but got 3.", None)))), st)
  {
    var msg := "expected no more than 2 argument(s) but got 3.";
    SelectsAll(st, c, true, true, true);
    ExtraFires(st.opts, behave, r);
    ValidateStopsAt(st, behave, Requested(c), r, 1, Message(msg));
    SilentHandles(st, r, Failure(msg, None));
  }

  /** Strict mode pads nothing: `unmetArgs` passes, `extraArgs` fails, and the failure
      comes back on the result. */
  lemma ExtraScenario(behave: Behaviour, g: string, vs: Arg)
    requires g == "<string> <number>" && vs == List([Str, Num, Str])
    ensures var ans := Assert(Start, behave, g, vs, Absent, Absent, Absent);
            && ans.state == Start
            && ans.outcome.Returned?
            && ans.outcome.result.failure == Some(Failure("expected no more than 2 argument(s) but got 3.", None))
  {
    StartShape();
    StrictBinds(Start, behave, g, vs);
    var toks := ["<string>", "<number>"];
    Bound2Shape(Start.opts, toks);
    ExtraValidates(Start, behave, Call("", Text(g), vs, Absent, Absent), ParseMap(Start.opts, "", toks, [Str, Num, Str], 3));
  }

  /** Both positions of the strict binding match their values. */
  lemma Bound2Matches(opts: Options, toks: seq<string>)
    requires toks == ["<string>", "<number>"] && opts.separator == "|"
    ensures var r := ParseMap(opts, "", toks, [Str, Num, Str], 3);
            forall k :: 0 <= k < |r.args| ==> Matches(opts, r.args[k])
  {
    var vals := [Str, Num, Str];
    var others := ["", ""];
    assert Fits(opts, toks[0], 0, vals, others[0]);
    assert Fits(opts, toks[1], 1, vals, others[1]);
    FittingTokensMatch(opts, "", toks, vals, 3, others);
  }

  /** With `extra` disabled the same call passes: `unmetArgs` and `mismatchArgs` both
      pass and `extraArgs` is skipped. */
  lemma ExtraDisabledScenario(behave: Behaviour, g: string, vs: Arg)
    requires g == "<string> <number>" && vs == List([Str, Num, Str])
    ensures var ans := Assert(NoExtra, behave, g, vs, Absent, Absent, Absent);
            && ans.state == NoExtra
            && ans.outcome.Returned?
            && ans.outcome.result.failure == None
  {
    NoExtraShape();
    ExtraDisabledOn(NoExtra, behave, g, vs);
  }

  /** The same call on any instance in that configuration. */
  lemma ExtraDisabledOn(st: State, behave: Behaviour, g: string, vs: Arg)
    requires SuiteOptions(st.opts, true) && st.registry == Builtins(true, false, true) && st.once.None?
    requires g == "<string> <number>" && vs == List([Str, Num, Str])
    ensures var ans := Assert(st, behave, g, vs, Absent, Absent, Absent);
            ans.state == st && ans.outcome.Returned? && ans.outcome.result.failure == None
  {
    assert |Tokens(g)| > 0 by {
      Map2Normalizes(st.opts, g);
    }
    StrictBinds(st, behave, g, vs);
    ExtraDisabledValidates(st, behave, Call("", Text(g), vs, Absent, Absent));
  }

  /** With `extra` disabled, `unmetArgs` and `mismatchArgs` pass on the bound result. */
  lemma ExtraDisabledValidates(st: State, behave: Behaviour, c: Call)
    requires SuiteOptions(st.opts, true) && st.registry == Builtins(true, false, true) && st.once.None?
    requires WellTyped(c) && c.len == Absent && c.validator == Absent
    ensures var r := ParseMap(st.opts, "", ["<string>", "<number>"], [Str, Num, Str], 3);
            Validate(st, behave, Requested(c), r) == Answer(Returned(r), st) && r.failure == None
  {
    var toks := ["<string>", "<number>"];
    var r := ParseMap(st.opts, "", toks, [Str, Num, Str], 3);
    Bound2Shape(st.opts, toks);
    Bound2Matches(st.opts, toks);
    MismatchOnParsed(st.opts, "", toks, [Str, Num, Str], 3);
    AllPass(st, behave, c, r, false);
  }

  // ---------------------------------------------------------------------------------
  // Scenario 3: the same call outside strict mode

  /** One value more than tokens: outside strict mode one `[any]` token is added. */
  lemma PadOne(ws: seq<string>, any: string)
    ensures Pad(ws, |ws| + 1, false, any) == ws + ["[" + any + "]"]
  {
  }

  lemma AnyToken(any: string)
    requires any == "any"
    ensures "[" + any + "]" == "[any]"
  {
  }

  lemma Map3Normalizes(opts: Options, g: string)
    requires g == "<string> <number>" && !opts.strict && opts.any == "any"
    ensures Normalize(opts, g, [Str, Num, Str], 0) == Some(Normalized([Str, Num, Str], ["<string>", "<number>", "[any]"], 3))
  {
    var ws := ["<string>", "<number>"];
    var vals := [Str, Num, Str];
    Words2(ws);
    JoinTwo(ws, g, "<string>", "<number>");
    PadOne(ws, opts.any);
    AnyToken(opts.any);
    NormalizeTo(opts, g, ws, vals, vals, ["<string>", "<number>", "[any]"]);
  }

  lemma Bound3Shape(opts: Options, toks: seq<string>)
    requires toks == ["<string>", "<number>", "[any]"]
    ensures var r := ParseMap(opts, "", toks, [Str, Num, Str], 3);
            && |r.required| == 2 && r.actual == 3 && r.max == 3
  {
    assert IndexList(toks, 3, true) == [0, 1];
  }

  /** Every position of the padded binding matches, the `[any]` one included. */
  lemma Bound3Matches(opts: Options, toks: seq<string>)
    requires toks == ["<string>", "<number>", "[any]"] && opts.separator == "|" && opts.any == "any"
    ensures var r := ParseMap(opts, "", toks, [Str, Num, Str], 3);
            forall k :: 0 <= k < |r.args| ==> Matches(opts, r.args[k])
  {
    var vals := [Str, Num, Str];
    var others := ["", "", ""];
    assert Fits(opts, toks[0], 0, vals, others[0]);
    assert Fits(opts, toks[1], 1, vals, others[1]);
    assert Fits(opts, toks[2], 2, vals, others[2]);
    FittingTokensMatch(opts, "", toks, vals, 3, others);
  }

  /** Outside strict mode the call binds three tokens, the last one padded. */
  lemma LenientBinds(st: State, behave: Behaviour, g: string, vs: Arg)
    requires g == "<string> <number>" && vs == List([Str, Num, Str]) && !st.opts.strict && st.opts.any == "any"
    ensures Assert(st, behave, g, vs, Absent, Absent, Absent)
         == Validate(st, behave, Requested(Call("", Text(g), vs, Absent, Absent)),
                     ParseMap(st.opts, "", ["<string>", "<number>", "[any]"], [Str, Num, Str], 3))
  {
    var c := Call("", Text(g), vs, Absent, Absent);
    LabelShifts(g, vs, Absent, Absent);
    Map3Normalizes(st.opts, g);
    assert ValuesOf(c.values) == vs.items && Override(c) == 0;
    AssertBinds(st, behave, g, vs, Absent, Absent, Absent, c, Normalized([Str, Num, Str], ["<string>", "<number>", "[any]"], 3));
  }

  /** Outside strict mode the missing third token is padded as `[any]`, so all three
      validators pass. */
  lemma LenientScenario(behave: Behaviour, g: string, vs: Arg)
    requires g == "<string> <number>" && vs == List([Str, Num, Str])
    ensures var ans := Assert(Lenient3, behave, g, vs, Absent, Absent, Absent);
            && ans.state == Lenient3
            && ans.outcome.Returned?
            && ans.outcome.result.failure == None
  {
    Lenient3Shape();
    LenientBinds(Lenient3, behave, g, vs);
    var toks := ["<string>", "<number>", "[any]"];
    var r := ParseMap(Lenient3.opts, "", toks, [Str, Num, Str], 3);
    Bound3Shape(Lenient3.opts, toks);
    Bound3Matches(Lenient3.opts, toks);
    MismatchOnParsed(Lenient3.opts, "", toks, [Str, Num, Str], 3);
    AllPass(Lenient3, behave, Call("", Text(g), vs, Absent, Absent), r, true);
  }

  // ---------------------------------------------------------------------------------
  // Scenario 4: a union type and a missing optional value outside strict mode

  lemma Map4Normalizes(opts: Options, g: string, values: seq<Value>)
    requires g == "<string> <string|number> [string]" && !opts.strict
    requires values == [Str, Str, Undefined]
    ensures Normalize(opts, g, values, 0) == Some(Normalized([Str, Str], ["<string>", "<string|number>", "[string]"], 2))
  {
    MiddleSplits(g, "<string|number>");
    MiddleWord("<string|number>");
    TrimTwo(values, Str, Str);
    MiddleNormalizes(opts, g, "<string|number>", values, [Str, Str]);
  }

  lemma Bound4Shape(opts: Options, toks: seq<string>)
    requires toks == ["<string>", "<string|number>", "[string]"]
    ensures var r := ParseMap(opts, "", toks, [Str, Str], 2);
            && |r.required| == 2 && r.actual == 2 && r.max == 3
  {
    assert IndexList(toks, 3, true) == [0, 1];
  }

  /** The union position accepts the string, and the missing optional value gets its
      own `undefined` type. */
  lemma Bound4Matches(opts: Options, toks: seq<string>)
    requires toks == ["<string>", "<string|number>", "[string]"] && opts.separator == "|" && !opts.strict
    ensures var r := ParseMap(opts, "", toks, [Str, Str], 2);
            forall k :: 0 <= k < |r.args| ==> Matches(opts, r.args[k])
  {
    var vals := [Str, Str];
    var others := ["", "number", ""];
    assert Fits(opts, toks[0], 0, vals, others[0]);
    assert Fits(opts, toks[1], 1, vals, others[1]);
    assert Fits(opts, toks[2], 2, vals, others[2]);
    FittingTokensMatch(opts, "", toks, vals, 2, others);
  }

  /** The call binds three tokens to two values. */
  lemma UnionBinds(st: State, behave: Behaviour, g: string, vs: Arg)
    requires g == "<string> <string|number> [string]" && vs == List([Str, Str, Undefined]) && !st.opts.strict
    ensures Assert(st, behave, g, vs, Absent, Absent, Absent)
         == Validate(st, behave, Requested(Call("", Text(g), vs, Absent, Absent)),
                     ParseMap(st.opts, "", ["<string>", "<string|number>", "[string]"], [Str, Str], 2))
  {
    var c := Call("", Text(g), vs, Absent, Absent);
    LabelShifts(g, vs, Absent, Absent);
    Map4Normalizes(st.opts, g, vs.items);
    assert ValuesOf(c.values) == vs.items && Override(c) == 0;
    AssertBinds(st, behave, g, vs, Absent, Absent, Absent, c, Normalized([Str, Str], ["<string>", "<string|number>", "[string]"], 2));
  }

  /** Two values for two required positions and one optional one: all three validators
      pass. */
  lemma UnionScenario(behave: Behaviour, g: string, vs: Arg)
    requires g == "<string> <string|number> [string]" && vs == List([Str, Str, Undefined])
    ensures var ans := Assert(Lenient3, behave, g, vs, Absent, Absent, Absent);
            && ans.state == Lenient3
            && ans.outcome.Returned?
            && ans.outcome.result.failure == None
  {
    Lenient3Shape();
    UnionBinds(Lenient3, behave, g, vs);
    var toks := ["<string>", "<string|number>", "[string]"];
    var r := ParseMap(Lenient3.opts, "", toks, [Str, Str], 2);
    Bound4Shape(Lenient3.opts, toks);
    Bound4Matches(Lenient3.opts, toks);
    MismatchOnParsed(Lenient3.opts, "", toks, [Str, Str], 2);
    AllPass(Lenient3, behave, Call("", Text(g), vs, Absent, Absent), r, true);
  }

  // ---------------------------------------------------------------------------------
  // Scenarios 6 and 7: `once`, `disable()` and `enable()`

  /** `once('unmet').enabled()` reports just that name. */
  lemma OnceScenario()
    ensures Enabled(OnceUnmet) == ["unmet"]
  {
  }

  /** `disable().enabled()` is empty; `enable().enabled()` lists every name again, in
      insertion order. */
  lemma ToggleAllScenario()
    ensures Enabled(AllOff) == []
    ensures Enabled(AllOn) == ["unmet", "extra", "mismatch"]
  {
    AllOffShape();
    EnabledBuiltins(AllOff, false);
    AllOnShape();
    EnabledBuiltins(AllOn, true);
  }

  /** With the three built-ins all on or all off and no `once` pending, `enabled()`
      lists all three in order, or none. */
  lemma EnabledBuiltins(st: State, on: bool)
    requires st.once.None? && st.registry == Builtins(on, on, on)
    ensures Enabled(st) == if on then ["unmet", "extra", "mismatch"] else []
  {
    EnabledNamesAll(st.registry);
    BuiltinsNames(on, on, on);
  }

  // ---------------------------------------------------------------------------------
  // Scenario 8: one validator requested by name

  lemma Words8(ws: seq<string>)
    requires ws == ["<string>", "<age:number>"]
    ensures forall i :: 0 <= i < |ws| ==> WellFormedToken(ws[i]) && '.' !in ws[i]
  {
    assert WellFormedToken(ws[0]) && '.' !in ws[0];
    assert WellFormedToken(ws[1]) && '.' !in ws[1];
  }

  lemma Map8Normalizes(opts: Options, g: string)
    requires g == "<string> <age:number>" && opts.strict
    ensures Normalize(opts, g, [Str, Str, Undefined], 0) == Some(Normalized([Str, Str], ["<string>", "<age:number>"], 2))
  {
    var ws := ["<string>", "<age:number>"];
    Words8(ws);
    JoinTwo(ws, g, "<string>", "<age:number>");
    TrimTwo([Str, Str, Undefined], Str, Str);
    NormalizeExact(opts, g, ws, [Str, Str, Undefined], [Str, Str]);
  }

  lemma MismatchText(p: string, name: string, vtype: string, types: string)
    requires p == "" && name == "age" && vtype == "string" && types == "number"
    ensures p + (name + " arg has type " + vtype + " but only " + types + " is allowed.")
         == "age arg has type string but only number is allowed."
  {
    var s1 := name + " arg has type " + vtype;
    assert s1 == "age arg has type string";
    var s2 := s1 + " but only " + types;
    assert s2 == "age arg has type string but only number";
    assert p + (s2 + " is allowed.") == "age arg has type string but only number is allowed.";
  }

  lemma Bound8Shape(opts: Options, toks: seq<string>)
    requires toks == ["<string>", "<age:number>"]
    ensures var r := ParseMap(opts, "", toks, [Str, Str], 2);
            && r.required == [0, 1] && r.optional == [] && r.name == ""
  {
    assert IndexList(toks, 2, true) == [0, 1];
    assert IndexList(toks, 2, false) == [];
  }

  /** The first position matches its string. */
  lemma Bound8First(opts: Options, toks: seq<string>)
    requires toks == ["<string>", "<age:number>"] && opts.separator == "|"
    ensures Matches(opts, Describe(opts, toks[0], 0, [Str, Str]))
  {
    var vals := [Str, Str];
    assert toks[0] == "<" + TypeOf(ValueAt(vals, 0)) + ">";
    TypeTokenMatches(opts, toks[0], 0, vals);
  }

  /** The second position is named `age` and admits only `number`. */
  lemma Bound8Second(opts: Options, toks: seq<string>)
    requires toks == ["<string>", "<age:number>"] && opts.separator == "|" && opts.strict
    ensures var d := Describe(opts, toks[1], 1, [Str, Str]);
            d.types == ["number"] && d.vtype == "string" && d.name == Some("age")
  {
    var vals := [Str, Str];
    var name, t := "age", "number";
    assert Lower(name) && Lower(t);
    assert toks[1] == "<" + name + ":" + t + ">";
    NamedTokenDescriptor(opts, toks[1], 1, vals, name, t);
  }

  /** Two required positions, the first matching and the second a string where only
      `number` is allowed: the report names `age`. */
  lemma AgeMismatch(opts: Options, r: Bound)
    requires opts.templates == DefaultTemplates && opts.any == "any"
    requires r.required == [0, 1] && r.optional == [] && |r.args| == 2 && r.name == ""
    requires Matches(opts, r.args[0])
    requires r.args[1].types == ["number"] && r.args[1].vtype == "string" && r.args[1].name == Some("age")
    ensures MismatchArgs(opts, r) == Report("age arg has type string but only number is allowed.", Some(r.args[1]))
  {
    var d := r.args[1];
    assert !Matches(opts, d);
    assert FirstBad(opts, r, [0, 1]) == 1;
    MismatchInRange(opts, r);
    MismatchMessage(opts, r, d);
    assert Join(d.types, " or ") == "number";
    MismatchText(Prefix(r.name), DisplayName(opts, d), d.vtype, Join(d.types, " or "));
  }

  /** A string in the `age` position is the first mismatch, reported by name. */
  lemma Bound8Mismatch(opts: Options, toks: seq<string>)
    requires toks == ["<string>", "<age:number>"] && opts.separator == "|" && opts.strict
    requires opts.templates == DefaultTemplates && opts.any == "any"
    ensures var r := ParseMap(opts, "", toks, [Str, Str], 2);
            MismatchArgs(opts, r) == Report("age arg has type string but only number is allowed.", Some(r.args[1]))
  {
    var r := ParseMap(opts, "", toks, [Str, Str], 2);
    Bound8Shape(opts, toks);
    Bound8First(opts, toks);
    Bound8Second(opts, toks);
    AgeMismatch(opts, r);
  }

  /** With `mismatch` named as the validator the call binds two tokens to two values. */
  lemma NamedBinds(st: State, behave: Behaviour, g: string, vs: Arg)
    requires g == "<string> <age:number>" && vs == List([Str, Str, Undefined]) && st.opts.strict
    ensures Assert(st, behave, g, vs, Text("mismatch"), Absent, Absent)
         == Validate(st, behave, Requested(Call("", Text(g), vs, Text("mismatch"), Absent)),
                     ParseMap(st.opts, "", ["<string>", "<age:number>"], [Str, Str], 2))
  {
    var c := Call("", Text(g), vs, Text("mismatch"), Absent);
    LabelShifts(g, vs, Text("mismatch"), Absent);
    Map8Normalizes(st.opts, g);
    assert ValuesOf(c.values) == vs.items && Override(c) == 0;
    AssertBinds(st, behave, g, vs, Text("mismatch"), Absent, Absent, c, Normalized([Str, Str], ["<string>", "<age:number>"], 2));
  }

  /** Only `mismatchArgs` runs, and its report comes back on the result. */
  lemma NamedValidates(st: State, behave: Behaviour, c: Call, toks: seq<string>)
    requires SuiteOptions(st.opts, true) && st.registry == Builtins(true, true, true) && st.once.None?
    requires WellTyped(c) && c.len == Text("mismatch") && c.validator == Absent
    requires toks == ["<string>", "<age:number>"]
    ensures var ans := Validate(st, behave, Requested(c), ParseMap(st.opts, "", toks, [Str, Str], 2));
            && ans.state == st
            && ans.outcome.Returned?
            && ans.outcome.result.failure.Some?
            && ans.outcome.result.failure.value.message == "age arg has type string but only number is allowed."
  {
    var r := ParseMap(st.opts, "", toks, [Str, Str], 2);
    Bound8Mismatch(st.opts, toks);
    assert Selected(st, Requested(c)) == [ByName("mismatch")];
    ConsultBuiltins(st.opts, true, true, true, behave, r);
    var v := Report("age arg has type string but only number is allowed.", Some(r.args[1]));
    ValidateStopsAt(st, behave, Requested(c), r, 0, v);
    SilentHandles(st, r, FailureOf(v));
  }

  /** `assert(map, values, 'mismatch')` runs only `mismatchArgs`, which reports the
      named position. */
  lemma NamedValidatorScenario(behave: Behaviour, g: string, vs: Arg)
    requires g == "<string> <age:number>" && vs == List([Str, Str, Undefined])
    ensures var ans := Assert(AllOn, behave, g, vs, Text("mismatch"), Absent, Absent);
            && ans.state == AllOn
            && ans.outcome.Returned?
            && ans.outcome.result.failure.Some?
            && ans.outcome.result.failure.value.message == "age arg has type string but only number is allowed."
  {
    AllOnShape();
    assert |Tokens(g)| > 0 by {
      Map8Normalizes(AllOn.opts, g);
    }
    NamedBinds(AllOn, behave, g, vs);
    var toks := ["<string>", "<age:number>"];
    NamedValidates(AllOn, behave, Call("", Text(g), vs, Text("mismatch"), Absent), toks);
  }
}
