/** One `assert(name, map, values, len, validator)` call: argument shifting, the early
    `null` return, normalization and binding, the validator loop and `handleError`.
    Faults the source raises inside its `try` block are caught there, logged and turned
    into an `undefined` return; they appear here as the `Nothing` outcome. */
module Pipeline {
  import opened Wrappers
  import opened JsString
  import opened Values
  import opened Config
  import opened Grammar
  import opened Normalization
  import opened Binder
  import opened Validators
  import opened Registry

  /** An argument of `assert` after the label, as far as its JavaScript type matters:
      missing, a string, a number, an array of values, or a function. */
  datatype Arg = Absent | Text(s: string) | Count(n: int) | List(items: seq<Value>) | Fn(handler: Handler)

  /** An explicitly requested validator: a registry name or an inline function. */
  datatype Ref = ByName(name: string) | Inline(handler: Handler)

  /** What the user functions return for a given result, fixed for one call. */
  type Behaviour = (Handler, Bound) -> Verdict

  /** What `assert` hands back: the result object (after calling the `onError`
      function, identified by its id, when there was one and a failure), `null` for an
      empty map, or `undefined` when a fault was caught. */
  datatype Outcome = Returned(result: Bound) | CallbackThenReturned(callback: nat, result: Bound) | NullReturned | Nothing

  datatype Answer = Answer(outcome: Outcome, state: State)

  /** The five parameters after the label shift. */
  datatype Call = Call(caller: string, grammar: Arg, values: Arg, len: Arg, validator: Arg)

  /** A label holding `[` or `<` is really the map: every argument moves one place to
      the right and the label becomes `undefined`. */
  function Shift(name: string, a1: Arg, a2: Arg, a3: Arg, a4: Arg): (c: Call)
    ensures (Contains(name, "[") || Contains(name, "<")) ==> c == Call("", Text(name), a1, a2, a3)
    ensures !(Contains(name, "[") || Contains(name, "<")) ==> c == Call(name, a1, a2, a3, a4)
  {
    if |name| > 0 && (Contains(name, "[") || Contains(name, "<")) then Call("", Text(name), a1, a2, a3)
    else Call(name, a1, a2, a3, a4)
  }

  /** The map argument: `!map || !map.length` returns `null`; a non-empty array or a
      function with parameters gets past that test and then faults in `trim`. */
  datatype MapSlot = Empty | Grammar(text: string) | Bad

  function MapOf(a: Arg): (m: MapSlot)
    ensures m.Grammar? <==> a.Text? && a.s != ""
    ensures m.Bad? <==> (a.List? && a.items != []) || (a.Fn? && a.handler.arity > 0)
  {
    match a
    case Text(s) => if s == "" then Empty else Grammar(s)
    case List(xs) => if xs == [] then Empty else Bad
    case Fn(h) => if h.arity == 0 then Empty else Bad
    case _ => Empty
  }

  /** `[].slice.call(values || [])`: a string gives one string per character, a
      function as many holes (read as `undefined`) as it has parameters, a number none. */
  function ValuesOf(a: Arg): (vs: seq<Value>)
    ensures a.List? ==> vs == a.items
    ensures a.Text? ==> |vs| == |a.s| && forall i :: 0 <= i < |vs| ==> vs[i] == Str
    ensures a.Fn? ==> |vs| == a.handler.arity && forall i :: 0 <= i < |vs| ==> vs[i] == Undefined
    ensures a.Absent? || a.Count? ==> vs == []
  {
    match a
    case List(xs) => xs
    case Text(s) => seq(|s|, _ => Str)
    case Fn(h) => seq(h.arity, _ => Undefined)
    case _ => []
  }

  /** A validator argument; only truthy values select one, and a number is looked up
      under its decimal name. */
  function RefOf(a: Arg): (r: Option<Ref>)
    requires !a.List?
    ensures r.None? <==> a.Absent? || a == Text("") || a == Count(0)
    ensures a.Fn? ==> r == Some(Inline(a.handler))
    ensures a.Text? && a.s != "" ==> r == Some(ByName(a.s))
  {
    match a
    case Text(s) => if s == "" then None else Some(ByName(s))
    case Count(n) => if n == 0 then None else Some(ByName(IntToString(n)))
    case Fn(h) => Some(Inline(h))
    case _ => None
  }

  /** The arguments whose JavaScript types the signature admits in the length and
      validator slots. */
  predicate WellTyped(c: Call) {
    !c.len.List? && !c.validator.List?
  }

  /** A string or function in the length slot is the validator; a number is the length
      override (0 and a missing length both mean "count the values"). */
  function Override(c: Call): (n: int)
    ensures c.len.Count? ==> n == c.len.n
    ensures !c.len.Count? ==> n == 0
  {
    if c.len.Count? then c.len.n else 0
  }

  function Requested(c: Call): (r: Option<Ref>)
    requires WellTyped(c)
    ensures c.len.Text? || c.len.Fn? ==> r == RefOf(c.len)
    ensures !(c.len.Text? || c.len.Fn?) ==> r == RefOf(c.validator)
  {
    if c.len.Text? || c.len.Fn? then RefOf(c.len) else RefOf(c.validator)
  }

  /** Running one built-in or user handler. */
  function Invoke(opts: Options, impl: Impl, r: Bound, behave: Behaviour): (v: Verdict)
    ensures impl.Unmet? ==> v == UnmetArgs(opts, r)
    ensures impl.Extra? ==> v == ExtraArgs(opts, r)
    ensures impl.Mismatch? ==> v == MismatchArgs(opts, r)
    ensures impl.User? ==> v == behave(impl.handler, r)
  {
    match impl
    case Unmet => UnmetArgs(opts, r)
    case Extra => ExtraArgs(opts, r)
    case Mismatch => MismatchArgs(opts, r)
    case User(h) => behave(h, r)
  }

  /** One turn of the validator loop: an inline function always runs; a name runs its
      entry only when it is registered and not disabled (`None` means skipped). */
  function Consult(opts: Options, reg: seq<Entry>, behave: Behaviour, r: Bound, ref: Ref): (v: Option<Verdict>)
    ensures ref.Inline? ==> v == Some(behave(ref.handler, r))
    ensures ref.ByName? ==> (v.None? <==> Lookup(reg, ref.name).None? || !Lookup(reg, ref.name).value.enabled)
    ensures ref.ByName? && v.Some? ==> v.value == Invoke(opts, Lookup(reg, ref.name).value.impl, r, behave)
  {
    match ref
    case Inline(h) => Some(behave(h, r))
    case ByName(n) =>
      match Lookup(reg, n)
      case None => None
      case Some(e) => if !e.enabled then None else Some(Invoke(opts, e.impl, r, behave))
  }

  /** How the validator loop ends: with or without a failure, or by a handler throwing
      after `consumed` names were shifted off the list. */
  datatype Run = Completed(failure: Option<Failure>) | Raised(consumed: nat)

  /** A verdict that stops the loop: anything but a skip or `null`. */
  predicate Decisive(v: Option<Verdict>) {
    v.Some? && !v.value.Pass?
  }

  /** The failure a decisive, non-throwing verdict becomes: a string or `Error` is
      wrapped as `{error, argument: null}`, an object is taken as it is. */
  function FailureOf(v: Verdict): (f: Failure)
    requires v.Message? || v.Report?
    ensures v.Message? ==> f == Failure(v.text, None)
    ensures v.Report? ==> f == Failure(v.error, v.argument)
  {
    if v.Message? then Failure(v.text, None) else Failure(v.error, v.argument)
  }

  /** `while (!failed && validators.length)` with `shift()`. */
  function RunValidators(opts: Options, reg: seq<Entry>, behave: Behaviour, r: Bound, refs: seq<Ref>): (run: Run)
    ensures run.Raised? ==> 1 <= run.consumed <= |refs|
    decreases |refs|
  {
    if |refs| == 0 then Completed(None)
    else
      var v := Consult(opts, reg, behave, r, refs[0]);
      if v.Some? && v.value.Raise? then Raised(1)
      else if v.Some? && (v.value.Message? || v.value.Report?) then Completed(Some(FailureOf(v.value)))
      else
        match RunValidators(opts, reg, behave, r, refs[1..])
        case Raised(k) => Raised(k + 1)
        case other => other
  }

  /** The position of the first validator whose verdict stops the loop, or `|refs|`. */
  function FirstDecisive(opts: Options, reg: seq<Entry>, behave: Behaviour, r: Bound, refs: seq<Ref>): (j: nat)
    ensures j <= |refs|
    ensures forall i :: 0 <= i < j ==> !Decisive(Consult(opts, reg, behave, r, refs[i]))
    ensures j < |refs| ==> Decisive(Consult(opts, reg, behave, r, refs[j]))
  {
    if |refs| == 0 then 0
    else if Decisive(Consult(opts, reg, behave, r, refs[0])) then 0
    else 1 + FirstDecisive(opts, reg, behave, r, refs[1..])
  }

  /** The loop stops at the first decisive verdict and only there: it completes without
      a failure when there is none, throws when that verdict throws (having shifted off
      everything up to it), and otherwise fails with that verdict's failure. */
  lemma {:induction false} RunIsFirstDecisive(opts: Options, reg: seq<Entry>, behave: Behaviour, r: Bound, refs: seq<Ref>)
    ensures var j := FirstDecisive(opts, reg, behave, r, refs);
            var run := RunValidators(opts, reg, behave, r, refs);
            && (j == |refs| ==> run == Completed(None))
            && (j < |refs| ==>
                  var v := Consult(opts, reg, behave, r, refs[j]).value;
                  run == if v.Raise? then Raised(j + 1) else Completed(Some(FailureOf(v))))
    decreases |refs|
  {
    if |refs| > 0 && !Decisive(Consult(opts, reg, behave, r, refs[0])) {
      RunIsFirstDecisive(opts, reg, behave, r, refs[1..]);
      assert forall i :: 0 <= i < |refs| - 1 ==> refs[1..][i] == refs[i + 1];
    }
  }

  /** A disabled entry is skipped even when it is the one named explicitly. */
  lemma DisabledSkipped(opts: Options, reg: seq<Entry>, behave: Behaviour, r: Bound, name: string)
    requires Lookup(reg, name).Some? && !Lookup(reg, name).value.enabled
    ensures RunValidators(opts, reg, behave, r, [ByName(name)]) == Completed(None)
  {
  }

  /** When every listed name is unknown or disabled, the loop runs nothing. */
  lemma {:induction false} AllSkipped(opts: Options, reg: seq<Entry>, behave: Behaviour, r: Bound, names: seq<string>)
    requires forall i :: 0 <= i < |reg| ==> !reg[i].enabled
    ensures RunValidators(opts, reg, behave, r, ByNames(names)) == Completed(None)
    decreases |names|
  {
    if |names| > 0 {
      var refs := ByNames(names);
      var e := Lookup(reg, names[0]);
      if e.Some? {
        var k := Find(reg, names[0]).value;
        assert e.value == reg[k];
      }
      assert refs[1..] == ByNames(names[1..]);
      AllSkipped(opts, reg, behave, r, names[1..]);
    }
  }

  /** A list of names as validator references. */
  function ByNames(names: seq<string>): (refs: seq<Ref>)
    ensures |refs| == |names| && forall i :: 0 <= i < |names| ==> refs[i] == ByName(names[i])
  {
    seq(|names|, i requires 0 <= i < |names| => ByName(names[i]))
  }

  /** `handleError(err, result)` after `result.failure` was set: a falsy `onError`
      returns the result, a function is called and the result returned, anything else
      throws inside `assert`'s `try`, which logs it and returns `undefined`. */
  function HandleError(st: State, r: Bound, f: Failure): (ans: Answer)
    ensures ans.outcome.Nothing? <==> st.opts.onError.Throw?
    ensures ans.outcome.CallbackThenReturned? <==> st.opts.onError.Callback?
    ensures !ans.outcome.NullReturned?
    ensures !ans.outcome.Nothing? ==> ans.state == st && ans.outcome.result == r.(failure := Some(f))
    ensures ans.outcome.CallbackThenReturned? ==> ans.outcome.callback == st.opts.onError.id
    ensures ans.outcome.Nothing? ==> ans.state == st.(log := st.log + [Fault])
  {
    var res := r.(failure := Some(f));
    match st.opts.onError
    case Silent => Answer(Returned(res), st)
    case Callback(id) => Answer(CallbackThenReturned(id, res), st)
    case Throw => Answer(Nothing, st.(log := st.log + [Fault]))
  }

  /** The validators come from a non-empty `_once` list. */
  predicate FromOnce(st: State, ref: Option<Ref>) {
    ref.None? && st.once.Some? && st.once.value != []
  }

  /** The validators to run: the requested one alone, else a non-empty `_once` list,
      else every registry name in insertion order. */
  function Selected(st: State, ref: Option<Ref>): (refs: seq<Ref>)
    ensures ref.Some? ==> refs == [ref.value]
    ensures FromOnce(st, ref) ==> refs == ByNames(st.once.value)
    ensures ref.None? && !FromOnce(st, ref) ==> refs == ByNames(Names(st.registry))
  {
    if ref.Some? then [ref.value]
    else if FromOnce(st, ref) then ByNames(st.once.value)
    else ByNames(Names(st.registry))
  }

  /** The validator stage after binding: run the selected validators, clear `_once`
      after a completed run, and hand a failure to `handleError`. A handler that throws
      leaves `_once` holding the names not yet shifted off it, when the list was `_once`. */
  function Validate(st: State, behave: Behaviour, ref: Option<Ref>, r: Bound): (ans: Answer)
    ensures ans.state.opts == st.opts && ans.state.registry == st.registry
    ensures ans.state.defaultEnabled == st.defaultEnabled && ans.state.defaultDisabled == st.defaultDisabled
    ensures ans.outcome.Returned? || ans.outcome.CallbackThenReturned? ==> ans.state.once.None?
    ensures ans.outcome.Returned? || ans.outcome.CallbackThenReturned? ==>
              ans.outcome.result == r.(failure := ans.outcome.result.failure)
    ensures ans.outcome.Nothing? ==> ans.state.log == st.log + [Fault]
    ensures !ans.outcome.Nothing? ==> ans.state.log == st.log
    ensures !ans.outcome.NullReturned?
    ensures ans.outcome.Nothing? && !st.opts.onError.Throw? && FromOnce(st, ref) ==>
              exists k :: 1 <= k <= |st.once.value| && ans.state.once == Some(st.once.value[k..])
    ensures ans.outcome.Nothing? && !st.opts.onError.Throw? && !FromOnce(st, ref) ==> ans.state.once == st.once
  {
    var fromOnce := FromOnce(st, ref);
    var refs := Selected(st, ref);
    match RunValidators(st.opts, st.registry, behave, r, refs)
    case Raised(k) =>
      Answer(Nothing, st.(once := if fromOnce then Some(st.once.value[k..]) else st.once, log := st.log + [Fault]))
    case Completed(None) => Answer(Returned(r), st.(once := None))
    case Completed(Some(f)) => HandleError(st.(once := None), r, f)
  }

  /** `assert(name, map, values, len, validator)`. */
  function Assert(st: State, behave: Behaviour, name: string, a1: Arg, a2: Arg, a3: Arg, a4: Arg): (ans: Answer)
    requires WellTyped(Shift(name, a1, a2, a3, a4))
    ensures ans.state.opts == st.opts && ans.state.registry == st.registry
    ensures ans.state.defaultEnabled == st.defaultEnabled && ans.state.defaultDisabled == st.defaultDisabled
    ensures ans.outcome.NullReturned? <==> MapOf(Shift(name, a1, a2, a3, a4).grammar).Empty?
    ensures ans.outcome.NullReturned? ==> ans.state == st
    ensures MapOf(Shift(name, a1, a2, a3, a4).grammar).Bad? ==> ans == Answer(Nothing, st.(log := st.log + [Fault]))
    ensures ans.outcome.Returned? || ans.outcome.CallbackThenReturned? ==>
              ans.state.once.None? && ans.outcome.result.name == Shift(name, a1, a2, a3, a4).caller
    ensures MapOf(Shift(name, a1, a2, a3, a4).grammar).Grammar? && |Tokens(MapOf(Shift(name, a1, a2, a3, a4).grammar).text)| == 0 ==>
              ans == Answer(Nothing, st.(log := st.log + [Fault]))
  {
    var c := Shift(name, a1, a2, a3, a4);
    match MapOf(c.grammar)
    case Empty => Answer(NullReturned, st)
    case Bad => Answer(Nothing, st.(log := st.log + [Fault]))
    case Grammar(g) =>
      match Normalize(st.opts, g, ValuesOf(c.values), Override(c))
      case None => Answer(Nothing, st.(log := st.log + [Fault]))
      case Some(n) =>
        Validate(st, behave, Requested(c), ParseMap(st.opts, c.caller, n.tokens, n.args, n.len))
  }

  /** What `parseMap` binds for a call whose map holds at least one token. */
  function BindMap(opts: Options, c: Call): Bound
    requires MapOf(c.grammar).Grammar? && |Tokens(MapOf(c.grammar).text)| > 0
  {
    NormalizeDefined(opts, MapOf(c.grammar).text, ValuesOf(c.values), Override(c));
    var n := Normalize(opts, MapOf(c.grammar).text, ValuesOf(c.values), Override(c)).value;
    ParseMap(opts, c.caller, n.tokens, n.args, n.len)
  }

  /** When the map holds at least one token, it binds, and `assert` answers with what
      the first decisive validator decides: the bound result with no failure when there is none, and that verdict's
      failure handed to `handleError` when it fails without throwing. */
  lemma AssertOutcome(st: State, behave: Behaviour, name: string, a1: Arg, a2: Arg, a3: Arg, a4: Arg)
    requires WellTyped(Shift(name, a1, a2, a3, a4))
    requires MapOf(Shift(name, a1, a2, a3, a4).grammar).Grammar?
    requires |Tokens(MapOf(Shift(name, a1, a2, a3, a4).grammar).text)| > 0
    ensures var c := Shift(name, a1, a2, a3, a4);
            var r := BindMap(st.opts, c);
            var refs := Selected(st, Requested(c));
            var j := FirstDecisive(st.opts, st.registry, behave, r, refs);
            var ans := Assert(st, behave, name, a1, a2, a3, a4);
            && (j == |refs| ==> ans == Answer(Returned(r), st.(once := None)))
            && (j < |refs| && !Consult(st.opts, st.registry, behave, r, refs[j]).value.Raise? ==>
                  ans == HandleError(st.(once := None), r, FailureOf(Consult(st.opts, st.registry, behave, r, refs[j]).value)))
  {
    var c := Shift(name, a1, a2, a3, a4);
    NormalizeDefined(st.opts, MapOf(c.grammar).text, ValuesOf(c.values), Override(c));
    var n := Normalize(st.opts, MapOf(c.grammar).text, ValuesOf(c.values), Override(c)).value;
    var r := BindMap(st.opts, c);
    assert Assert(st, behave, name, a1, a2, a3, a4) == Validate(st, behave, Requested(c), r) by {
      AssertBinds(st, behave, name, a1, a2, a3, a4, c, n);
    }
    ValidateOutcome(st, behave, Requested(c), r);
  }

  /** The validator stage answers with what the first decisive validator decides: the
      bound result with no failure when there is none, and that verdict's failure handed
      to `handleError` when it fails without throwing. */
  lemma ValidateOutcome(st: State, behave: Behaviour, ref: Option<Ref>, r: Bound)
    ensures var refs := Selected(st, ref);
            var j := FirstDecisive(st.opts, st.registry, behave, r, refs);
            var ans := Validate(st, behave, ref, r);
            && (j == |refs| ==> ans == Answer(Returned(r), st.(once := None)))
            && (j < |refs| && !Consult(st.opts, st.registry, behave, r, refs[j]).value.Raise? ==>
                  ans == HandleError(st.(once := None), r, FailureOf(Consult(st.opts, st.registry, behave, r, refs[j]).value)))
            && (j < |refs| && Consult(st.opts, st.registry, behave, r, refs[j]).value.Raise? ==>
                  && ans.outcome.Nothing? && ans.state.log == st.log + [Fault]
                  && ans.state.once == if FromOnce(st, ref) then Some(st.once.value[j + 1..]) else st.once)
  {
    RunIsFirstDecisive(st.opts, st.registry, behave, r, Selected(st, ref));
  }

  /** Under the default policy, which throws on failure, a bound call answers `undefined`
      exactly when some selected validator is decisive: a failure and a throw both end
      in the caught fault. */
  lemma AssertThrows(st: State, behave: Behaviour, name: string, a1: Arg, a2: Arg, a3: Arg, a4: Arg)
    requires WellTyped(Shift(name, a1, a2, a3, a4))
    requires st.opts.onError.Throw?
    requires MapOf(Shift(name, a1, a2, a3, a4).grammar).Grammar?
    requires |Tokens(MapOf(Shift(name, a1, a2, a3, a4).grammar).text)| > 0
    ensures var c := Shift(name, a1, a2, a3, a4);
            var r := BindMap(st.opts, c);
            var refs := Selected(st, Requested(c));
            (Assert(st, behave, name, a1, a2, a3, a4).outcome.Nothing?
             <==> FirstDecisive(st.opts, st.registry, behave, r, refs) < |refs|)
  {
    var c := Shift(name, a1, a2, a3, a4);
    NormalizeDefined(st.opts, MapOf(c.grammar).text, ValuesOf(c.values), Override(c));
    var n := Normalize(st.opts, MapOf(c.grammar).text, ValuesOf(c.values), Override(c)).value;
    AssertBinds(st, behave, name, a1, a2, a3, a4, c, n);
    ValidateOutcome(st, behave, Requested(c), BindMap(st.opts, c));
  }

  /** Once the map is bound, `assert` is the validator stage on the bound result. */
  lemma AssertBinds(st: State, behave: Behaviour, name: string, a1: Arg, a2: Arg, a3: Arg, a4: Arg, c: Call, n: Normalized)
    requires Shift(name, a1, a2, a3, a4) == c && WellTyped(c)
    requires c.grammar.Text? && c.grammar.s != ""
    ensures Normalize(st.opts, c.grammar.s, ValuesOf(c.values), Override(c)) == Some(n) ==>
              Assert(st, behave, name, a1, a2, a3, a4)
              == Validate(st, behave, Requested(c), ParseMap(st.opts, c.caller, n.tokens, n.args, n.len))
  {
  }

  /** When the validators before position `j` stay silent and the one at `j` fails
      without throwing, `_once` is cleared and that failure goes to `handleError`. */
  lemma ValidateStopsAt(st: State, behave: Behaviour, ref: Option<Ref>, r: Bound, j: nat, v: Verdict)
    requires j < |Selected(st, ref)|
    requires forall i :: 0 <= i < j ==> !Decisive(Consult(st.opts, st.registry, behave, r, Selected(st, ref)[i]))
    requires Consult(st.opts, st.registry, behave, r, Selected(st, ref)[j]) == Some(v) && (v.Message? || v.Report?)
    ensures Validate(st, behave, ref, r) == HandleError(st.(once := None), r, FailureOf(v))
  {
    var refs := Selected(st, ref);
    var k := FirstDecisive(st.opts, st.registry, behave, r, refs);
    assert k == j;
    RunIsFirstDecisive(st.opts, st.registry, behave, r, refs);
  }

  /** When no selected validator is decisive, `_once` is cleared and the bound result
      comes back with no failure. */
  lemma ValidatePasses(st: State, behave: Behaviour, ref: Option<Ref>, r: Bound)
    requires forall i :: 0 <= i < |Selected(st, ref)| ==> !Decisive(Consult(st.opts, st.registry, behave, r, Selected(st, ref)[i]))
    ensures Validate(st, behave, ref, r) == Answer(Returned(r), st.(once := None))
  {
    var refs := Selected(st, ref);
    RunIsFirstDecisive(st.opts, st.registry, behave, r, refs);
  }
}
