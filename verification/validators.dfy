/** The three built-in validators (`unmetArgs`, `extraArgs`, `mismatchArgs`) and the
    shape of what any validator hands back to the pipeline. */
module Validators {
  import opened Wrappers
  import opened JsString
  import opened Values
  import opened Config
  import opened Grammar
  import opened Normalization
  import opened Binder

  /** What a validator returns: nothing (`null`), a message (a string or an `Error`), a
      failure object `{error, argument}`, or it throws. */
  datatype Verdict = Pass | Message(text: string) | Report(error: string, argument: Option<Descriptor>) | Raise

  /** `result.name ? result.name + ' ' : ''`: a non-empty caller label and a space. */
  function Prefix(caller: string): (p: string)
    ensures caller == "" ==> p == ""
    ensures caller != "" ==> |p| == |caller| + 1 && p[..|caller|] == caller && p[|caller|] == ' '
  {
    if caller != "" then caller + " " else ""
  }

  /** `unmetArgs`: fails exactly when fewer values were given than there are required
      positions, reporting the required count and the effective length. */
  function UnmetArgs(opts: Options, r: Bound): (v: Verdict)
    ensures v.Pass? || v.Message?
    ensures v.Message? <==> r.actual < |r.required|
    ensures v.Message? ==>
      v.text == Prefix(r.name) + Format(opts.templates.unmet, [IntToString(|r.required|), IntToString(r.actual)])
  {
    if r.actual < |r.required| then
      Message(Prefix(r.name) + Format(opts.templates.unmet, [IntToString(|r.required|), IntToString(r.actual)]))
    else Pass
  }

  /** `extraArgs`: fails exactly when the effective length exceeds the token count. */
  function ExtraArgs(opts: Options, r: Bound): (v: Verdict)
    ensures v.Pass? || v.Message?
    ensures v.Message? <==> r.actual > r.max
    ensures v.Message? ==>
      v.text == Prefix(r.name) + Format(opts.templates.extra, [IntToString(r.max), IntToString(r.actual)])
  {
    if r.actual > r.max then
      Message(Prefix(r.name) + Format(opts.templates.extra, [IntToString(r.max), IntToString(r.actual)]))
    else Pass
  }

  /** One position is acceptable when filtering its allowed types for the `any` type or
      the guessed type of its value leaves something: one of the two is listed. */
  predicate Matches(opts: Options, d: Descriptor) {
    opts.any in d.types || d.vtype in d.types
  }

  /** `arg.name ? arg.name : options.positions[arg.index]`, where a missing position name
      prints as `undefined`. */
  function DisplayName(opts: Options, d: Descriptor): (n: string)
    ensures d.name.Some? && d.name.value != "" ==> n == d.name.value
    ensures (d.name.None? || d.name.value == "") && d.index < |opts.positions| ==> n == opts.positions[d.index]
    ensures (d.name.None? || d.name.value == "") && d.index >= |opts.positions| ==> n == "undefined"
  {
    if d.name.Some? && d.name.value != "" then d.name.value
    else if d.index < |opts.positions| then opts.positions[d.index]
    else "undefined"
  }

  /** The failure object for a position that does not match. */
  function MismatchReport(opts: Options, r: Bound, d: Descriptor): (v: Verdict)
    ensures v.Report? && v.argument == Some(d)
    ensures v.error == Prefix(r.name)
      + Format(opts.templates.mismatch, [DisplayName(opts, d), d.vtype, Join(d.types, " " + opts.templates.orWord + " ")])
  {
    Report(Prefix(r.name) + Format(opts.templates.mismatch,
      [DisplayName(opts, d), d.vtype, Join(d.types, " " + opts.templates.orWord + " ")]), Some(d))
  }

  /** A key is checked without fault when it names a descriptor, and passes when that
      descriptor matches. */
  predicate Passes(opts: Options, r: Bound, key: nat) {
    key < |r.args| && Matches(opts, r.args[key])
  }

  /** The position of the first key that does not pass, or `|keys|` when all pass. */
  function FirstBad(opts: Options, r: Bound, keys: seq<nat>): (j: nat)
    ensures j <= |keys|
    ensures forall i :: 0 <= i < j ==> Passes(opts, r, keys[i])
    ensures j < |keys| ==> !Passes(opts, r, keys[j])
  {
    if |keys| == 0 then 0
    else if !Passes(opts, r, keys[0]) then 0
    else 1 + FirstBad(opts, r, keys[1..])
  }

  /** The `for ... of` loop over the keys as written: a key past the descriptors reads
      `undefined`, and `undefined.types` throws. */
  function ScanKeys(opts: Options, r: Bound, keys: seq<nat>): Verdict {
    if |keys| == 0 then Pass
    else if keys[0] >= |r.args| then Raise
    else if Matches(opts, r.args[keys[0]]) then ScanKeys(opts, r, keys[1..])
    else MismatchReport(opts, r, r.args[keys[0]])
  }

  /** The loop stops at the first key that does not pass: it returns nothing when every
      key passes, throws when that key is out of range, and otherwise reports it. */
  lemma {:induction false} ScanKeysIsFirstBad(opts: Options, r: Bound, keys: seq<nat>)
    ensures var j := FirstBad(opts, r, keys);
            ScanKeys(opts, r, keys)
              == if j == |keys| then Pass
                 else if keys[j] >= |r.args| then Raise
                 else MismatchReport(opts, r, r.args[keys[j]])
    decreases |keys|
  {
    if |keys| > 0 && Passes(opts, r, keys[0]) {
      ScanKeysIsFirstBad(opts, r, keys[1..]);
      assert forall i :: 0 <= i < |keys| - 1 ==> keys[1..][i] == keys[i + 1];
    }
  }

  /** `mismatchArgs`: required positions first, then optional ones. */
  function MismatchArgs(opts: Options, r: Bound): (v: Verdict)
    ensures v.Pass? || v.Report? || v.Raise?
    ensures v.Pass? <==> forall i :: 0 <= i < |r.required + r.optional| ==> Passes(opts, r, (r.required + r.optional)[i])
  {
    var keys := r.required + r.optional;
    ScanKeysIsFirstBad(opts, r, keys);
    ScanKeys(opts, r, keys)
  }

  /** Every index in the required and optional lists names a descriptor. */
  predicate KeysInRange(r: Bound) {
    && (forall i :: 0 <= i < |r.required| ==> r.required[i] < |r.args|)
    && (forall i :: 0 <= i < |r.optional| ==> r.optional[i] < |r.args|)
  }

  /** When every listed index names a descriptor the scan never throws, and a failure
      reports the first non-matching position in required-then-optional order. */
  lemma MismatchInRange(opts: Options, r: Bound)
    requires KeysInRange(r)
    ensures var keys := r.required + r.optional;
            var j := FirstBad(opts, r, keys);
            && !MismatchArgs(opts, r).Raise?
            && (j < |keys| ==> keys[j] < |r.args| && MismatchArgs(opts, r) == MismatchReport(opts, r, r.args[keys[j]]))
  {
    var keys := r.required + r.optional;
    ScanKeysIsFirstBad(opts, r, keys);
    assert MismatchArgs(opts, r) == ScanKeys(opts, r, keys);
    assert forall i :: 0 <= i < |keys| ==> keys[i] < |r.args| by {
      assert forall i :: 0 <= i < |keys| ==>
        (i < |r.required| ==> keys[i] == r.required[i]) && (i >= |r.required| ==> keys[i] == r.optional[i - |r.required|]);
    }
  }

  /** The binder's result names a descriptor for every listed index, so a mismatch on it
      never throws. */
  lemma MismatchOnParsed(opts: Options, caller: string, tokens: seq<string>, values: seq<Value>, len: int)
    ensures KeysInRange(ParseMap(opts, caller, tokens, values, len))
    ensures !MismatchArgs(opts, ParseMap(opts, caller, tokens, values, len)).Raise?
  {
    var r := ParseMap(opts, caller, tokens, values, len);
    assert ListsShaped(r.required, r.optional, tokens, |tokens|);
    MismatchInRange(opts, r);
  }

  /** Outside strict mode the padding makes the token count at least the effective
      length, so `extraArgs` never fails on a normalized call. */
  lemma ExtraNeverFailsLenient(opts: Options, caller: string, grammar: string, values: seq<Value>, override: int)
    requires !opts.strict && |Tokens(grammar)| > 0
    ensures var n := Normalize(opts, grammar, values, override).value;
            ExtraArgs(opts, ParseMap(opts, caller, n.tokens, n.args, n.len)) == Pass
  {
  }

  /** In strict mode nothing is padded: `extraArgs` fails exactly when the effective
      length exceeds the declared tokens plus the repeated copies. */
  lemma ExtraStrict(opts: Options, caller: string, grammar: string, values: seq<Value>, override: int)
    requires opts.strict && |Tokens(grammar)| > 0
    ensures var n := Normalize(opts, grammar, values, override).value;
            var declared := |Tokens(grammar)| + RepeatCount(Tokens(grammar), n.len);
            ExtraArgs(opts, ParseMap(opts, caller, n.tokens, n.args, n.len)).Message? <==> n.len > declared
  {
  }

  /** Outside strict mode an optional position whose value is missing (or `null`) always
      matches: its own type was added to the allowed list. */
  lemma LenientPositionMatches(opts: Options, token: string, i: nat, values: seq<Value>)
    requires !opts.strict && !IsRequiredToken(token)
    requires ValueAt(values, i) == Undefined || ValueAt(values, i) == Null
    ensures Matches(opts, Describe(opts, token, i, values))
  {
    var d := Describe(opts, token, i, values);
    assert d.vtype in d.types;
  }

  /** Outside strict mode a token without declared types (`[]`, or any token once the
      separator is empty) accepts every value. */
  lemma UntypedPositionMatches(opts: Options, token: string, i: nat, values: seq<Value>)
    requires !opts.strict && SplitToken(Strip(token), opts.separator).types == []
    ensures Matches(opts, Describe(opts, token, i, values))
  {
    var d := Describe(opts, token, i, values);
    assert opts.any in d.types;
  }

  /** With the default templates the unmet message reads
      "[label ]expected at least R argument(s) but got A.". */
  lemma UnmetMessage(opts: Options, r: Bound)
    requires opts.templates == DefaultTemplates && r.actual < |r.required|
    ensures UnmetArgs(opts, r) == Message(Prefix(r.name) + ("expected at least " + IntToString(|r.required|)
                                              + " argument(s) but got " + IntToString(r.actual) + "."))
  {
    FormatTwo("expected at least ", " argument(s) but got ", ".", IntToString(|r.required|), IntToString(r.actual));
  }

  /** With the default templates the extra message reads
      "[label ]expected no more than M argument(s) but got A.". */
  lemma ExtraMessage(opts: Options, r: Bound)
    requires opts.templates == DefaultTemplates && r.actual > r.max
    ensures ExtraArgs(opts, r) == Message(Prefix(r.name) + ("expected no more than " + IntToString(r.max)
                                              + " argument(s) but got " + IntToString(r.actual) + "."))
  {
    FormatTwo("expected no more than ", " argument(s) but got ", ".", IntToString(r.max), IntToString(r.actual));
  }

  /** With the default templates a mismatch reads
      "[label ]<name> arg has type <type> but only <t1 or t2 ...> is allowed.". */
  lemma MismatchMessage(opts: Options, r: Bound, d: Descriptor)
    requires opts.templates == DefaultTemplates
    ensures MismatchReport(opts, r, d).error
         == Prefix(r.name) + (DisplayName(opts, d) + " arg has type " + d.vtype + " but only "
            + Join(d.types, " or ") + " is allowed.")
  {
    var name := DisplayName(opts, d);
    var types := Join(d.types, " or ");
    assert " " + opts.templates.orWord + " " == " or ";
    assert DefaultTemplates.mismatch == "" + "%s" + " arg has type " + "%s" + " but only " + "%s" + " is allowed." by {
      assert "" + "%s" == "%s";
    }
    FormatThree("", " arg has type ", " but only ", " is allowed.", name, d.vtype, types);
    assert "" + name == name;
  }
}
