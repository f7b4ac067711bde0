/** The validator registry of one configured instance and its enablement state machine:
    `toggleValidators`, `enable`, `disable`, `enabled`, `disabled`, `add`, `remove`,
    `once`, `reset`, the `option` getter/setter and the initial state built by
    `configure`. The registry is an object keyed by validator name, so it is modelled as
    an insertion-ordered list of entries with distinct names. */
module Registry {
  import opened Wrappers
  import opened JsString
  import opened Config

  /** A user-supplied function, known only by identity; `arity` is its declared
      parameter count (`fn.length`). */
  datatype Handler = Handler(id: nat, arity: nat)

  /** The handler of a registry entry: one of the three built-ins or a user function. */
  datatype Impl = Unmet | Extra | Mismatch | User(handler: Handler)

  /** A registry entry; an entry is skipped only when `enabled === false`. */
  datatype Entry = Entry(name: string, enabled: bool, impl: Impl)

  /** What goes to `console.warn`: an unknown validator name (formatted with the
      `unknown` template) or a fault caught by `assert`. */
  datatype Warning = Unknown(message: string) | Fault

  datatype State = State(
    opts: Options,
    registry: seq<Entry>,
    once: Option<seq<string>>,      // `_once`
    defaultEnabled: seq<string>,    // captured by `configure`, maintained by `add`/`remove`
    defaultDisabled: seq<string>,
    log: seq<Warning>)

  /** `Object.keys(options.validators)`. */
  function Names(reg: seq<Entry>): (ns: seq<string>)
    ensures |ns| == |reg| && forall i :: 0 <= i < |reg| ==> ns[i] == reg[i].name
  {
    seq(|reg|, i requires 0 <= i < |reg| => reg[i].name)
  }

  predicate Unique(ns: seq<string>) {
    forall i, j :: 0 <= i < j < |ns| ==> ns[i] != ns[j]
  }

  predicate UniqueNames(reg: seq<Entry>) {
    Unique(Names(reg))
  }

  /** The position of the entry called `name`, if any. */
  function Find(reg: seq<Entry>, name: string): (k: Option<nat>)
    ensures k.None? <==> name !in Names(reg)
    ensures k.Some? ==> k.value < |reg| && reg[k.value].name == name
    ensures k.Some? ==> forall i :: 0 <= i < k.value ==> reg[i].name != name
  {
    if |reg| == 0 then None
    else if reg[0].name == name then Some(0)
    else
      var k := Find(reg[1..], name);
      assert Names(reg) == [reg[0].name] + Names(reg[1..]);
      if k.Some? then Some(k.value + 1) else None
  }

  /** `options.validators[name]`. */
  function Lookup(reg: seq<Entry>, name: string): (e: Option<Entry>)
    ensures e.None? <==> name !in Names(reg)
    ensures e.Some? ==> e.value in reg && e.value.name == name
  {
    match Find(reg, name)
    case Some(k) => Some(reg[k])
    case None => None
  }

  /** In a registry with distinct names the entry at position `i` is the one looked up
      by its name. */
  lemma LookupAt(reg: seq<Entry>, i: nat)
    requires UniqueNames(reg) && i < |reg|
    ensures Lookup(reg, reg[i].name) == Some(reg[i])
  {
    var ns := Names(reg);
    assert ns[i] == reg[i].name;
    var k := Find(reg, reg[i].name).value;
    assert ns[k] == reg[i].name;
    UniqueAt(ns, k, i);
  }

  /** In a list without repeats equal elements sit at the same place. */
  lemma UniqueAt(ns: seq<string>, a: nat, b: nat)
    requires Unique(ns) && a < |ns| && b < |ns| && ns[a] == ns[b]
    ensures a == b
  {
  }

  /** `options.validators[name] = validator`: a known name keeps its position, a new
      name goes last. */
  function Put(reg: seq<Entry>, e: Entry): (r: seq<Entry>)
    ensures Names(r) == if e.name in Names(reg) then Names(reg) else Names(reg) + [e.name]
    ensures e in r && Lookup(r, e.name) == Some(e)
    ensures forall i :: 0 <= i < |reg| && reg[i].name != e.name ==> r[i] == reg[i]
    ensures UniqueNames(reg) ==> UniqueNames(r)
  {
    match Find(reg, e.name)
    case Some(k) =>
      PutReplaces(reg, e, k);
      reg[k := e]
    case None =>
      PutAppends(reg, e);
      reg + [e]
  }

  /** A known name is overwritten in place. */
  lemma PutReplaces(reg: seq<Entry>, e: Entry, k: nat)
    requires Find(reg, e.name) == Some(k)
    ensures Names(reg[k := e]) == Names(reg)
    ensures Find(reg[k := e], e.name) == Some(k)
  {
    var r := reg[k := e];
    assert Names(r) == Names(reg);
    FindAgree(reg, r, e.name);
  }

  /** A new name is appended and found last. */
  lemma PutAppends(reg: seq<Entry>, e: Entry)
    requires Find(reg, e.name).None?
    ensures Names(reg + [e]) == Names(reg) + [e.name]
    ensures Find(reg + [e], e.name) == Some(|reg|)
    ensures UniqueNames(reg) ==> UniqueNames(reg + [e])
  {
    NamesAppend(reg, e);
    FindAppend(reg, e);
    UniqueAppend(Names(reg), e.name);
  }

  lemma NamesAppend(reg: seq<Entry>, e: Entry)
    ensures Names(reg + [e]) == Names(reg) + [e.name]
  {
    assert Names(reg + [e]) == Names(reg) + [e.name];
  }

  lemma {:induction false} FindAppend(reg: seq<Entry>, e: Entry)
    requires Find(reg, e.name).None?
    ensures Find(reg + [e], e.name) == Some(|reg|)
    decreases |reg|
  {
    if |reg| == 0 {
      assert reg + [e] == [e];
    } else {
      assert (reg + [e])[1..] == reg[1..] + [e];
      FindAppend(reg[1..], e);
    }
  }

  lemma UniqueAppend(ns: seq<string>, x: string)
    requires x !in ns
    ensures Unique(ns) ==> Unique(ns + [x])
  {
  }

  /** The entries put one after another, as an object literal or `Object.assign` builds
      them: a repeated name keeps its first position and its last entry. */
  function PutAll(reg: seq<Entry>, es: seq<Entry>): (r: seq<Entry>)
    ensures UniqueNames(reg) ==> UniqueNames(r)
    ensures forall x :: x in Names(reg) ==> x in Names(r)
    ensures forall i :: 0 <= i < |es| ==> es[i].name in Names(r)
    decreases |es|
  {
    if |es| == 0 then reg else PutAll(Put(reg, es[0]), es[1..])
  }

  /** Entries with distinct new names are simply appended in order. */
  lemma {:induction false} PutAllFresh(reg: seq<Entry>, es: seq<Entry>)
    requires UniqueNames(es)
    requires forall i :: 0 <= i < |es| ==> es[i].name !in Names(reg)
    ensures PutAll(reg, es) == reg + es
    decreases |es|
  {
    if |es| > 0 {
      PutFreshStep(reg, es);
      PutAllFresh(reg + [es[0]], es[1..]);
      AppendHead(reg, es);
    }
  }

  lemma AppendHead(a: seq<Entry>, b: seq<Entry>)
    requires |b| > 0
    ensures a + [b[0]] + b[1..] == a + b
  {
    assert a + [b[0]] + b[1..] == a + b;
  }

  /** Putting the first fresh entry appends it, and the rest stay fresh. */
  lemma PutFreshStep(reg: seq<Entry>, es: seq<Entry>)
    requires |es| > 0 && UniqueNames(es)
    requires forall i :: 0 <= i < |es| ==> es[i].name !in Names(reg)
    ensures PutAll(reg, es) == PutAll(reg + [es[0]], es[1..])
    ensures UniqueNames(es[1..])
    ensures forall i :: 0 <= i < |es[1..]| ==> es[1..][i].name !in Names(reg + [es[0]])
  {
    PutFresh(reg, es[0]);
    UniqueTail(es);
    FreshTail(reg, es);
  }

  /** A fresh name is appended. */
  lemma PutFresh(reg: seq<Entry>, e: Entry)
    requires e.name !in Names(reg)
    ensures Put(reg, e) == reg + [e]
  {
  }

  lemma UniqueTail(es: seq<Entry>)
    requires |es| > 0
    ensures UniqueNames(es) ==> UniqueNames(es[1..])
  {
    assert Names(es[1..]) == Names(es)[1..];
  }

  /** Names after the first of a list with distinct names are not the first, so they
      stay fresh once the first is appended. */
  lemma FreshTail(reg: seq<Entry>, es: seq<Entry>)
    requires |es| > 0 && UniqueNames(es)
    requires forall i :: 0 <= i < |es| ==> es[i].name !in Names(reg)
    ensures forall i :: 0 <= i < |es[1..]| ==> es[1..][i].name !in Names(reg + [es[0]])
  {
    var reg' := reg + [es[0]];
    assert Names(reg') == Names(reg) + [es[0].name];
    forall i | 0 <= i < |es[1..]|
      ensures es[1..][i].name !in Names(reg')
    {
      assert Names(es)[0] == es[0].name;
      assert Names(es)[i + 1] == es[1..][i].name;
    }
  }

  /** Which entries a listing keeps: those with a given flag, or those not called `name`. */
  datatype Keep = WithFlag(state: bool) | NotNamed(name: string)

  predicate Kept(keep: Keep, e: Entry) {
    match keep
    case WithFlag(state) => e.enabled == state
    case NotNamed(name) => e.name != name
  }

  /** How many entries `keep` selects. */
  function Count(reg: seq<Entry>, keep: Keep): (n: nat)
    ensures n <= |reg|
  {
    if |reg| == 0 then 0 else (if Kept(keep, reg[0]) then 1 else 0) + Count(reg[1..], keep)
  }

  /** Every position moved one place on. */
  function Shifted(idx: seq<nat>): (r: seq<nat>)
    ensures |r| == |idx| && forall j :: 0 <= j < |idx| ==> r[j] == idx[j] + 1
  {
    seq(|idx|, j requires 0 <= j < |idx| => idx[j] + 1)
  }

  /** The positions of the entries `keep` selects, ascending: only selected positions,
      as many as there are selected entries (so all of them, see `SelectComplete`). */
  function Select(reg: seq<Entry>, keep: Keep): (idx: seq<nat>)
    ensures |idx| == Count(reg, keep)
    ensures forall j :: 0 <= j < |idx| ==> idx[j] < |reg| && Kept(keep, reg[idx[j]])
    ensures forall j, k :: 0 <= j < k < |idx| ==> idx[j] < idx[k]
    decreases |reg|
  {
    if |reg| == 0 then []
    else
      var rest := Select(reg[1..], keep);
      SelectShifted(reg, keep, rest, Shifted(rest));
      (if Kept(keep, reg[0]) then [0] else []) + Shifted(rest)
  }

  lemma SelectShifted(reg: seq<Entry>, keep: Keep, rest: seq<nat>, shifted: seq<nat>)
    requires |reg| > 0
    requires forall j :: 0 <= j < |rest| ==> rest[j] < |reg| - 1 && Kept(keep, reg[1..][rest[j]])
    requires forall j, k :: 0 <= j < k < |rest| ==> rest[j] < rest[k]
    requires |shifted| == |rest| && forall j :: 0 <= j < |rest| ==> shifted[j] == rest[j] + 1
    ensures var idx := (if Kept(keep, reg[0]) then [0] else []) + shifted;
            && (forall j :: 0 <= j < |idx| ==> idx[j] < |reg| && Kept(keep, reg[idx[j]]))
            && (forall j, k :: 0 <= j < k < |idx| ==> idx[j] < idx[k])
  {
    forall j | 0 <= j < |rest|
      ensures shifted[j] < |reg| && Kept(keep, reg[shifted[j]])
    {
      assert reg[1..][rest[j]] == reg[rest[j] + 1];
    }
  }

  /** The selection of a non-empty registry, position by position: the first entry
      when it is selected, then the selection of the tail moved one place on. */
  lemma SelectCons(reg: seq<Entry>, keep: Keep, pre: nat)
    requires |reg| > 0 && pre == if Kept(keep, reg[0]) then 1 else 0
    ensures |Select(reg, keep)| == pre + |Select(reg[1..], keep)|
    ensures pre == 1 ==> Select(reg, keep)[0] == 0
    ensures forall j :: 0 <= j < |Select(reg[1..], keep)| ==>
              Select(reg, keep)[pre + j] == Select(reg[1..], keep)[j] + 1
  {
    SelectUnfold(reg, keep);
    ShiftedAfter(Select(reg, keep), if Kept(keep, reg[0]) then [0] else [], Select(reg[1..], keep), pre);
  }

  lemma SelectUnfold(reg: seq<Entry>, keep: Keep)
    requires |reg| > 0
    ensures Select(reg, keep) == (if Kept(keep, reg[0]) then [0] else []) + Shifted(Select(reg[1..], keep))
  {
  }

  /** A head of length `pre` followed by a shifted list, read past the head. */
  lemma ShiftedAfter(idx: seq<nat>, head: seq<nat>, rest: seq<nat>, pre: nat)
    requires idx == head + Shifted(rest) && |head| == pre && (pre == 1 ==> head == [0])
    ensures |idx| == pre + |rest|
    ensures pre == 1 ==> idx[0] == 0
    ensures forall j :: 0 <= j < |rest| ==> idx[pre + j] == rest[j] + 1
  {
  }

  /** Every selected position is listed. */
  lemma {:induction false} SelectComplete(reg: seq<Entry>, keep: Keep, i: nat)
    requires i < |reg| && Kept(keep, reg[i])
    ensures i in Select(reg, keep)
    decreases |reg|
  {
    var pre := if Kept(keep, reg[0]) then 1 else 0;
    SelectCons(reg, keep, pre);
    if i > 0 {
      assert reg[1..][i - 1] == reg[i];
      SelectComplete(reg[1..], keep, i - 1);
      var j :| 0 <= j < |Select(reg[1..], keep)| && Select(reg[1..], keep)[j] == i - 1;
      assert Select(reg, keep)[pre + j] == i;
    } else {
      assert Select(reg, keep)[0] == 0;
    }
  }

  /** `r` lists the entries of `reg` that `keep` selects, in registry order. */
  predicate Listed(reg: seq<Entry>, keep: Keep, r: seq<Entry>) {
    |r| == |Select(reg, keep)| && forall j :: 0 <= j < |r| ==> r[j] == reg[Select(reg, keep)[j]]
  }

  /** `ns` names the entries of `reg` that `keep` selects, in registry order. */
  predicate ListedNames(reg: seq<Entry>, keep: Keep, ns: seq<string>) {
    |ns| == |Select(reg, keep)| && forall j :: 0 <= j < |ns| ==> ns[j] == reg[Select(reg, keep)[j]].name
  }

  /** Putting the first entry in front of the listing of the rest, when it is selected. */
  lemma ListedStep(reg: seq<Entry>, keep: Keep, rest: seq<Entry>)
    requires |reg| > 0 && Listed(reg[1..], keep, rest)
    ensures Listed(reg, keep, (if Kept(keep, reg[0]) then [reg[0]] else []) + rest)
  {
    var pre := if Kept(keep, reg[0]) then 1 else 0;
    SelectCons(reg, keep, pre);
    PickCons(reg, (e: Entry) => e, Select(reg, keep), Select(reg[1..], keep), pre, rest);
  }

  /** The same step for the names of the selected entries. */
  lemma ListedNamesStep(reg: seq<Entry>, keep: Keep, rest: seq<string>)
    requires |reg| > 0 && ListedNames(reg[1..], keep, rest)
    ensures ListedNames(reg, keep, (if Kept(keep, reg[0]) then [reg[0].name] else []) + rest)
  {
    var pre := if Kept(keep, reg[0]) then 1 else 0;
    SelectCons(reg, keep, pre);
    PickCons(reg, (e: Entry) => e.name, Select(reg, keep), Select(reg[1..], keep), pre, rest);
  }

  /** Reading `xs` through an index list made of an optional `0` followed by the
      positions `p` of the tail moved one place on, and taking `f` of each entry read:
      the optional head, then `rest`. */
  lemma PickCons<T, U>(xs: seq<T>, f: T -> U, idx: seq<nat>, p: seq<nat>, pre: nat, rest: seq<U>)
    requires |xs| > 0 && pre <= 1 && |idx| == pre + |p| && (pre == 1 ==> idx[0] == 0)
    requires forall j :: 0 <= j < |p| ==> idx[pre + j] == p[j] + 1 && p[j] < |xs| - 1
    requires |rest| == |p| && forall j :: 0 <= j < |p| ==> rest[j] == f(xs[1..][p[j]])
    ensures var r := (if pre == 1 then [f(xs[0])] else []) + rest;
            |r| == |idx| && forall j :: 0 <= j < |r| ==> idx[j] < |xs| && r[j] == f(xs[idx[j]])
  {
    var r := (if pre == 1 then [f(xs[0])] else []) + rest;
    forall j | 0 <= j < |r|
      ensures idx[j] < |xs| && r[j] == f(xs[idx[j]])
    {
      if j >= pre {
        assert r[j] == rest[j - pre] == f(xs[1..][p[j - pre]]);
      }
    }
  }

  /** `delete options.validators[name]`: the other entries stay, in their order. */
  function Delete(reg: seq<Entry>, name: string): (r: seq<Entry>)
    ensures Listed(reg, NotNamed(name), r)
    ensures name !in Names(r)
    ensures forall e :: e in r <==> e in reg && e.name != name
    ensures forall x :: x != name ==> (x in Names(r) <==> x in Names(reg))
    ensures UniqueNames(reg) ==> UniqueNames(r)
  {
    if |reg| == 0 then []
    else
      var rest := Delete(reg[1..], name);
      DeleteStep(reg, name, rest);
      ListedStep(reg, NotNamed(name), rest);
      if reg[0].name == name then rest else [reg[0]] + rest
  }

  /** Deleting from a non-empty registry: the first entry goes exactly when it has the
      name, and the rest is the deletion from the tail. */
  lemma DeleteStep(reg: seq<Entry>, name: string, rest: seq<Entry>)
    requires |reg| > 0
    requires name !in Names(rest)
    requires forall e :: e in rest <==> e in reg[1..] && e.name != name
    requires forall x :: x != name ==> (x in Names(rest) <==> x in Names(reg[1..]))
    requires UniqueNames(reg[1..]) ==> UniqueNames(rest)
    ensures var r := if reg[0].name == name then rest else [reg[0]] + rest;
            && name !in Names(r)
            && (forall e :: e in r <==> e in reg && e.name != name)
            && (forall x :: x != name ==> (x in Names(r) <==> x in Names(reg)))
            && (UniqueNames(reg) ==> UniqueNames(r))
  {
    InCons(reg[0], reg[1..]);
    assert reg == [reg[0]] + reg[1..];
    if reg[0].name != name {
      InCons(reg[0], rest);
      DeleteKeep(reg, name, rest);
    } else {
      DeleteDrop(reg, name, rest);
    }
  }

  /** Dropping a first entry that has the name. */
  lemma DeleteDrop(reg: seq<Entry>, name: string, rest: seq<Entry>)
    requires |reg| > 0 && reg[0].name == name
    requires forall x :: x != name ==> (x in Names(rest) <==> x in Names(reg[1..]))
    requires UniqueNames(reg[1..]) ==> UniqueNames(rest)
    ensures forall x :: x != name ==> (x in Names(rest) <==> x in Names(reg))
    ensures UniqueNames(reg) ==> UniqueNames(rest)
  {
    NamesCons(reg);
    UniqueCons(name, Names(reg[1..]));
    InCons(name, Names(reg[1..]));
  }

  lemma InCons<T>(a: T, xs: seq<T>)
    ensures forall x :: x in [a] + xs <==> x == a || x in xs
  {
  }

  /** Keeping the first entry in front of the tail's deletion. */
  lemma DeleteKeep(reg: seq<Entry>, name: string, rest: seq<Entry>)
    requires |reg| > 0 && reg[0].name != name
    requires name !in Names(rest)
    requires forall x :: x != name ==> (x in Names(rest) <==> x in Names(reg[1..]))
    requires UniqueNames(reg[1..]) ==> UniqueNames(rest)
    ensures name !in Names([reg[0]] + rest)
    ensures forall x :: x != name ==> (x in Names([reg[0]] + rest) <==> x in Names(reg))
    ensures UniqueNames(reg) ==> UniqueNames([reg[0]] + rest)
  {
    var r := [reg[0]] + rest;
    NamesCons(reg);
    NamesCons(r);
    assert r[1..] == rest;
    ConsKeep(reg[0].name, name, Names(rest), Names(reg[1..]));
  }

  /** Putting the same kept element in front of two lists that agree on every element
      but `name`. */
  lemma ConsKeep(a: string, name: string, xs: seq<string>, ys: seq<string>)
    requires a != name && name !in xs
    requires forall x :: x != name ==> (x in xs <==> x in ys)
    requires Unique(ys) ==> Unique(xs)
    ensures name !in [a] + xs
    ensures forall x :: x != name ==> (x in [a] + xs <==> x in [a] + ys)
    ensures Unique([a] + ys) ==> Unique([a] + xs)
  {
    UniqueCons(a, xs);
    UniqueCons(a, ys);
  }

  lemma UniqueCons(a: string, xs: seq<string>)
    ensures Unique([a] + xs) <==> a !in xs && Unique(xs)
  {
    var s := [a] + xs;
    assert forall i :: 0 <= i < |xs| ==> s[i + 1] == xs[i];
    if a !in xs && Unique(xs) {
      forall i, j | 0 <= i < j < |s|
        ensures s[i] != s[j]
      {
        if i > 0 {
          assert s[i] == xs[i - 1] && s[j] == xs[j - 1];
        }
      }
    }
    if Unique(s) {
      forall i, j | 0 <= i < j < |xs|
        ensures xs[i] != xs[j]
      {
        assert s[i + 1] != s[j + 1];
      }
      forall k | 0 <= k < |xs|
        ensures xs[k] != a
      {
        assert s[0] != s[k + 1];
      }
    }
  }

  lemma NamesCons(reg: seq<Entry>)
    requires |reg| > 0
    ensures Names(reg) == [reg[0].name] + Names(reg[1..])
  {
    assert Names(reg) == [reg[0].name] + Names(reg[1..]);
  }

  /** A listing of names holds exactly the names of the selected entries. */
  lemma ListedNamesMembers(reg: seq<Entry>, keep: Keep, ns: seq<string>)
    requires ListedNames(reg, keep, ns)
    ensures forall x :: x in ns <==> exists i :: 0 <= i < |reg| && reg[i].name == x && Kept(keep, reg[i])
  {
    var idx := Select(reg, keep);
    forall x | x in ns
      ensures exists i :: 0 <= i < |reg| && reg[i].name == x && Kept(keep, reg[i])
    {
      var j :| 0 <= j < |ns| && ns[j] == x;
      assert reg[idx[j]].name == x && Kept(keep, reg[idx[j]]);
    }
    forall x | exists i :: 0 <= i < |reg| && reg[i].name == x && Kept(keep, reg[i])
      ensures x in ns
    {
      var i :| 0 <= i < |reg| && reg[i].name == x && Kept(keep, reg[i]);
      SelectComplete(reg, keep, i);
      var j :| 0 <= j < |idx| && idx[j] == i;
      assert ns[j] == x;
    }
  }

  /** The names whose entry is enabled (`enabled !== false`), in registry order. */
  function EnabledNames(reg: seq<Entry>): (ns: seq<string>)
    ensures ListedNames(reg, WithFlag(true), ns)
    ensures forall x :: x in ns <==> exists i :: 0 <= i < |reg| && reg[i].name == x && reg[i].enabled
    ensures |ns| <= |reg|
  {
    if |reg| == 0 then []
    else
      var rest := EnabledNames(reg[1..]);
      var ns := if reg[0].enabled then [reg[0].name] + rest else rest;
      assert ListedNames(reg, WithFlag(true), ns) by {
        ListedNamesStep(reg, WithFlag(true), rest);
      }
      ListedNamesMembers(reg, WithFlag(true), ns);
      ns
  }

  /** The names whose entry is disabled (`enabled === false`), in registry order. */
  function DisabledNames(reg: seq<Entry>): (ns: seq<string>)
    ensures ListedNames(reg, WithFlag(false), ns)
    ensures forall x :: x in ns <==> exists i :: 0 <= i < |reg| && reg[i].name == x && !reg[i].enabled
    ensures |ns| == |reg| - |EnabledNames(reg)|
  {
    if |reg| == 0 then []
    else
      var rest := DisabledNames(reg[1..]);
      var ns := if !reg[0].enabled then [reg[0].name] + rest else rest;
      assert ListedNames(reg, WithFlag(false), ns) by {
        ListedNamesStep(reg, WithFlag(false), rest);
      }
      ListedNamesMembers(reg, WithFlag(false), ns);
      ns
  }

  /** With distinct names every registered name is listed by exactly one of `enabled()`
      and `disabled()`. */
  lemma Partition(reg: seq<Entry>, x: string)
    requires UniqueNames(reg)
    ensures x in Names(reg) <==> (x in EnabledNames(reg) || x in DisabledNames(reg))
    ensures !(x in EnabledNames(reg) && x in DisabledNames(reg))
  {
    forall i, j | 0 <= i < |reg| && 0 <= j < |reg| && reg[i].name == reg[j].name
      ensures i == j
    {
      assert Names(reg)[i] == Names(reg)[j];
    }
    if x in Names(reg) {
      var i :| 0 <= i < |reg| && Names(reg)[i] == x;
      assert reg[i].name == x;
    }
  }

  /** When every entry is enabled `enabled()` lists all names in registry order; when
      none is, it lists none. */
  lemma {:induction false} EnabledNamesAll(reg: seq<Entry>)
    ensures (forall i :: 0 <= i < |reg| ==> reg[i].enabled) ==> EnabledNames(reg) == Names(reg)
    ensures (forall i :: 0 <= i < |reg| ==> !reg[i].enabled) ==> EnabledNames(reg) == []
    decreases |reg|
  {
    if |reg| > 0 {
      EnabledNamesAll(reg[1..]);
      assert Names(reg) == [reg[0].name] + Names(reg[1..]);
      assert forall i :: 0 < i < |reg| ==> reg[i] == reg[1..][i - 1];
    }
  }

  /** `options.validators[name].enabled = state` for a registered name. */
  function SetEnabled(reg: seq<Entry>, name: string, state: bool): (r: seq<Entry>)
    ensures |r| == |reg| && Names(r) == Names(reg)
    ensures forall i :: 0 <= i < |reg| ==> r[i].impl == reg[i].impl
    ensures forall i :: 0 <= i < |reg| ==> r[i].enabled == if reg[i].name == name then state else reg[i].enabled
  {
    seq(|reg|, i requires 0 <= i < |reg| => if reg[i].name == name then reg[i].(enabled := state) else reg[i])
  }

  /** The warnings `toggleValidators` logs: one per listed name that is not registered,
      in list order. */
  function UnknownWarnings(opts: Options, names: seq<string>, known: seq<string>): (ws: seq<Warning>)
    ensures |ws| <= |names|
    ensures (forall i :: 0 <= i < |names| ==> names[i] in known) ==> ws == []
    ensures |names| == 1 ==> ws == if names[0] in known then [] else [Unknown(Format(opts.templates.unknown, [names[0]]))]
  {
    if |names| == 0 then []
    else
      (if names[0] in known then [] else [Unknown(Format(opts.templates.unknown, [names[0]]))])
      + UnknownWarnings(opts, names[1..], known)
  }

  /** The warnings for two lists back to back are those of the first, then those of
      the second: with the one-name case, one warning per unknown name in list order. */
  lemma {:induction false} UnknownWarningsAppend(opts: Options, a: seq<string>, b: seq<string>, known: seq<string>)
    ensures UnknownWarnings(opts, a + b, known) == UnknownWarnings(opts, a, known) + UnknownWarnings(opts, b, known)
    decreases |a|
  {
    if |a| == 0 {
      assert a + b == b;
    } else {
      assert (a + b)[1..] == a[1..] + b;
      UnknownWarningsAppend(opts, a[1..], b, known);
    }
  }

  /** A warning is logged exactly for the listed names that are not registered. */
  lemma {:induction false} UnknownWarningsMembers(opts: Options, names: seq<string>, known: seq<string>)
    ensures forall w :: w in UnknownWarnings(opts, names, known) <==>
              exists i :: 0 <= i < |names| && names[i] !in known && w == Unknown(Format(opts.templates.unknown, [names[i]]))
    decreases |names|
  {
    if |names| > 0 {
      UnknownWarningsMembers(opts, names[1..], known);
      var u := if names[0] in known then [] else [Unknown(Format(opts.templates.unknown, [names[0]]))];
      var w := UnknownWarnings(opts, names[1..], known);
      forall x | x in w
        ensures exists i :: 0 <= i < |names| && names[i] !in known && x == Unknown(Format(opts.templates.unknown, [names[i]]))
      {
        var i :| 0 <= i < |names[1..]| && names[1..][i] !in known && x == Unknown(Format(opts.templates.unknown, [names[1..][i]]));
        assert names[i + 1] == names[1..][i];
      }
      forall x | exists i :: 0 <= i < |names| && names[i] !in known && x == Unknown(Format(opts.templates.unknown, [names[i]]))
        ensures x in u + w
      {
        var i :| 0 <= i < |names| && names[i] !in known && x == Unknown(Format(opts.templates.unknown, [names[i]]));
        if i > 0 {
          assert names[1..][i - 1] == names[i];
        }
      }
    }
  }

  /** One step of the `forEach` of `toggleValidators`. */
  function ToggleOne(st: State, state: bool, k: string): (r: State)
    ensures r.opts == st.opts && r.once == st.once
    ensures r.defaultEnabled == st.defaultEnabled && r.defaultDisabled == st.defaultDisabled
    ensures Names(r.registry) == Names(st.registry)
  {
    if k in Names(st.registry) then st.(registry := SetEnabled(st.registry, k, state))
    else st.(log := st.log + [Unknown(Format(st.opts.templates.unknown, [k]))])
  }

  /** The `forEach` of `toggleValidators` over an explicit list. */
  function ToggleEach(st: State, state: bool, names: seq<string>): (r: State)
    ensures r.opts == st.opts && r.once == st.once
    ensures r.defaultEnabled == st.defaultEnabled && r.defaultDisabled == st.defaultDisabled
    ensures Names(r.registry) == Names(st.registry)
    decreases |names|
  {
    if |names| == 0 then st else ToggleEach(ToggleOne(st, state, names[0]), state, names[1..])
  }

  /** Registered names in the list get the new state, every other entry keeps its own,
      and each unknown name is warned about, in list order. */
  lemma ToggleEachEffect(st: State, state: bool, names: seq<string>)
    ensures var r := ToggleEach(st, state, names);
            && (forall i :: 0 <= i < |st.registry| ==>
                  && r.registry[i].impl == st.registry[i].impl
                  && r.registry[i].enabled == if st.registry[i].name in names then state else st.registry[i].enabled)
            && r.log == st.log + UnknownWarnings(st.opts, names, Names(st.registry))
  {
    ToggleEachEntries(st, state, names);
    ToggleEachLog(st, state, names);
  }

  lemma {:induction false} ToggleEachEntries(st: State, state: bool, names: seq<string>)
    ensures var r := ToggleEach(st, state, names);
            forall i :: 0 <= i < |st.registry| ==>
              && r.registry[i].impl == st.registry[i].impl
              && r.registry[i].enabled == if st.registry[i].name in names then state else st.registry[i].enabled
    decreases |names|
  {
    if |names| > 0 {
      var k := names[0];
      ToggleEachEntries(ToggleOne(st, state, k), state, names[1..]);
      InCons(k, names[1..]);
      assert names == [k] + names[1..];
      ToggleOneEffect(st, state, k);
    }
  }

  lemma {:induction false} ToggleEachLog(st: State, state: bool, names: seq<string>)
    ensures ToggleEach(st, state, names).log == st.log + UnknownWarnings(st.opts, names, Names(st.registry))
    decreases |names|
  {
    if |names| > 0 {
      var k := names[0];
      var next := ToggleOne(st, state, k);
      var u := if k in Names(st.registry) then [] else [Unknown(Format(st.opts.templates.unknown, [k]))];
      var w := UnknownWarnings(st.opts, names[1..], Names(st.registry));
      assert next.log == st.log + u by {
        ToggleOneLog(st, state, k);
      }
      ToggleEachLog(next, state, names[1..]);
      assert (st.log + u) + w == st.log + (u + w);
    }
  }

  lemma ToggleOneLog(st: State, state: bool, k: string)
    ensures ToggleOne(st, state, k).log
         == st.log + (if k in Names(st.registry) then [] else [Unknown(Format(st.opts.templates.unknown, [k]))])
  {
  }

  /** One step sets the state of the entry called `k`, if there is one, and otherwise
      logs one warning. */
  lemma ToggleOneEffect(st: State, state: bool, k: string)
    ensures var r := ToggleOne(st, state, k);
            && |r.registry| == |st.registry|
            && (forall i :: 0 <= i < |st.registry| ==>
                  && r.registry[i].name == st.registry[i].name
                  && r.registry[i].impl == st.registry[i].impl
                  && r.registry[i].enabled == if st.registry[i].name == k then state else st.registry[i].enabled)
            && r.log == st.log + (if k in Names(st.registry) then [] else [Unknown(Format(st.opts.templates.unknown, [k]))])
  {
    var r := ToggleOne(st, state, k);
    assert Names(r.registry) == Names(st.registry);
    assert forall i :: 0 <= i < |st.registry| ==> r.registry[i].name == Names(r.registry)[i];
    if k !in Names(st.registry) {
      forall i | 0 <= i < |st.registry|
        ensures st.registry[i].name != k
      {
        assert Names(st.registry)[i] == st.registry[i].name;
      }
    }
  }

  /** `toggleValidators(state, validators, allowAll)`: an empty list means every
      registered name when `allowAll` is set. */
  function Toggle(st: State, state: bool, names: seq<string>, allowAll: bool): (r: State)
    ensures r.opts == st.opts && r.once == st.once
    ensures r.defaultEnabled == st.defaultEnabled && r.defaultDisabled == st.defaultDisabled
    ensures Names(r.registry) == Names(st.registry)
    ensures forall i :: 0 <= i < |st.registry| ==>
              && r.registry[i].impl == st.registry[i].impl
              && r.registry[i].enabled == if (names == [] && allowAll) || st.registry[i].name in names then state else st.registry[i].enabled
    ensures r.log == if names == [] && allowAll then st.log else st.log + UnknownWarnings(st.opts, names, Names(st.registry))
  {
    var targets := if names == [] && allowAll then Names(st.registry) else names;
    ToggleEachEffect(st, state, targets);
    assert names == [] && allowAll ==> forall i :: 0 <= i < |st.registry| ==> st.registry[i].name in targets by {
      if names == [] && allowAll {
        forall i | 0 <= i < |st.registry|
          ensures st.registry[i].name in targets
        {
          assert targets[i] == st.registry[i].name;
        }
      }
    }
    assert names == [] && allowAll ==> UnknownWarnings(st.opts, targets, Names(st.registry)) == [];
    assert st.log + [] == st.log;
    ToggleEach(st, state, targets)
  }

  /** `enable(...names)`: clears `_once`; no names enables every entry. */
  function Enable(st: State, names: seq<string>): (r: State)
    ensures r.once.None? && Names(r.registry) == Names(st.registry)
    ensures r.opts == st.opts && r.defaultEnabled == st.defaultEnabled && r.defaultDisabled == st.defaultDisabled
    ensures r.log == if names == [] then st.log else st.log + UnknownWarnings(st.opts, names, Names(st.registry))
    ensures forall i :: 0 <= i < |st.registry| ==>
              && r.registry[i].impl == st.registry[i].impl
              && r.registry[i].enabled == (names == [] || st.registry[i].name in names || st.registry[i].enabled)
  {
    Toggle(st.(once := None), true, names, true)
  }

  /** `disable(...names)`: clears `_once`; no names disables every entry. */
  function Disable(st: State, names: seq<string>): (r: State)
    ensures r.once.None? && Names(r.registry) == Names(st.registry)
    ensures r.opts == st.opts && r.defaultEnabled == st.defaultEnabled && r.defaultDisabled == st.defaultDisabled
    ensures r.log == if names == [] then st.log else st.log + UnknownWarnings(st.opts, names, Names(st.registry))
    ensures forall i :: 0 <= i < |st.registry| ==>
              && r.registry[i].impl == st.registry[i].impl
              && r.registry[i].enabled == (names != [] && st.registry[i].name !in names && st.registry[i].enabled)
  {
    Toggle(st.(once := None), false, names, true)
  }

  /** `enabled()`: the pending `once` list when there is one, else the enabled names. */
  function Enabled(st: State): (ns: seq<string>)
    ensures st.once.Some? ==> ns == st.once.value
    ensures st.once.None? ==> ListedNames(st.registry, WithFlag(true), ns)
    ensures st.once.None? ==> forall x :: x in ns <==>
              exists i :: 0 <= i < |st.registry| && st.registry[i].name == x && st.registry[i].enabled
  {
    if st.once.Some? then st.once.value else EnabledNames(st.registry)
  }

  /** `disabled()`: the disabled names, whatever `once` holds. */
  function Disabled(st: State): (ns: seq<string>)
    ensures ListedNames(st.registry, WithFlag(false), ns)
    ensures forall x :: x in ns <==>
              exists i :: 0 <= i < |st.registry| && st.registry[i].name == x && !st.registry[i].enabled
  {
    DisabledNames(st.registry)
  }

  /** `xs.splice(xs.indexOf(x), 1)` when `x` is present: its first occurrence goes. */
  function RemoveFirst(xs: seq<string>, x: string): (r: seq<string>)
    ensures multiset(r) == multiset(xs) - multiset{x}
  {
    if |xs| == 0 then []
    else if xs[0] == x then
      assert xs == [x] + xs[1..];
      xs[1..]
    else
      assert xs == [xs[0]] + xs[1..];
      [xs[0]] + RemoveFirst(xs[1..], x)
  }

  /** `add(name, validator)`: the entry is stored under `name` (a known name keeps its
      position), and the name joins the default list that matches its flag unless it is
      already there; it is never taken off the other list. */
  function Add(st: State, e: Entry): (r: State)
    ensures Lookup(r.registry, e.name) == Some(e)
    ensures forall x :: x != e.name ==> Lookup(r.registry, x) == Lookup(st.registry, x)
    ensures r.opts == st.opts && r.once == st.once && r.log == st.log
    ensures !e.enabled ==> e.name in r.defaultDisabled && r.defaultEnabled == st.defaultEnabled
    ensures e.enabled ==> e.name in r.defaultEnabled && r.defaultDisabled == st.defaultDisabled
    ensures multiset(r.defaultEnabled) == multiset(st.defaultEnabled) + (if e.enabled && e.name !in st.defaultEnabled then multiset{e.name} else multiset{})
    ensures multiset(r.defaultDisabled) == multiset(st.defaultDisabled) + (if !e.enabled && e.name !in st.defaultDisabled then multiset{e.name} else multiset{})
  {
    var reg := Put(st.registry, e);
    forall x | x != e.name
      ensures Lookup(reg, x) == Lookup(st.registry, x)
    {
      LookupFrame(st.registry, e, x);
    }
    var dd := if !e.enabled && e.name !in st.defaultDisabled then st.defaultDisabled + [e.name] else st.defaultDisabled;
    var de := if e.enabled && e.name !in st.defaultEnabled then st.defaultEnabled + [e.name] else st.defaultEnabled;
    st.(registry := reg, defaultEnabled := de, defaultDisabled := dd)
  }

  /** Two registries that agree on where the name `x` sits give the same `Find`. */
  lemma {:induction false} FindAgree(a: seq<Entry>, b: seq<Entry>, x: string)
    requires |a| <= |b|
    requires forall i :: 0 <= i < |a| ==> (a[i].name == x <==> b[i].name == x)
    requires forall i :: |a| <= i < |b| ==> b[i].name != x
    ensures Find(a, x) == Find(b, x)
    decreases |a| + |b|
  {
    if |a| > 0 && a[0].name != x {
      FindAgree(a[1..], b[1..], x);
    } else if |a| == 0 && |b| > 0 {
      assert b[0].name != x;
      FindAgree(a, b[1..], x);
    }
  }

  /** Putting one entry leaves the lookup of every other name unchanged. */
  lemma LookupFrame(reg: seq<Entry>, e: Entry, x: string)
    requires x != e.name
    ensures Lookup(Put(reg, e), x) == Lookup(reg, x)
  {
    var r := Put(reg, e);
    assert |reg| <= |r|;
    assert forall i :: 0 <= i < |reg| ==> r[i] == reg[i] || (r[i] == e && reg[i].name == e.name);
    assert forall i :: |reg| <= i < |r| ==> r[i] == e;
    FindAgree(reg, r, x);
  }

  /** `remove(name)`: the entry goes and the name leaves both default lists. */
  function Remove(st: State, name: string): (r: State)
    ensures name !in Names(r.registry)
    ensures forall x :: x != name ==> Lookup(r.registry, x) == Lookup(st.registry, x)
    ensures Listed(st.registry, NotNamed(name), r.registry)
    ensures r.opts == st.opts && r.once == st.once && r.log == st.log
    ensures multiset(r.defaultEnabled) == multiset(st.defaultEnabled) - multiset{name}
    ensures multiset(r.defaultDisabled) == multiset(st.defaultDisabled) - multiset{name}
  {
    forall x | x != name
      ensures Lookup(Delete(st.registry, name), x) == Lookup(st.registry, x)
    {
      DeleteLookup(st.registry, name, x);
    }
    st.(registry := Delete(st.registry, name),
        defaultEnabled := RemoveFirst(st.defaultEnabled, name),
        defaultDisabled := RemoveFirst(st.defaultDisabled, name))
  }

  /** Looking up in a non-empty registry: the first entry if it has the name, else the
      lookup in the rest. */
  lemma LookupCons(reg: seq<Entry>, x: string)
    requires |reg| > 0
    ensures Lookup(reg, x) == if reg[0].name == x then Some(reg[0]) else Lookup(reg[1..], x)
  {
    if reg[0].name != x {
      var k := Find(reg[1..], x);
      if k.Some? {
        assert reg[1..][k.value] == reg[k.value + 1];
      }
    }
  }

  /** Deleting one name leaves the lookup of every other name unchanged. */
  lemma {:induction false} DeleteLookup(reg: seq<Entry>, name: string, x: string)
    requires x != name
    ensures Lookup(Delete(reg, name), x) == Lookup(reg, x)
    decreases |reg|
  {
    if |reg| > 0 {
      var rest := Delete(reg[1..], name);
      DeleteLookup(reg[1..], name, x);
      LookupCons(reg, x);
      if reg[0].name != name {
        LookupCons([reg[0]] + rest, x);
        assert ([reg[0]] + rest)[1..] == rest;
      }
    }
  }

  /** `once(...names)`: with names, every entry is disabled and `enabled()` reports
      exactly those names; with none, nothing changes. */
  function Once(st: State, names: seq<string>): (r: State)
    ensures names == [] ==> r == st
    ensures names != [] ==> r.once == Some(names) && Enabled(r) == names
    ensures names != [] ==> Names(r.registry) == Names(st.registry)
    ensures names != [] ==> forall i :: 0 <= i < |r.registry| ==> !r.registry[i].enabled
    ensures names != [] ==> forall i :: 0 <= i < |r.registry| ==> r.registry[i].impl == st.registry[i].impl
  {
    if names == [] then st
    else Disable(st, []).(once := Some(names))
  }

  /** `reset()`: clears `_once`, disables the default-disabled names (all names when
      that list is empty) and then enables the default-enabled ones (all when empty). */
  function Reset(st: State): (r: State)
    ensures r.once.None? && Names(r.registry) == Names(st.registry)
  {
    Enable(Disable(st.(once := None), st.defaultDisabled), st.defaultEnabled)
  }

  /** Every registered name is on at least one default list: true after `configure` and
      kept by every operation except replacing the whole registry through `option`. */
  predicate Tracked(st: State) {
    forall i :: 0 <= i < |st.registry| ==>
      st.registry[i].name in st.defaultEnabled || st.registry[i].name in st.defaultDisabled
  }

  /** After `reset` an entry is enabled exactly when its name is a default-enabled one,
      or when no name is: with nothing enabled at configure time, `reset` enables all. */
  lemma ResetEnables(st: State)
    requires Tracked(st)
    ensures var r := Reset(st);
            forall i :: 0 <= i < |st.registry| ==>
              r.registry[i].enabled == (st.registry[i].name in st.defaultEnabled || st.defaultEnabled == [])
  {
  }

  /** The initial registry: `unmet`, `extra`, `mismatch`, all enabled, in that order. */
  const DefaultRegistry := [Entry("unmet", true, Unmet), Entry("extra", true, Extra), Entry("mismatch", true, Mismatch)]

  /** `configure(options)`: the given validators (or the three built-ins when none are
      given), no pending `once`, and the default lists captured from the registry. */
  function Configure(opts: Options, validators: Option<seq<Entry>>): (st: State)
    ensures st.opts == opts && st.once.None? && st.log == []
    ensures validators.None? ==> st.registry == DefaultRegistry
    ensures validators.Some? && UniqueNames(validators.value) ==> st.registry == validators.value
    ensures UniqueNames(st.registry)
    ensures Tracked(st)
  {
    var reg := if validators.None? then DefaultRegistry else PutAll([], validators.value);
    assert UniqueNames(DefaultRegistry) by {
      assert Names(DefaultRegistry) == ["unmet", "extra", "mismatch"];
    }
    assert validators.Some? && UniqueNames(validators.value) ==> reg == validators.value by {
      if validators.Some? && UniqueNames(validators.value) {
        PutAllFresh([], validators.value);
      }
    }
    var st := State(opts, reg, None, EnabledNames(reg), DisabledNames(reg), []);
    assert Tracked(st) by {
      ListsTrack(reg);
    }
    st
  }

  /** Every entry is listed by `enabled()` or by `disabled()`. */
  lemma ListsTrack(reg: seq<Entry>)
    ensures forall i :: 0 <= i < |reg| ==> reg[i].name in EnabledNames(reg) || reg[i].name in DisabledNames(reg)
  {
    forall i | 0 <= i < |reg|
      ensures reg[i].name in EnabledNames(reg) || reg[i].name in DisabledNames(reg)
    {
      if reg[i].enabled {
        assert reg[i].name in EnabledNames(reg);
      } else {
        assert reg[i].name in DisabledNames(reg);
      }
    }
  }

  /** Well-formedness kept by every registry operation: distinct names, each tracked by
      a default list. */
  predicate Valid(st: State) {
    UniqueNames(st.registry) && Tracked(st)
  }

  /** Every operation of the state machine keeps the registry well formed. */
  lemma {:induction false} OperationsKeepValid(st: State, e: Entry, name: string, names: seq<string>, state: bool, allowAll: bool)
    requires Valid(st)
    ensures Valid(Toggle(st, state, names, allowAll))
    ensures Valid(Enable(st, names)) && Valid(Disable(st, names)) && Valid(Once(st, names))
    ensures Valid(Reset(st))
    ensures Valid(Add(st, e))
    ensures Valid(Remove(st, name))
  {
    ToggleKeepsValid(st, state, names, allowAll);
    ToggleKeepsValid(st.(once := None), true, names, true);
    ToggleKeepsValid(st.(once := None), false, names, true);
    ToggleKeepsValid(st.(once := None), false, [], true);
    var d := Disable(st.(once := None), st.defaultDisabled);
    ToggleKeepsValid(st.(once := None), false, st.defaultDisabled, true);
    ToggleKeepsValid(d.(once := None), true, st.defaultEnabled, true);
    AddKeepsValid(st, e);
    RemoveKeepsValid(st, name);
  }

  lemma ToggleKeepsValid(st: State, state: bool, names: seq<string>, allowAll: bool)
    requires Valid(st)
    ensures Valid(Toggle(st, state, names, allowAll))
  {
    var r := Toggle(st, state, names, allowAll);
    assert forall i :: 0 <= i < |st.registry| ==> r.registry[i].name == st.registry[i].name by {
      assert Names(r.registry) == Names(st.registry);
    }
  }

  lemma AddKeepsValid(st: State, e: Entry)
    requires Valid(st)
    ensures Valid(Add(st, e))
  {
    var r := Add(st, e);
    forall i | 0 <= i < |r.registry|
      ensures r.registry[i].name in r.defaultEnabled || r.registry[i].name in r.defaultDisabled
    {
      var x := r.registry[i].name;
      assert x in Names(r.registry) by { assert Names(r.registry)[i] == x; }
      if x != e.name {
        assert x in Names(st.registry) by {
          assert Lookup(r.registry, x) == Lookup(st.registry, x);
        }
        var j :| 0 <= j < |st.registry| && Names(st.registry)[j] == x;
        assert st.registry[j].name == x;
        assert x in multiset(st.defaultEnabled) || x in multiset(st.defaultDisabled);
        assert x in multiset(r.defaultEnabled) || x in multiset(r.defaultDisabled);
      }
    }
  }

  lemma RemoveKeepsValid(st: State, name: string)
    requires Valid(st)
    ensures Valid(Remove(st, name))
  {
    var r := Remove(st, name);
    forall i | 0 <= i < |r.registry|
      ensures r.registry[i].name in r.defaultEnabled || r.registry[i].name in r.defaultDisabled
    {
      var x := r.registry[i].name;
      assert r.registry[i] in r.registry;
      var j :| 0 <= j < |st.registry| && st.registry[j] == r.registry[i];
      assert x != name;
      assert x in multiset(st.defaultEnabled) || x in multiset(st.defaultDisabled);
      assert x in multiset(r.defaultEnabled) || x in multiset(r.defaultDisabled);
    }
  }

  /** The `option(key)` keys this model knows. */
  datatype Key = SeparatorKey | AnyKey | StrictKey | PositionsKey | TemplatesKey | OnErrorKey | ValidatorsKey

  /** A value stored or read through `option(key, value)`. */
  datatype Setting =
    | SetSeparator(separator: string)
    | SetAny(any: string)
    | SetStrict(strict: bool)
    | SetPositions(positions: seq<string>)
    | SetTemplates(templates: Templates)
    | SetOnError(onError: ErrorPolicy)
    | SetValidators(entries: seq<Entry>)

  function KeyOf(s: Setting): Key {
    match s
    case SetSeparator(_) => SeparatorKey
    case SetAny(_) => AnyKey
    case SetStrict(_) => StrictKey
    case SetPositions(_) => PositionsKey
    case SetTemplates(_) => TemplatesKey
    case SetOnError(_) => OnErrorKey
    case SetValidators(_) => ValidatorsKey
  }

  /** `option(key)`: the current value under `key`. */
  function Current(st: State, k: Key): (s: Setting)
    ensures KeyOf(s) == k
  {
    match k
    case SeparatorKey => SetSeparator(st.opts.separator)
    case AnyKey => SetAny(st.opts.any)
    case StrictKey => SetStrict(st.opts.strict)
    case PositionsKey => SetPositions(st.opts.positions)
    case TemplatesKey => SetTemplates(st.opts.templates)
    case OnErrorKey => SetOnError(st.opts.onError)
    case ValidatorsKey => SetValidators(st.registry)
  }

  /** `option(key, value)`: replaces one option. Replacing the validators replaces the
      whole registry; `_once` and the default lists are left as they are. */
  function Apply(st: State, s: Setting): (r: State)
    ensures r.once == st.once && r.log == st.log
    ensures r.defaultEnabled == st.defaultEnabled && r.defaultDisabled == st.defaultDisabled
    ensures !s.SetValidators? ==> r.registry == st.registry
    ensures UniqueNames(r.registry) || !UniqueNames(st.registry)
  {
    match s
    case SetSeparator(v) => st.(opts := st.opts.(separator := v))
    case SetAny(v) => st.(opts := st.opts.(any := v))
    case SetStrict(v) => st.(opts := st.opts.(strict := v))
    case SetPositions(v) => st.(opts := st.opts.(positions := v))
    case SetTemplates(v) => st.(opts := st.opts.(templates := v))
    case SetOnError(v) => st.(opts := st.opts.(onError := v))
    case SetValidators(v) => st.(registry := PutAll([], v))
  }

  /** Reading an option back gives what was stored (validators with distinct names), and
      every other option is unchanged. */
  lemma OptionRoundTrip(st: State, s: Setting, k: Key)
    requires s.SetValidators? ==> UniqueNames(s.entries)
    ensures Current(Apply(st, s), KeyOf(s)) == s
    ensures k != KeyOf(s) ==> Current(Apply(st, s), k) == Current(st, k)
  {
    OptionReadBack(st, s);
    OptionFrame(st, s, k);
  }

  lemma OptionReadBack(st: State, s: Setting)
    requires s.SetValidators? ==> UniqueNames(s.entries)
    ensures Current(Apply(st, s), KeyOf(s)) == s
  {
    if s.SetValidators? {
      ValidatorsReadBack(st, s.entries);
    }
  }

  /** Validators with distinct names are stored in the order given. */
  lemma ValidatorsReadBack(st: State, v: seq<Entry>)
    requires UniqueNames(v)
    ensures Apply(st, SetValidators(v)).registry == v
  {
    var e: seq<Entry> := [];
    assert |Names(e)| == 0;
    PutAllFresh(e, v);
    assert e + v == v;
  }

  lemma OptionFrame(st: State, s: Setting, k: Key)
    ensures k != KeyOf(s) ==> Current(Apply(st, s), k) == Current(st, k)
  {
  }
}
