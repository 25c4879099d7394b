/** What a spawned process finds in its environment, entry by entry, for every environment and every
    reason to inject the hook or not (`spawn_hook_common` in src/systemhook/common.c). */
module SpawnOutcome {
  import opened Wrappers
  import opened EnvBuf
  import opened Paths
  import opened SpawnHook

  // ---------------------------------------------------------------------------------------------
  // Environments by their entries.

  ghost predicate Present(es: seq<string>, name: string) { Of(es, name) != [] }

  /** The value of the first entry of the name. */
  ghost function ValueOf(es: seq<string>, name: string): string
    requires Present(es, name)
  {
    Of(es, name)[0][|name| + 1..]
  }

  /** The first entry of the name has this value. */
  ghost predicate Holds(es: seq<string>, name: string, value: string) {
    Present(es, name) && Of(es, name)[0] == name + "=" + value
  }

  ghost predicate Lists(es: seq<string>, name: string, lib: string) {
    Present(es, name) && lib in Tokens(ValueOf(es, name))
  }

  lemma Looked(es: seq<string>, name: string)
    ensures Get(es, name) == if Present(es, name) then Some(ValueOf(es, name)) else None
    ensures forall lib :: Listed(Get(es, name), lib) <==> Lists(es, name, lib)
  {
    GetIsFirst(es, name);
  }

  lemma HoldsValue(es: seq<string>, name: string, value: string)
    ensures Get(es, name) == Some(value) <==> Holds(es, name, value)
  {
    GetIsFirst(es, name);
    if Present(es, name) {
      EntryParts(Of(es, name)[0], name);
      assert (name + "=" + value)[|name| + 1..] == value;
    }
  }

  lemma EntryParts(e: string, name: string)
    requires Matches(e, name)
    ensures e == name + "=" + e[|name| + 1..]
  {
    assert e == e[..|name|] + [e[|name|]] + e[|name| + 1..];
  }

  /** What can happen to the entries of a name: nothing, the first one is removed, or it is replaced (or
      a new one is made). */
  ghost predicate Same(es: seq<string>, out: seq<string>, name: string) { Of(out, name) == Of(es, name) }

  ghost predicate Removed(es: seq<string>, out: seq<string>, name: string) {
    Of(out, name) == Tail(Of(es, name))
  }

  ghost predicate Replaced(es: seq<string>, out: seq<string>, name: string, value: string) {
    Of(out, name) == [name + "=" + value] + Tail(Of(es, name))
  }

  // ---------------------------------------------------------------------------------------------
  // Injecting.

  /** The library is put in front of the list, unless it is listed. */
  ghost predicate Prepended(es: seq<string>, out: seq<string>, name: string, lib: string) {
    if Lists(es, name, lib) then Same(es, out, name)
    else Replaced(es, out, name, if Present(es, name) then lib + ":" + ValueOf(es, name) else lib)
  }

  /** The hook's environment: both lists extended, the four variables set, all else as it was. */
  ghost predicate GetsHook(es: seq<string>, out: seq<string>, c: Names, vs: Values) {
    && Prepended(es, out, c.insert, c.hook) && Prepended(es, out, c.search, c.libroot)
    && Replaced(es, out, c.sandbox, vs.sandbox) && Replaced(es, out, c.root, vs.root)
    && Replaced(es, out, c.pinfo, vs.pinfo) && Replaced(es, out, c.tweak, vs.tweak)
    && forall m :: Plain(m) && !AmongSix(m, c) ==> Same(es, out, m)
  }

  lemma PrependsEntry(es: seq<string>, e1: seq<string>, name: string, lib: string, ops: seq<Op>)
    requires ops == if Listed(Get(es, name), lib) then [] else [SetOp(name, Prepend(Get(es, name), lib))]
    requires Same(es, e1, name)
    ensures Prepended(es, Run(e1, ops), name, lib)
  {
    Looked(es, name);
    if !Listed(Get(es, name), lib) {
      var v := Prepend(Get(es, name), lib);
      RunOne(e1, SetOp(name, v));
      SetLaw(e1, name, v);
    }
  }

  /** A run that sets a name once, and does nothing else to it, replaces its first entry. */
  lemma SetOnce(es: seq<string>, a: seq<Op>, b: seq<Op>, m: string, value: string)
    requires PlainOps(a) && PlainOps(b) && Plain(m)
    requires (forall k :: 0 <= k < |a| ==> a[k].name != m) && (forall k :: 0 <= k < |b| ==> b[k].name != m)
    ensures Replaced(es, Run(es, a + [SetOp(m, value)] + b), m, value)
  {
    var e1 := Run(es, a);
    RunAppend(es, a + [SetOp(m, value)], b);
    RunAppend(es, a, [SetOp(m, value)]);
    RunOne(e1, SetOp(m, value));
    RunOthers(es, a, m);
    SetLaw(e1, m, value);
    RunOthers(Set(e1, m, value), b, m);
  }

  lemma SetsVariable(e2: seq<string>, c: Names, vs: Values, k: nat)
    requires Sane(c) && k < 4
    ensures Replaced(e2, Run(e2, VarOps(c, vs)), VarOps(c, vs)[k].name, VarOps(c, vs)[k].value)
  {
    var ops := VarOps(c, vs);
    assert ops == ops[..k] + [SetOp(ops[k].name, ops[k].value)] + ops[k + 1..];
    SetOnce(e2, ops[..k], ops[k + 1..], ops[k].name, ops[k].value);
  }

  lemma SetsVariables(e2: seq<string>, out: seq<string>, c: Names, vs: Values)
    requires Sane(c) && out == Run(e2, VarOps(c, vs))
    ensures Replaced(e2, out, c.sandbox, vs.sandbox) && Replaced(e2, out, c.root, vs.root)
    ensures Replaced(e2, out, c.pinfo, vs.pinfo) && Replaced(e2, out, c.tweak, vs.tweak)
  {
    SetsVariable(e2, c, vs, 0);
    SetsVariable(e2, c, vs, 1);
    SetsVariable(e2, c, vs, 2);
    SetsVariable(e2, c, vs, 3);
  }

  lemma BeforeVariables(es: seq<string>, e1: seq<string>, e2: seq<string>, c: Names, m: string)
    requires Sane(c) && Plain(m) && m != c.insert && m != c.search
    requires e1 == Run(es, HookOps(es, c)) && e2 == Run(e1, SearchOps(es, c))
    ensures Same(es, e2, m)
  {
    HookFrame(es, c, m);
    SearchFrame(es, e1, c, m);
  }

  lemma InjectsLists(es: seq<string>, e1: seq<string>, e2: seq<string>, out: seq<string>, c: Names,
                     vs: Values)
    requires Sane(c) && InjectStages(es, e1, e2, out, c, vs)
    ensures Prepended(es, out, c.insert, c.hook) && Prepended(es, out, c.search, c.libroot)
  {
    PrependsEntry(es, es, c.insert, c.hook, HookOps(es, c));
    SearchFrame(es, e1, c, c.insert);
    VarFrame(e2, c, vs, c.insert);
    HookFrame(es, c, c.search);
    PrependsEntry(es, e1, c.search, c.libroot, SearchOps(es, c));
    VarFrame(e2, c, vs, c.search);
  }

  lemma InjectsAll(es: seq<string>, c: Names, vs: Values)
    requires Sane(c)
    ensures GetsHook(es, Run(es, InjectOps(es, c, vs)), c, vs)
  {
    var e1 := Run(es, HookOps(es, c));
    var e2 := Run(e1, SearchOps(es, c));
    var out := Run(es, InjectOps(es, c, vs));
    InjectRuns(es, c, vs);
    InjectsLists(es, e1, e2, out, c, vs);
    SetsVariables(e2, out, c, vs);
    BeforeVariables(es, e1, e2, c, c.sandbox);
    BeforeVariables(es, e1, e2, c, c.root);
    BeforeVariables(es, e1, e2, c, c.pinfo);
    BeforeVariables(es, e1, e2, c, c.tweak);
    forall m | Plain(m) && !AmongSix(m, c) ensures Same(es, out, m) {
      InjectKeepsOthers(es, c, vs, m);
    }
  }

  // ---------------------------------------------------------------------------------------------
  // Stripping.

  /** The library is taken out of the list: with its entry if the list is the library alone. */
  ghost predicate TakenOut(es: seq<string>, out: seq<string>, name: string, lib: string, rest: string) {
    if !Lists(es, name, lib) then Same(es, out, name)
    else if Holds(es, name, lib) then Removed(es, out, name)
    else Replaced(es, out, name, rest)
  }

  /** The other libraries of the first list of the name. */
  ghost function Others(es: seq<string>, name: string, lib: string): string {
    if Present(es, name) then Join(Drop(Tokens(ValueOf(es, name)), lib)) else ""
  }

  /** What the search list is set to: the list of libraries without the libroot directory, if there is
      one and it fits the block that was made for the search list, else whatever the loop leaves. */
  ghost function SearchRest(es: seq<string>, c: Names, undef: string): string {
    if Present(es, c.insert) && Present(es, c.search)
       && |Others(es, c.insert, c.libroot)| <= |ValueOf(es, c.search)|
    then Others(es, c.insert, c.libroot) else undef
  }

  /** The stripped environment: the libraries taken out of both lists, one entry of five variables
      removed, all else as it was. */
  ghost predicate LosesHook(es: seq<string>, out: seq<string>, c: Names, undef: string) {
    && TakenOut(es, out, c.insert, c.hook, Others(es, c.insert, c.hook))
    && TakenOut(es, out, c.search, c.libroot, SearchRest(es, c, undef))
    && Removed(es, out, c.safeMode) && Removed(es, out, c.msSafeMode) && Removed(es, out, c.sandbox)
    && Removed(es, out, c.root) && Removed(es, out, c.pinfo)
    && forall m :: Plain(m) && m != c.insert && m != c.search && !Cleared(m, c) ==> Same(es, out, m)
  }

  lemma TakesEntry(es: seq<string>, e1: seq<string>, name: string, lib: string, rest: string, ops: seq<Op>)
    requires Same(es, e1, name)
    requires ops == if !Listed(Get(es, name), lib) then [] else if Get(es, name) == Some(lib)
                    then [UnsetOp(name)] else [SetOp(name, rest)]
    ensures TakenOut(es, Run(e1, ops), name, lib, rest)
  {
    Looked(es, name);
    HoldsValue(es, name, lib);
    if Listed(Get(es, name), lib) {
      RunOne(e1, ops[0]);
      UnsetLaw(e1, name);
      SetLaw(e1, name, rest);
    }
  }

  lemma SearchRestIs(es: seq<string>, c: Names, undef: string)
    ensures LoopText(es, c, undef) == SearchRest(es, c, undef)
  {
    Looked(es, c.insert);
    Looked(es, c.search);
  }

  lemma StripsInserts(es: seq<string>, c: Names, undef: string)
    requires Sane(c)
    ensures TakenOut(es, Run(es, StripOps(es, c, undef)), c.insert, c.hook, Others(es, c.insert, c.hook))
  {
    var e1 := Run(es, UnhookOps(es, c));
    StripRuns(es, c, undef);
    Looked(es, c.insert);
    TakesEntry(es, es, c.insert, c.hook, Others(es, c.insert, c.hook), UnhookOps(es, c));
    UnsearchFrame(es, e1, c, undef, c.insert);
    ClearFrame(Run(e1, UnsearchOps(es, c, undef)), c, c.insert);
  }

  lemma StripsSearches(es: seq<string>, c: Names, undef: string)
    requires Sane(c)
    ensures TakenOut(es, Run(es, StripOps(es, c, undef)), c.search, c.libroot, SearchRest(es, c, undef))
  {
    var e1 := Run(es, UnhookOps(es, c));
    StripRuns(es, c, undef);
    UnhookFrame(es, c, c.search);
    SearchRestIs(es, c, undef);
    TakesEntry(es, e1, c.search, c.libroot, SearchRest(es, c, undef), UnsearchOps(es, c, undef));
    ClearFrame(Run(e1, UnsearchOps(es, c, undef)), c, c.search);
  }

  lemma StripsAll(es: seq<string>, c: Names, undef: string)
    requires Sane(c)
    ensures LosesHook(es, Run(es, StripOps(es, c, undef)), c, undef)
  {
    var out := Run(es, StripOps(es, c, undef));
    StripsInserts(es, c, undef);
    StripsSearches(es, c, undef);
    StripClears(es, c, undef, c.safeMode);
    StripClears(es, c, undef, c.msSafeMode);
    StripClears(es, c, undef, c.sandbox);
    StripClears(es, c, undef, c.root);
    StripClears(es, c, undef, c.pinfo);
    forall m | Plain(m) && m != c.insert && m != c.search && !Cleared(m, c) ensures Same(es, out, m) {
      StripKeepsOthers(es, c, undef, m);
    }
  }

  // ---------------------------------------------------------------------------------------------
  // The decision.

  /** The hook is there with all that belongs to it. */
  ghost predicate Complete(es: seq<string>, c: Names) {
    && Lists(es, c.insert, c.hook) && Lists(es, c.search, c.libroot) && Present(es, c.sandbox)
    && Present(es, c.root) && Present(es, c.pinfo) && Present(es, c.tweak)
  }

  /** Something of the hook is there. */
  ghost predicate Traced(es: seq<string>, c: Names) {
    || Lists(es, c.insert, c.hook) || Lists(es, c.search, c.libroot) || Present(es, c.sandbox)
    || Present(es, c.root) || Present(es, c.pinfo) || Present(es, c.tweak)
  }

  lemma CountMeans(es: seq<string>, c: Names)
    ensures Count(es, c) == JB_ENV_COUNT <==> Complete(es, c)
    ensures Count(es, c) == 0 <==> !Traced(es, c)
  {
    Looked(es, c.insert);
    Looked(es, c.search);
    Looked(es, c.sandbox);
    Looked(es, c.root);
    Looked(es, c.pinfo);
    Looked(es, c.tweak);
  }

  /** One of the safe-mode variables is "1". */
  ghost predicate Safe(es: seq<string>, c: Names) {
    Holds(es, c.safeMode, "1") || Holds(es, c.msSafeMode, "1")
  }

  lemma SafeMeans(es: seq<string>, c: Names)
    ensures SafeMode(es, c) <==> Safe(es, c)
  {
    HoldsValue(es, c.safeMode, "1");
    HoldsValue(es, c.msSafeMode, "1");
  }

  /** Where the configuration allows the hook and either safe-mode variable is "1", the process gets the
      stripped environment, also when there is nothing else to strip. */
  lemma SafeModeStrips(es: seq<string>, x: Context, c: Names, vs: Values, undef: string)
    requires Sane(c) && !x.dontInject
    requires Holds(es, c.safeMode, "1") || Holds(es, c.msSafeMode, "1")
    ensures !PassThrough(es, x, c) && LosesHook(es, Spawned(es, x, c, vs, undef), c, undef)
  {
    SafeMeans(es, c);
    StripsAll(es, c, undef);
  }

  /** With no reason against it the process gets the hook's environment; one that is complete is passed
      on as it is. */
  lemma AllowedInjects(es: seq<string>, x: Context, c: Names, vs: Values, undef: string)
    requires Sane(c) && !x.dontInject && !x.driver && x.hookExists
    requires !Holds(es, c.safeMode, "1") && !Holds(es, c.msSafeMode, "1")
    ensures var out := Spawned(es, x, c, vs, undef);
      && Complete(out, c) && (PassThrough(es, x, c) <==> Complete(es, c))
      && (if Complete(es, c) then out == es else GetsHook(es, out, c, vs))
  {
    SafeMeans(es, c);
    CountMeans(es, c);
    InjectsAll(es, c, vs);
    Injected(es, c, vs, Run(es, InjectOps(es, c, vs)));
    CountMeans(Run(es, InjectOps(es, c, vs)), c);
  }

  /** Where something other than safe mode forbids the hook (a configuration does so also in safe mode),
      the process gets the stripped environment if any trace of the hook is there, else its own. */
  lemma ForbiddenStrips(es: seq<string>, x: Context, c: Names, vs: Values, undef: string)
    requires Sane(c)
    requires x.dontInject || ((x.driver || !x.hookExists)
                              && !Holds(es, c.safeMode, "1") && !Holds(es, c.msSafeMode, "1"))
    ensures PassThrough(es, x, c) <==> !Traced(es, c)
    ensures var out := Spawned(es, x, c, vs, undef);
      if Traced(es, c) then LosesHook(es, out, c, undef) else out == es
  {
    SafeMeans(es, c);
    CountMeans(es, c);
    StripsAll(es, c, undef);
  }
}
