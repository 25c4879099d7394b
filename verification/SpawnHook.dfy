/** The environment part of `spawn_hook_common` (src/systemhook/common.c): the variables that every
    spawned process gets, or loses. */
module SpawnHook {
  import opened Wrappers
  import opened EnvBuf
  import opened Paths

  /** The variable names and the two library paths. */
  datatype Names = Names(insert: string, search: string, sandbox: string, root: string, pinfo: string,
                         tweak: string, safeMode: string, msSafeMode: string,
                         hook: string, libroot: string)

  const DEPLOYED: Names := Names("DYLD_INSERT_LIBRARIES", "DYLD_LIBRARY_PATH", "JB_SANDBOX_EXTENSIONS",
                                 "JB_ROOT_PATH", "JB_PINFO_FLAGS", "JB_TWEAKLOADER_PATH", "_SafeMode",
                                 "_MSSafeMode", "/cores/binpack/usr/lib/systemhook.dylib",
                                 "/cores/binpack/usr/lib/libroot")

  const JB_ENV_COUNT: nat := 6

  /** All that the proofs need of the names: they are distinct and without '=', and the paths are
      single tokens. */
  ghost predicate Sane(c: Names) {
    && Plain(c.insert) && Plain(c.search) && Plain(c.sandbox) && Plain(c.root) && Plain(c.pinfo)
    && Plain(c.tweak) && Plain(c.safeMode) && Plain(c.msSafeMode)
    && c.insert != c.search && c.insert != c.sandbox && c.insert != c.root && c.insert != c.pinfo
    && c.insert != c.tweak && c.insert != c.safeMode && c.insert != c.msSafeMode
    && c.search != c.sandbox && c.search != c.root && c.search != c.pinfo && c.search != c.tweak
    && c.search != c.safeMode && c.search != c.msSafeMode
    && c.sandbox != c.root && c.sandbox != c.pinfo && c.sandbox != c.tweak && c.sandbox != c.safeMode
    && c.sandbox != c.msSafeMode
    && c.root != c.pinfo && c.root != c.tweak && c.root != c.safeMode && c.root != c.msSafeMode
    && c.pinfo != c.tweak && c.pinfo != c.safeMode && c.pinfo != c.msSafeMode
    && c.tweak != c.safeMode && c.tweak != c.msSafeMode && c.safeMode != c.msSafeMode
    && IsToken(c.hook) && IsToken(c.libroot) && '\0' !in c.hook && '\0' !in c.libroot
  }

  lemma DeployedIsSane()
    ensures Sane(DEPLOYED)
  {
    DeployedInsertPlain();
    DeployedSearchPlain();
    DeployedNamesPlain();
    DeployedModesPlain();
    DeployedSandboxPlain();
    HookIsToken();
    HookIsCString();
    LibrootIsToken();
    LibrootIsCString();
    assert DEPLOYED.insert[0] != DEPLOYED.sandbox[0];
  }

  lemma DeployedInsertPlain()
    ensures Plain(DEPLOYED.insert)
  {
  }

  lemma DeployedSearchPlain()
    ensures Plain(DEPLOYED.search)
  {
  }

  lemma DeployedSandboxPlain()
    ensures Plain(DEPLOYED.sandbox)
  {
  }

  lemma DeployedNamesPlain()
    ensures Plain(DEPLOYED.root) && Plain(DEPLOYED.pinfo) && Plain(DEPLOYED.tweak)
  {
  }

  lemma DeployedModesPlain()
    ensures Plain(DEPLOYED.safeMode) && Plain(DEPLOYED.msSafeMode)
  {
  }

  lemma HookIsToken()
    ensures IsToken(DEPLOYED.hook)
  {
  }

  lemma HookIsCString()
    ensures '\0' !in DEPLOYED.hook
  {
  }

  lemma LibrootIsToken()
    ensures IsToken(DEPLOYED.libroot)
  {
  }

  lemma LibrootIsCString()
    ensures '\0' !in DEPLOYED.libroot
  {
  }

  /** The values of the four variables that are set from globals. */
  datatype Values = Values(sandbox: string, root: string, pinfo: string, tweak: string)

  /** What the decision depends on besides the environment: the configuration of the binary, whether it
      is spawned as a driver, and whether the hook library exists. */
  datatype Context = Context(dontInject: bool, driver: bool, hookExists: bool)

  predicate Listed(list: Option<string>, lib: string) { list.Some? && lib in Tokens(list.value) }

  function One(b: bool): nat { if b then 1 else 0 }

  /** `JBEnvAlreadyInsertedCount`. */
  function Count(es: seq<string>, c: Names): nat {
    One(Listed(Get(es, c.insert), c.hook)) + One(Listed(Get(es, c.search), c.libroot))
    + One(Get(es, c.sandbox).Some?) + One(Get(es, c.root).Some?) + One(Get(es, c.pinfo).Some?)
    + One(Get(es, c.tweak).Some?)
  }

  predicate SafeMode(es: seq<string>, c: Names) {
    Get(es, c.safeMode) == Some("1") || Get(es, c.msSafeMode) == Some("1")
  }

  predicate ShouldInsert(es: seq<string>, x: Context, c: Names) {
    !x.dontInject && !SafeMode(es, c) && !x.driver && x.hookExists
  }

  /** The process gets the environment that it was given. */
  predicate PassThrough(es: seq<string>, x: Context, c: Names) {
    if ShouldInsert(es, x, c) then Count(es, c) == JB_ENV_COUNT
    else Count(es, c) == 0 && !(!x.dontInject && SafeMode(es, c))
  }

  function HookOps(es: seq<string>, c: Names): seq<Op> {
    if Listed(Get(es, c.insert), c.hook) then []
    else [SetOp(c.insert, Prepend(Get(es, c.insert), c.hook))]
  }

  function SearchOps(es: seq<string>, c: Names): seq<Op> {
    if Listed(Get(es, c.search), c.libroot) then []
    else [SetOp(c.search, Prepend(Get(es, c.search), c.libroot))]
  }

  function VarOps(c: Names, vs: Values): seq<Op> {
    [SetOp(c.sandbox, vs.sandbox), SetOp(c.root, vs.root), SetOp(c.pinfo, vs.pinfo),
     SetOp(c.tweak, vs.tweak)]
  }

  function InjectOps(es: seq<string>, c: Names, vs: Values): seq<Op> {
    HookOps(es, c) + SearchOps(es, c) + VarOps(c, vs)
  }

  function Without1(list: string, lib: string): string { Join(Drop(Tokens(list), lib)) }

  function UnhookOps(es: seq<string>, c: Names): seq<Op> {
    var list := Get(es, c.insert);
    if !Listed(list, c.hook) then []
    else if list.value == c.hook then [UnsetOp(c.insert)]
    else [SetOp(c.insert, Without1(list.value, c.hook))]
  }

  /** The second rebuilding loop runs. */
  predicate LoopRuns(es: seq<string>, c: Names) {
    Listed(Get(es, c.search), c.libroot) && Get(es, c.search) != Some(c.libroot)
  }

  /** The second loop walks the list of libraries, as written, and writes into a buffer for the search
      list: this is defined only if there is a list of libraries and its text fits. */
  predicate LoopDefined(es: seq<string>, c: Names) {
    var inserts, searches := Get(es, c.insert), Get(es, c.search);
    inserts.Some? && searches.Some? && |Without1(inserts.value, c.libroot)| <= |searches.value|
  }

  /** The list that the second loop leaves in its buffer; `undef` is whatever an undefined loop leaves. */
  function LoopText(es: seq<string>, c: Names, undef: string): string {
    if LoopDefined(es, c) then Without1(Get(es, c.insert).value, c.libroot) else undef
  }

  function UnsearchOps(es: seq<string>, c: Names, undef: string): seq<Op> {
    var list := Get(es, c.search);
    if !Listed(list, c.libroot) then []
    else if list.value == c.libroot then [UnsetOp(c.search)]
    else [SetOp(c.search, LoopText(es, c, undef))]
  }

  function ClearOps(c: Names): seq<Op> {
    [UnsetOp(c.safeMode), UnsetOp(c.msSafeMode), UnsetOp(c.sandbox), UnsetOp(c.root), UnsetOp(c.pinfo)]
  }

  function StripOps(es: seq<string>, c: Names, undef: string): seq<Op> {
    UnhookOps(es, c) + UnsearchOps(es, c, undef) + ClearOps(c)
  }

  /** The environment of the spawned process. */
  function Spawned(es: seq<string>, x: Context, c: Names, vs: Values, undef: string): seq<string> {
    if PassThrough(es, x, c) then es
    else if ShouldInsert(es, x, c) then Run(es, InjectOps(es, c, vs))
    else Run(es, StripOps(es, c, undef))
  }

  // ---------------------------------------------------------------------------------------------
  // Injecting.

  function TokensOf(list: Option<string>): seq<string> {
    match list case Some(paths) => Tokens(paths) case None => []
  }

  lemma PrependTokens(list: Option<string>, lib: string)
    requires IsToken(lib)
    ensures Tokens(Prepend(list, lib)) == [lib] + TokensOf(list)
    ensures Listed(Some(Prepend(list, lib)), lib)
  {
    TokenAlone(lib);
    if list.Some? {
      TokensSplit(lib, list.value);
    }
  }

  /** The tokens of a list that is to begin with `lib` if it does not list it. */
  function WithLib(ts: seq<string>, lib: string): seq<string> { if lib in ts then ts else [lib] + ts }

  /** One of the two prepending steps. */
  lemma PrependStep(es: seq<string>, name: string, lib: string, ops: seq<Op>)
    requires IsToken(lib)
    requires ops == if Listed(Get(es, name), lib) then [] else [SetOp(name, Prepend(Get(es, name), lib))]
    ensures var list := Get(Run(es, ops), name);
      Listed(list, lib) && TokensOf(list) == WithLib(TokensOf(Get(es, name)), lib)
  {
    if !Listed(Get(es, name), lib) {
      var v := Prepend(Get(es, name), lib);
      RunOne(es, SetOp(name, v));
      SetLaw(es, name, v);
      PrependTokens(Get(es, name), lib);
    }
  }

  /** The operations on the three groups of names, one after the other. */
  lemma InjectRuns(es: seq<string>, c: Names, vs: Values)
    ensures Run(es, InjectOps(es, c, vs))
         == Run(Run(Run(es, HookOps(es, c)), SearchOps(es, c)), VarOps(c, vs))
  {
    RunAppend(es, HookOps(es, c) + SearchOps(es, c), VarOps(c, vs));
    RunAppend(es, HookOps(es, c), SearchOps(es, c));
  }

  lemma VarOpsRun(es: seq<string>, c: Names, vs: Values)
    ensures Run(es, VarOps(c, vs))
         == Set(Set(Set(Set(es, c.sandbox, vs.sandbox), c.root, vs.root), c.pinfo, vs.pinfo),
                c.tweak, vs.tweak)
  {
    var ops := VarOps(c, vs);
    assert ops == [ops[0]] + ([ops[1]] + ([ops[2]] + [ops[3]]));
    RunAppend(es, [ops[0]], [ops[1]] + ([ops[2]] + [ops[3]]));
    RunOne(es, ops[0]);
    var e1 := Apply(es, ops[0]);
    RunAppend(e1, [ops[1]], [ops[2]] + [ops[3]]);
    RunOne(e1, ops[1]);
    var e2 := Apply(e1, ops[1]);
    RunAppend(e2, [ops[2]], [ops[3]]);
    RunOne(e2, ops[2]);
    RunOne(Apply(e2, ops[2]), ops[3]);
  }

  lemma VarsAreSet(es: seq<string>, c: Names, vs: Values)
    requires Sane(c)
    ensures var out := Run(es, VarOps(c, vs));
      && Get(out, c.sandbox) == Some(vs.sandbox) && Get(out, c.root) == Some(vs.root)
      && Get(out, c.pinfo) == Some(vs.pinfo) && Get(out, c.tweak) == Some(vs.tweak)
  {
    VarOpsRun(es, c, vs);
    var e1 := Set(es, c.sandbox, vs.sandbox);
    var e2 := Set(e1, c.root, vs.root);
    var e3 := Set(e2, c.pinfo, vs.pinfo);
    SetLaw(es, c.sandbox, vs.sandbox);
    SetLaw(e1, c.root, vs.root);
    SetLaw(e2, c.pinfo, vs.pinfo);
    SetLaw(e3, c.tweak, vs.tweak);
    SetOthers(e1, c.root, vs.root, c.sandbox);
    SetOthers(e2, c.pinfo, vs.pinfo, c.sandbox);
    SetOthers(e2, c.pinfo, vs.pinfo, c.root);
    SetOthers(e3, c.tweak, vs.tweak, c.sandbox);
    SetOthers(e3, c.tweak, vs.tweak, c.root);
    SetOthers(e3, c.tweak, vs.tweak, c.pinfo);
  }

  /** A name has the same entries in both environments. */
  ghost predicate Keeps(es: seq<string>, out: seq<string>, m: string) {
    Of(out, m) == Of(es, m) && Get(out, m) == Get(es, m)
  }

  lemma HookFrame(es: seq<string>, c: Names, m: string)
    requires Sane(c) && Plain(m) && m != c.insert
    ensures Keeps(es, Run(es, HookOps(es, c)), m)
  {
    RunOthers(es, HookOps(es, c), m);
  }

  lemma SearchFrame(es: seq<string>, e1: seq<string>, c: Names, m: string)
    requires Sane(c) && Plain(m) && m != c.search
    ensures Keeps(e1, Run(e1, SearchOps(es, c)), m)
  {
    RunOthers(e1, SearchOps(es, c), m);
  }

  lemma VarFrame(e2: seq<string>, c: Names, vs: Values, m: string)
    requires Sane(c) && Plain(m) && m != c.sandbox && m != c.root && m != c.pinfo && m != c.tweak
    ensures Keeps(e2, Run(e2, VarOps(c, vs)), m)
  {
    RunOthers(e2, VarOps(c, vs), m);
  }

  /** The stages of an injection. */
  ghost predicate InjectStages(es: seq<string>, e1: seq<string>, e2: seq<string>, out: seq<string>,
                               c: Names, vs: Values) {
    e1 == Run(es, HookOps(es, c)) && e2 == Run(e1, SearchOps(es, c)) && out == Run(e2, VarOps(c, vs))
  }

  lemma InjectedInsert(es: seq<string>, e1: seq<string>, e2: seq<string>, out: seq<string>, c: Names,
                       vs: Values)
    requires Sane(c) && InjectStages(es, e1, e2, out, c, vs)
    ensures Keeps(e1, out, c.insert)
    ensures Listed(Get(out, c.insert), c.hook)
    ensures TokensOf(Get(out, c.insert)) == WithLib(TokensOf(Get(es, c.insert)), c.hook)
  {
    PrependStep(es, c.insert, c.hook, HookOps(es, c));
    SearchFrame(es, e1, c, c.insert);
    VarFrame(e2, c, vs, c.insert);
  }

  lemma InjectedSearch(es: seq<string>, e1: seq<string>, e2: seq<string>, out: seq<string>, c: Names,
                       vs: Values)
    requires Sane(c) && InjectStages(es, e1, e2, out, c, vs)
    ensures Listed(Get(out, c.search), c.libroot)
    ensures TokensOf(Get(out, c.search)) == WithLib(TokensOf(Get(es, c.search)), c.libroot)
  {
    HookFrame(es, c, c.search);
    PrependStep(e1, c.search, c.libroot, SearchOps(es, c));
    VarFrame(e2, c, vs, c.search);
  }

  /** The six variables after an injection. */
  lemma Injected(es: seq<string>, c: Names, vs: Values, out: seq<string>)
    requires Sane(c) && out == Run(es, InjectOps(es, c, vs))
    ensures Count(out, c) == JB_ENV_COUNT
    ensures TokensOf(Get(out, c.insert)) == WithLib(TokensOf(Get(es, c.insert)), c.hook)
    ensures TokensOf(Get(out, c.search)) == WithLib(TokensOf(Get(es, c.search)), c.libroot)
  {
    var e1 := Run(es, HookOps(es, c));
    var e2 := Run(e1, SearchOps(es, c));
    InjectRuns(es, c, vs);
    InjectedInsert(es, e1, e2, out, c, vs);
    InjectedSearch(es, e1, e2, out, c, vs);
    VarsAreSet(e2, c, vs);
  }

  ghost predicate AmongSix(m: string, c: Names) {
    m == c.insert || m == c.search || m == c.sandbox || m == c.root || m == c.pinfo || m == c.tweak
  }

  /** Every variable outside the six is unchanged by an injection. */
  lemma InjectKeepsOthers(es: seq<string>, c: Names, vs: Values, m: string)
    requires Sane(c) && Plain(m) && !AmongSix(m, c)
    ensures Keeps(es, Run(es, InjectOps(es, c, vs)), m)
  {
    var e1 := Run(es, HookOps(es, c));
    InjectRuns(es, c, vs);
    HookFrame(es, c, m);
    SearchFrame(es, e1, c, m);
    VarFrame(Run(e1, SearchOps(es, c)), c, vs, m);
  }

  /** Injection reaches a fixpoint in one pass: on the environment that it produced, the hook takes the
      pass-through branch, with all six variables found, and changes nothing. */
  lemma InjectFixpoint(es: seq<string>, x: Context, c: Names, vs: Values, undef: string)
    requires Sane(c) && ShouldInsert(es, x, c)
    ensures var out := Spawned(es, x, c, vs, undef);
      && ShouldInsert(out, x, c) && Count(out, c) == JB_ENV_COUNT && PassThrough(out, x, c)
      && Spawned(out, x, c, vs, undef) == out
  {
    Injected(es, c, vs, Run(es, InjectOps(es, c, vs)));
    InjectKeepsOthers(es, c, vs, c.safeMode);
    InjectKeepsOthers(es, c, vs, c.msSafeMode);
  }

  /** The library list of the spawned process is the old one, with the hook in front if it was missing. */
  lemma InjectTokens(es: seq<string>, x: Context, c: Names, vs: Values, undef: string)
    requires Sane(c) && ShouldInsert(es, x, c)
    ensures var before, after := TokensOf(Get(es, c.insert)),
                                 TokensOf(Get(Spawned(es, x, c, vs, undef), c.insert));
      after == if c.hook in before then before else [c.hook] + before
  {
    Injected(es, c, vs, Run(es, InjectOps(es, c, vs)));
  }

  // ---------------------------------------------------------------------------------------------
  // Stripping.

  lemma StripRuns(es: seq<string>, c: Names, undef: string)
    ensures Run(es, StripOps(es, c, undef))
         == Run(Run(Run(es, UnhookOps(es, c)), UnsearchOps(es, c, undef)), ClearOps(c))
  {
    RunAppend(es, UnhookOps(es, c) + UnsearchOps(es, c, undef), ClearOps(c));
    RunAppend(es, UnhookOps(es, c), UnsearchOps(es, c, undef));
  }

  lemma UnhookFrame(es: seq<string>, c: Names, m: string)
    requires Sane(c) && Plain(m) && m != c.insert
    ensures Keeps(es, Run(es, UnhookOps(es, c)), m)
  {
    RunOthers(es, UnhookOps(es, c), m);
  }

  lemma UnsearchFrame(es: seq<string>, e1: seq<string>, c: Names, undef: string, m: string)
    requires Sane(c) && Plain(m) && m != c.search
    ensures Keeps(e1, Run(e1, UnsearchOps(es, c, undef)), m)
  {
    RunOthers(e1, UnsearchOps(es, c, undef), m);
  }

  ghost predicate Cleared(m: string, c: Names) {
    m == c.safeMode || m == c.msSafeMode || m == c.sandbox || m == c.root || m == c.pinfo
  }

  lemma ClearFrame(e2: seq<string>, c: Names, m: string)
    requires Sane(c) && Plain(m) && !Cleared(m, c)
    ensures Keeps(e2, Run(e2, ClearOps(c)), m)
  {
    RunOthers(e2, ClearOps(c), m);
  }

  /** The library list after the first step of a strip: its first entry is removed if it is the hook
      alone, and rebuilt if it lists the hook. */
  ghost predicate Unhooked(es: seq<string>, out: seq<string>, c: Names) {
    var list := Get(es, c.insert);
    if !Listed(list, c.hook) then Keeps(es, out, c.insert)
    else if list.value == c.hook then
      Of(es, c.insert) != [] && Of(out, c.insert) == Of(es, c.insert)[1..]
    else Get(out, c.insert) == Some(Without1(list.value, c.hook))
  }

  lemma UnhookStep(es: seq<string>, c: Names)
    ensures Unhooked(es, Run(es, UnhookOps(es, c)), c)
  {
    var list := Get(es, c.insert);
    if Listed(list, c.hook) {
      GetIsFirst(es, c.insert);
      if list.value == c.hook {
        RunOne(es, UnsetOp(c.insert));
        UnsetLaw(es, c.insert);
      } else {
        var v := Without1(list.value, c.hook);
        RunOne(es, SetOp(c.insert, v));
        SetLaw(es, c.insert, v);
      }
    }
  }

  lemma StripInserts(es: seq<string>, c: Names, undef: string)
    requires Sane(c)
    ensures Unhooked(es, Run(es, StripOps(es, c, undef)), c)
  {
    var e1 := Run(es, UnhookOps(es, c));
    StripRuns(es, c, undef);
    UnhookStep(es, c);
    UnsearchFrame(es, e1, c, undef, c.insert);
    ClearFrame(Run(e1, UnsearchOps(es, c, undef)), c, c.insert);
  }

  /** The hook strips: it is not to insert, and there is something to remove. */
  predicate Strips(es: seq<string>, x: Context, c: Names) {
    !ShouldInsert(es, x, c) && !PassThrough(es, x, c)
  }

  /** The value of the second entry of a name. */
  function Second(es: seq<string>, name: string): Option<string> { Get(Unset(es, name), name) }

  /** A strip leaves the other libraries of the list, in order; but a list that is the hook alone is
      removed with its entry, and the second entry of the variable takes its place.  So the hook is gone
      if and only if there is no such second entry that lists it. */
  lemma StripTokens(es: seq<string>, x: Context, c: Names, vs: Values, undef: string)
    requires Sane(c) && Strips(es, x, c)
    ensures var after := TokensOf(Get(Spawned(es, x, c, vs, undef), c.insert));
      && after == (if Get(es, c.insert) == Some(c.hook) then TokensOf(Second(es, c.insert))
                   else Drop(TokensOf(Get(es, c.insert)), c.hook))
      && (c.hook !in after
          <==> !(Get(es, c.insert) == Some(c.hook) && Listed(Second(es, c.insert), c.hook)))
  {
    StripInserts(es, c, undef);
    UnhookedTokens(es, Run(es, StripOps(es, c, undef)), c);
  }

  lemma UnhookedTokens(es: seq<string>, out: seq<string>, c: Names)
    requires Sane(c) && Unhooked(es, out, c)
    ensures TokensOf(Get(out, c.insert))
         == if Get(es, c.insert) == Some(c.hook) then TokensOf(Second(es, c.insert))
            else Drop(TokensOf(Get(es, c.insert)), c.hook)
    ensures c.hook !in Drop(TokensOf(Get(es, c.insert)), c.hook)
  {
    var list := Get(es, c.insert);
    DropLaw(TokensOf(list), c.hook);
    if list == Some(c.hook) {
      TokenAlone(c.hook);
      UnsetLaw(es, c.insert);
      GetIsFirst(Unset(es, c.insert), c.insert);
      GetIsFirst(out, c.insert);
    } else if Listed(list, c.hook) {
      RebuiltTokens(list.value, c.hook);
    }
  }

  /** An environment in which the hook survives a strip. */
  lemma HookSurvives(c: Names, vs: Values, undef: string)
    requires Sane(c)
    ensures var e := Entry(c.insert, c.hook);
      var x := Context(true, false, true);
      Strips([e, e], x, c) && Get(Spawned([e, e], x, c, vs, undef), c.insert) == Some(c.hook)
  {
    var e := Entry(c.insert, c.hook);
    var es := [e, e];
    assert Find(es, c.insert) == Some(0) && Get(es, c.insert) == Some(c.hook);
    assert Unset(es, c.insert) == [e];
    assert Find([e], c.insert) == Some(0);
    TokenAlone(c.hook);
    StripInserts(es, c, undef);
    var out := Run(es, StripOps(es, c, undef));
    UnsetLaw(es, c.insert);
    GetIsFirst([e], c.insert);
    GetIsFirst(out, c.insert);
  }

  /** The library list right after an injection that adds the hook. */
  ghost predicate Hooked(es: seq<string>, mid: seq<string>, c: Names) {
    var list := Get(es, c.insert);
    Get(mid, c.insert) == Some(Prepend(list, c.hook)) && (list.None? ==> |Of(mid, c.insert)| == 1)
  }

  lemma InjectionHooks(es: seq<string>, c: Names, vs: Values)
    requires Sane(c) && c.hook !in TokensOf(Get(es, c.insert))
    ensures Hooked(es, Run(es, InjectOps(es, c, vs)), c)
  {
    var e1 := Run(es, HookOps(es, c));
    var e2 := Run(e1, SearchOps(es, c));
    InjectRuns(es, c, vs);
    InjectedInsert(es, e1, e2, Run(e2, VarOps(c, vs)), c, vs);
    HookStep(es, c);
  }

  lemma HookStep(es: seq<string>, c: Names)
    requires c.hook !in TokensOf(Get(es, c.insert))
    ensures Hooked(es, Run(es, HookOps(es, c)), c)
  {
    var v := Prepend(Get(es, c.insert), c.hook);
    RunOne(es, SetOp(c.insert, v));
    SetLaw(es, c.insert, v);
    GetIsFirst(es, c.insert);
  }

  /** Stripping after injecting gives back the library list of an environment without the hook, and no
      variable if there was none. */
  lemma InjectThenStrip(es: seq<string>, x: Context, y: Context, c: Names, vs: Values, undef: string)
    requires Sane(c) && ShouldInsert(es, x, c) && c.hook !in TokensOf(Get(es, c.insert))
    requires var mid := Spawned(es, x, c, vs, undef); !ShouldInsert(mid, y, c)
    ensures var mid := Spawned(es, x, c, vs, undef);
      var out := Spawned(mid, y, c, vs, undef);
      && Strips(mid, y, c)
      && (Get(es, c.insert).Some? <==> Get(out, c.insert).Some?)
      && TokensOf(Get(out, c.insert)) == TokensOf(Get(es, c.insert))
  {
    var mid := Run(es, InjectOps(es, c, vs));
    Injected(es, c, vs, mid);
    InjectionHooks(es, c, vs);
    StripInserts(mid, c, undef);
    Unhooks(es, mid, Run(mid, StripOps(mid, c, undef)), c);
  }

  lemma Unhooks(es: seq<string>, mid: seq<string>, out: seq<string>, c: Names)
    requires Sane(c) && Hooked(es, mid, c) && Unhooked(mid, out, c)
    requires c.hook !in TokensOf(Get(es, c.insert))
    ensures Get(es, c.insert).Some? <==> Get(out, c.insert).Some?
    ensures TokensOf(Get(out, c.insert)) == TokensOf(Get(es, c.insert))
  {
    var list := Get(es, c.insert);
    PrependTokens(list, c.hook);
    if list.Some? {
      RebuiltTokens(Prepend(list, c.hook), c.hook);
      DropLaw(Tokens(list.value), c.hook);
      assert ([c.hook] + Tokens(list.value))[1..] == Tokens(list.value);
    } else {
      GetIsFirst(out, c.insert);
    }
  }

  /** A strip removes one entry of each of the five cleared names. */
  lemma StripClears(es: seq<string>, c: Names, undef: string, m: string)
    requires Sane(c) && Cleared(m, c)
    ensures Of(Run(es, StripOps(es, c, undef)), m) == Tail(Of(es, m))
  {
    var e1 := Run(es, UnhookOps(es, c));
    StripRuns(es, c, undef);
    UnhookFrame(es, c, m);
    UnsearchFrame(es, e1, c, undef, m);
    ClearStep(Run(e1, UnsearchOps(es, c, undef)), c, m);
  }

  lemma ClearStep(e2: seq<string>, c: Names, m: string)
    requires Sane(c) && Cleared(m, c)
    ensures Of(Run(e2, ClearOps(c)), m) == Tail(Of(e2, m))
  {
    var ops := ClearOps(c);
    var k := if m == c.safeMode then 0 else if m == c.msSafeMode then 1 else if m == c.sandbox then 2
             else if m == c.root then 3 else 4;
    assert ops[k] == UnsetOp(m) && ops == ops[..k] + [UnsetOp(m)] + ops[k + 1..];
    UnsetOnce(e2, ops[..k], ops[k + 1..], m);
  }

  lemma StripClearsUnique(es: seq<string>, c: Names, undef: string, m: string)
    requires Sane(c) && Cleared(m, c) && UniqueNames(es)
    ensures Plain(m) && Get(Run(es, StripOps(es, c, undef)), m).None?
  {
    StripClears(es, c, undef, m);
    GetIsFirst(Run(es, StripOps(es, c, undef)), m);
  }

  /** Every other variable is unchanged by a strip, JB_TWEAKLOADER_PATH among them. */
  lemma StripKeepsOthers(es: seq<string>, c: Names, undef: string, m: string)
    requires Sane(c) && Plain(m) && m != c.insert && m != c.search && !Cleared(m, c)
    ensures Keeps(es, Run(es, StripOps(es, c, undef)), m)
  {
    var e1 := Run(es, UnhookOps(es, c));
    StripRuns(es, c, undef);
    UnhookFrame(es, c, m);
    UnsearchFrame(es, e1, c, undef, m);
    ClearFrame(Run(e1, UnsearchOps(es, c, undef)), c, m);
  }

  /** The search list after a strip. */
  lemma StripSearches(es: seq<string>, c: Names, undef: string)
    requires Sane(c) && |Of(es, c.search)| <= 1
    ensures var out := Run(es, StripOps(es, c, undef));
      Listed(Get(out, c.search), c.libroot)
      <==> LoopRuns(es, c) && Listed(Some(LoopText(es, c, undef)), c.libroot)
  {
    var list := Get(es, c.search);
    var e1 := Run(es, UnhookOps(es, c));
    StripRuns(es, c, undef);
    UnhookFrame(es, c, c.search);
    ClearFrame(Run(e1, UnsearchOps(es, c, undef)), c, c.search);
    if LoopRuns(es, c) {
      var v := LoopText(es, c, undef);
      RunOne(e1, SetOp(c.search, v));
      SetLaw(e1, c.search, v);
    } else if Listed(list, c.libroot) {
      RunOne(e1, UnsetOp(c.search));
      UnsetThenGet(e1, c.search);
    }
  }

  /** A defined loop copies no libroot directory, because it drops the tokens that are equal to it. */
  lemma LoopTextLists(es: seq<string>, c: Names, undef: string)
    ensures Listed(Some(LoopText(es, c, undef)), c.libroot)
       <==> !LoopDefined(es, c) && c.libroot in Tokens(undef)
  {
    if LoopDefined(es, c) {
      RebuiltTokens(Get(es, c.insert).value, c.libroot);
    }
  }

  lemma AllCleared(es: seq<string>, c: Names, undef: string, out: seq<string>)
    requires Sane(c) && UniqueNames(es) && out == Run(es, StripOps(es, c, undef))
    ensures !SafeMode(out, c)
    ensures Get(out, c.sandbox).None? && Get(out, c.root).None? && Get(out, c.pinfo).None?
  {
    StripClearsUnique(es, c, undef, c.safeMode);
    StripClearsUnique(es, c, undef, c.msSafeMode);
    StripClearsUnique(es, c, undef, c.sandbox);
    StripClearsUnique(es, c, undef, c.root);
    StripClearsUnique(es, c, undef, c.pinfo);
  }

  lemma StripCount(es: seq<string>, c: Names, undef: string, out: seq<string>)
    requires Sane(c) && UniqueNames(es) && out == Run(es, StripOps(es, c, undef))
    ensures !SafeMode(out, c)
    ensures Count(out, c) == One(Listed(Get(out, c.search), c.libroot)) + One(Get(es, c.tweak).Some?)
  {
    StripInserts(es, c, undef);
    UnhookedTokens(es, out, c);
    UnsetThenGet(es, c.insert);
    AllCleared(es, c, undef, out);
    StripKeepsOthers(es, c, undef, c.tweak);
  }

  /** Unlike injection, a strip need not be a fixpoint.  The hook leaves a stripped environment alone if
      and only if something other than safe mode forbids the injection, and the tweak loader was not set
      (it is not removed); and if the loop over the search list was undefined, it must not have left
      the libroot directory behind. */
  lemma StripSettles(es: seq<string>, x: Context, c: Names, vs: Values, undef: string)
    requires Sane(c) && UniqueNames(es) && Strips(es, x, c)
    ensures PassThrough(Spawned(es, x, c, vs, undef), x, c)
       <==> (x.dontInject || x.driver || !x.hookExists) && Get(es, c.tweak).None?
            && !(LoopRuns(es, c) && !LoopDefined(es, c) && c.libroot in Tokens(undef))
  {
    StripCount(es, c, undef, Run(es, StripOps(es, c, undef)));
    StripSearches(es, c, undef);
    LoopTextLists(es, c, undef);
  }

  lemma SingleIsUnique(e: string)
    ensures UniqueNames([e])
  {
    forall n: string | Plain(n) ensures |Of([e], n)| <= 1 {
      OneEntry(e, n);
    }
  }

  /** Environments that do not settle: safe mode as the only reason to strip, and the tweak loader as
      the only variable. */
  lemma SafeModeUnsettled(c: Names, vs: Values, undef: string)
    requires Sane(c)
    ensures var es := [Entry(c.safeMode, "1")];
      var x := Context(false, false, true);
      Strips(es, x, c) && !PassThrough(Spawned(es, x, c, vs, undef), x, c)
  {
    var es := [Entry(c.safeMode, "1")];
    assert Find(es, c.safeMode) == Some(0) && Get(es, c.safeMode) == Some("1");
    SingleIsUnique(es[0]);
    StripSettles(es, Context(false, false, true), c, vs, undef);
  }

  lemma TweakLoaderUnsettled(c: Names, vs: Values, undef: string)
    requires Sane(c)
    ensures var es := [Entry(c.tweak, "")];
      var x := Context(true, false, true);
      Strips(es, x, c) && !PassThrough(Spawned(es, x, c, vs, undef), x, c)
  {
    var es := [Entry(c.tweak, "")];
    assert Find(es, c.tweak) == Some(0) && Get(es, c.tweak).Some?;
    SingleIsUnique(es[0]);
    StripSettles(es, Context(true, false, true), c, vs, undef);
  }

  // ---------------------------------------------------------------------------------------------
  // The code.

  ghost predicate CStrings(es: seq<string>) { forall k :: 0 <= k < |es| ==> '\0' !in es[k] }

  lemma GetIsCString(es: seq<string>, name: string)
    requires CStrings(es)
    ensures Get(es, name).Some? ==> '\0' !in Get(es, name).value
  {
  }

  /** What the first part of the function finds out about the environment. */
  datatype Found = Found(inserts: Option<string>, hooked: bool, searches: Option<string>, searched: bool,
                         count: nat)

  ghost predicate Finds(r: Found, es: seq<string>, c: Names) {
    && r.inserts == Get(es, c.insert) && (r.hooked <==> Listed(r.inserts, c.hook))
    && r.searches == Get(es, c.search) && (r.searched <==> Listed(r.searches, c.libroot))
    && r.count == Count(es, c)
  }

  method Inspect(envp: array?<Option<string>>, c: Names) returns (r: Found)
    requires ValidArray(envp)
    ensures Finds(r, ArrayEntries(envp), c)
  {
    var inserts, hooked := LookUp(envp, c.insert, c.hook);
    var searches, searched := LookUp(envp, c.search, c.libroot);
    var others := CountVariables(envp, c);
    r := Found(inserts, hooked, searches, searched, One(hooked) + One(searched) + others);
  }

  /** A list variable, and whether it lists the library. */
  method LookUp(envp: array?<Option<string>>, name: string, lib: string)
    returns (list: Option<string>, listed: bool)
    requires ValidArray(envp)
    ensures list == Get(ArrayEntries(envp), name) && listed == Listed(list, lib)
  {
    list := GetEnv(envp, name);
    listed := false;
    if list.Some? {
      listed := Contains(list.value, lib);
    }
  }

  method CountVariables(envp: array?<Option<string>>, c: Names) returns (count: nat)
    requires ValidArray(envp)
    ensures var es := ArrayEntries(envp);
      count == One(Get(es, c.sandbox).Some?) + One(Get(es, c.root).Some?)
               + One(Get(es, c.pinfo).Some?) + One(Get(es, c.tweak).Some?)
  {
    count := 0;
    var value := GetEnv(envp, c.sandbox);
    if value.Some? {
      count := count + 1;
    }
    value := GetEnv(envp, c.root);
    if value.Some? {
      count := count + 1;
    }
    value := GetEnv(envp, c.pinfo);
    if value.Some? {
      count := count + 1;
    }
    value := GetEnv(envp, c.tweak);
    if value.Some? {
      count := count + 1;
    }
  }

  /** The reasons not to insert, in the order in which they are looked for. */
  method Decide(envp: array?<Option<string>>, x: Context, c: Names)
    returns (shouldInsertJBEnv: bool, hasSafeModeVariable: bool)
    requires ValidArray(envp)
    ensures shouldInsertJBEnv == ShouldInsert(ArrayEntries(envp), x, c)
    ensures hasSafeModeVariable == (!x.dontInject && SafeMode(ArrayEntries(envp), c))
  {
    hasSafeModeVariable := false;
    if x.dontInject {
      return false, false;
    }
    var safeModeValue := GetEnv(envp, c.safeMode);
    var msSafeModeValue := GetEnv(envp, c.msSafeMode);
    if safeModeValue.Some? && safeModeValue.value == "1" {
      return false, true;
    }
    if msSafeModeValue.Some? && msSafeModeValue.value == "1" {
      return false, true;
    }
    if x.driver {
      return false, false;
    }
    shouldInsertJBEnv := x.hookExists;
  }

  /** A list variable with a library in front. */
  method PrependVariable(env: EnvBuffer, name: string, list: Option<string>, lib: string)
    requires env.Valid() && '\0' !in lib && (list.Some? ==> '\0' !in list.value)
    modifies env, env.envp
    ensures env.Valid() && env.Contents() == Set(old(env.Contents()), name, Prepend(list, lib))
    ensures env.envp == old(env.envp) || fresh(env.envp)
  {
    var buf := PrependInBuffer(list, lib);
    var value := ReadCString(buf, Prepend(list, lib));
    env.SetEnv(name, value);
  }

  method InjectInto(env: EnvBuffer, r: Found, c: Names, vs: Values)
    requires env.Valid() && Sane(c) && Finds(r, env.Contents(), c) && CStrings(env.Contents())
    modifies env, env.envp
    ensures env.Valid() && env.Contents() == Run(old(env.Contents()), InjectOps(old(env.Contents()), c, vs))
    ensures env.envp == old(env.envp) || fresh(env.envp)
  {
    ghost var es := env.Contents();
    GetIsCString(es, c.insert);
    GetIsCString(es, c.search);
    InjectRuns(es, c, vs);
    if !r.hooked {
      PrependVariable(env, c.insert, r.inserts, c.hook);
      RunOne(es, SetOp(c.insert, Prepend(r.inserts, c.hook)));
    }
    assert env.Contents() == Run(es, HookOps(es, c));
    ghost var e1 := env.Contents();
    if !r.searched {
      PrependVariable(env, c.search, r.searches, c.libroot);
      RunOne(e1, SetOp(c.search, Prepend(r.searches, c.libroot)));
    }
    assert env.Contents() == Run(e1, SearchOps(es, c));
    SetVariables(env, c, vs);
  }

  method SetVariables(env: EnvBuffer, c: Names, vs: Values)
    requires env.Valid()
    modifies env, env.envp
    ensures env.Valid() && env.Contents() == Run(old(env.Contents()), VarOps(c, vs))
    ensures env.envp == old(env.envp) || fresh(env.envp)
  {
    VarOpsRun(env.Contents(), c, vs);
    env.SetEnv(c.sandbox, vs.sandbox);
    env.SetEnv(c.root, vs.root);
    env.SetEnv(c.pinfo, vs.pinfo);
    env.SetEnv(c.tweak, vs.tweak);
  }

  method StripFrom(env: EnvBuffer, r: Found, c: Names, undef: string)
    requires env.Valid() && Finds(r, env.Contents(), c) && CStrings(env.Contents())
    modifies env, env.envp
    ensures env.Valid()
    ensures env.Contents() == Run(old(env.Contents()), StripOps(old(env.Contents()), c, undef))
    ensures env.envp == old(env.envp) || fresh(env.envp)
  {
    ghost var es := env.Contents();
    GetIsCString(es, c.insert);
    StripRuns(es, c, undef);
    if r.hooked && r.inserts.Some? {
      UnhookVariable(env, r.inserts.value, c);
    }
    assert env.Contents() == Run(es, UnhookOps(es, c));
    ghost var e1 := env.Contents();
    if r.searched && r.searches.Some? {
      if r.searches.value == c.libroot {
        env.UnsetEnv(c.search);
        RunOne(e1, UnsetOp(c.search));
      } else {
        var text := SearchText(r, c, undef, es);
        env.SetEnv(c.search, text);
        RunOne(e1, SetOp(c.search, text));
      }
    }
    assert env.Contents() == Run(e1, UnsearchOps(es, c, undef));
    ClearVariables(env, c);
  }

  /** The second rebuilding loop, where it is defined. */
  method SearchText(r: Found, c: Names, undef: string, ghost es: seq<string>) returns (text: string)
    requires Finds(r, es, c) && CStrings(es) && r.searches.Some?
    ensures text == LoopText(es, c, undef)
  {
    text := undef;
    if r.inserts.Some? && |Without1(r.inserts.value, c.libroot)| <= |r.searches.value| {
      GetIsCString(es, c.insert);
      var newLibrarySearchPaths := Rebuild(r.inserts.value, c.libroot, |r.searches.value|);
      text := ReadCString(newLibrarySearchPaths, Without1(r.inserts.value, c.libroot));
    }
  }

  /** The list that is just the hook is removed, any other is rebuilt in a buffer of its own size. */
  method UnhookVariable(env: EnvBuffer, list: string, c: Names)
    requires env.Valid() && '\0' !in list && Get(env.Contents(), c.insert) == Some(list)
    requires Listed(Some(list), c.hook)
    modifies env, env.envp
    ensures env.Valid() && env.Contents() == Run(old(env.Contents()), UnhookOps(old(env.Contents()), c))
    ensures env.envp == old(env.envp) || fresh(env.envp)
  {
    ghost var es := env.Contents();
    if list == c.hook {
      env.UnsetEnv(c.insert);
      RunOne(es, UnsetOp(c.insert));
    } else {
      RebuiltFits(list, c.hook);
      var newLibraryInsert := Rebuild(list, c.hook, |list|);
      var value := ReadCString(newLibraryInsert, Without1(list, c.hook));
      env.SetEnv(c.insert, value);
      RunOne(es, SetOp(c.insert, value));
    }
  }

  method ClearVariables(env: EnvBuffer, c: Names)
    requires env.Valid()
    modifies env, env.envp
    ensures env.Valid() && env.Contents() == Run(old(env.Contents()), ClearOps(c))
    ensures env.envp == old(env.envp) || fresh(env.envp)
  {
    ClearOpsRun(env.Contents(), c);
    env.UnsetEnv(c.safeMode);
    env.UnsetEnv(c.msSafeMode);
    env.UnsetEnv(c.sandbox);
    env.UnsetEnv(c.root);
    env.UnsetEnv(c.pinfo);
  }

  lemma ClearOpsRun(es: seq<string>, c: Names)
    ensures Run(es, ClearOps(c))
         == Unset(Unset(Unset(Unset(Unset(es, c.safeMode), c.msSafeMode), c.sandbox), c.root), c.pinfo)
  {
    var ops := ClearOps(c);
    assert ops == [ops[0]] + ([ops[1]] + ([ops[2]] + ([ops[3]] + [ops[4]])));
    RunAppend(es, [ops[0]], [ops[1]] + ([ops[2]] + ([ops[3]] + [ops[4]])));
    RunOne(es, ops[0]);
    var e1 := Apply(es, ops[0]);
    RunAppend(e1, [ops[1]], [ops[2]] + ([ops[3]] + [ops[4]]));
    RunOne(e1, ops[1]);
    var e2 := Apply(e1, ops[1]);
    RunAppend(e2, [ops[2]], [ops[3]] + [ops[4]]);
    RunOne(e2, ops[2]);
    var e3 := Apply(e2, ops[2]);
    RunAppend(e3, [ops[3]], [ops[4]]);
    RunOne(e3, ops[3]);
    RunOne(Apply(e3, ops[3]), ops[4]);
  }

  /** The environment part of `spawn_hook_common`: the array that the original spawn function gets, which
      is the caller's own one in the pass-through case.  The caller's array is not changed. */
  method SpawnEnvironment(envp: array?<Option<string>>, x: Context, c: Names, vs: Values, undef: string)
    returns (envc: array?<Option<string>>)
    requires ValidArray(envp) && Sane(c) && CStrings(ArrayEntries(envp))
    ensures ValidArray(envc)
    ensures ArrayEntries(envc) == Spawned(ArrayEntries(envp), x, c, vs, undef)
    ensures PassThrough(ArrayEntries(envp), x, c) ==> envc == envp
  {
    var r := Inspect(envp, c);
    var shouldInsertJBEnv, hasSafeModeVariable := Decide(envp, x, c);
    if (shouldInsertJBEnv && r.count == JB_ENV_COUNT)
       || (!shouldInsertJBEnv && r.count == 0 && !hasSafeModeVariable) {
      return envp;
    }
    envc := ChangedEnvironment(envp, r, shouldInsertJBEnv, c, vs, undef);
  }

  /** The part for an environment that is not as it should be: a copy of it is changed. */
  method ChangedEnvironment(envp: array?<Option<string>>, r: Found, shouldInsertJBEnv: bool, c: Names,
                            vs: Values, undef: string)
    returns (envc: array?<Option<string>>)
    requires ValidArray(envp) && Sane(c) && CStrings(ArrayEntries(envp)) && Finds(r, ArrayEntries(envp), c)
    ensures ValidArray(envc) && (envc != null ==> fresh(envc))
    ensures var es := ArrayEntries(envp);
      ArrayEntries(envc) == Run(es, if shouldInsertJBEnv then InjectOps(es, c, vs) else StripOps(es, c, undef))
  {
    var env := new EnvBuffer(envp);
    if shouldInsertJBEnv {
      InjectInto(env, r, c, vs);
    } else {
      StripFrom(env, r, c, undef);
    }
    envc := env.envp;
  }
}
