/** The environment buffer (src/systemhook/envbuf.c): a NULL-terminated array of `NAME=value` strings
    that is searched, extended and shrunk in place.  A C string is the sequence of its characters. */
module EnvBuf {
  import opened Wrappers

  // ---------------------------------------------------------------------------------------------
  // The buffer as a sequence of entries.

  /** The entry starts with the name and an equals sign. */
  predicate Matches(e: string, name: string) {
    |e| > |name| && e[..|name|] == name && e[|name|] == '='
  }

  function Entry(name: string, value: string): (e: string)
    ensures Matches(e, name) && e[|name| + 1..] == value
  {
    name + "=" + value
  }

  /** The first entry of the name, at or after index `k`. */
  function FindFrom(es: seq<string>, name: string, k: nat): (r: Option<nat>)
    ensures r.Some? ==> k <= r.value < |es| && Matches(es[r.value], name)
    ensures r.Some? ==> forall i :: k <= i < r.value ==> !Matches(es[i], name)
    ensures r.None? ==> forall i :: k <= i < |es| ==> !Matches(es[i], name)
    decreases |es| - k
  {
    if k >= |es| then None else if Matches(es[k], name) then Some(k) else FindFrom(es, name, k + 1)
  }

  function Find(es: seq<string>, name: string): Option<nat> { FindFrom(es, name, 0) }

  function Get(es: seq<string>, name: string): Option<string> {
    match Find(es, name)
    case Some(i) => Some(es[i][|name| + 1..])
    case None => None
  }

  function Set(es: seq<string>, name: string, value: string): seq<string> {
    match Find(es, name)
    case Some(i) => es[i := Entry(name, value)]
    case None => es + [Entry(name, value)]
  }

  function Unset(es: seq<string>, name: string): seq<string> {
    match Find(es, name)
    case Some(i) => es[..i] + es[i + 1..]
    case None => es
  }

  // ---------------------------------------------------------------------------------------------
  // Laws.

  /** The entries of a name, in order. */
  ghost function Of(es: seq<string>, name: string): (r: seq<string>)
    ensures r != [] ==> Matches(r[0], name)
  {
    if es == [] then []
    else (if Matches(es[0], name) then [es[0]] else []) + Of(es[1..], name)
  }

  /** All other entries, in order. */
  ghost function Without(es: seq<string>, name: string): seq<string> {
    if es == [] then []
    else (if Matches(es[0], name) then [] else [es[0]]) + Without(es[1..], name)
  }

  lemma Distributes(a: seq<string>, b: seq<string>, name: string)
    ensures Of(a + b, name) == Of(a, name) + Of(b, name)
    ensures Without(a + b, name) == Without(a, name) + Without(b, name)
  {
    OfDistributes(a, b, name);
    WithoutDistributes(a, b, name);
  }

  lemma {:induction false} OfDistributes(a: seq<string>, b: seq<string>, name: string)
    ensures Of(a + b, name) == Of(a, name) + Of(b, name)
  {
    if a == [] {
      assert a + b == b;
    } else {
      assert (a + b)[1..] == a[1..] + b && (a + b)[0] == a[0];
      OfDistributes(a[1..], b, name);
      Associates(if Matches(a[0], name) then [a[0]] else [], Of(a[1..], name), Of(b, name));
    }
  }

  lemma {:induction false} WithoutDistributes(a: seq<string>, b: seq<string>, name: string)
    ensures Without(a + b, name) == Without(a, name) + Without(b, name)
  {
    if a == [] {
      assert a + b == b;
    } else {
      assert (a + b)[1..] == a[1..] + b && (a + b)[0] == a[0];
      WithoutDistributes(a[1..], b, name);
      Associates(if Matches(a[0], name) then [] else [a[0]], Without(a[1..], name), Without(b, name));
    }
  }

  lemma {:induction false} OfNone(es: seq<string>, name: string)
    requires forall i :: 0 <= i < |es| ==> !Matches(es[i], name)
    ensures Of(es, name) == []
  {
    if es != [] {
      OfNone(es[1..], name);
    }
  }

  /** The buffer around its first entry of the name. */
  ghost predicate Parts(es: seq<string>, name: string, a: seq<string>, e: string, b: seq<string>) {
    es == a + [e] + b && Matches(e, name) && Of(a, name) == []
  }

  lemma AroundFirst(es: seq<string>, name: string) returns (a: seq<string>, e: string, b: seq<string>)
    requires Find(es, name).Some?
    ensures Parts(es, name, a, e, b) && Unset(es, name) == a + b
    ensures Get(es, name) == Some(e[|name| + 1..])
    ensures forall v :: Set(es, name, v) == a + [Entry(name, v)] + b
  {
    var i := Find(es, name).value;
    a, e, b := es[..i], es[i], es[i + 1..];
    OfNone(a, name);
  }

  lemma Around(a: seq<string>, e: string, b: seq<string>, m: string)
    ensures Of(a + [e] + b, m) == Of(a, m) + Of([e], m) + Of(b, m)
    ensures Without(a + [e] + b, m) == Without(a, m) + Without([e], m) + Without(b, m)
  {
    Distributes(a + [e], b, m);
    Distributes(a, [e], m);
  }

  lemma OneEntry(e: string, name: string)
    ensures Of([e], name) == (if Matches(e, name) then [e] else [])
    ensures Without([e], name) == (if Matches(e, name) then [] else [e])
  {
    assert [e][1..] == [];
  }

  /** A lookup reads the first entry of the name. */
  lemma GetIsFirst(es: seq<string>, name: string)
    ensures Get(es, name) == if Of(es, name) == [] then None else Some(Of(es, name)[0][|name| + 1..])
  {
    if Find(es, name).Some? {
      var a, e, b := AroundFirst(es, name);
      FirstParts(a, e, b, name);
    } else {
      OfNone(es, name);
    }
  }

  /** After a set the name has the value; its further entries and all other entries stay, in order. */
  lemma SetLaw(es: seq<string>, name: string, value: string)
    ensures Get(Set(es, name, value), name) == Some(value)
    ensures Without(Set(es, name, value), name) == Without(es, name)
    ensures Of(Set(es, name, value), name)
         == [Entry(name, value)] + if Of(es, name) == [] then [] else Of(es, name)[1..]
  {
    var f := Entry(name, value);
    OneEntry(f, name);
    if Find(es, name).Some? {
      ReplacesFirst(es, name, value);
    } else {
      OfNone(es, name);
      Distributes(es, [f], name);
    }
    GetIsFirst(Set(es, name, value), name);
  }

  lemma ReplacesFirst(es: seq<string>, name: string, value: string)
    requires Find(es, name).Some?
    ensures Without(Set(es, name, value), name) == Without(es, name)
    ensures Of(es, name) != [] && Of(Set(es, name, value), name) == [Entry(name, value)] + Of(es, name)[1..]
  {
    var a, e, b := AroundFirst(es, name);
    FirstParts(a, e, b, name);
    FirstParts(a, Entry(name, value), b, name);
  }

  lemma FirstParts(a: seq<string>, e: string, b: seq<string>, name: string)
    requires Of(a, name) == [] && Matches(e, name)
    ensures Of(a + [e] + b, name) == [e] + Of(b, name) && Of(a + [e] + b, name)[1..] == Of(b, name)
    ensures Without(a + [e] + b, name) == Without(a, name) + Without(b, name)
  {
    Around(a, e, b, name);
    OneEntry(e, name);
    assert [] + [e] == [e] && Without(a, name) + [] == Without(a, name);
  }

  /** An unset removes the first entry of the name and keeps all else, in order. */
  lemma UnsetLaw(es: seq<string>, name: string)
    ensures Without(Unset(es, name), name) == Without(es, name)
    ensures Of(Unset(es, name), name) == if Of(es, name) == [] then [] else Of(es, name)[1..]
  {
    if Find(es, name).Some? {
      var a, e, b := AroundFirst(es, name);
      FirstParts(a, e, b, name);
      Distributes(a, b, name);
      assert [] + Of(b, name) == Of(b, name);
    } else {
      OfNone(es, name);
    }
  }

  /** The first entry of a name is replaced in its place and removed from it; a new entry goes behind all
      others. */
  lemma EntryPlaces(a: seq<string>, e: string, b: seq<string>, name: string, value: string)
    requires forall i :: 0 <= i < |a| ==> !Matches(a[i], name)
    ensures Matches(e, name) ==> Set(a + [e] + b, name, value) == a + [name + "=" + value] + b
    ensures Matches(e, name) ==> Unset(a + [e] + b, name) == a + b
    ensures Set(a, name, value) == a + [name + "=" + value] && Unset(a, name) == a
  {
    var es := a + [e] + b;
    if Matches(e, name) {
      assert es[|a|] == e && forall i :: 0 <= i < |a| ==> es[i] == a[i];
      FindIs(es, name, 0, |a|);
      assert es[..|a|] == a && es[|a| + 1..] == b;
    }
  }

  lemma {:induction false} FindIs(es: seq<string>, name: string, k: nat, i: nat)
    requires k <= i < |es| && Matches(es[i], name) && forall j :: k <= j < i ==> !Matches(es[j], name)
    ensures FindFrom(es, name, k) == Some(i)
    decreases i - k
  {
    if k < i {
      FindIs(es, name, k + 1, i);
    }
  }

  /** The name is gone after an unset if and only if it had at most one entry. */
  lemma UnsetThenGet(es: seq<string>, name: string)
    ensures Get(Unset(es, name), name).None? <==> |Of(es, name)| <= 1
  {
    UnsetLaw(es, name);
    GetIsFirst(Unset(es, name), name);
  }

  predicate Plain(name: string) { '=' !in name }

  lemma NotShorter(e: string, n: string, m: string)
    requires Plain(m) && Matches(e, n) && Matches(e, m)
    ensures |n| >= |m|
  {
    assert forall i :: 0 <= i < |m| ==> e[i] == m[i] && m[i] != '=';
  }

  /** An entry belongs to one name only. */
  lemma OneName(e: string, n: string, m: string)
    requires Plain(n) && Plain(m) && Matches(e, n) && Matches(e, m)
    ensures n == m
  {
    NotShorter(e, n, m);
    NotShorter(e, m, n);
  }

  /** The entries of other names are the same after a set. */
  lemma SetOthers(es: seq<string>, name: string, value: string, m: string)
    requires Plain(name) && Plain(m) && m != name
    ensures Of(Set(es, name, value), m) == Of(es, m) && Get(Set(es, name, value), m) == Get(es, m)
  {
    var f := Entry(name, value);
    Foreign(f, name, m);
    if Find(es, name).Some? {
      var a, e, b := AroundFirst(es, name);
      Around(a, e, b, m);
      Around(a, f, b, m);
      Foreign(e, name, m);
    } else {
      Distributes(es, [f], m);
    }
    GetIsFirst(es, m);
    GetIsFirst(Set(es, name, value), m);
  }

  lemma Foreign(e: string, name: string, m: string)
    requires Plain(name) && Plain(m) && m != name && Matches(e, name)
    ensures Of([e], m) == []
  {
    OneEntry(e, m);
    if Matches(e, m) {
      OneName(e, name, m);
    }
  }

  lemma UnsetOthers(es: seq<string>, name: string, m: string)
    requires Plain(name) && Plain(m) && m != name
    ensures Of(Unset(es, name), m) == Of(es, m) && Get(Unset(es, name), m) == Get(es, m)
  {
    if Find(es, name).Some? {
      var a, e, b := AroundFirst(es, name);
      Around(a, e, b, m);
      Distributes(a, b, m);
      Foreign(e, name, m);
    }
    GetIsFirst(es, m);
    GetIsFirst(Unset(es, name), m);
  }

  // ---------------------------------------------------------------------------------------------
  // Runs of operations.

  datatype Op = SetOp(name: string, value: string) | UnsetOp(name: string)

  function Apply(es: seq<string>, op: Op): seq<string> {
    match op case SetOp(n, v) => Set(es, n, v) case UnsetOp(n) => Unset(es, n)
  }

  function Run(es: seq<string>, ops: seq<Op>): seq<string>
    decreases ops
  {
    if ops == [] then es else Run(Apply(es, ops[0]), ops[1..])
  }

  ghost predicate PlainOps(ops: seq<Op>) { forall k :: 0 <= k < |ops| ==> Plain(ops[k].name) }

  /** Every name has at most one entry. */
  ghost predicate UniqueNames(es: seq<string>) {
    forall n: string :: Plain(n) ==> |Of(es, n)| <= 1
  }

  lemma ApplyKeepsUnique(es: seq<string>, op: Op)
    requires UniqueNames(es) && Plain(op.name)
    ensures UniqueNames(Apply(es, op))
  {
    forall n: string | Plain(n)
      ensures |Of(Apply(es, op), n)| <= 1
    {
      if n != op.name {
        if op.SetOp? { SetOthers(es, op.name, op.value, n); } else { UnsetOthers(es, op.name, n); }
      } else {
        if op.SetOp? { SetLaw(es, n, op.value); } else { UnsetLaw(es, n); }
      }
    }
  }

  /** At most one entry per name is kept by every sequence of operations. */
  lemma {:induction false} RunKeepsUnique(es: seq<string>, ops: seq<Op>)
    requires UniqueNames(es) && PlainOps(ops)
    ensures UniqueNames(Run(es, ops))
    decreases ops
  {
    if ops != [] {
      ApplyKeepsUnique(es, ops[0]);
      RunKeepsUnique(Apply(es, ops[0]), ops[1..]);
    }
  }

  /** What a variable's value should be after the operations: that of the last one on its name. */
  function After(ops: seq<Op>, name: string, before: Option<string>): Option<string>
    decreases ops
  {
    if ops == [] then before
    else
      var now := if ops[0].name != name then before
                 else match ops[0] case SetOp(_, v) => Some(v) case UnsetOp(_) => None;
      After(ops[1..], name, now)
  }

  /** The buffer is a map from names to values: after any sequence of operations each variable is what
      its last operation made it. */
  lemma {:induction false} RunRefinesMap(es: seq<string>, ops: seq<Op>, name: string)
    requires UniqueNames(es) && PlainOps(ops) && Plain(name)
    ensures Get(Run(es, ops), name) == After(ops, name, Get(es, name))
    decreases ops
  {
    if ops != [] {
      var op := ops[0];
      if op.SetOp? {
        SetLaw(es, op.name, op.value);
        if op.name != name { SetOthers(es, op.name, op.value, name); }
      } else {
        UnsetThenGet(es, op.name);
        if op.name != name { UnsetOthers(es, op.name, name); }
      }
      ApplyKeepsUnique(es, op);
      RunRefinesMap(Apply(es, op), ops[1..], name);
    }
  }

  lemma RunOne(es: seq<string>, op: Op)
    ensures Run(es, [op]) == Apply(es, op)
  {
    assert Run(Apply(es, op), [op][1..]) == Apply(es, op);
  }

  lemma {:induction false} RunAppend(es: seq<string>, a: seq<Op>, b: seq<Op>)
    ensures Run(es, a + b) == Run(Run(es, a), b)
    decreases a
  {
    if a == [] {
      assert a + b == b;
    } else {
      assert (a + b)[1..] == a[1..] + b;
      RunAppend(Apply(es, a[0]), a[1..], b);
    }
  }

  /** Operations on other names leave a name's entries alone. */
  lemma {:induction false} RunOthers(es: seq<string>, ops: seq<Op>, m: string)
    requires PlainOps(ops) && Plain(m) && forall k :: 0 <= k < |ops| ==> ops[k].name != m
    ensures Of(Run(es, ops), m) == Of(es, m) && Get(Run(es, ops), m) == Get(es, m)
    decreases ops
  {
    if ops != [] {
      var op := ops[0];
      if op.SetOp? { SetOthers(es, op.name, op.value, m); } else { UnsetOthers(es, op.name, m); }
      RunOthers(Apply(es, op), ops[1..], m);
    }
  }

  ghost function Tail(es: seq<string>): seq<string> { if es == [] then [] else es[1..] }

  /** A run that unsets a name once, and does nothing else to it, removes its first entry. */
  lemma UnsetOnce(es: seq<string>, a: seq<Op>, b: seq<Op>, m: string)
    requires PlainOps(a) && PlainOps(b) && Plain(m)
    requires (forall k :: 0 <= k < |a| ==> a[k].name != m) && (forall k :: 0 <= k < |b| ==> b[k].name != m)
    ensures Of(Run(es, a + [UnsetOp(m)] + b), m) == Tail(Of(es, m))
  {
    var e1 := Run(es, a);
    RunAppend(es, a + [UnsetOp(m)], b);
    RunAppend(es, a, [UnsetOp(m)]);
    RunOne(e1, UnsetOp(m));
    RunOthers(es, a, m);
    UnsetLaw(e1, m);
    RunOthers(Unset(e1, m), b, m);
  }

  // ---------------------------------------------------------------------------------------------
  // The array.

  /** The array holds the entries, and then a NULL. */
  ghost predicate Holds(a: seq<Option<string>>, es: seq<string>) {
    |es| < |a| && a[|es|].None? && forall k :: 0 <= k < |es| ==> a[k] == Some(es[k])
  }

  /** The strings before the first NULL. */
  ghost function Entries(a: seq<Option<string>>): (es: seq<string>)
    ensures Terminated(a) ==> Holds(a, es)
  {
    if a == [] || a[0].None? then []
    else
      assert Terminated(a) ==> Terminated(a[1..]) by { TerminatedTail(a); }
      [a[0].value] + Entries(a[1..])
  }

  ghost predicate Terminated(a: seq<Option<string>>) { exists k :: 0 <= k < |a| && a[k].None? }

  lemma TerminatedTail(a: seq<Option<string>>)
    requires a != [] && a[0].Some?
    ensures Terminated(a) ==> Terminated(a[1..])
  {
    if Terminated(a) {
      var k :| 0 <= k < |a| && a[k].None?;
      assert a[1..][k - 1].None?;
    }
  }

  lemma HoldsIs(a: seq<Option<string>>, es: seq<string>)
    requires Holds(a, es)
    ensures Terminated(a) && Entries(a) == es
  {
    var fs := Entries(a);
    assert Holds(a, fs);
  }

  /** A `const char *envp[]` argument: NULL, or an array with a terminating NULL. */
  ghost predicate ValidArray(envp: array?<Option<string>>)
    reads envp
  {
    envp != null ==> Terminated(envp[..])
  }

  ghost function ArrayEntries(envp: array?<Option<string>>): seq<string>
    reads envp
  {
    if envp == null then [] else Entries(envp[..])
  }

  /** `envbuf_len`: the entries and the terminating NULL; 1 without an array. */
  method Length(envp: array?<Option<string>>) returns (k: nat)
    requires ValidArray(envp)
    ensures k == |ArrayEntries(envp)| + 1 && (envp != null ==> k <= envp.Length)
  {
    if envp == null {
      return 1;
    }
    var env;
    env, k := envp[0], 1;
    while env.Some?
      invariant 1 <= k <= |Entries(envp[..])| + 1 && env == envp[k - 1]
      decreases envp.Length - k
    {
      env := envp[k];
      k := k + 1;
    }
  }

  /** `envbuf_find`: the index of the first entry of the name, or -1. */
  method FindEnv(envp: array?<Option<string>>, name: string) returns (index: int)
    requires ValidArray(envp)
    ensures index == match Find(ArrayEntries(envp), name) case Some(i) => i case None => -1
  {
    if envp == null {
      return -1;
    }
    ghost var es := Entries(envp[..]);
    var env, k := envp[0], 1;
    while env.Some?
      invariant 1 <= k <= |es| + 1 && env == envp[k - 1]
      invariant Find(es, name) == FindFrom(es, name, k - 1)
      decreases |es| + 1 - k
    {
      if |env.value| > |name| {
        if env.value[..|name|] == name {
          if env.value[|name|] == '=' {
            return k - 1;
          }
        }
      }
      env := envp[k];
      k := k + 1;
    }
    return -1;
  }

  /** `envbuf_getenv`. */
  method GetEnv(envp: array?<Option<string>>, name: string) returns (value: Option<string>)
    requires ValidArray(envp)
    ensures value == Get(ArrayEntries(envp), name)
  {
    if envp != null {
      var envIndex := FindEnv(envp, name);
      if envIndex >= 0 {
        return Some(envp[envIndex].value[|name| + 1..]);
      }
    }
    return None;
  }

  /** `envbuf_mutcopy`. */
  method MutCopy(envp: array?<Option<string>>) returns (envcopy: array?<Option<string>>)
    requires ValidArray(envp)
    ensures ValidArray(envcopy) && ArrayEntries(envcopy) == ArrayEntries(envp)
    ensures (envp == null <==> envcopy == null) && (envcopy != null ==> fresh(envcopy))
  {
    if envp == null {
      return null;
    }
    var len := Length(envp);
    envcopy := Duplicate(envp, len);
    HoldsIs(envcopy[..], Entries(envp[..]));
  }

  /** The loop that duplicates the strings, and the terminating NULL. */
  method Duplicate(envp: array<Option<string>>, len: nat) returns (copy: array<Option<string>>)
    requires 0 < len <= envp.Length
    ensures fresh(copy) && copy.Length == len && copy[len - 1] == None
    ensures forall k :: 0 <= k < len - 1 ==> copy[k] == envp[k]
  {
    copy := new Option<string>[len](_ => None);
    var i := 0;
    while i < len - 1
      invariant 0 <= i <= len - 1
      invariant forall k :: 0 <= k < i ==> copy[k] == envp[k]
    {
      copy[i] := envp[i];
      i := i + 1;
    }
    copy[len - 1] := None;
  }

  /** `realloc` of an array of pointers. */
  method Realloc(envp: array<Option<string>>, n: nat) returns (r: array<Option<string>>)
    ensures fresh(r) && r.Length == n
    ensures forall k :: 0 <= k < n && k < envp.Length ==> r[k] == envp[k]
  {
    r := new Option<string>[n](_ => None);
    var i := 0;
    while i < n && i < envp.Length
      invariant 0 <= i <= n
      invariant forall k :: 0 <= k < i && k < envp.Length ==> r[k] == envp[k]
    {
      r[i] := envp[i];
      i := i + 1;
    }
  }

  /** The loop that closes the gap at index `from`. */
  method ShiftDown(envp: array<Option<string>>, from: nat, prevLen: nat)
    requires from < prevLen <= envp.Length
    modifies envp
    ensures forall k :: 0 <= k < from ==> envp[k] == old(envp[k])
    ensures forall k :: from <= k < prevLen - 1 ==> envp[k] == old(envp[k + 1])
  {
    var i := from;
    while i < prevLen - 1
      invariant from <= i <= prevLen - 1
      invariant forall k :: 0 <= k < from || i <= k < envp.Length ==> envp[k] == old(envp[k])
      invariant forall k :: from <= k < i ==> envp[k] == old(envp[k + 1])
    {
      envp[i] := envp[i + 1];
      i := i + 1;
    }
  }

  /** The shifted array holds the entries without the first one of the name. */
  lemma ShiftedHolds(a: seq<Option<string>>, b: seq<Option<string>>, es: seq<string>, name: string,
                     from: nat)
    requires Holds(a, es) && Find(es, name) == Some(from) && |b| == |es|
    requires forall k :: 0 <= k < from ==> b[k] == a[k]
    requires forall k :: from <= k < |es| ==> b[k] == a[k + 1]
    ensures Holds(b, Unset(es, name))
  {
  }

  /** The variable that `char **envpp[]` points to. */
  class EnvBuffer {
    var envp: array?<Option<string>>

    ghost predicate Valid()
      reads this, envp
    {
      ValidArray(envp)
    }

    ghost function Contents(): seq<string>
      reads this, envp
    {
      ArrayEntries(envp)
    }

    /** An own copy of an environment. */
    constructor (envp0: array?<Option<string>>)
      requires ValidArray(envp0)
      ensures Valid() && Contents() == ArrayEntries(envp0)
      ensures envp != null ==> fresh(envp)
    {
      var envcopy := MutCopy(envp0);
      envp := envcopy;
    }

    /** `envbuf_setenv`. */
    method SetEnv(name: string, value: string)
      requires Valid()
      modifies this, envp
      ensures Valid() && envp != null && Contents() == Set(old(Contents()), name, value)
      ensures envp == old(envp) || fresh(envp)
    {
      ghost var es := Contents();
      var a;
      if envp == null {
        a := new Option<string>[1](_ => None);
        HoldsIs(a[..], []);
      } else {
        a := envp;
      }
      var envToSet := name + "=" + value;
      var existingEnvIndex := FindEnv(a, name);
      if existingEnvIndex >= 0 {
        a[existingEnvIndex] := Some(envToSet);
        envp := a;
      } else {
        var prevLen := Length(a);
        var b := Realloc(a, prevLen + 1);
        b[prevLen - 1] := Some(envToSet);
        b[prevLen] := None;
        envp := b;
      }
      HoldsIs(envp[..], Set(es, name, value));
    }

    /** `envbuf_unsetenv`. */
    method UnsetEnv(name: string)
      requires Valid()
      modifies this, envp
      ensures Valid() && Contents() == Unset(old(Contents()), name)
      ensures envp == old(envp) || fresh(envp)
    {
      if envp == null {
        return;
      }
      ghost var es := Contents();
      var existingEnvIndex := FindEnv(envp, name);
      if existingEnvIndex >= 0 {
        var prevLen := Length(envp);
        ShiftDown(envp, existingEnvIndex, prevLen);
        envp := Realloc(envp, prevLen - 1);
        ShiftedHolds(old(envp[..]), envp[..], es, name, existingEnvIndex);
        HoldsIs(envp[..], Unset(es, name));
      }
    }
  }
}
