/** `resolvePath` (src/systemhook/common.c): the search of a file along a path list, where the outcome of
    trying a candidate is an error number from a handler, and stat tells whether the candidate exists. */
module ResolvePath {
  import opened Wrappers

  // Darwin's numbers.
  const ENOENT: int := 2
  const E2BIG: int := 7
  const ENOEXEC: int := 8
  const ENOMEM: int := 12
  const EACCES: int := 13
  const ENOTDIR: int := 20
  const ETXTBSY: int := 26
  const ELOOP: int := 62
  const ENAMETOOLONG: int := 63
  const PATH_MAX: nat := 1024

  /** The world: what the handler answers to the k-th attempt, and whether stat succeeds after it. */
  datatype World = World(attempt: (nat, string) -> int, stat: (nat, string) -> bool)

  /** What an attempt means for the search. */
  datatype Outcome = Final | Denied | Onward

  /** The switch over the error number. */
  function Judge(err: int, present: bool): Outcome {
    if err == E2BIG || err == ENOMEM || err == ETXTBSY || err == ENOEXEC then Final
    else if err == ELOOP || err == ENAMETOOLONG || err == ENOENT || err == ENOTDIR then Onward
    else if !present then Onward
    else if err == EACCES then Denied
    else Final
  }

  function Judged(w: World, k: nat, path: string): Outcome {
    Judge(w.attempt(k, path), w.stat(k, path))
  }

  // ---------------------------------------------------------------------------------------------
  // The candidates.

  /** The components of a list: the texts between its colons, empty ones included. */
  function Components(list: string): (cs: seq<string>)
    ensures |cs| >= 1
  {
    if list == "" then [""]
    else
      var rest := Components(list[1..]);
      if list[0] == ':' then [""] + rest else [[list[0]] + rest[0]] + rest[1..]
  }

  /** The directory that a component stands for. */
  function Directory(component: string): (d: string)
    ensures d != "" && (component != "" ==> d == component)
  {
    if component == "" then "." else component
  }

  function Candidate(component: string, file: string): string { Directory(component) + "/" + file }

  /** The candidate and its NUL fit the buffer. */
  predicate Fits(component: string, file: string) { |Candidate(component, file)| + 1 <= PATH_MAX }

  // ---------------------------------------------------------------------------------------------
  // The search.

  datatype Result = Result(err: int, tried: seq<string>)

  /** The search of the components from `i` on, as a recursive function. */
  function Search(w: World, file: string, cs: seq<string>, i: nat, eacces: bool): (r: Result)
    requires i <= |cs|
    decreases |cs| - i
  {
    if i == |cs| then Result(if eacces then EACCES else ENOENT, [])
    else if !Fits(cs[i], file) then Result(ENAMETOOLONG, [])
    else
      var path := Candidate(cs[i], file);
      var o := Judged(w, i, path);
      if o == Final then Result(w.attempt(i, path), [path])
      else
        var r := Search(w, file, cs, i + 1, eacces || o == Denied);
        r.(tried := [path] + r.tried)
  }

  /** The single attempt at a name with a slash in it. */
  function Direct(w: World, file: string): Result {
    match Judged(w, 0, file)
    case Final => Result(w.attempt(0, file), [file])
    case Denied => Result(EACCES, [file])
    case Onward => Result(ENOENT, [file])
  }

  function Resolve(w: World, file: string, list: string): Result {
    if '/' in file then Direct(w, file)
    else if file == "" then Result(ENOENT, [])
    else Search(w, file, Components(list), 0, false)
  }

  // ---------------------------------------------------------------------------------------------
  // What the search does, without recursion.

  /** The search ends at component `k`: nothing before it was final or too long, and it is one of the
      two, or there is none. */
  ghost predicate EndsAt(w: World, file: string, cs: seq<string>, i: nat, k: nat) {
    && i <= k <= |cs|
    && (forall j :: i <= j < k ==> Goes(w, file, cs, j))
    && (k < |cs| ==> !Goes(w, file, cs, k))
  }

  /** The search goes on past component `j`. */
  ghost predicate Goes(w: World, file: string, cs: seq<string>, j: nat)
    requires j < |cs|
  {
    Fits(cs[j], file) && Judged(w, j, Candidate(cs[j], file)) != Final
  }

  /** Some candidate from `i` up to `k` exists and was denied. */
  ghost predicate SomeDenied(w: World, file: string, cs: seq<string>, i: nat, k: nat)
    requires k <= |cs|
  {
    exists j :: i <= j < k && Judged(w, j, Candidate(cs[j], file)) == Denied
  }

  ghost function CandidatesIn(file: string, cs: seq<string>, i: nat, k: nat): (r: seq<string>)
    requires i <= k <= |cs|
    ensures |r| == k - i && forall j :: 0 <= j < k - i ==> r[j] == Candidate(cs[i + j], file)
  {
    seq(k - i, j requires 0 <= j < k - i => Candidate(cs[i + j], file))
  }

  /** The result and the attempts of a search that ends at component `k`. */
  ghost predicate Explains(w: World, file: string, cs: seq<string>, i: nat, eacces: bool, k: nat,
                           r: Result)
    requires EndsAt(w, file, cs, i, k)
  {
    if k == |cs| then
      && r.tried == CandidatesIn(file, cs, i, k)
      && (r.err == EACCES <==> eacces || SomeDenied(w, file, cs, i, k))
      && (r.err == EACCES || r.err == ENOENT)
    else if !Fits(cs[k], file) then r.tried == CandidatesIn(file, cs, i, k) && r.err == ENAMETOOLONG
    else r.tried == CandidatesIn(file, cs, i, k + 1) && r.err == w.attempt(k, Candidate(cs[k], file))
  }

  lemma {:induction false} SearchExplained(w: World, file: string, cs: seq<string>, i: nat,
                                           eacces: bool)
      returns (k: nat)
    requires i <= |cs|
    ensures EndsAt(w, file, cs, i, k)
    ensures Explains(w, file, cs, i, eacces, k, Search(w, file, cs, i, eacces))
    decreases |cs| - i
  {
    if i == |cs| || !Goes(w, file, cs, i) {
      k := i;
      if i < |cs| && Fits(cs[i], file) {
        assert CandidatesIn(file, cs, i, i + 1) == [Candidate(cs[i], file)];
      }
    } else {
      var denied := Judged(w, i, Candidate(cs[i], file)) == Denied;
      k := SearchExplained(w, file, cs, i + 1, eacces || denied);
      Onwards(w, file, cs, i, eacces, k, Search(w, file, cs, i + 1, eacces || denied));
    }
  }

  lemma Onwards(w: World, file: string, cs: seq<string>, i: nat, eacces: bool, k: nat, r: Result)
    requires i < |cs| && Goes(w, file, cs, i) && EndsAt(w, file, cs, i + 1, k)
    requires Explains(w, file, cs, i + 1,
                      eacces || Judged(w, i, Candidate(cs[i], file)) == Denied, k, r)
    ensures EndsAt(w, file, cs, i, k)
    ensures Explains(w, file, cs, i, eacces, k,
                     Result(r.err, [Candidate(cs[i], file)] + r.tried))
  {
    CandidatesGrow(file, cs, i, if k == |cs| || !Fits(cs[k], file) then k else k + 1);
    DeniedGrows(w, file, cs, i, k);
  }

  lemma CandidatesGrow(file: string, cs: seq<string>, i: nat, e: nat)
    requires i < e <= |cs|
    ensures CandidatesIn(file, cs, i, e) == [Candidate(cs[i], file)] + CandidatesIn(file, cs, i + 1, e)
  {
  }

  lemma DeniedGrows(w: World, file: string, cs: seq<string>, i: nat, k: nat)
    requires i < k <= |cs|
    ensures SomeDenied(w, file, cs, i, k)
       <==> Judged(w, i, Candidate(cs[i], file)) == Denied || SomeDenied(w, file, cs, i + 1, k)
  {
  }

  // ---------------------------------------------------------------------------------------------
  // What the search does, by the error numbers.

  /** E2BIG, ENOEXEC, ENOMEM and ETXTBSY end the search. */
  const ENDING: set<int> := {7, 8, 12, 26}

  /** ENOENT, ENOTDIR, ELOOP and ENAMETOOLONG never do. */
  const HARMLESS: set<int> := {2, 20, 62, 63}

  /** What ends the search: an ending error, or, for a file that exists, success or any other number
      but EACCES. */
  predicate Ending(err: int, present: bool) {
    err in ENDING || (present && err !in HARMLESS && err != 13)
  }

  /** The file exists and may not be executed. */
  predicate Refused(err: int, present: bool) { err == 13 && present }

  lemma JudgeMeans(err: int, present: bool)
    ensures Judge(err, present) == Final <==> Ending(err, present)
    ensures Judge(err, present) == Denied <==> Refused(err, present)
  {
  }

  /** The path that is tried for a component; the empty one is the current directory. */
  function PathOf(component: string, file: string): string {
    (if component == "" then "." else component) + "/" + file
  }

  /** Component `j` does not end the search: its path and a NUL fit 1024 characters, and its outcome is
      not an ending one. */
  ghost predicate Passed(w: World, file: string, cs: seq<string>, j: nat)
    requires j < |cs|
  {
    var path := PathOf(cs[j], file);
    |path| < 1024 && !Ending(w.attempt(j, path), w.stat(j, path))
  }

  /** The paths of the first `k` components. */
  ghost predicate TriedFirst(file: string, cs: seq<string>, k: nat, tried: seq<string>) {
    k <= |cs| && |tried| == k && forall j :: 0 <= j < k ==> tried[j] == PathOf(cs[j], file)
  }

  lemma PassedGoes(w: World, file: string, cs: seq<string>, j: nat)
    requires j < |cs|
    ensures Passed(w, file, cs, j) <==> Goes(w, file, cs, j)
    ensures Fits(cs[j], file) <==> |PathOf(cs[j], file)| < 1024
    ensures Candidate(cs[j], file) == PathOf(cs[j], file)
  {
    var path := PathOf(cs[j], file);
    JudgeMeans(w.attempt(j, path), w.stat(j, path));
  }

  /** If no candidate ends the search all were tried, in list order, and the result is EACCES if and
      only if some file that exists was refused, and ENOENT otherwise. */
  lemma ResolveWithoutFinal(w: World, file: string, list: string)
    requires '/' !in file && file != ""
    requires forall j :: 0 <= j < |Components(list)| ==> Passed(w, file, Components(list), j)
    ensures var cs, r := Components(list), Resolve(w, file, list);
      && TriedFirst(file, cs, |cs|, r.tried)
      && r.err == (if exists j :: 0 <= j < |cs| && RefusedAt(w, file, cs, j) then 13 else 2)
  {
    var cs := Components(list);
    var k := SearchExplained(w, file, cs, 0, false);
    forall j | 0 <= j < |cs|
      ensures Goes(w, file, cs, j) && Candidate(cs[j], file) == PathOf(cs[j], file)
      ensures RefusedAt(w, file, cs, j) <==> Judged(w, j, Candidate(cs[j], file)) == Denied
    {
      PassedGoes(w, file, cs, j);
      JudgeMeans(w.attempt(j, PathOf(cs[j], file)), w.stat(j, PathOf(cs[j], file)));
    }
  }

  ghost predicate RefusedAt(w: World, file: string, cs: seq<string>, j: nat)
    requires j < |cs|
  {
    var path := PathOf(cs[j], file);
    Refused(w.attempt(j, path), w.stat(j, path))
  }

  lemma PassedEnds(w: World, file: string, cs: seq<string>, k: nat)
    requires k < |cs| && !Passed(w, file, cs, k)
    requires forall j :: 0 <= j < k ==> Passed(w, file, cs, j)
    ensures EndsAt(w, file, cs, 0, k)
    ensures Fits(cs[k], file) <==> |PathOf(cs[k], file)| < 1024
    ensures forall j :: 0 <= j <= k ==> Candidate(cs[j], file) == PathOf(cs[j], file)
  {
    forall j | 0 <= j <= k
      ensures Passed(w, file, cs, j) <==> Goes(w, file, cs, j)
      ensures Fits(cs[j], file) <==> |PathOf(cs[j], file)| < 1024
      ensures Candidate(cs[j], file) == PathOf(cs[j], file)
    {
      PassedGoes(w, file, cs, j);
    }
  }

  /** The first ending outcome is the result, and no candidate behind it is tried. */
  lemma ResolveFirstFinal(w: World, file: string, list: string, k: nat)
    requires '/' !in file && file != "" && k < |Components(list)|
    requires forall j :: 0 <= j < k ==> Passed(w, file, Components(list), j)
    requires var path := PathOf(Components(list)[k], file);
      |path| < 1024 && Ending(w.attempt(k, path), w.stat(k, path))
    ensures var cs, r := Components(list), Resolve(w, file, list);
      TriedFirst(file, cs, k + 1, r.tried) && r.err == w.attempt(k, PathOf(cs[k], file))
  {
    var cs := Components(list);
    var m := SearchExplained(w, file, cs, 0, false);
    PassedEnds(w, file, cs, k);
    EndsOnce(w, file, cs, k, m);
  }

  /** A candidate that does not fit ends the search with ENAMETOOLONG before it is tried. */
  lemma ResolveTooLong(w: World, file: string, list: string, k: nat)
    requires '/' !in file && file != "" && k < |Components(list)|
    requires forall j :: 0 <= j < k ==> Passed(w, file, Components(list), j)
    requires |PathOf(Components(list)[k], file)| >= 1024
    ensures var r := Resolve(w, file, list);
      TriedFirst(file, Components(list), k, r.tried) && r.err == 63
  {
    var cs := Components(list);
    var m := SearchExplained(w, file, cs, 0, false);
    PassedEnds(w, file, cs, k);
    EndsOnce(w, file, cs, k, m);
  }

  /** A name with a slash is tried once, whatever the list; the empty name is not tried. */
  lemma ResolveDirect(w: World, file: string, list: string)
    requires '/' in file || file == ""
    ensures file == "" ==> Resolve(w, file, list) == Result(2, [])
    ensures '/' in file ==>
      var err, present := w.attempt(0, file), w.stat(0, file);
      Resolve(w, file, list)
      == Result(if Ending(err, present) then err else if Refused(err, present) then 13 else 2, [file])
  {
    if '/' in file {
      JudgeMeans(w.attempt(0, file), w.stat(0, file));
    }
  }

  lemma EndsOnce(w: World, file: string, cs: seq<string>, k: nat, m: nat)
    requires EndsAt(w, file, cs, 0, k) && EndsAt(w, file, cs, 0, m)
    ensures k == m
  {
  }

  // ---------------------------------------------------------------------------------------------
  // The components, by their join.

  function JoinAll(cs: seq<string>): string
    requires |cs| >= 1
  {
    if |cs| == 1 then cs[0] else cs[0] + ":" + JoinAll(cs[1..])
  }

  /** The components are the colon-free texts that colons join to the list. */
  lemma {:induction false} ComponentsExact(list: string)
    ensures JoinAll(Components(list)) == list
    ensures forall k :: 0 <= k < |Components(list)| ==> ':' !in Components(list)[k]
  {
    if list != "" {
      var rest := Components(list[1..]);
      ComponentsExact(list[1..]);
      if list[0] == ':' {
        assert ([""] + rest)[1..] == rest;
        assert "" + ":" + list[1..] == list;
      } else {
        var first := [list[0]] + rest[0];
        assert ([first] + rest[1..])[1..] == rest[1..];
        if |rest| > 1 {
          assert first + ":" + JoinAll(rest[1..]) == [list[0]] + (rest[0] + ":" + JoinAll(rest[1..]));
        }
        assert [list[0]] + list[1..] == list;
      }
    }
  }

  // ---------------------------------------------------------------------------------------------
  // The code.

  /** strsep with ":": the component at `cur`, and where the next one starts, if there is one. */
  method Strsep(list: string, cur: nat) returns (p: string, next: Option<nat>)
    requires cur <= |list|
    ensures next.Some? ==> cur < next.value <= |list|
    ensures Components(list[cur..])
         == [p] + match next case Some(n) => Components(list[n..]) case None => []
  {
    var end := cur;
    EmptyPart(list, cur);
    while end < |list| && list[end] != ':'
      invariant cur <= end <= |list|
      invariant ComponentsFrom(list, cur, end)
    {
      LongerPart(list, cur, end);
      end := end + 1;
    }
    p := list[cur..end];
    next := if end < |list| then Some(end + 1) else None;
    WholePart(list, cur, end, next);
  }

  /** The characters from `cur` to `end` are part of one component. */
  ghost predicate ComponentsFrom(list: string, cur: nat, end: nat)
    requires cur <= end <= |list|
  {
    var rest := Components(list[end..]);
    Components(list[cur..]) == [list[cur..end] + rest[0]] + rest[1..]
  }

  lemma EmptyPart(list: string, cur: nat)
    requires cur <= |list|
    ensures ComponentsFrom(list, cur, cur)
  {
    var rest := Components(list[cur..]);
    assert list[cur..cur] + rest[0] == rest[0];
  }

  lemma LongerPart(list: string, cur: nat, end: nat)
    requires cur <= end < |list| && list[end] != ':' && ComponentsFrom(list, cur, end)
    ensures ComponentsFrom(list, cur, end + 1)
  {
    var rest := Components(list[end + 1..]);
    assert list[end..][1..] == list[end + 1..];
    assert list[cur..end] + ([list[end]] + rest[0]) == list[cur..end + 1] + rest[0];
  }

  lemma WholePart(list: string, cur: nat, end: nat, next: Option<nat>)
    requires cur <= end <= |list| && ComponentsFrom(list, cur, end) && (end < |list| ==> list[end] == ':')
    requires next == if end < |list| then Some(end + 1) else None
    ensures Components(list[cur..])
         == [list[cur..end]] + match next case Some(n) => Components(list[n..]) case None => []
  {
    assert list[cur..end] + "" == list[cur..end];
    if end < |list| {
      assert list[end..][1..] == list[end + 1..];
    }
  }

  /** bcopy into the path buffer. */
  method Copy(buf: array<char>, at: nat, text: string)
    requires at + |text| <= buf.Length
    modifies buf
    ensures buf[..] == old(buf[..at]) + text + old(buf[at + |text|..])
  {
    var i := 0;
    while i < |text|
      invariant 0 <= i <= |text|
      invariant forall k | at <= k < at + i :: buf[k] == text[k - at]
      invariant forall k | 0 <= k < at || at + i <= k < buf.Length :: buf[k] == old(buf[k])
    {
      buf[at + i] := text[i];
      i := i + 1;
    }
    assert buf[..at] == old(buf[..at]) && buf[at..at + i] == text && buf[at + i..] == old(buf[at + i..]);
    assert buf[..] == buf[..at] + buf[at..at + i] + buf[at + i..];
  }

  /** The path in the buffer: directory, slash, file and NUL. */
  method BuildPath(buf: array<char>, p: string, file: string)
    requires buf.Length == PATH_MAX && |p| + |file| + 2 <= PATH_MAX
    modifies buf
    ensures buf[..|p| + |file| + 1] == p + "/" + file && buf[|p| + |file| + 1] == '\0'
  {
    Copy(buf, 0, p);
    assert buf[..|p|] == p;
    buf[|p|] := '/';
    assert buf[..|p| + 1] == p + "/";
    Copy(buf, |p| + 1, file);
    buf[|p| + |file| + 1] := '\0';
  }

  /** `resolvePath`, with `searchPath` falling back to the PATH variable and that to the default. */
  method Resolver(w: World, file: string, searchPath: Option<string>, pathVariable: Option<string>,
                  defaultPath: string)
    returns (err: int, tried: seq<string>)
    ensures var list := if searchPath.Some? then searchPath.value
                        else if pathVariable.Some? then pathVariable.value else defaultPath;
      Result(err, tried) == Resolve(w, file, list)
  {
    var envPath := searchPath;
    if envPath.None? {
      envPath := pathVariable;
      if envPath.None? {
        envPath := Some(defaultPath);
      }
    }
    if '/' in file {
      err, tried := TryFile(w, file);
      return;
    }
    if file == "" {
      return ENOENT, [];
    }
    assert envPath.value[0..] == envPath.value;
    err, tried := SearchList(w, file, envPath.value);
  }

  method TryFile(w: World, file: string) returns (err: int, tried: seq<string>)
    ensures Result(err, tried) == Direct(w, file)
  {
    err, tried := w.attempt(0, file), [file];
    match Judge(err, w.stat(0, file))
    case Final =>
    case Denied => err := EACCES;
    case Onward => err := ENOENT;
  }

  /** The loop over the list. */
  method SearchList(w: World, file: string, list: string) returns (err: int, tried: seq<string>)
    ensures Result(err, tried) == Search(w, file, Components(list), 0, false)
  {
    var pathBuf := new char[PATH_MAX](_ => '\0');
    ghost var cs := Components(list);
    ghost var whole := Search(w, file, cs, 0, false);
    var cur: Option<nat>, eacces := Some(0), false;
    tried := [];
    assert list[0..] == list && tried + whole.tried == whole.tried;
    while cur.Some?
      invariant cur.Some? ==> cur.value <= |list|
      invariant |tried| <= |cs| && cs[|tried|..] == Ahead(list, cur)
      invariant Continues(whole, tried, Search(w, file, cs, |tried|, eacces))
      decreases cur.Some?, if cur.Some? then |list| - cur.value else 0
    {
      var p, done;
      p, cur := Strsep(list, cur.value);
      FirstOf(cs, |tried|, p, Ahead(list, cur));
      done, err, tried, eacces := SearchRound(w, file, p, pathBuf, tried, eacces, cs, whole);
      if done {
        return;
      }
    }
    AllTried(w, file, cs, |tried|, eacces);
    err := if eacces then EACCES else ENOENT;
  }

  /** With no component left the loop's flag decides. */
  lemma AllTried(w: World, file: string, cs: seq<string>, i: nat, eacces: bool)
    requires i <= |cs| && cs[i..] == []
    ensures i == |cs|
    ensures Search(w, file, cs, i, eacces) == Result(if eacces then EACCES else ENOENT, [])
  {
    assert |cs[i..]| == |cs| - i;
  }

  /** One round of the loop, which may end the search. */
  method SearchRound(w: World, file: string, p: string, pathBuf: array<char>, tried0: seq<string>,
                     eacces0: bool, ghost cs: seq<string>, ghost whole: Result)
    returns (done: bool, err: int, tried: seq<string>, eacces: bool)
    requires pathBuf.Length == PATH_MAX && |tried0| < |cs| && p == cs[|tried0|]
    requires Continues(whole, tried0, Search(w, file, cs, |tried0|, eacces0))
    modifies pathBuf
    ensures done ==> whole == Result(err, tried)
    ensures !done ==> |tried| == |tried0| + 1
    ensures !done ==> Continues(whole, tried, Search(w, file, cs, |tried|, eacces))
  {
    var fits, bp, outcome;
    tried, eacces := tried0, eacces0;
    fits, err, bp, outcome := TryCandidate(w, file, p, |tried|, pathBuf);
    if !fits {
      assert tried + [] == tried;
      return true, err, tried, eacces;
    }
    Step(w, file, cs, whole, tried, eacces, bp);
    tried := tried + [bp];
    done := outcome == Final;
    eacces := eacces || outcome == Denied;
  }

  lemma FirstOf(cs: seq<string>, i: nat, p: string, rest: seq<string>)
    requires i <= |cs| && cs[i..] == [p] + rest
    ensures i < |cs| && cs[i] == p && cs[i + 1..] == rest
  {
    assert cs[i..][0] == p && cs[i..][1..] == cs[i + 1..];
  }

  /** The attempt at one component, if its path fits the buffer. */
  method TryCandidate(w: World, file: string, component: string, k: nat, pathBuf: array<char>)
    returns (fits: bool, err: int, bp: string, outcome: Outcome)
    requires pathBuf.Length == PATH_MAX
    modifies pathBuf
    ensures fits == Fits(component, file) && (!fits ==> err == ENAMETOOLONG)
    ensures fits ==> bp == Candidate(component, file) && err == w.attempt(k, bp) && outcome == Judged(w, k, bp)
  {
    var p := component;
    if p == "" {
      p := ".";
    }
    fits := |p| + |file| + 2 <= PATH_MAX;
    if !fits {
      err, bp, outcome := ENAMETOOLONG, "", Final;
    } else {
      BuildPath(pathBuf, p, file);
      bp := pathBuf[..|p| + |file| + 1];
      err := w.attempt(k, bp);
      outcome := Judge(err, w.stat(k, bp));
    }
  }

  /** The components that strsep has still to deliver. */
  ghost function Ahead(list: string, cur: Option<nat>): seq<string>
    requires cur.Some? ==> cur.value <= |list|
  {
    match cur case Some(n) => Components(list[n..]) case None => []
  }

  /** The whole result is the attempts so far and then the result of the rest. */
  ghost predicate Continues(whole: Result, tried: seq<string>, rest: Result) {
    whole == Result(rest.err, tried + rest.tried)
  }

  /** One round: an attempt at the next candidate. */
  lemma Step(w: World, file: string, cs: seq<string>, whole: Result, tried: seq<string>, eacces: bool,
             bp: string)
    requires |tried| < |cs| && Continues(whole, tried, Search(w, file, cs, |tried|, eacces))
    requires Fits(cs[|tried|], file) && bp == Candidate(cs[|tried|], file)
    ensures var o := Judged(w, |tried|, bp);
      if o == Final then whole == Result(w.attempt(|tried|, bp), tried + [bp])
      else Continues(whole, tried + [bp],
                     Search(w, file, cs, |tried| + 1, eacces || o == Denied))
  {
    var rest := Search(w, file, cs, |tried| + 1,
                       eacces || Judged(w, |tried|, bp) == Denied).tried;
    assert tried + ([bp] + rest) == (tried + [bp]) + rest;
  }
}
