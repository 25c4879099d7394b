/** Colon-separated lists as strtok enumerates them (src/systemhook/common.c), and their rebuilding
    without one entry. */
module Paths {
  import opened Wrappers

  // ---------------------------------------------------------------------------------------------
  // Tokens.

  /** The length of the text before the first colon. */
  function Span(s: string): (n: nat)
    ensures n <= |s| && ':' !in s[..n] && (n < |s| ==> s[n] == ':')
  {
    if s == "" || s[0] == ':' then 0
    else
      assert s[..Span(s[1..]) + 1] == [s[0]] + s[1..][..Span(s[1..])];
      1 + Span(s[1..])
  }

  /** The tokens of a list: its non-empty parts. */
  function Tokens(s: string): (ts: seq<string>)
    decreases |s|
  {
    if s == "" then []
    else if s[0] == ':' then Tokens(s[1..])
    else
      assert Span(s) > 0;
      [s[..Span(s)]] + Tokens(s[Span(s)..])
  }

  predicate IsToken(t: string) { t != "" && ':' !in t }

  lemma SpanIs(s: string, n: nat)
    requires n <= |s| && ':' !in s[..n] && (n < |s| ==> s[n] == ':')
    ensures Span(s) == n
  {
    assert forall k :: 0 <= k < n ==> s[k] in s[..n];
    assert forall k :: 0 <= k < Span(s) ==> s[k] in s[..Span(s)];
  }

  lemma {:induction false} TokensAreTokens(s: string)
    ensures forall t :: t in Tokens(s) ==> IsToken(t)
    decreases |s|
  {
    if s == "" {
    } else if s[0] == ':' {
      TokensAreTokens(s[1..]);
    } else {
      TokensAreTokens(s[Span(s)..]);
    }
  }

  lemma TokenAlone(t: string)
    requires IsToken(t)
    ensures Tokens(t) == [t]
  {
    assert t[..|t|] == t;
    SpanIs(t, |t|);
    assert t[|t|..] == "";
  }

  /** A colon separates the tokens before it from those after it. */
  lemma {:induction false} TokensSplit(x: string, y: string)
    ensures Tokens(x + ":" + y) == Tokens(x) + Tokens(y)
    decreases |x|
  {
    var s := x + ":" + y;
    if x == "" {
      assert s[1..] == y;
    } else if x[0] == ':' {
      assert s[1..] == x[1..] + ":" + y;
      TokensSplit(x[1..], y);
    } else {
      var n := Span(x);
      assert s[..n] == x[..n];
      SpanIs(s, n);
      if n < |x| {
        assert s[n..] == x[n..] + ":" + y;
        TokensSplit(x[n..], y);
      } else {
        assert s[n..] == ":" + y && (":" + y)[1..] == y;
        assert Tokens(x[n..]) == [];
      }
    }
  }

  // ---------------------------------------------------------------------------------------------
  // Rebuilding.

  /** The tokens but `lib`, in order. */
  function Drop(ts: seq<string>, lib: string): seq<string> {
    if ts == [] then [] else (if ts[0] == lib then [] else [ts[0]]) + Drop(ts[1..], lib)
  }

  function Join(ts: seq<string>): string {
    if ts == [] then "" else if |ts| == 1 then ts[0] else ts[0] + ":" + Join(ts[1..])
  }

  /** Dropping goes token by token. */
  lemma {:induction false} DropSplits(a: seq<string>, b: seq<string>, lib: string)
    ensures Drop(a + b, lib) == Drop(a, lib) + Drop(b, lib)
  {
    if a == [] {
      assert a + b == b;
    } else {
      assert (a + b)[1..] == a[1..] + b && (a + b)[0] == a[0];
      DropSplits(a[1..], b, lib);
      Associates(if a[0] == lib then [] else [a[0]], Drop(a[1..], lib), Drop(b, lib));
    }
  }

  lemma DropAlone(t: string, lib: string)
    ensures Drop([t], lib) == if t == lib then [] else [t]
  {
    assert [t][1..] == [];
  }

  /** Only `lib` is dropped. */
  lemma {:induction false} DropLaw(ts: seq<string>, lib: string)
    ensures lib !in Drop(ts, lib)
    ensures forall t :: t in Drop(ts, lib) ==> t in ts
    ensures lib !in ts ==> Drop(ts, lib) == ts
  {
    if ts != [] {
      DropLaw(ts[1..], lib);
      assert ts == [ts[0]] + ts[1..];
    }
  }

  lemma {:induction false} TokensOfJoin(ts: seq<string>)
    requires forall t :: t in ts ==> IsToken(t)
    ensures Tokens(Join(ts)) == ts
  {
    if |ts| == 1 {
      TokenAlone(ts[0]);
    } else if |ts| > 1 {
      assert forall t :: t in ts[1..] ==> t in ts;
      TokensOfJoin(ts[1..]);
      TokensSplit(ts[0], Join(ts[1..]));
      TokenAlone(ts[0]);
      assert ts == [ts[0]] + ts[1..];
    }
  }

  /** Reading back a list that was rebuilt without `lib`: the other tokens, in order. */
  lemma RebuiltTokens(s: string, lib: string)
    ensures Tokens(Join(Drop(Tokens(s), lib))) == Drop(Tokens(s), lib)
    ensures lib !in Tokens(Join(Drop(Tokens(s), lib)))
  {
    TokensAreTokens(s);
    DropLaw(Tokens(s), lib);
    TokensOfJoin(Drop(Tokens(s), lib));
  }

  lemma {:induction false} JoinSnoc(ts: seq<string>, t: string)
    requires ts != []
    ensures Join(ts + [t]) == Join(ts) + ":" + t
  {
    assert (ts + [t])[1..] == ts[1..] + [t];
    if |ts| > 1 {
      JoinSnoc(ts[1..], t);
      assert ts[0] + ":" + (Join(ts[1..]) + ":" + t) == (ts[0] + ":" + Join(ts[1..])) + ":" + t;
    }
  }

  lemma {:induction false} JoinPrefix(a: seq<string>, b: seq<string>)
    ensures |Join(a)| <= |Join(a + b)|
  {
    if a != [] {
      assert (a + b)[1..] == a[1..] + b;
      JoinPrefix(a[1..], b);
    }
  }

  /** The length of the tokens, with one character after each. */
  function Extent(ts: seq<string>): nat { if ts == [] then 0 else |ts[0]| + 1 + Extent(ts[1..]) }

  lemma {:induction false} JoinExtent(ts: seq<string>)
    ensures |Join(ts)| == if ts == [] then 0 else Extent(ts) - 1
  {
    if |ts| > 1 {
      JoinExtent(ts[1..]);
    }
  }

  lemma {:induction false} DropExtent(ts: seq<string>, lib: string)
    ensures Extent(Drop(ts, lib)) <= Extent(ts)
  {
    if ts != [] {
      DropExtent(ts[1..], lib);
      var rest := Drop(ts[1..], lib);
      assert [] + rest == rest && ([ts[0]] + rest)[1..] == rest;
    }
  }

  lemma {:induction false} TokensExtent(s: string)
    ensures Extent(Tokens(s)) <= |s| + 1
    decreases |s|
  {
    if s == "" {
    } else if s[0] == ':' {
      TokensExtent(s[1..]);
    } else {
      var r := s[Span(s)..];
      assert ([s[..Span(s)]] + Tokens(r))[1..] == Tokens(r);
      if r == "" {
      } else {
        TokensExtent(r[1..]);
      }
    }
  }

  /** A list that is rebuilt without `lib` is no longer than it was. */
  lemma RebuiltFits(s: string, lib: string)
    ensures |Join(Drop(Tokens(s), lib))| <= |s|
  {
    TokensExtent(s);
    DropExtent(Tokens(s), lib);
    JoinExtent(Drop(Tokens(s), lib));
  }

  // ---------------------------------------------------------------------------------------------
  // The enumeration.

  /** One call of strtok with ":": the next token's start and end, or its start at the end of the
      string if there is none, and where the call after it continues. */
  method Strtok(s: string, pos: nat) returns (start: nat, end: nat, next: nat)
    requires pos <= |s|
    ensures pos <= start <= end <= next <= |s| && (end < |s| ==> end < next)
    ensures start == |s| <==> Tokens(s[pos..]) == []
    ensures start < |s| ==> start < end && Tokens(s[pos..]) == [s[start..end]] + Tokens(s[next..])
  {
    start := SkipColons(s, pos);
    end := TokenEnd(s, start);
    next := if end < |s| then end + 1 else end;
    if start < |s| {
      NextToken(s, start, end);
    }
  }

  method SkipColons(s: string, pos: nat) returns (start: nat)
    requires pos <= |s|
    ensures pos <= start <= |s| && Tokens(s[pos..]) == Tokens(s[start..])
    ensures start < |s| ==> s[start] != ':'
  {
    start := pos;
    while start < |s| && s[start] == ':'
      invariant pos <= start <= |s| && Tokens(s[pos..]) == Tokens(s[start..])
    {
      assert s[start..][1..] == s[start + 1..];
      start := start + 1;
    }
  }

  method TokenEnd(s: string, start: nat) returns (end: nat)
    requires start <= |s|
    ensures start <= end <= |s| && ':' !in s[start..end] && (end < |s| ==> s[end] == ':')
  {
    end := start;
    while end < |s| && s[end] != ':'
      invariant start <= end <= |s| && ':' !in s[start..end]
    {
      assert s[start..end + 1] == s[start..end] + [s[end]];
      end := end + 1;
    }
  }

  lemma NextToken(s: string, start: nat, end: nat)
    requires start < end <= |s| && ':' !in s[start..end] && (end < |s| ==> s[end] == ':')
    ensures Tokens(s[start..])
         == [s[start..end]] + Tokens(s[if end < |s| then end + 1 else end..])
  {
    var r := s[start..];
    assert r[..end - start] == s[start..end];
    assert r[0] == s[start..end][0];
    SpanIs(r, end - start);
    assert r[end - start..] == s[end..];
    if end < |s| {
      assert s[end..][1..] == s[end + 1..];
    }
  }

  /** The enumeration that looks for one library. */
  method Contains(paths: string, lib: string) returns (found: bool)
    ensures found <==> lib in Tokens(paths)
  {
    found := false;
    var start, end, pos := Strtok(paths, 0);
    assert paths[0..] == paths;
    while start < |paths|
      invariant start <= end <= pos <= |paths| && (start < |paths| ==> start < end)
      invariant start == |paths| ==> (found <==> lib in Tokens(paths))
      invariant start < |paths| ==>
        (lib in Tokens(paths) <==> found || lib == paths[start..end] || lib in Tokens(paths[pos..]))
      decreases |paths| - start
    {
      if paths[start..end] == lib {
        found := true;
      }
      start, end, pos := Strtok(paths, pos);
    }
  }

  /** A C string in a buffer. */
  ghost predicate IsCString(buf: seq<char>, text: string) {
    |text| < |buf| && buf[..|text|] == text && buf[|text|] == '\0' && '\0' !in text
  }

  /** strcpy to `at`, with the terminating NUL. */
  method StrCpy(buf: array<char>, at: nat, text: string)
    requires at + |text| < buf.Length
    modifies buf
    ensures buf[..at] == old(buf[..at]) && buf[at..at + |text|] == text && buf[at + |text|] == '\0'
  {
    var i := 0;
    while i < |text|
      invariant 0 <= i <= |text| && buf[..at] == old(buf[..at]) && buf[at..at + i] == text[..i]
    {
      buf[at + i] := text[i];
      i := i + 1;
    }
    buf[at + i] := '\0';
    assert text[..|text|] == text;
  }

  /** strcat. */
  method StrCat(buf: array<char>, text: string, ghost was: string)
    requires IsCString(buf[..], was) && |was| + |text| < buf.Length && '\0' !in text
    modifies buf
    ensures IsCString(buf[..], was + text)
  {
    var n := 0;
    assert forall k :: 0 <= k < |was| ==> buf[k] == was[k] && was[k] != '\0';
    while buf[n] != '\0'
      invariant 0 <= n <= |was|
      decreases |was| - n
    {
      n := n + 1;
    }
    StrCpy(buf, n, text);
    assert buf[..n + |text|] == buf[..n] + buf[n..n + |text|];
  }

  /** The string in a buffer, as strlen and strcpy see it. */
  method ReadCString(buf: array<char>, ghost text: string) returns (s: string)
    requires IsCString(buf[..], text)
    ensures s == text
  {
    var n := 0;
    assert forall k :: 0 <= k < |text| ==> buf[k] == text[k] && text[k] != '\0';
    while buf[n] != '\0'
      invariant 0 <= n <= |text|
      decreases |text| - n
    {
      n := n + 1;
    }
    s := buf[..n];
  }

  /** A list with `lib` put in front, or `lib` alone. */
  function Prepend(list: Option<string>, lib: string): string {
    match list case Some(paths) => lib + ":" + paths case None => lib
  }

  /** The block that puts a library in front, in a buffer of just the right size. */
  method PrependInBuffer(list: Option<string>, lib: string) returns (buf: array<char>)
    requires '\0' !in lib && (list.Some? ==> '\0' !in list.value)
    ensures fresh(buf) && IsCString(buf[..], Prepend(list, lib))
  {
    buf := new char[|lib| + (if list.Some? then |list.value| + 1 else 0) + 1];
    StrCpy(buf, 0, lib);
    assert buf[..|lib|] == lib;
    if list.Some? {
      StrCat(buf, ":", lib);
      StrCat(buf, list.value, lib + ":");
    }
  }

  /** The blocks that rebuild a list without `lib`, in a buffer for `size` characters and a NUL. */
  method Rebuild(paths: string, lib: string, size: nat) returns (buf: array<char>)
    requires '\0' !in paths && |Join(Drop(Tokens(paths), lib))| <= size
    ensures fresh(buf) && buf.Length == size + 1
    ensures IsCString(buf[..], Join(Drop(Tokens(paths), lib)))
  {
    buf := new char[size + 1];
    buf[0] := '\0';
    var first := true;
    ghost var all, kept: seq<string> := Drop(Tokens(paths), lib), [];
    var start, end, pos := Strtok(paths, 0);
    assert paths[0..] == paths;
    while start < |paths|
      invariant Walks(paths, lib, all, kept, first, start, end, pos) && IsCString(buf[..], Join(kept))
      decreases |paths| - start
    {
      start, end, pos, first, kept := KeepNext(buf, paths, lib, start, end, pos, first, kept, all);
    }
    assert kept + [] == kept;
  }

  /** The enumeration has kept some tokens, and the next one lies between `start` and `end`. */
  ghost predicate Walks(paths: string, lib: string, all: seq<string>, kept: seq<string>, first: bool, start: nat,
                        end: nat, pos: nat) {
    && start <= end <= pos <= |paths| && (start < |paths| ==> start < end)
    && all == kept + Drop(Ahead(paths, start, end, pos), lib) && (first <==> kept == [])
  }

  /** One round of the enumeration. */
  method KeepNext(buf: array<char>, paths: string, lib: string, start0: nat, end0: nat, pos0: nat, first0: bool,
                  ghost kept0: seq<string>, ghost all: seq<string>)
    returns (start: nat, end: nat, pos: nat, first: bool, ghost kept: seq<string>)
    requires Walks(paths, lib, all, kept0, first0, start0, end0, pos0) && start0 < |paths|
    requires IsCString(buf[..], Join(kept0)) && '\0' !in paths && |Join(all)| < buf.Length
    modifies buf
    ensures Walks(paths, lib, all, kept, first, start, end, pos) && start0 < start
    ensures IsCString(buf[..], Join(kept))
  {
    first, kept := KeepToken(buf, paths[start0..end0], lib, first0, kept0, Tokens(paths[pos0..]));
    start, end, pos := Strtok(paths, pos0);
  }

  /** The body of the enumeration for one token. */
  method KeepToken(buf: array<char>, token: string, lib: string, first0: bool, ghost kept0: seq<string>,
                   ghost ahead: seq<string>)
    returns (first: bool, ghost kept: seq<string>)
    requires IsCString(buf[..], Join(kept0)) && '\0' !in token && (first0 <==> kept0 == [])
    requires |Join(kept0 + Drop([token] + ahead, lib))| < buf.Length
    modifies buf
    ensures kept + Drop(ahead, lib) == kept0 + Drop([token] + ahead, lib)
    ensures IsCString(buf[..], Join(kept)) && (first <==> kept == [])
  {
    first, kept := first0, kept0;
    Moves(kept, token, ahead, lib);
    if token != lib {
      Append(buf, token, first, kept);
      first := false;
      kept := kept + [token];
    }
  }

  /** The current token moves from those ahead to those kept, unless it is dropped. */
  lemma Moves(kept: seq<string>, now: string, ahead: seq<string>, lib: string)
    ensures kept + Drop([now] + ahead, lib)
         == (if now == lib then kept else kept + [now]) + Drop(ahead, lib)
    ensures now != lib ==> |Join(kept + [now])| <= |Join(kept + Drop([now] + ahead, lib))|
  {
    assert ([now] + ahead)[1..] == ahead;
    if now == lib {
      assert [] + Drop(ahead, lib) == Drop(ahead, lib);
    } else {
      Associates(kept, [now], Drop(ahead, lib));
      JoinPrefix(kept + [now], Drop(ahead, lib));
    }
  }

  /** The tokens from the current one on. */
  ghost function Ahead(s: string, start: nat, end: nat, pos: nat): seq<string>
    requires start <= end <= pos <= |s|
  {
    if start == |s| then [] else [s[start..end]] + Tokens(s[pos..])
  }

  /** The callback: the first kept token is copied, the others are appended after a colon. */
  method Append(buf: array<char>, token: string, first: bool, ghost kept: seq<string>)
    requires IsCString(buf[..], Join(kept)) && '\0' !in token && (first <==> kept == [])
    requires |Join(kept + [token])| < buf.Length
    modifies buf
    ensures IsCString(buf[..], Join(kept + [token]))
  {
    if first {
      StrCpy(buf, 0, token);
      assert [] + [token] == [token];
    } else {
      JoinSnoc(kept, token);
      StrCat(buf, ":", Join(kept));
      StrCat(buf, token, Join(kept) + ":");
    }
  }
}
