/** vfs_helper.c: paths, and the tokens kvfs_split_path cuts them into. */
module Paths {
  import opened Base

  const MAX_PARTS := 16
  const MAX_NAME := 255
  const ROOT := "/"

  predicate IsAbsolute(path: string) { path != [] && path[0] == '/' }

  /** Length of the leading run without slashes. */
  function RunLength(s: string): (n: nat)
    ensures n <= |s| && '/' !in s[..n] && (n < |s| ==> s[n] == '/')
  {
    if s == [] || s[0] == '/' then 0
    else
      var n := 1 + RunLength(s[1..]);
      assert s[..n] == [s[0]] + s[1..][..n - 1];
      n
  }

  /** What one token takes: the run, or its first 254 bytes. */
  function TokenLength(s: string): (n: nat)
    ensures n <= |s| && n < MAX_NAME
    ensures s != [] && s[0] != '/' ==> n > 0
  {
    if RunLength(s) < MAX_NAME then RunLength(s) else MAX_NAME - 1
  }

  /** Up to `room` tokens. */
  function Tokens(s: string, room: nat): (ts: seq<string>)
    ensures |ts| <= room
    decreases |s|
  {
    if room == 0 || s == [] then []
    else if s[0] == '/' then Tokens(s[1..], room)
    else [s[..TokenLength(s)]] + Tokens(s[TokenLength(s)..], room - 1)
  }

  /** What kvfs_split_path leaves in its buffer. */
  function Split(path: string): (ts: seq<string>)
    ensures |ts| <= MAX_PARTS
  {
    if IsAbsolute(path) then [ROOT] + Tokens(path, MAX_PARTS - 1) else Tokens(path, MAX_PARTS)
  }

  // ---- kvfs_split_path ----

  /** Row `k` of the buffer holds `t`, terminated. */
  ghost predicate Holds(tokens: array2<char>, k: nat, t: string)
    requires tokens.Length0 == MAX_PARTS && tokens.Length1 == MAX_NAME && k < MAX_PARTS
    reads tokens
  {
    && |t| < MAX_NAME && tokens[k, |t|] == '\0'
    && forall j :: 0 <= j < |t| ==> tokens[k, j] == t[j]
  }

  /** The string in row `k`. */
  function Row(tokens: array2<char>, k: nat, j: nat := 0): (t: string)
    requires tokens.Length0 == MAX_PARTS && tokens.Length1 == MAX_NAME && k < MAX_PARTS && j <= MAX_NAME
    reads tokens
    decreases MAX_NAME - j
  {
    if j == MAX_NAME || tokens[k, j] == '\0' then [] else [tokens[k, j]] + Row(tokens, k, j + 1)
  }

  lemma {:induction false} RowIs(tokens: array2<char>, k: nat, t: string, j: nat)
    requires tokens.Length0 == MAX_PARTS && tokens.Length1 == MAX_NAME && k < MAX_PARTS && j <= |t|
    requires Holds(tokens, k, t) && '\0' !in t
    ensures Row(tokens, k, j) == t[j..]
    decreases |t| - j
  {
    if j < |t| { RowIs(tokens, k, t, j + 1); }
  }

  /** The copy loop for one token: it stops at a slash, at the end, or after 254 bytes. */
  method CopyToken(path: string, start: nat, tokens: array2<char>, count: nat) returns (i: nat)
    requires start < |path| && path[start] != '/' && '\0' !in path
    requires tokens.Length0 == MAX_PARTS && tokens.Length1 == MAX_NAME && count < MAX_PARTS
    modifies tokens
    ensures i == start + TokenLength(path[start..]) <= |path| && Holds(tokens, count, path[start..i])
    ensures forall k, j :: 0 <= k < MAX_PARTS && 0 <= j < MAX_NAME && k != count ==> tokens[k, j] == old(tokens[k, j])
  {
    var j := 0;
    i := start;
    ghost var s := path[start..];
    while At(path, i) != '/' && At(path, i) != '\0' && j < MAX_NAME - 1
      invariant 0 <= j <= TokenLength(s) && i == start + j <= |path|
      invariant forall p :: 0 <= p < j ==> tokens[count, p] == s[p]
      invariant forall k, p :: 0 <= k < MAX_PARTS && 0 <= p < MAX_NAME && k != count ==> tokens[k, p] == old(tokens[k, p])
      decreases MAX_NAME - j
    {
      assert path[i] == s[j];
      assert j < RunLength(s);
      tokens[count, j] := path[i];
      j := j + 1;
      i := i + 1;
    }
    assert i < |path| ==> path[i] == s[j];
    if j < RunLength(s) {
      assert s[..RunLength(s)][j] == s[j];
    }
    tokens[count, j] := '\0';
  }

  method SkipSlashes(path: string, start: nat, ghost room: nat) returns (i: nat)
    requires start <= |path| && '\0' !in path
    ensures start <= i <= |path| && (i < |path| ==> path[i] != '/')
    ensures Tokens(path[i..], room) == Tokens(path[start..], room)
  {
    i := start;
    while At(path, i) == '/'
      invariant start <= i <= |path| && Tokens(path[i..], room) == Tokens(path[start..], room)
      decreases |path| - i
    {
      assert path[i..][1..] == path[i + 1..] && path[i..][0] == '/';
      i := i + 1;
    }
  }

  lemma TokensStep(path: string, i: nat, room: nat)
    requires i < |path| && path[i] != '/' && room > 0
    ensures var j := i + TokenLength(path[i..]); Tokens(path[i..], room) == [path[i..j]] + Tokens(path[j..], room - 1)
  {
    var n := TokenLength(path[i..]);
    assert path[i..][n..] == path[i + n..] && path[i..][..n] == path[i..i + n];
  }

  lemma TokenTakes(path: string, i: nat)
    requires i < |path| && path[i] != '/'
    ensures TokenLength(path[i..]) > 0
  {
    assert path[i..][0] == path[i];
  }

  ghost predicate HoldAll(tokens: array2<char>, ts: seq<string>)
    requires tokens.Length0 == MAX_PARTS && tokens.Length1 == MAX_NAME && |ts| <= MAX_PARTS
    reads tokens
  {
    forall k :: 0 <= k < |ts| ==> Holds(tokens, k, ts[k])
  }

  /** One more row of the buffer is filled. */
  method StoreToken(path: string, start: nat, tokens: array2<char>, ghost done: seq<string>, count: nat)
    returns (end: nat)
    requires start < |path| && path[start] != '/' && '\0' !in path
    requires tokens.Length0 == MAX_PARTS && tokens.Length1 == MAX_NAME && count == |done| < MAX_PARTS
    requires HoldAll(tokens, done)
    modifies tokens
    ensures end == start + TokenLength(path[start..]) <= |path| && HoldAll(tokens, done + [path[start..end]])
  {
    hide TokenLength;
    end := CopyToken(path, start, tokens, count);
  }

  /** One turn of the token loop. */
  method NextToken(
    path: string, start: nat, tokens: array2<char>, count: nat, ghost done: seq<string>)
    returns (i: nat, ghost now: seq<string>)
    requires start < |path| && path[start] != '/' && '\0' !in path
    requires tokens.Length0 == MAX_PARTS && tokens.Length1 == MAX_NAME && count == |done| < MAX_PARTS
    requires HoldAll(tokens, done)
    modifies tokens
    ensures start < i <= |path| && (i < |path| ==> path[i] != '/')
    ensures |now| == |done| + 1 && HoldAll(tokens, now)
    ensures now + Tokens(path[i..], MAX_PARTS - |now|) == done + Tokens(path[start..], MAX_PARTS - |done|)
  {
    hide TokenLength, Tokens, HoldAll;
    var end := StoreToken(path, start, tokens, done, count);
    TokensStep(path, start, MAX_PARTS - |done|);
    TokenTakes(path, start);
    now := done + [path[start..end]];
    i := SkipSlashes(path, end, MAX_PARTS - |now|);
  }

  /** The root token of an absolute path. */
  method RootToken(path: string, tokens: array2<char>) returns (count: nat, ghost done: seq<string>)
    requires tokens.Length0 == MAX_PARTS && tokens.Length1 == MAX_NAME
    modifies tokens
    ensures count == |done| <= 1 && HoldAll(tokens, done) && done + Tokens(path, MAX_PARTS - |done|) == Split(path)
  {
    count, done := 0, [];
    if IsAbsolute(path) {
      tokens[0, 0], tokens[0, 1] := '/', '\0';
      count, done := 1, [ROOT];
    }
  }

  /** kvfs_split_path */
  method SplitPath(path: string, tokens: array2<char>) returns (count: nat)
    requires '\0' !in path && tokens.Length0 == MAX_PARTS && tokens.Length1 == MAX_NAME
    modifies tokens
    ensures count == |Split(path)| && HoldAll(tokens, Split(path))
  {
    hide Tokens, Split, HoldAll, TokenLength;
    ghost var done: seq<string>;
    count, done := RootToken(path, tokens);
    assert path[0..] == path;
    var i := SkipSlashes(path, 0, MAX_PARTS - |done|);
    while At(path, i) != '\0' && count < MAX_PARTS
      invariant i <= |path| && (i < |path| ==> path[i] != '/') && count == |done| <= MAX_PARTS && HoldAll(tokens, done)
      invariant done + Tokens(path[i..], MAX_PARTS - count) == Split(path)
      decreases |path| - i
    {
      i, done := NextToken(path, i, tokens, count, done);
      count := count + 1;
    }
    NoTokens(path[i..], MAX_PARTS - count);
    assert done == Split(path);
  }

  lemma NoTokens(s: string, room: nat)
    requires s == [] || room == 0
    ensures Tokens(s, room) == []
  {
  }

  // ---- What the tokens are ----

  predicate IsToken(t: string) { 0 < |t| < MAX_NAME && '/' !in t }

  lemma {:induction false} TokensAreClean(s: string, room: nat)
    ensures forall t <- Tokens(s, room) :: IsToken(t)
    ensures '\0' !in s ==> forall t <- Tokens(s, room) :: '\0' !in t
    decreases |s|
  {
    if room > 0 && s != [] {
      if s[0] == '/' {
        TokensAreClean(s[1..], room);
      } else {
        TokensAreClean(s[TokenLength(s)..], room - 1);
        var n := TokenLength(s);
        assert forall c <- s[..n] :: c in s[..RunLength(s)];
      }
    }
  }

  function NonSlash(s: string): string {
    if s == [] then [] else (if s[0] == '/' then [] else [s[0]]) + NonSlash(s[1..])
  }

  function Concat(ts: seq<string>): string {
    if ts == [] then [] else ts[0] + Concat(ts[1..])
  }

  lemma {:induction false} NonSlashOfRun(s: string, n: nat)
    requires n <= |s| && '/' !in s[..n]
    ensures NonSlash(s) == s[..n] + NonSlash(s[n..])
  {
    if n > 0 {
      assert s[0] in s[..n] && s[1..][..n - 1] == s[1..n] && forall c <- s[1..n] :: c in s[..n];
      NonSlashOfRun(s[1..], n - 1);
      assert s[1..][n - 1..] == s[n..];
      assert [s[0]] + s[1..n] == s[..n];
    } else {
      assert s[0..] == s;
    }
  }

  lemma {:induction false} TokensArePrefix(s: string, room: nat)
    ensures Concat(Tokens(s, room)) <= NonSlash(s)
    ensures |Tokens(s, room)| < room ==> Concat(Tokens(s, room)) == NonSlash(s)
    decreases |s|
  {
    if room > 0 && s != [] {
      if s[0] == '/' {
        TokensArePrefix(s[1..], room);
      } else {
        var n := TokenLength(s);
        assert forall c <- s[..n] :: c in s[..RunLength(s)];
        NonSlashOfRun(s, n);
        TokensArePrefix(s[n..], room - 1);
        assert ([s[..n]] + Tokens(s[n..], room - 1))[1..] == Tokens(s[n..], room - 1);
      }
    }
  }

  /**
   * Whatever the path: at most 16 tokens, clean but for a leading root; together they are a prefix of the path's other
   * bytes, all of them when the buffer did not fill.
   */
  lemma SplitIsClean(path: string)
    ensures var names := Names(Split(path));
      && (forall t <- names :: IsToken(t))
      && ('\0' !in path ==> forall t <- names :: '\0' !in t)
      && Concat(names) <= NonSlash(path)
      && (|Split(path)| < MAX_PARTS ==> Concat(names) == NonSlash(path))
  {
    TokensAreClean(path, MAX_PARTS);
    TokensAreClean(path, MAX_PARTS - 1);
    TokensArePrefix(path, MAX_PARTS);
    TokensArePrefix(path, MAX_PARTS - 1);
    NamesOfSplit(path);
  }

  /** The tokens after the root token. */
  function Names(ts: seq<string>): seq<string> {
    if ts != [] && IsAbsolute(ts[0]) then ts[1..] else ts
  }

  lemma NamesOfSplit(path: string)
    ensures Names(Split(path)) == Tokens(path, if IsAbsolute(path) then MAX_PARTS - 1 else MAX_PARTS)
  {
    if !IsAbsolute(path) {
      TokensAreClean(path, MAX_PARTS);
    }
  }

  /** The buffer's rows from `part` on are the names. */
  ghost predicate RowsAreNames(tokens: array2<char>, part: nat, names: seq<string>)
    requires tokens.Length0 == MAX_PARTS && tokens.Length1 == MAX_NAME && part + |names| <= MAX_PARTS
    reads tokens
  {
    forall k :: 0 <= k < |names| ==> Row(tokens, part + k) == names[k]
  }

  /** kvfs_split_path as its callers use it: `part` is 1 behind a root token. */
  method SplitNames(path: string) returns (tokens: array2<char>, count: nat, part: nat)
    requires '\0' !in path
    ensures fresh(tokens) && tokens.Length0 == MAX_PARTS && tokens.Length1 == MAX_NAME
    ensures count == |Split(path)| && part + |Names(Split(path))| == count
    ensures RowsAreNames(tokens, part, Names(Split(path)))
    ensures part == if IsAbsolute(path) then 1 else 0
    ensures count > 0 ==> Row(tokens, count - 1) == Split(path)[count - 1]
  {
    tokens := new char[MAX_PARTS, MAX_NAME];
    count := SplitPath(path, tokens);
    RootTokenOf(path);
    part := if count > 0 && tokens[0, 0] == '/' then 1 else 0;
    ghost var ts := Split(path);
    RowsAre(tokens, path);
    assert part == if IsAbsolute(path) then 1 else 0 by { if count > 0 { assert Holds(tokens, 0, ts[0]); } }
    NamesOfSplit(path);
    hide Split, Row, HoldAll;
    forall k | 0 <= k < |Names(ts)| ensures Row(tokens, part + k) == Names(ts)[k] {
      assert Names(ts)[k] == ts[part + k];
    }
  }

  lemma RootTokenOf(path: string)
    ensures var ts := Split(path);
      && (IsAbsolute(path) ==> ts != [] && ts[0] == ROOT && Names(ts) == ts[1..])
      && (!IsAbsolute(path) ==> Names(ts) == ts && (ts != [] ==> ts[0] != [] && ts[0][0] != '/'))
  {
    if !IsAbsolute(path) {
      TokensAreClean(path, MAX_PARTS);
      if Split(path) != [] { assert Split(path)[0] in Split(path); }
    }
  }

  lemma RowsAre(tokens: array2<char>, path: string)
    requires tokens.Length0 == MAX_PARTS && tokens.Length1 == MAX_NAME && HoldAll(tokens, Split(path)) && '\0' !in path
    ensures forall k :: 0 <= k < |Split(path)| ==> Row(tokens, k) == Split(path)[k]
  {
    var ts := Split(path);
    TokensAreClean(path, MAX_PARTS);
    TokensAreClean(path, MAX_PARTS - 1);
    forall k | 0 <= k < |ts| ensures Row(tokens, k) == ts[k] {
      assert Holds(tokens, k, ts[k]) && '\0' !in ts[k];
      RowIs(tokens, k, ts[k], 0);
      assert ts[k][0..] == ts[k];
    }
  }

  // ---- Within the limits: the non-empty components ----

  function Components(s: string): seq<string>
    decreases |s|
  {
    if s == [] then []
    else if s[0] == '/' then Components(s[1..])
    else [s[..RunLength(s)]] + Components(s[RunLength(s)..])
  }

  /** The tokens are the components exactly if there is room for all of them and none is too long. */
  lemma WithinLimitsIff(s: string, room: nat)
    ensures Tokens(s, room) == Components(s) <==> |Components(s)| <= room && forall t <- Components(s) :: |t| < MAX_NAME
  {
    if |Components(s)| <= room && forall t <- Components(s) :: |t| < MAX_NAME {
      WithinLimits(s, room);
    }
    TokensAreClean(s, room);
  }

  lemma {:induction false} WithinLimits(s: string, room: nat)
    requires |Components(s)| <= room && forall t <- Components(s) :: |t| < MAX_NAME
    ensures Tokens(s, room) == Components(s)
    decreases |s|
  {
    if s != [] {
      if s[0] == '/' {
        WithinLimits(s[1..], room);
      } else {
        var n := RunLength(s);
        assert s[..n] in Components(s);
        assert forall t <- Components(s[n..]) :: t in Components(s);
        WithinLimits(s[n..], room - 1);
      }
    }
  }

  lemma {:induction false} ComponentsAreShort(s: string)
    ensures forall t <- Components(s) :: |t| <= |s|
    decreases |s|
  {
    if s != [] {
      if s[0] == '/' { ComponentsAreShort(s[1..]); } else { ComponentsAreShort(s[RunLength(s)..]); }
    }
  }

  lemma {:induction false} ComponentsSpell(s: string)
    ensures Concat(Components(s)) == NonSlash(s)
    decreases |s|
  {
    if s != [] {
      if s[0] == '/' {
        ComponentsSpell(s[1..]);
      } else {
        var n := RunLength(s);
        NonSlashOfRun(s, n);
        ComponentsSpell(s[n..]);
        assert ([s[..n]] + Components(s[n..]))[1..] == Components(s[n..]);
      }
    }
  }

  lemma {:induction false} NonSlashOfSum(a: string, b: string)
    ensures NonSlash(a + b) == NonSlash(a) + NonSlash(b)
  {
    if a == [] {
      assert a + b == b;
    } else {
      assert (a + b)[1..] == a[1..] + b;
      NonSlashOfSum(a[1..], b);
    }
  }

  predicate OnlySlashes(s: string) {
    forall c <- s :: c == '/'
  }

  lemma OnlySlashesStep(s: string)
    requires s != []
    ensures OnlySlashes(s) <==> s[0] == '/' && OnlySlashes(s[1..])
  {
    assert s[0] in s && forall c <- s[1..] :: c in s;
    assert forall c <- s :: c == s[0] || c in s[1..];
  }

  lemma {:induction false} NothingButSlashes(s: string)
    ensures NonSlash(s) == [] <==> OnlySlashes(s)
  {
    if s != [] {
      NothingButSlashes(s[1..]);
      OnlySlashesStep(s);
    }
  }

  /** Slashes at the end make no component. */
  lemma {:induction false} ComponentsOfSum(a: string, b: string)
    requires OnlySlashes(b)
    ensures Components(a + b) == Components(a)
    decreases |a| + |b|
  {
    hide RunLength;
    if a == [] {
      assert a + b == b;
      if b != [] {
        OnlySlashesStep(b);
        assert b[1..] == [] + b[1..];
        ComponentsOfSum([], b[1..]);
      }
    } else if a[0] == '/' {
      assert (a + b)[0] == '/' && (a + b)[1..] == a[1..] + b;
      ComponentsOfSum(a[1..], b);
    } else {
      SameRun(a, b);
      var n := RunLength(a);
      assert (a + b)[n..] == a[n..] + b && (a + b)[..n] == a[..n];
      ComponentsOfSum(a[n..], b);
    }
  }

  lemma SameRun(a: string, b: string)
    requires OnlySlashes(b) && a != [] && a[0] != '/'
    ensures RunLength(a + b) == RunLength(a) > 0 && (a + b)[0] == a[0]
  {
    hide RunLength;
    var n := RunLength(a);
    var rest := a[n..] + b;
    assert a + b == a[..n] + rest;
    if n == |a| {
      assert rest == b;
      if b != [] { OnlySlashesStep(b); }
    } else {
      assert rest[0] == a[n];
    }
    RunOfToken(a[..n], rest);
  }

  // ---- Joining and splitting again ----

  /** Every token behind a slash. */
  function Slashed(ts: seq<string>): string {
    if ts == [] then [] else "/" + ts[0] + Slashed(ts[1..])
  }

  /** A path written from tokens. */
  function Join(ts: seq<string>): string {
    if ts == [] then []
    else if ts[0] == ROOT then "/" + Slashed(ts[1..])
    else ts[0] + Slashed(ts[1..])
  }

  lemma {:induction false} RunOfToken(t: string, rest: string)
    requires '/' !in t && (rest == [] || rest[0] == '/')
    ensures RunLength(t + rest) == |t|
  {
    hide RunLength;
    if t == [] {
      NoRun(t + rest, rest);
    } else {
      TailIsClean(t, rest);
      RunOfToken(t[1..], rest);
      RunFromTail(t[0], t + rest, t[1..] + rest);
    }
  }

  lemma NoRun(s: string, rest: string)
    requires s == [] + rest && (rest == [] || rest[0] == '/')
    ensures RunLength(s) == 0
  {
    assert s == rest;
  }

  lemma TailIsClean(t: string, rest: string)
    requires t != [] && '/' !in t
    ensures t[0] != '/' && '/' !in t[1..] && (t + rest)[0] == t[0] && (t + rest)[1..] == t[1..] + rest
  {
  }

  lemma RunFromTail(c: char, s: string, tail: string)
    requires s != [] && s[0] == c != '/' && s[1..] == tail
    ensures RunLength(s) == 1 + RunLength(tail)
  {
  }

  lemma SlashedShape(ts: seq<string>)
    ensures Slashed(ts) == [] || Slashed(ts)[0] == '/'
  {
  }

  lemma FirstOfSlashed(t: string, rest: string, room: nat)
    requires IsToken(t) && (rest == [] || rest[0] == '/') && room > 0
    ensures Tokens("/" + t + rest, room) == [t] + Tokens(rest, room - 1)
  {
    var s := t + rest;
    assert t[0] in t;
    RunOfToken(t, rest);
    assert ("/" + t + rest)[1..] == s && s[..|t|] == t && s[|t|..] == rest && s[0] == t[0];
  }

  /** Splitting slashed names gives the names back, as many as there is room for. */
  lemma {:induction false} TokensOfSlashed(ts: seq<string>, room: nat)
    requires forall t <- ts :: IsToken(t)
    ensures Tokens(Slashed(ts), room) == if |ts| <= room then ts else ts[..room]
  {
    hide Tokens;
    if room == 0 || ts == [] {
      NoTokens(Slashed(ts), room);
    } else {
      assert ts[0] in ts;
      SlashedShape(ts[1..]);
      FirstOfSlashed(ts[0], Slashed(ts[1..]), room);
      TokensOfSlashed(ts[1..], room - 1);
      assert room < |ts| ==> ts[..room] == [ts[0]] + ts[1..][..room - 1];
    }
  }

  /** Splitting what the tokens of any path spell gives the same tokens. */
  lemma SplitIsStable(path: string)
    ensures Split(Join(Split(path))) == Split(path)
  {
    var ts := Split(path);
    var names := Names(ts);
    SplitIsClean(path);
    NamesOfSplit(path);
    if IsAbsolute(path) {
      var p := "/" + Slashed(names);
      assert Join(ts) == p && p[1..] == Slashed(names);
      TokensOfSlashed(names, MAX_PARTS - 1);
    } else if ts != [] {
      assert ts[0] in ts && ts[0][0] in ts[0];
      var p := Join(ts);
      assert "/" + p == Slashed(ts) && Slashed(ts)[1..] == p;
      TokensOfSlashed(ts, MAX_PARTS);
    }
  }
}
