/** strtok_r on a buffer, and whole runs of it (src/string.c:274-301). */
module Tokenizer {
  import opened Machine
  import opened Strings

  /** The characters from `from` up to `to`. */
  datatype Run = Run(from: nat, to: nat)

  lemma ScanMoves(s: string, p: nat, d: string)
    requires p < |s| && s[p] != '\0' && s[p] !in d
    ensures Scan(s, p, d, false) > p
  {
  }

  /** The delimiter-free runs of the string at `p`, one after the other. */
  function Runs(s: string, p: nat, d: string): seq<Run>
    requires p <= |s|
    decreases |s| - p
  {
    var t := Scan(s, p, d, true);
    if t == |s| || s[t] == '\0' then []
    else
      ScanMoves(s, t, d);
      var e := Scan(s, t, d, false);
      [Run(t, e)] + Runs(s, e, d)
  }

  // ----- What a run is -----

  /** A longest stretch of the string at `p` with no delimiter in it. */
  ghost predicate MaximalRun(s: string, p: nat, d: string, r: Run) {
    && p <= r.from < r.to <= |s|
    && (forall k :: p <= k < r.to ==> s[k] != '\0')
    && (forall k :: r.from <= k < r.to ==> s[k] !in d)
    && (r.from == p || s[r.from - 1] in d)
    && (r.to == |s| || s[r.to] == '\0' || s[r.to] in d)
  }

  ghost predicate InOrder(runs: seq<Run>, p: nat) {
    && (forall i :: 0 <= i < |runs| ==> p <= runs[i].from < runs[i].to)
    && (forall i, j :: 0 <= i < j < |runs| ==> runs[i].to < runs[j].from)
  }

  lemma FirstRunIsMaximal(s: string, p: nat, d: string, r: Run)
    requires p <= |s|
    requires var t := Scan(s, p, d, true); t < |s| && s[t] != '\0'
    ensures var t := Scan(s, p, d, true); var e := Scan(s, t, d, false);
      && p <= t < e
      && (MaximalRun(s, p, d, r) <==> r == Run(t, e) || MaximalRun(s, e, d, r))
  {
    var t := Scan(s, p, d, true);
    ScanMoves(s, t, d);
    var e := Scan(s, t, d, false);
    FirstOfRun(s, p, d, r);
    FirstOfRun(s, e, d, r);
    assert t > p ==> s[t - 1] in d;
  }

  /** The runs are exactly the maximal stretches, from left to right. */
  lemma {:induction false} RunsAreMaximal(s: string, p: nat, d: string)
    requires p <= |s|
    ensures InOrder(Runs(s, p, d), p)
    ensures forall r :: r in Runs(s, p, d) <==> MaximalRun(s, p, d, r)
    decreases |s| - p
  {
    hide MaximalRun;
    var t := Scan(s, p, d, true);
    if t == |s| || s[t] == '\0' {
      forall r
        ensures !MaximalRun(s, p, d, r)
      {
        NoRun(s, p, d, r);
      }
    } else {
      ScanMoves(s, t, d);
      var e := Scan(s, t, d, false);
      RunsAreMaximal(s, e, d);
      RunsStartLater(s, e, d);
      forall r
        ensures MaximalRun(s, p, d, r) <==> r == Run(t, e) || MaximalRun(s, e, d, r)
      {
        FirstRunIsMaximal(s, p, d, r);
      }
    }
  }

  lemma NoRun(s: string, p: nat, d: string, r: Run)
    requires p <= |s|
    requires var t := Scan(s, p, d, true); t == |s| || s[t] == '\0'
    ensures !MaximalRun(s, p, d, r)
  {
    FirstOfRun(s, p, d, r);
  }

  lemma FirstOfRun(s: string, p: nat, d: string, r: Run)
    ensures MaximalRun(s, p, d, r) ==> r.from < |s| && s[r.from] !in d && s[r.from] != '\0'
  {
  }

  /** After a run comes a delimiter or the end, so the next run starts further on. */
  lemma RunsStartLater(s: string, e: nat, d: string)
    requires e <= |s| && (e == |s| || s[e] == '\0' || s[e] in d)
    requires InOrder(Runs(s, e, d), e)
    ensures forall i :: 0 <= i < |Runs(s, e, d)| ==> e < Runs(s, e, d)[i].from
  {
    var runs := Runs(s, e, d);
    if runs != [] {
      assert e < runs[0].from;
      forall i | 0 <= i < |runs|
        ensures e < runs[i].from
      {
        assert i > 0 ==> runs[0].to < runs[i].from;
      }
    }
  }

  // ----- The code -----

  /**
    * What a call does to the string at `p`: it gives the next run. At most one byte changes, the delimiter after the
    * token, and the saved position moves past the token to where the other runs are.
    */
  ghost predicate Takes(s: string, s': string, p: nat, d: string, token: Option<nat>, next: Option<nat>)
    requires p <= |s|
  {
    var runs := Runs(s, p, d);
    if runs == [] then token == next == None && s' == s
    else
      var to := runs[0].to;
      && token == Some(runs[0].from) && p <= token.value < to < |s|
      && s' == s[to := '\0']
      && next == Some(if s[to] == '\0' then to else to + 1)
      && Terminated(s, next.value) && next.value <= |s|
      && Runs(s, next.value, d) == runs[1..]
  }

  /** Where a call begins; the code reads there even if both pointers are NULL. */
  function From(str: Option<nat>, state: Option<nat>): Option<nat> { if str.Some? then str else state }

  /** `fault` says that the call reads through a null pointer. */
  method StrtokR(buf: array<char>, str: Option<nat>, delim: string, state: Option<nat>)
    returns (token: Option<nat>, next: Option<nat>, fault: bool)
    requires CStr(delim)
    requires From(str, state).Some? ==> Terminated(buf[..], From(str, state).value)
    modifies buf
    ensures fault <==> str == state == None
    ensures fault ==> buf[..] == old(buf[..])
    ensures !fault ==>
      var p := From(str, state).value;
      p <= buf.Length && Takes(old(buf[..]), buf[..], p, Text(delim), token, next)
  {
    if str.None? && state.None? {
      return None, None, true;
    }
    fault := false;
    var p := if str.Some? then str.value else state.value;
    ghost var s, d := buf[..], Text(delim);
    hide Runs, Terminated, Takes, CStr, Text;
    StartsInside(s, p);
    var skip := Strspn(buf[..], p, delim);
    var t := p + skip;
    if buf[t] == '\0' {
      NoToken(s, p, d);
      return None, None, false;
    }
    TerminatedLater(s, p, t, d, true);
    var len := Strcspn(buf[..], t, delim);
    var end := t + len;
    TokenTaken(s, p, d, t, end);
    if buf[end] == '\0' {
      next := Some(end);
    } else {
      next := Some(end + 1);
      buf[end] := '\0';
      assert buf[..] == s[end := '\0'];
    }
    token := Some(t);
  }

  lemma StartsInside(s: string, p: nat)
    requires Terminated(s, p)
    ensures p < |s|
  {
  }

  lemma NoToken(s: string, p: nat, d: string)
    requires Terminated(s, p) && p <= |s| && var t := Scan(s, p, d, true); t < |s| && s[t] == '\0'
    ensures Takes(s, s, p, d, None, None)
  {
  }

  lemma TokenTaken(s: string, p: nat, d: string, t: nat, e: nat)
    requires Terminated(s, p) && p <= |s| && t == Scan(s, p, d, true) && t < |s| && s[t] != '\0'
    requires e == Scan(s, t, d, false) && e < |s|
    ensures s[e] == '\0' ==> Takes(s, s, p, d, Some(t), Some(e))
    ensures s[e] != '\0' ==> Takes(s, s[e := '\0'], p, d, Some(t), Some(e + 1))
  {
    TerminatedLater(s, p, t, d, true);
    TerminatedLater(s, t, e, d, false);
    FirstAndOtherRuns(s, p, d, t, e);
    if s[e] == '\0' {
      assert s[e := '\0'] == s;
      TokenIsTaken(s, p, d, t, e, e);
    } else {
      RunsPastDelimiter(s, e, d);
      TokenIsTaken(s, p, d, t, e, e + 1);
    }
    hide Runs, Terminated, Scan, Takes;
  }

  lemma TokenIsTaken(s: string, p: nat, d: string, t: nat, e: nat, next: nat)
    requires p <= t < e < |s| && Runs(s, p, d) != [] && Runs(s, p, d)[0] == Run(t, e)
    requires next == (if s[e] == '\0' then e else e + 1) && Terminated(s, next)
    requires Runs(s, next, d) == Runs(s, p, d)[1..]
    ensures Takes(s, s[e := '\0'], p, d, Some(t), Some(next))
  {
    hide Runs, Terminated;
  }

  lemma FirstAndOtherRuns(s: string, p: nat, d: string, t: nat, e: nat)
    requires p <= |s| && t == Scan(s, p, d, true) && t < |s| && s[t] != '\0' && e == Scan(s, t, d, false)
    ensures var runs := Runs(s, p, d); runs != [] && runs[0] == Run(t, e) && runs[1..] == Runs(s, e, d)
    ensures e > t && (e < |s| && s[e] != '\0' ==> s[e] in d)
  {
    ScanMoves(s, t, d);
    assert Runs(s, p, d) == [Run(t, e)] + Runs(s, e, d);
  }

  lemma TerminatedLater(s: string, p: nat, q: nat, d: string, inside: bool)
    requires Terminated(s, p) && p <= |s| && q == Scan(s, p, d, inside)
    ensures q < |s| && Terminated(s, q)
    ensures s[q] != '\0' ==> Terminated(s, q + 1)
  {
  }

  lemma RunsPastDelimiter(s: string, e: nat, d: string)
    requires e < |s| && s[e] != '\0' && s[e] in d
    ensures Runs(s, e, d) == Runs(s, e + 1, d)
  {
  }

  // ----- Calling it until it returns NULL -----

  /** `s` with a NUL after each of the runs. */
  ghost function Cut(s: string, runs: seq<Run>): (c: string)
    ensures |c| == |s|
  {
    if runs == [] then s
    else
      var c, to := Cut(s, runs[..|runs| - 1]), runs[|runs| - 1].to;
      if to < |s| then c[to := '\0'] else c
  }

  lemma {:induction false} CutBytes(s: string, runs: seq<Run>, k: nat)
    requires k < |s|
    ensures (exists i :: 0 <= i < |runs| && runs[i].to == k) ==> Cut(s, runs)[k] == '\0'
    ensures (forall i :: 0 <= i < |runs| ==> runs[i].to != k) ==> Cut(s, runs)[k] == s[k]
  {
    if runs != [] {
      var n := |runs| - 1;
      CutBytes(s, runs[..n], k);
      if runs[n].to != k {
        assert forall i :: 0 <= i < n ==> runs[i] == runs[..n][i];
      }
    }
  }

  lemma {:induction false} ScanSees(s: string, s': string, p: nat, d: string, inside: bool)
    requires |s| == |s'| && p <= |s| && forall k :: p <= k < |s| ==> s'[k] == s[k]
    ensures Scan(s', p, d, inside) == Scan(s, p, d, inside)
    decreases |s| - p
  {
    if p < |s| {
      ScanSees(s, s', p + 1, d, inside);
    }
  }

  /** Bytes before `p` do not matter for the runs from `p` on. */
  lemma {:induction false} RunsSee(s: string, s': string, p: nat, d: string)
    requires |s| == |s'| && p <= |s| && forall k :: p <= k < |s| ==> s'[k] == s[k]
    ensures Runs(s', p, d) == Runs(s, p, d)
    decreases |s| - p
  {
    ScanSees(s, s', p, d, true);
    var t := Scan(s, p, d, true);
    if t < |s| && s[t] != '\0' {
      ScanMoves(s, t, d);
      ScanSees(s, s', t, d, false);
      RunsSee(s, s', Scan(s, t, d, false), d);
    }
  }

  lemma CutNothing(s: string, runs: seq<Run>)
    ensures Cut(s, runs[..0]) == s
  {
  }

  lemma SameFrom(s: string, now: string, at: nat, d: string)
    requires |now| == |s| && at <= |s| && Terminated(s, at) && forall k :: at <= k < |s| ==> now[k] == s[k]
    ensures Runs(now, at, d) == Runs(s, at, d) && Terminated(now, at)
  {
    RunsSee(s, now, at, d);
    var z :| at <= z < |s| && s[z] == '\0';
    assert now[z] == '\0';
  }

  lemma NothingTaken(now: string, now': string, at: nat, d: string, next: Option<nat>)
    requires at <= |now| && Takes(now, now', at, d, None, next)
    ensures Runs(now, at, d) == [] && now' == now && next == None
  {
  }

  lemma NextTaken(s: string, now: string, now': string, at: nat, d: string, token: Option<nat>, next: Option<nat>,
                  runs: seq<Run>, n: nat)
    requires |now| == |s| && at <= |s| && token.Some? && Takes(now, now', at, d, token, next)
    requires forall k :: at <= k < |s| ==> now[k] == s[k]
    requires n <= |runs| && Runs(s, at, d) == runs[n..] && now == Cut(s, runs[..n])
    ensures n < |runs| && token.value == runs[n].from && next.Some? && at < next.value <= |s|
    ensures Terminated(s, next.value) && Runs(s, next.value, d) == runs[n + 1..]
    ensures now' == Cut(s, runs[..n + 1])
    ensures |now'| == |s| && forall k :: next.value <= k < |s| ==> now'[k] == s[k]
  {
    hide Runs, Scan;
    RunsSee(s, now, at, d);
    RunsSee(s, now, next.value, d);
    assert runs[n..][0] == runs[n] && runs[n..][1..] == runs[n + 1..];
    assert runs[..n + 1][..n] == runs[..n];
    var z :| next.value <= z < |now| && now[z] == '\0';
    assert s[z] == '\0';
  }

  /** Calls strtok_r with one set of delimiters until it returns NULL; the tokens are pointers into the buffer. */
  method Tokenize(buf: array<char>, delim: string) returns (tokens: seq<nat>)
    requires CStr(delim) && Terminated(buf[..], 0)
    modifies buf
    ensures var runs := Runs(old(buf[..]), 0, Text(delim));
      && |tokens| == |runs| && (forall i :: 0 <= i < |runs| ==> tokens[i] == runs[i].from)
      && buf[..] == Cut(old(buf[..]), runs)
  {
    hide Runs, Terminated, Takes, CStr, Text, Cut;
    ghost var s, d := buf[..], Text(delim);
    ghost var runs := Runs(s, 0, d);
    ghost var at: nat := 0;
    tokens := [];
    CutNothing(s, runs);
    var str: Option<nat>, state: Option<nat> := Some(0), None;
    while true
      invariant str.Some? || state.Some?
      invariant at == (if str.Some? then str.value else state.value) <= |s| == buf.Length
      invariant |tokens| <= |runs| && forall i :: 0 <= i < |tokens| ==> tokens[i] == runs[i].from
      invariant Runs(s, at, d) == runs[|tokens|..] && Terminated(s, at)
      invariant buf[..] == Cut(s, runs[..|tokens|])
      invariant forall k :: at <= k < |s| ==> buf[k] == s[k]
      decreases |runs| - |tokens|
    {
      ghost var now := buf[..];
      SameFrom(s, now, at, d);
      var token, next, _ := StrtokR(buf, str, delim, state);
      if token.None? {
        NothingTaken(now, buf[..], at, d, next);
        assert runs[..|tokens|] == runs;
        return;
      }
      NextTaken(s, now, buf[..], at, d, token, next, runs, |tokens|);
      tokens := tokens + [token.value];
      str, state, at := None, next, next.value;
    }
  }

  /**
    * Calls strtok_r `times` times, first with the string and then with NULL. After the last token the standard promises
    * NULL from every call (section 7.24.5.8 of ISO/IEC 9899:2011); the code gives it once, and the next call faults.
    */
  method CallTimes(buf: array<char>, delim: string, times: nat) returns (results: seq<Option<nat>>, fault: bool)
    requires CStr(delim) && Terminated(buf[..], 0)
    modifies buf
    ensures var runs := Runs(old(buf[..]), 0, Text(delim));
      && (fault <==> times > |runs| + 1)
      && |results| == (if fault then |runs| + 1 else times)
      && (forall i :: 0 <= i < |results| ==> results[i] == if i < |runs| then Some(runs[i].from) else None)
      && buf[..] == Cut(old(buf[..]), runs[..Min(times, |runs|)])
  {
    hide Runs, Terminated, Takes, CStr, Text, Cut;
    ghost var s, d := buf[..], Text(delim);
    ghost var runs := Runs(s, 0, d);
    ghost var at: nat := 0;
    results := [];
    CutNothing(s, runs);
    var str: Option<nat>, state: Option<nat> := Some(0), None;
    while |results| < times
      invariant |results| <= times && |results| <= |runs| + 1 && |s| == buf.Length
      invariant forall i :: 0 <= i < |results| ==> results[i] == if i < |runs| then Some(runs[i].from) else None
      invariant |results| <= |runs| ==>
        && From(str, state) == Some(at) && at <= |s|
        && Runs(s, at, d) == runs[|results|..] && Terminated(s, at)
        && (forall k :: at <= k < |s| ==> buf[k] == s[k])
      invariant |results| > |runs| ==> str == state == None
      invariant buf[..] == Cut(s, runs[..Min(|results|, |runs|)])
    {
      ghost var now := buf[..];
      if str.Some? || state.Some? {
        SameFrom(s, now, at, d);
      }
      var token;
      token, state, fault := StrtokR(buf, str, delim, state);
      if fault {
        return;
      }
      if token.Some? {
        NextTaken(s, now, buf[..], at, d, token, state, runs, |results|);
        at := state.value;
      } else {
        NothingTaken(now, buf[..], at, d, state);
      }
      results := results + [token];
      str := None;
    }
    fault := false;
  }

  /**
    * What the tokens of a whole run of calls are: the maximal delimiter-free runs of the original string, in order.
    * Each token reads as its run did, and only the bytes ending the runs are different, now NUL.
    */
  lemma TokensAreMaximalRuns(s: string, d: string)
    requires Terminated(s, 0)
    ensures var (runs, c) := (Runs(s, 0, d), Cut(s, Runs(s, 0, d)));
      && InOrder(runs, 0)
      && (forall r :: r in runs <==> MaximalRun(s, 0, d, r))
      && (forall r :: r in runs ==> r.to < |s| && c[r.from..r.to] == s[r.from..r.to] && c[r.to] == '\0')
      && (forall k :: 0 <= k < |s| && c[k] != s[k] ==> c[k] == '\0' && exists r :: r in runs && r.to == k)
  {
    var (runs, c) := (Runs(s, 0, d), Cut(s, Runs(s, 0, d)));
    RunsAreMaximal(s, 0, d);
    hide Runs, Cut, InOrder;
    forall r | r in runs
      ensures r.to < |s| && c[r.from..r.to] == s[r.from..r.to] && c[r.to] == '\0'
    {
      EndsInside(s, d, r);
      TokenReads(s, runs, r);
    }
    hide MaximalRun;
    forall k | 0 <= k < |s| && c[k] != s[k]
      ensures c[k] == '\0' && exists r :: r in runs && r.to == k
    {
      OnlyEndsDiffer(s, runs, k);
    }
  }

  /** A run reads as before when NULs are put behind the runs. */
  lemma TokenReads(s: string, runs: seq<Run>, r: Run)
    requires InOrder(runs, 0) && r in runs && r.to < |s|
    ensures r.from <= r.to && Cut(s, runs)[r.from..r.to] == s[r.from..r.to] && Cut(s, runs)[r.to] == '\0'
  {
    var i :| 0 <= i < |runs| && runs[i] == r;
    CutBytes(s, runs, r.to);
    forall k | r.from <= k < r.to
      ensures Cut(s, runs)[k] == s[k]
    {
      CutBytes(s, runs, k);
      NoEndInside(runs, i, k);
    }
    hide Cut;
  }

  lemma OnlyEndsDiffer(s: string, runs: seq<Run>, k: nat)
    requires k < |s| && Cut(s, runs)[k] != s[k]
    ensures Cut(s, runs)[k] == '\0' && exists r :: r in runs && r.to == k
  {
    CutBytes(s, runs, k);
    var i :| 0 <= i < |runs| && runs[i].to == k;
    assert runs[i] in runs;
  }

  lemma EndsInside(s: string, d: string, r: Run)
    requires Terminated(s, 0) && MaximalRun(s, 0, d, r)
    ensures r.to < |s|
  {
  }

  lemma NoEndInside(runs: seq<Run>, i: nat, k: nat)
    requires InOrder(runs, 0) && i < |runs| && runs[i].from <= k < runs[i].to
    ensures forall j :: 0 <= j < |runs| ==> runs[j].to != k
  {
    forall j | 0 <= j < |runs|
      ensures runs[j].to != k
    {
      assert j < i ==> runs[j].to < runs[i].from;
      assert i < j ==> runs[i].to < runs[j].from;
    }
  }
}
