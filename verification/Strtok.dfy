/**
  strtok of Userland/string.c over one buffer.  The static pointer is an index into the buffer; the
  buffer is cut up in place.
 */
module Strtok {
  import opened Options
  import opened Numerals

  // ---------- Runs of a text ----------

  /** The first place from p on that is no delimiter. */
  function SkipFrom(s: string, d: string, p: nat): (q: nat)
    requires p <= |s|
    ensures p <= q <= |s| && (q < |s| ==> s[q] !in d)
    ensures forall k | p <= k < q :: s[k] in d
    decreases |s| - p
  {
    if p == |s| || s[p] !in d then p else SkipFrom(s, d, p + 1)
  }

  /** The first place from p on that is a delimiter, or the end. */
  function TakeFrom(s: string, d: string, p: nat): (q: nat)
    requires p <= |s|
    ensures p <= q <= |s| && (q < |s| ==> s[q] in d)
    ensures forall k | p <= k < q :: s[k] !in d
    decreases |s| - p
  {
    if p == |s| || s[p] in d then p else TakeFrom(s, d, p + 1)
  }

  lemma {:induction false} SkipIs(s: string, d: string, p: nat, q: nat)
    requires p <= q <= |s| && (q < |s| ==> s[q] !in d)
    requires forall k | p <= k < q :: s[k] in d
    ensures SkipFrom(s, d, p) == q
    decreases q - p
  {
    if p < q { SkipIs(s, d, p + 1, q); }
  }

  lemma {:induction false} TakeIs(s: string, d: string, p: nat, q: nat)
    requires p <= q <= |s| && (q < |s| ==> s[q] in d)
    requires forall k | p <= k < q :: s[k] !in d
    ensures TakeFrom(s, d, p) == q
    decreases q - p
  {
    if p < q { TakeIs(s, d, p + 1, q); }
  }

  datatype Run = Run(from: nat, to: nat)

  /** Where the search goes on after a token that ended at e. */
  function After(s: string, e: nat): nat { if e < |s| then e + 1 else e }

  /** The tokens that one call after the other finds from p on. */
  function Runs(s: string, d: string, p: nat): (r: seq<Run>)
    requires p <= |s|
    decreases |s| - p
  {
    var q := SkipFrom(s, d, p);
    if q == |s| then []
    else
      var e := TakeFrom(s, d, q);
      [Run(q, e)] + Runs(s, d, After(s, e))
  }

  /** A maximal run of characters that are no delimiters. */
  predicate Maximal(s: string, d: string, r: Run) {
    && r.from < r.to <= |s|
    && s[r.from] !in d && (forall k | r.from <= k < r.to :: s[k] !in d)
    && (r.from > 0 ==> s[r.from - 1] in d)
    && (r.to < |s| ==> s[r.to] in d)
  }

  /** A place where a token may start: the front, the end, or behind a delimiter. */
  predicate Boundary(s: string, d: string, p: nat) {
    p == 0 || p == |s| || (p < |s| && s[p - 1] in d)
  }

  /** The tokens are exactly the maximal runs, whoever asks for them in whatever order of places. */
  lemma {:induction false} RunsAreMaximal(s: string, d: string, p: nat, r: Run)
    requires p <= |s| && Boundary(s, d, p)
    ensures r in Runs(s, d, p) <==> Maximal(s, d, r) && p <= r.from
    decreases |s| - p
  {
    var q := SkipFrom(s, d, p);
    if q < |s| {
      var e := TakeFrom(s, d, q);
      RunsAreMaximal(s, d, After(s, e), r);
      FirstRun(s, d, p, r);
    }
  }

  /** Of the maximal runs from p on, one starts where strtok stops skipping, the others behind its end. */
  lemma FirstRun(s: string, d: string, p: nat, r: Run)
    requires p <= |s| && Boundary(s, d, p) && SkipFrom(s, d, p) < |s|
    ensures var q := SkipFrom(s, d, p); var e := TakeFrom(s, d, q);
      && q < e && Boundary(s, d, After(s, e))
      && (Maximal(s, d, r) && p <= r.from <==> r == Run(q, e) || (Maximal(s, d, r) && After(s, e) <= r.from))
  {
    var q := SkipFrom(s, d, p);
    var e := TakeFrom(s, d, q);
    assert Maximal(s, d, Run(q, e));
    if Maximal(s, d, r) && p <= r.from {
      assert s[r.from] !in d;
      assert r.from >= q;
      if r.from == q {
        TakeIs(s, d, q, r.to);
      }
    }
  }

  /** They come in order, apart from each other. */
  lemma {:induction false} RunsAreOrdered(s: string, d: string, p: nat)
    requires p <= |s|
    ensures forall i | 0 <= i < |Runs(s, d, p)| :: p <= Runs(s, d, p)[i].from < Runs(s, d, p)[i].to <= |s|
    ensures forall i, j | 0 <= i < j < |Runs(s, d, p)| :: Runs(s, d, p)[i].to < Runs(s, d, p)[j].from
    decreases |s| - p
  {
    var q := SkipFrom(s, d, p);
    if q < |s| {
      var e := TakeFrom(s, d, q);
      assert q < e;
      RunsAreOrdered(s, d, After(s, e));
    }
  }

  // ---------- The function ----------

  /** The token that a call finds from p on. */
  function FirstFrom(s: string, d: string, p: nat): (r: Option<Run>)
    requires p <= |s|
    ensures r.Some? ==> p <= r.value.from < r.value.to <= |s|
  {
    var q := SkipFrom(s, d, p);
    if q == |s| then None else Some(Run(q, TakeFrom(s, d, q)))
  }

  /** Where the string at p ends. */
  function End(b: seq<char>, p: nat): (e: nat)
    requires p <= |b| && '\0' in b[p..]
    ensures p <= e < |b| && b[e] == '\0' && '\0' !in b[p..e]
  {
    assert b[p..][..Len(b[p..])] == b[p..p + Len(b[p..])];
    p + Len(b[p..])
  }

  /** From p on there is text up to its NUL at e. */
  ghost predicate TextTo(b: seq<char>, p: nat, e: nat) {
    p <= e < |b| && b[e] == '\0' && forall k | p <= k < e :: b[k] != '\0'
  }

  lemma EndIs(b: seq<char>, p: nat)
    requires p <= |b| && '\0' in b[p..]
    ensures TextTo(b, p, End(b, p))
  {
    var e := End(b, p);
    forall k | p <= k < e ensures b[k] != '\0' {
      assert b[p..e][k - p] in b[p..e];
    }
  }

  class Tokenizer {
    const buffer: array<char>
    var token: Option<nat>

    constructor (buffer: array<char>)
      ensures this.buffer == buffer && token == None
    {
      this.buffer := buffer;
      token := None;
    }

    /** There is a string at p. */
    ghost predicate StringAt(p: nat)
      reads this, buffer
    {
      p <= buffer.Length && '\0' in buffer[p..]
    }

    /** The inner loop over the delimiters. */
    method IsDelimiter(c: char, delim: string) returns (found: bool)
      ensures found <==> c in delim
    {
      found := false;
      var i := 0;
      while i < |delim|
        invariant 0 <= i <= |delim| && c !in delim[..i]
      {
        if c == delim[i] { return true; }
        i := i + 1;
      }
      assert delim[..i] == delim;
    }

    method SkipDelimiters(delim: string, p: nat, ghost e: nat) returns (q: nat)
      requires TextTo(buffer[..], p, e)
      ensures q == SkipFrom(buffer[..e], delim, p)
    {
      q := p;
      while buffer[q] != '\0'
        invariant p <= q <= e
        invariant forall k | p <= k < q :: buffer[k] in delim
        decreases e - q
      {
        var found := IsDelimiter(buffer[q], delim);
        if !found { break; }
        q := q + 1;
      }
      SkipIs(buffer[..e], delim, p, q);
    }

    /** The end of the token that starts at p. */
    method TokenEnd(delim: string, p: nat, ghost e: nat) returns (q: nat)
      requires TextTo(buffer[..], p, e)
      ensures q == TakeFrom(buffer[..e], delim, p)
    {
      q := p;
      while buffer[q] != '\0'
        invariant p <= q <= e
        invariant forall k | p <= k < q :: buffer[k] !in delim
        decreases e - q
      {
        var found := IsDelimiter(buffer[q], delim);
        if found { break; }
        q := q + 1;
      }
      TakeIs(buffer[..e], delim, p, q);
    }

    /**
      One call, from str or, with NULL, from where the last call stopped: the next token, cut off with
      a NUL where it ends, or NULL once only delimiters are left.
     */
    method Strtok(str: Option<nat>, delim: string) returns (result: Option<nat>)
      requires '\0' !in delim
      requires str.Some? ==> StringAt(str.value)
      requires str.None? && token.Some? ==> StringAt(token.value)
      modifies this, buffer
      ensures str == None && old(token) == None ==>
        result == None && token == None && buffer[..] == old(buffer[..])
      ensures var from := if str.Some? then str else old(token);
        from.Some? ==> Effect(old(buffer[..]), delim, from.value, result)
    {
      if str.Some? { token := str; }
      if token == None { return None; }
      ghost var p := token.value;
      assert buffer[p..] == buffer[..][p..];
      ghost var e := End(buffer[..], p);
      EndIs(buffer[..], p);
      assert buffer[..e] == buffer[..][..e];
      var q := SkipDelimiters(delim, token.value, e);
      token := Some(q);
      if buffer[q] == '\0' { return None; }
      CutToken(delim, q, e);
      result := Some(q);
    }

    /** The second half: the token at the pointer is cut off, and the pointer moves behind it. */
    method CutToken(delim: string, q: nat, ghost e: nat)
      requires token == Some(q) && TextTo(buffer[..], q, e)
      modifies this, buffer
      ensures var t := TakeFrom(old(buffer[..])[..e], delim, q);
        buffer[..] == old(buffer[..])[t := '\0'] && token == Some(After(old(buffer[..])[..e], t))
    {
      ghost var b := buffer[..];
      assert buffer[..e] == b[..e];
      var t := TokenEnd(delim, q, e);
      if buffer[t] != '\0' {
        buffer[t] := '\0';
        token := Some(t + 1);
      } else {
        token := Some(t);
      }
      assert buffer[..] == b[t := '\0'];
    }

    /** What a call that starts at p does to buffer and pointer, and what it returns. */
    ghost predicate Effect(b: seq<char>, delim: string, p: nat, result: Option<nat>)
      requires p <= |b| && '\0' in b[p..]
      reads this, buffer
    {
      var e := End(b, p);
      match FirstFrom(b[..e], delim, p)
      case None => result == None && token == Some(e) && buffer[..] == b
      case Some(r) => result == Some(r.from) && token == Some(After(b[..e], r.to)) && buffer[..] == b[r.to := '\0']
    }
  }

  // ---------- Call after call ----------

  /** In b the token stands as it did in the text s, closed by a NUL. */
  predicate CutOff(b: seq<char>, s: string, r: Run) {
    r.from <= r.to <= |s| && r.to < |b| && b[r.from..r.to] == s[r.from..r.to] && b[r.to] == '\0'
  }

  ghost predicate AllCutOff(b: seq<char>, s: string, runs: seq<Run>) {
    forall i | 0 <= i < |runs| :: CutOff(b, s, runs[i])
  }

  ghost predicate AllBefore(runs: seq<Run>, p: nat) {
    forall i | 0 <= i < |runs| :: runs[i].to <= p
  }

  /** Storing at t behind p leaves the tokens that ended by then as they are. */
  lemma StaysCutOff(b: seq<char>, s: string, runs: seq<Run>, p: nat, t: nat)
    requires AllCutOff(b, s, runs) && AllBefore(runs, p) && p < t < |b|
    ensures AllCutOff(b[t := '\0'], s, runs)
  {
    forall i | 0 <= i < |runs| ensures CutOff(b[t := '\0'], s, runs[i]) {
      var r := runs[i];
      assert CutOff(b, s, r);
      assert b[t := '\0'][r.from..r.to] == b[r.from..r.to];
    }
  }

  /** What is left in the buffer: from p on still the text, up to its end at e. */
  ghost predicate Rest(b: seq<char>, s: string, p: nat) {
    && p <= |s| < |b| && b[|s|] == '\0' && '\0' !in s
    && forall k | p <= k < |s| :: b[k] == s[k]
  }

  lemma RestEnds(b: seq<char>, s: string, p: nat)
    requires Rest(b, s, p)
    ensures '\0' in b[p..] && End(b, p) == |s|
  {
    var tail := s[p..];
    assert tail <= b[p..] && b[p..][|tail|] == '\0';
    forall k | 0 <= k < |tail| ensures tail[k] != '\0' {
      assert s[p + k] in s;
    }
    TextIs(b[p..], tail);
  }

  /** Searching the buffer from p on is searching the text. */
  lemma {:induction false} SameSearch(b: string, s: string, d: string, p: nat)
    requires |b| == |s| && p <= |s| && b[p..] == s[p..]
    ensures SkipFrom(b, d, p) == SkipFrom(s, d, p) && TakeFrom(b, d, p) == TakeFrom(s, d, p)
    decreases |s| - p
  {
    if p < |s| {
      assert b[p] == b[p..][0] && s[p] == s[p..][0];
      assert b[p + 1..] == b[p..][1..] && s[p + 1..] == s[p..][1..];
      SameSearch(b, s, d, p + 1);
    }
  }

  lemma Untouched(b: seq<char>, s: string, p: nat, from: nat, to: nat)
    requires Rest(b, s, p) && p <= from <= to <= |s|
    ensures b[from..to] == s[from..to]
  {
  }

  /** Cutting off a token at e, behind q: it stands as in the text, and so does the text behind it. */
  lemma CutOne(b: seq<char>, s: string, p: nat, q: nat, e: nat)
    requires Rest(b, s, p) && p <= q <= e <= |s|
    ensures CutOff(b[e := '\0'], s, Run(q, e)) && Rest(b[e := '\0'], s, After(s, e))
  {
    var after := b[e := '\0'];
    Untouched(b, s, p, q, e);
    Untouched(b, s, p, After(s, e), |s|);
    assert after[q..e] == b[q..e];
    assert after[After(s, e)..|s|] == b[After(s, e)..|s|];
  }

  lemma OneMoreCut(b: seq<char>, s: string, runs: seq<Run>, r: Run)
    requires AllCutOff(b, s, runs) && CutOff(b, s, r)
    ensures AllCutOff(b, s, runs + [r])
  {
  }

  /** The tokens cut off so far, all before p, and the text from p on. */
  ghost predicate Cutting(b: seq<char>, s: string, p: nat, runs: seq<Run>) {
    Rest(b, s, p) && AllCutOff(b, s, runs) && AllBefore(runs, p)
  }

  /** Buffer b, pointer and result after a call that started at p, with the tokens of runs cut off before. */
  ghost predicate Answered(b: seq<char>, pointer: Option<nat>, token: Option<nat>, s: string, d: string, p: nat,
                           runs: seq<Run>) {
    p <= |s| &&
    match FirstFrom(s, d, p)
    case None => token == None && pointer == Some(|s|) && AllCutOff(b, s, runs)
    case Some(r) =>
      token == Some(r.from) && pointer == Some(After(s, r.to)) && Cutting(b, s, After(s, r.to), runs + [r])
  }

  lemma RunsStep(s: string, d: string, p: nat, runs: seq<Run>)
    requires p <= |s|
    ensures match FirstFrom(s, d, p)
      case None => runs + Runs(s, d, p) == runs
      case Some(r) => runs + Runs(s, d, p) == (runs + [r]) + Runs(s, d, After(s, r.to))
  {
  }

  lemma FirstInBuffer(b: seq<char>, s: string, d: string, p: nat)
    requires Rest(b, s, p)
    ensures '\0' in b[p..] && End(b, p) == |s| && FirstFrom(b[..|s|], d, p) == FirstFrom(s, d, p)
  {
    RestEnds(b, s, p);
    SameSearch(b[..|s|], s, d, p);
    var q := SkipFrom(s, d, p);
    SameSearch(b[..|s|], s, d, q);
  }

  lemma CutFirst(b: seq<char>, s: string, p: nat, runs: seq<Run>, r: Run)
    requires Cutting(b, s, p, runs) && p <= r.from < r.to <= |s|
    ensures Cutting(b[r.to := '\0'], s, After(s, r.to), runs + [r])
  {
    StaysCutOff(b, s, runs, p, r.to);
    CutOne(b, s, p, r.from, r.to);
    OneMoreCut(b[r.to := '\0'], s, runs, r);
  }

  /** One call of strtok, in terms of the text that was given. */
  method Next(tokenizer: Tokenizer, str: Option<nat>, delim: string, ghost s: string, ghost p: nat,
              ghost runs: seq<Run>)
    returns (token: Option<nat>)
    requires Cutting(tokenizer.buffer[..], s, p, runs) && '\0' !in delim
    requires str == Some(p) || (str == None && tokenizer.token == Some(p))
    modifies tokenizer, tokenizer.buffer
    ensures Answered(tokenizer.buffer[..], tokenizer.token, token, s, delim, p, runs)
  {
    ghost var b := tokenizer.buffer[..];
    FirstInBuffer(b, s, delim, p);
    assert tokenizer.buffer[p..] == b[p..];
    token := tokenizer.Strtok(str, delim);
    ghost var first := FirstFrom(s, delim, p);
    if first.Some? {
      CutFirst(b, s, p, runs, first.value);
    }
  }

  /**
    Calling strtok in a loop until it returns NULL, as Userland/programs/sh.c does for the words of a
    command: it returns the maximal delimiter-free runs of the text, each once and in order, each closed
    by a NUL with its characters unchanged; and the pointer rests at the end.
   */
  method Split(tokenizer: Tokenizer, delim: string) returns (tokens: seq<nat>, ghost runs: seq<Run>)
    requires '\0' in tokenizer.buffer[..] && '\0' !in delim
    modifies tokenizer, tokenizer.buffer
    ensures var s := Text(old(tokenizer.buffer[..]));
      && runs == Runs(s, delim, 0) && |tokens| == |runs|
      && (forall i | 0 <= i < |tokens| :: tokens[i] == runs[i].from)
      && AllCutOff(tokenizer.buffer[..], s, runs)
      && tokenizer.token == Some(|s|)
  {
    ghost var s := Text(tokenizer.buffer[..]);
    ghost var p := 0;
    tokens, runs := [], [];
    var token := Next(tokenizer, Some(0), delim, s, 0, []);
    while token != None
      invariant Answered(tokenizer.buffer[..], tokenizer.token, token, s, delim, p, runs)
      invariant runs + Runs(s, delim, p) == Runs(s, delim, 0)
      invariant |tokens| == |runs| && forall i | 0 <= i < |tokens| :: tokens[i] == runs[i].from
      decreases |s| - p, token.Some?
    {
      RunsStep(s, delim, p, runs);
      ghost var r := FirstFrom(s, delim, p).value;
      tokens, runs, p := tokens + [token.value], runs + [r], After(s, r.to);
      token := Next(tokenizer, None, delim, s, p, runs);
    }
    RunsStep(s, delim, p, runs);
  }

  /** Once the pointer rests at the end, every call with NULL returns NULL and changes nothing, for ever. */
  method AgainAndAgain(tokenizer: Tokenizer, delims: seq<string>, ghost e: nat) returns (results: seq<Option<nat>>)
    requires forall i | 0 <= i < |delims| :: '\0' !in delims[i]
    requires tokenizer.token == Some(e) && e < tokenizer.buffer.Length && tokenizer.buffer[e] == '\0'
    modifies tokenizer, tokenizer.buffer
    ensures |results| == |delims| && forall i | 0 <= i < |results| :: results[i] == None
    ensures tokenizer.token == Some(e) && tokenizer.buffer[..] == old(tokenizer.buffer[..])
  {
    results := [];
    var i := 0;
    while i < |delims|
      invariant 0 <= i <= |delims| && |results| == i
      invariant forall k | 0 <= k < i :: results[k] == None
      invariant tokenizer.token == Some(e) && tokenizer.buffer[..] == old(tokenizer.buffer[..])
    {
      ghost var b := tokenizer.buffer[..];
      assert b[e] == old(tokenizer.buffer[..])[e] == b[e..][0];
      assert End(b, e) == e;
      var r := tokenizer.Strtok(None, delims[i]);
      results := results + [r];
      i := i + 1;
    }
  }
}
