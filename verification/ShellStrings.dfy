/**
 gettoken's loops and nulterminate of user/sh.c on the line in memory: after the marks
 are set, every argument and file name is a NUL-terminated string equal to its token.
 */
module ShellStrings {
  import opened ShellParser
  import Grammar = ShellGrammar

  // ---------- places in a line ----------

  /** t is the end of r. */
  predicate Tail(r: string, t: string) { |t| <= |r| && t == r[|r| - |t|..] }

  lemma TailTrans(r: string, s: string, t: string)
    requires Tail(r, s) && Tail(s, t)
    ensures Tail(r, t)
  {
  }

  lemma SkipTail(r: string)
    ensures Tail(r, SkipWs(r))
  {
    SkipSuffix(r);
  }

  lemma DropTail(r: string, n: nat)
    requires n <= |r|
    ensures Tail(r, r[n..]) && Tail(r, SkipWs(r[n..]))
  {
    SkipTail(r[n..]);
    TailTrans(r, r[n..], SkipWs(r[n..]));
  }

  lemma TokenTail(r: string)
    ensures Tail(r, GetToken(r).rest) && Tail(r, SkipWs(r))
  {
    hide SkipWs, WordLen, Tail;
    SkipTail(r);
    var s := SkipWs(r);
    if s != [] {
      DropTail(s, 1);
      if |s| > 1 { DropTail(s, 2); }
      DropTail(s, WordLen(s));
      TailTrans(r, s, GetToken(r).rest);
    }
  }

  /** The span is a word of the line, and the line does not go on with a word character behind it. */
  ghost predicate SpanOk(s: string, p: Span) {
    p.eq < p.q <= |s| && IsWord(Cut(s, p.q, p.eq)) && (p.eq > 0 ==> !WordChar(s[|s| - p.eq]))
  }

  lemma SpanTail(r: string, t: string, p: Span)
    requires Tail(r, t) && SpanOk(t, p)
    ensures SpanOk(r, p)
  {
    assert Cut(r, p.q, p.eq) == Cut(t, p.q, p.eq);
    assert p.eq > 0 ==> r[|r| - p.eq] == t[|t| - p.eq];
  }

  ghost predicate SpansOk(s: string, c: Cmd) {
    match c
    case ExecCmd(args) => forall i :: 0 <= i < |args| ==> SpanOk(s, args[i])
    case RedirCmd(d, f, m) => SpansOk(s, d) && SpanOk(s, f)
    case PipeCmd(l, r) => SpansOk(s, l) && SpansOk(s, r)
    case ListCmd(l, r) => SpansOk(s, l) && SpansOk(s, r)
    case BackCmd(d) => SpansOk(s, d)
  }

  lemma {:induction false} SpansTail(r: string, t: string, c: Cmd)
    requires Tail(r, t) && SpansOk(t, c)
    ensures SpansOk(r, c)
  {
    hide SpanOk;
    match c
    case ExecCmd(args) =>
      forall i | 0 <= i < |args| ensures SpanOk(r, args[i]) {
        SpanTail(r, t, args[i]);
      }
    case RedirCmd(d, f, m) => SpansTail(r, t, d); SpanTail(r, t, f);
    case PipeCmd(a, b) => SpansTail(r, t, a); SpansTail(r, t, b);
    case ListCmd(a, b) => SpansTail(r, t, a); SpansTail(r, t, b);
    case BackCmd(d) => SpansTail(r, t, d);
  }

  ghost predicate TargetsOk(s: string, l: seq<Target>) {
    forall i :: 0 <= i < |l| ==> SpanOk(s, l[i].file)
  }

  lemma {:induction false} WrapOk(s: string, c: Cmd, l: seq<Target>)
    requires SpansOk(s, c) && TargetsOk(s, l)
    ensures SpansOk(s, Wrap(c, l))
    decreases |l|
  {
    hide SpanOk;
    if l != [] {
      WrapOk(s, RedirCmd(c, l[0].file, l[0].mode), l[1..]);
    }
  }

  // ---------- every span the parser records is a word ----------

  lemma {:induction false} RedirsOkay(r: string)
    ensures var x := ParseRedirs(r); x.RedirsOk? ==> Tail(r, x.rest) && TargetsOk(r, x.list)
    decreases |r|
  {
    hide SkipWs, GetToken, SpanOk, Tail;
    var s := SkipWs(r);
    TokenTail(r);
    if Peek(r, {'<', '>'}) {
      var t := GetToken(s);
      var u := GetToken(t.rest);
      TokenTail(s);
      TokenTail(t.rest);
      TailTrans(r, s, t.rest);
      TailTrans(r, t.rest, u.rest);
      if u.tok == Word {
        TokenSpan(t.rest);
        SpanTail(r, t.rest, Span(u.q, u.eq));
        RedirsOkay(u.rest);
        var x := ParseRedirs(u.rest);
        if x.RedirsOk? {
          TailTrans(r, u.rest, x.rest);
          TargetsTail(r, u.rest, x.list);
        }
      }
    }
  }

  lemma TokenSpan(r: string)
    requires GetToken(r).tok == Word
    ensures SpanOk(r, Span(GetToken(r).q, GetToken(r).eq))
  {
    TokenIsWord(r);
  }

  lemma TargetsTail(r: string, t: string, l: seq<Target>)
    requires Tail(r, t) && TargetsOk(t, l)
    ensures TargetsOk(r, l)
  {
    hide SpanOk;
    forall i | 0 <= i < |l| ensures SpanOk(r, l[i].file) {
      SpanTail(r, t, l[i].file);
    }
  }

  ghost predicate ArgsFit(s: string, args: seq<Span>) {
    forall i :: 0 <= i < |args| ==> SpanOk(s, args[i])
  }

  lemma {:induction false} ArgsOkay(whole: string, args: seq<Span>, list: seq<Target>, r: string)
    requires Tail(whole, r) && ArgsFit(whole, args) && TargetsOk(whole, list)
    ensures var x := ParseArgs(args, list, r); x.ArgsOk? ==>
              Tail(whole, x.rest) && ArgsFit(whole, x.args) && TargetsOk(whole, x.list)
    decreases |r|
  {
    hide SkipWs, GetToken, SpanOk, Tail, ParseRedirs;
    var s := SkipWs(r);
    TokenTail(r);
    TailTrans(whole, r, s);
    if !Peek(r, {'|', ')', '&', ';'}) {
      var t := GetToken(s);
      TokenTail(s);
      TailTrans(whole, s, t.rest);
      if t.tok == Word && |args| + 1 < MAXARGS {
        TokenSpan(s);
        SpanTail(whole, s, Span(t.q, t.eq));
        RedirsOkay(t.rest);
        var x := ParseRedirs(t.rest);
        if x.RedirsOk? {
          TailTrans(whole, t.rest, x.rest);
          TargetsTail(whole, t.rest, x.list);
          ArgsOkay(whole, args + [Span(t.q, t.eq)], list + x.list, x.rest);
        }
      }
    }
  }

  ghost predicate Fine(r: string, x: Parsed) { x.Ok? ==> Tail(r, x.rest) && SpansOk(r, x.cmd) }

  lemma {:induction false} ExecOkay(r: string)
    ensures Fine(r, ParseExec(r))
    decreases |r|, 1
  {
    hide SkipWs, GetToken, SpanOk, Tail, ParseRedirs, ParseArgs, ParseBlock, Wrap;
    var s := SkipWs(r);
    TokenTail(r);
    if Peek(r, {'('}) {
      BlockOkay(s);
      FineTail(r, s, ParseBlock(s));
    } else {
      RedirsOkay(s);
      var x := ParseRedirs(s);
      if x.RedirsOk? {
        TailTrans(r, s, x.rest);
        TargetsTail(r, s, x.list);
        ArgsOkay(r, [], x.list, x.rest);
        var y := ParseArgs([], x.list, x.rest);
        if y.ArgsOk? {
          WrapOk(r, ExecCmd(y.args), y.list);
        }
      }
    }
  }

  lemma FineTail(r: string, t: string, x: Parsed)
    requires Tail(r, t) && Fine(t, x)
    ensures Fine(r, x)
  {
    hide Tail;
    if x.Ok? {
      TailTrans(r, t, x.rest);
      SpansTail(r, t, x.cmd);
    }
  }

  lemma {:induction false} BlockOkay(r: string)
    ensures Fine(r, ParseBlock(r))
    decreases |r|, 0
  {
    hide SkipWs, GetToken, SpanOk, Tail, ParseRedirs, ParseLine, Wrap;
    if Peek(r, {'('}) {
      var t := GetToken(r);
      TokenTail(r);
      PeekToken(r, {'('});
      LineOkay(t.rest);
      var b := ParseLine(t.rest);
      FineTail(r, t.rest, b);
      if b.Ok? && Peek(b.rest, {')'}) {
        var u := GetToken(b.rest);
        TokenTail(b.rest);
        TailTrans(r, b.rest, u.rest);
        RedirsOkay(u.rest);
        var x := ParseRedirs(u.rest);
        if x.RedirsOk? {
          TailTrans(r, u.rest, x.rest);
          TargetsTail(r, u.rest, x.list);
          WrapOk(r, b.cmd, x.list);
        }
      }
    }
  }

  lemma PeekToken(r: string, cs: set<char>)
    requires Peek(r, cs)
    ensures GetToken(r).tok != End && |GetToken(r).rest| < |r|
  {
  }

  lemma {:induction false} PipeOkay(r: string)
    ensures Fine(r, ParsePipe(r))
    decreases |r|, 2
  {
    hide SkipWs, GetToken, SpanOk, Tail, ParseExec;
    ExecOkay(r);
    var e := ParseExec(r);
    if e.Ok? {
      TokenTail(e.rest);
      TailTrans(r, e.rest, SkipWs(e.rest));
      if Peek(e.rest, {'|'}) {
        PeekToken(e.rest, {'|'});
        var t := GetToken(e.rest);
        TailTrans(r, e.rest, t.rest);
        PipeOkay(t.rest);
        FineTail(r, t.rest, ParsePipe(t.rest));
      }
    }
  }

  lemma {:induction false} BacksOkay(whole: string, c: Cmd, r: string)
    requires Tail(whole, r) && SpansOk(whole, c)
    ensures Tail(whole, Backs(c, r).1) && SpansOk(whole, Backs(c, r).0)
    decreases |r|
  {
    hide SkipWs, GetToken, SpanOk, Tail;
    TokenTail(r);
    TailTrans(whole, r, SkipWs(r));
    if Peek(r, {'&'}) {
      PeekToken(r, {'&'});
      TailTrans(whole, r, GetToken(r).rest);
      BacksOkay(whole, BackCmd(c), GetToken(r).rest);
    }
  }

  lemma {:induction false} LineOkay(r: string)
    ensures Fine(r, ParseLine(r))
    decreases |r|, 3
  {
    hide SkipWs, GetToken, SpanOk, Tail, ParsePipe, Backs;
    PipeOkay(r);
    var p := ParsePipe(r);
    if p.Ok? {
      BacksOkay(r, p.cmd, p.rest);
      var b := Backs(p.cmd, p.rest);
      TokenTail(b.1);
      TailTrans(r, b.1, SkipWs(b.1));
      if Peek(b.1, {';'}) {
        PeekToken(b.1, {';'});
        var t := GetToken(b.1);
        TailTrans(r, b.1, t.rest);
        LineOkay(t.rest);
        FineTail(r, t.rest, ParseLine(t.rest));
      }
    }
  }

  // ---------- gettoken and peek, with a pointer into the line ----------

  method SkipSpace(line: string, from: nat) returns (s: nat)
    requires from <= |line|
    ensures from <= s <= |line| && line[s..] == SkipWs(line[from..])
  {
    s := from;
    while s < |line| && Ws(line[s])
      invariant from <= s <= |line| && SkipWs(line[s..]) == SkipWs(line[from..])
    {
      assert line[s..][1..] == line[s + 1..];
      s := s + 1;
    }
  }

  method SkipWord(line: string, from: nat) returns (s: nat)
    requires from <= |line|
    ensures from <= s <= |line| && s == from + WordLen(line[from..])
  {
    s := from;
    while s < |line| && WordChar(line[s])
      invariant from <= s <= |line| && s + WordLen(line[s..]) == from + WordLen(line[from..])
    {
      assert line[s..][1..] == line[s + 1..];
      s := s + 1;
    }
  }

  /** gettoken: the token found, its two ends, and the pointer behind it. */
  method GetTokenAt(line: string, ps: nat) returns (tok: Tok, q: nat, eq: nat, next: nat)
    requires ps <= |line|
    ensures q <= eq <= next <= |line| && GetToken(line[ps..]) == Token(tok, |line| - q, |line| - eq, line[next..])
  {
    hide SkipWs, WordLen, GetToken;
    var s := SkipSpace(line, ps);
    q := s;
    if s == |line| {
      tok := End;
    } else if line[s] in {'|', '(', ')', ';', '&', '<'} {
      tok := Sign(line[s]);
      s := s + 1;
    } else if line[s] == '>' {
      tok := Sign('>');
      s := s + 1;
      if s < |line| && line[s] == '>' {
        tok := Append;
        s := s + 1;
      }
    } else {
      tok := Word;
      s := SkipWord(line, s);
    }
    eq := s;
    next := SkipSpace(line, s);
    TokenAt(line[ps..], line[q..], tok, eq - q);
    assert line[q..][eq - q..] == line[eq..];
  }

  /** gettoken's token from its kind and length, once the white space is skipped. */
  lemma TokenAt(r: string, s: string, tok: Tok, n: nat)
    requires s == SkipWs(r) && n <= |s|
    requires if s == [] then tok == End && n == 0
             else if s[0] in {'|', '(', ')', ';', '&', '<'} then tok == Sign(s[0]) && n == 1
             else if s[0] == '>' then if |s| > 1 && s[1] == '>' then tok == Append && n == 2
                                      else tok == Sign('>') && n == 1
             else tok == Word && n == WordLen(s)
    ensures GetToken(r) == Token(tok, |s|, |s| - n, SkipWs(s[n..]))
  {
    hide SkipWs, WordLen;
    EmptySkip();
    assert s == [] ==> s[n..] == [];
  }

  lemma EmptySkip()
    ensures SkipWs([]) == []
  {
  }

  /** peek */
  method PeekAt(line: string, ps: nat, toks: set<char>) returns (found: bool, next: nat)
    requires ps <= |line|
    ensures ps <= next <= |line| && line[next..] == SkipWs(line[ps..]) && found == Peek(line[ps..], toks)
  {
    next := SkipSpace(line, ps);
    found := next < |line| && line[next] in toks;
  }

  // ---------- nulterminate ----------

  const NUL: char := '\0'

  /** e is the end mark of some span of the command. */
  ghost predicate IsMark(c: Cmd, e: nat) {
    match c
    case ExecCmd(args) => exists i :: 0 <= i < |args| && args[i].eq == e
    case RedirCmd(d, f, m) => IsMark(d, e) || f.eq == e
    case PipeCmd(l, r) => IsMark(l, e) || IsMark(r, e)
    case ListCmd(l, r) => IsMark(l, e) || IsMark(r, e)
    case BackCmd(d) => IsMark(d, e)
  }

  ghost predicate HasSpan(c: Cmd, p: Span) {
    match c
    case ExecCmd(args) => p in args
    case RedirCmd(d, f, m) => HasSpan(d, p) || f == p
    case PipeCmd(l, r) => HasSpan(l, p) || HasSpan(r, p)
    case ListCmd(l, r) => HasSpan(l, p) || HasSpan(r, p)
    case BackCmd(d) => HasSpan(d, p)
  }

  /** Some span of the command has that end mark. */
  lemma {:induction false} MarkHasSpan(s: string, c: Cmd, e: nat) returns (p: Span)
    requires SpansOk(s, c) && IsMark(c, e)
    ensures p.eq == e && HasSpan(c, p) && SpanOk(s, p)
  {
    hide SpanOk;
    match c
    case ExecCmd(args) => var i :| 0 <= i < |args| && args[i].eq == e; p := args[i];
    case RedirCmd(d, f, m) => if f.eq == e { p := f; } else { p := MarkHasSpan(s, d, e); }
    case PipeCmd(l, r) => if IsMark(l, e) { p := MarkHasSpan(s, l, e); } else { p := MarkHasSpan(s, r, e); }
    case ListCmd(l, r) => if IsMark(l, e) { p := MarkHasSpan(s, l, e); } else { p := MarkHasSpan(s, r, e); }
    case BackCmd(d) => p := MarkHasSpan(s, d, e);
  }

  lemma {:induction false} SpanFits(s: string, c: Cmd, p: Span)
    requires SpansOk(s, c) && HasSpan(c, p)
    ensures SpanOk(s, p) && IsMark(c, p.eq)
  {
    hide SpanOk;
    match c
    case ExecCmd(args) =>
    case RedirCmd(d, f, m) => if f != p { SpanFits(s, d, p); }
    case PipeCmd(l, r) => if HasSpan(l, p) { SpanFits(s, l, p); } else { SpanFits(s, r, p); }
    case ListCmd(l, r) => if HasSpan(l, p) { SpanFits(s, l, p); } else { SpanFits(s, r, p); }
    case BackCmd(d) => SpanFits(s, d, p);
  }

  /** The line's buffer after the marks of c are set to NUL. */
  ghost predicate Marked(b: seq<char>, b': seq<char>, c: Cmd) {
    |b'| == |b| && forall i :: 0 <= i < |b| ==> b'[i] == if IsMark(c, |b| - 1 - i) then NUL else b[i]
  }

  ghost predicate MarksIn(c: Cmd, n: nat) { forall e: nat :: IsMark(c, e) ==> e <= n }

  /** nulterminate, on a buffer that ends with the line's own NUL. */
  method NulTerminate(c: Cmd, buf: array<char>)
    requires buf.Length > 0 && MarksIn(c, buf.Length - 1)
    modifies buf
    ensures Marked(old(buf[..]), buf[..], c)
    decreases c
  {
    match c
    case ExecCmd(args) =>
      MarkArgs(args, buf);
    case RedirCmd(d, f, m) =>
      assert IsMark(c, f.eq);
      assert forall e: nat :: IsMark(d, e) ==> IsMark(c, e);
      NulTerminate(d, buf);
      buf[buf.Length - 1 - f.eq] := NUL;
    case PipeCmd(l, r) =>
      assert forall e: nat :: IsMark(l, e) || IsMark(r, e) ==> IsMark(c, e);
      NulTerminate(l, buf);
      NulTerminate(r, buf);
    case ListCmd(l, r) =>
      assert forall e: nat :: IsMark(l, e) || IsMark(r, e) ==> IsMark(c, e);
      NulTerminate(l, buf);
      NulTerminate(r, buf);
    case BackCmd(d) =>
      assert forall e: nat :: IsMark(d, e) ==> IsMark(c, e);
      NulTerminate(d, buf);
  }

  method MarkArgs(args: seq<Span>, buf: array<char>)
    requires buf.Length > 0 && MarksIn(ExecCmd(args), buf.Length - 1)
    modifies buf
    ensures Marked(old(buf[..]), buf[..], ExecCmd(args))
  {
    var i := 0;
    while i < |args|
      invariant 0 <= i <= |args|
      invariant forall k :: 0 <= k < buf.Length ==>
                  buf[k] == if IsMark(ExecCmd(args[..i]), buf.Length - 1 - k) then NUL else old(buf[..])[k]
    {
      assert IsMark(ExecCmd(args), args[i].eq);
      OneMoreMark(args, i);
      buf[buf.Length - 1 - args[i].eq] := NUL;
      i := i + 1;
    }
    assert args[..i] == args;
  }

  lemma OneMoreMark(args: seq<Span>, i: int)
    requires 0 <= i < |args|
    ensures forall e: nat :: IsMark(ExecCmd(args[..i + 1]), e) <==> IsMark(ExecCmd(args[..i]), e) || args[i].eq == e
  {
    var a, b := args[..i], args[..i + 1];
    assert b == a + [args[i]];
    forall e: nat ensures IsMark(ExecCmd(b), e) <==> IsMark(ExecCmd(a), e) || args[i].eq == e {
      if IsMark(ExecCmd(a), e) {
        var k :| 0 <= k < |a| && a[k].eq == e;
        assert b[k].eq == e;
      }
      assert b[i].eq == args[i].eq;
    }
  }

  /** The C string that starts at i. */
  function CString(b: seq<char>, i: nat): string
    requires i <= |b|
    decreases |b| - i
  {
    if i == |b| || b[i] == NUL then [] else [b[i]] + CString(b, i + 1)
  }

  lemma {:induction false} CStringIs(b: seq<char>, i: nat, j: nat)
    requires i <= j < |b| && b[j] == NUL && forall k :: i <= k < j ==> b[k] != NUL
    ensures CString(b, i) == b[i..j]
    decreases j - i
  {
    if i < j {
      CStringIs(b, i + 1, j);
      assert b[i..j] == [b[i]] + b[i + 1..j];
    }
  }

  /** No end mark lies inside a token, so each token's string is the token. */
  lemma TokenIsString(s: string, c: Cmd, b: seq<char>, p: Span)
    requires SpansOk(s, c) && NUL !in s && Marked(s + [NUL], b, c) && HasSpan(c, p)
    ensures p.eq <= p.q <= |s| && CString(b, |s| - p.q) == Cut(s, p.q, p.eq)
  {
    SpanFits(s, c, p);
    var i, j := |s| - p.q, |s| - p.eq;
    forall k | i <= k < j ensures b[k] == s[k] && b[k] != NUL {
      NoMarkInside(s, c, p, |s| - k);
    }
    CStringIs(b, i, j);
    assert b[i..j] == s[i..j];
  }

  lemma NoMarkInside(s: string, c: Cmd, p: Span, e: nat)
    requires SpansOk(s, c) && SpanOk(s, p) && p.eq < e <= p.q
    ensures !IsMark(c, e)
  {
    assert Cut(s, p.q, p.eq)[p.q - e] == s[|s| - e];
    if IsMark(c, e) {
      var m := MarkHasSpan(s, c, e);
    }
  }

  lemma MarksFit(s: string, c: Cmd)
    requires SpansOk(s, c)
    ensures MarksIn(c, |s|)
  {
    forall e: nat | IsMark(c, e) ensures e <= |s| {
      var p := MarkHasSpan(s, c, e);
    }
  }

  /** parsecmd: the tree, and a buffer in which every argument and file name is a string of its own. */
  method ParseAndTerminate(s: string, buf: array<char>) returns (p: Parsed)
    requires buf[..] == s + [NUL] && NUL !in s
    modifies buf
    ensures p == ParseCmd(s)
    ensures forall c :: Grammar.IsLine(Grammar.Tokens(s), c) <==> p.Ok? && p.cmd == c
    ensures p.Ok? ==> Grammar.Recorded(p.cmd) == multiset(Grammar.Uses(Grammar.Tokens(s)))
    ensures p.Ok? ==>
              forall x :: HasSpan(p.cmd, x) ==> x.eq <= x.q <= |s| && CString(buf[..], |s| - x.q) == Cut(s, x.q, x.eq)
  {
    hide ParseLine, SpanOk, Marked, CString;
    p := ParseCmd(s);
    LineOkay(s);
    forall c ensures Grammar.IsLine(Grammar.Tokens(s), c) <==> p.Ok? && p.cmd == c {
      Grammar.ParsesIff(s, c);
    }
    if p.Ok? {
      Grammar.WordsRecorded(s);
      MarksFit(s, p.cmd);
      NulTerminate(p.cmd, buf);
      forall x | HasSpan(p.cmd, x) ensures x.eq <= x.q <= |s| && CString(buf[..], |s| - x.q) == Cut(s, x.q, x.eq) {
        TokenIsString(s, p.cmd, buf[..], x);
      }
    }
  }
}
