/**
 The parser of user/sh.c.  The cursor is the rest of the line; a place in the line is
 its distance from the end, so it does not depend on what has been read already.
 `Panic` stands for a call of panic().
 */
module ShellParser {

  const MAXARGS: nat := 10

  predicate Ws(c: char) { c == ' ' || c == '\t' || c == '\r' || c == '\n' || c == '\U{0B}' }

  predicate Symbol(c: char) { c in {'<', '|', '>', '&', ';', '(', ')'} }

  predicate WordChar(c: char) { !Ws(c) && !Symbol(c) }

  // ---------- gettoken and peek ----------

  /** Past the white space. */
  function SkipWs(r: string): (x: string)
    ensures |x| <= |r| && (x != [] ==> !Ws(x[0]))
  {
    if r != [] && Ws(r[0]) then SkipWs(r[1..]) else r
  }

  lemma {:induction false} SkipSuffix(r: string)
    ensures SkipWs(r) == r[|r| - |SkipWs(r)|..]
  {
    if r != [] && Ws(r[0]) {
      SkipSuffix(r[1..]);
    }
  }

  /** How far a word reaches. */
  function WordLen(r: string): (n: nat)
    ensures n <= |r| && (forall i :: 0 <= i < n ==> WordChar(r[i])) && (n < |r| ==> !WordChar(r[n]))
  {
    if r != [] && WordChar(r[0]) then 1 + WordLen(r[1..]) else 0
  }

  datatype Tok = End | Sign(c: char) | Append | Word

  /** The token itself lies between the distances q and eq from the end. */
  datatype Token = Token(tok: Tok, q: nat, eq: nat, rest: string)

  function GetToken(r: string): (t: Token)
    ensures |t.rest| <= t.eq <= t.q <= |r| && (t.tok != End ==> |t.rest| < |r|)
  {
    var s := SkipWs(r);
    if s == [] then Token(End, 0, 0, s)
    else if s[0] in {'|', '(', ')', ';', '&', '<'} then Token(Sign(s[0]), |s|, |s| - 1, SkipWs(s[1..]))
    else if s[0] == '>' then
      if |s| > 1 && s[1] == '>' then Token(Append, |s|, |s| - 2, SkipWs(s[2..]))
      else Token(Sign('>'), |s|, |s| - 1, SkipWs(s[1..]))
    else
      var n := WordLen(s);
      assert WordChar(s[0]);
      Token(Word, |s|, |s| - n, SkipWs(s[n..]))
  }

  /** The text between two distances from the end. */
  function Cut(r: string, q: nat, eq: nat): string
    requires eq <= q <= |r|
  {
    r[|r| - q..|r| - eq]
  }

  predicate IsWord(w: string) {
    w != [] && forall i :: 0 <= i < |w| ==> WordChar(w[i])
  }

  /** A word token is a word, and it ends where no word goes on. */
  lemma TokenIsWord(r: string)
    requires GetToken(r).tok == Word
    ensures var t := GetToken(r);
            && t.eq < t.q <= |r| && IsWord(Cut(r, t.q, t.eq)) && (t.eq > 0 ==> !WordChar(r[|r| - t.eq]))
  {
    hide SkipWs, WordLen;
    SkipSuffix(r);
    var s := SkipWs(r);
    var n := WordLen(s);
    assert Cut(r, |s|, |s| - n) == s[..n];
    assert n < |s| ==> r[|r| - (|s| - n)] == s[n];
  }

  predicate Peek(r: string, toks: set<char>) {
    var s := SkipWs(r);
    s != [] && s[0] in toks
  }

  // ---------- commands ----------

  datatype Span = Span(q: nat, eq: nat)
  datatype Mode = In | Out | More
  datatype Cmd =
    | ExecCmd(args: seq<Span>)
    | RedirCmd(cmd: Cmd, file: Span, mode: Mode)
    | PipeCmd(left: Cmd, right: Cmd)
    | ListCmd(left: Cmd, right: Cmd)
    | BackCmd(cmd: Cmd)

  datatype Target = Target(file: Span, mode: Mode)
  datatype Parsed = Ok(cmd: Cmd, rest: string) | Panic
  datatype Redirs = RedirsOk(list: seq<Target>, rest: string) | RedirsPanic
  datatype Args = ArgsOk(args: seq<Span>, list: seq<Target>, rest: string) | ArgsPanic

  function ModeOf(t: Tok): (m: Mode)
    ensures (t == Sign('<') ==> m == In) && (t == Sign('>') ==> m == Out) && (t == Append ==> m == More)
  {
    if t == Sign('<') then In else if t == Append then More else Out
  }

  /** parseredirs, as the list of redirections it finds. */
  function ParseRedirs(r: string): (x: Redirs)
    ensures x.RedirsOk? ==> |x.rest| <= |r|
    decreases |r|
  {
    var s := SkipWs(r);
    if !Peek(r, {'<', '>'}) then RedirsOk([], s)
    else
      var t := GetToken(s);
      var u := GetToken(t.rest);
      if u.tok != Word then RedirsPanic
      else
        var x := ParseRedirs(u.rest);
        if x.RedirsPanic? then RedirsPanic else RedirsOk([Target(Span(u.q, u.eq), ModeOf(t.tok))] + x.list, x.rest)
  }

  /** redircmd around redircmd, the first redirection innermost. */
  function Wrap(c: Cmd, l: seq<Target>): Cmd
    decreases |l|
  {
    if l == [] then c else Wrap(RedirCmd(c, l[0].file, l[0].mode), l[1..])
  }

  /** The loop of parseexec. */
  function ParseArgs(args: seq<Span>, list: seq<Target>, r: string): (x: Args)
    ensures x.ArgsOk? ==> |x.rest| <= |r|
    decreases |r|
  {
    var s := SkipWs(r);
    if Peek(r, {'|', ')', '&', ';'}) then ArgsOk(args, list, s)
    else
      var t := GetToken(s);
      if t.tok == End then ArgsOk(args, list, t.rest)
      else if t.tok != Word then ArgsPanic
      else if |args| + 1 >= MAXARGS then ArgsPanic
      else
        var x := ParseRedirs(t.rest);
        if x.RedirsPanic? then ArgsPanic else ParseArgs(args + [Span(t.q, t.eq)], list + x.list, x.rest)
  }

  function ParseExec(r: string): (x: Parsed)
    ensures x.Ok? ==> |x.rest| <= |r|
    decreases |r|, 1
  {
    var s := SkipWs(r);
    if Peek(r, {'('}) then ParseBlock(s)
    else
      var x := ParseRedirs(s);
      if x.RedirsPanic? then Panic
      else
        var y := ParseArgs([], x.list, x.rest);
        if y.ArgsPanic? then Panic else Ok(Wrap(ExecCmd(y.args), y.list), y.rest)
  }

  function ParseBlock(r: string): (x: Parsed)
    ensures x.Ok? ==> |x.rest| <= |r|
    decreases |r|, 0
  {
    if !Peek(r, {'('}) then Panic
    else
      var t := GetToken(r);
      var b := ParseLine(t.rest);
      if b.Panic? || !Peek(b.rest, {')'}) then Panic
      else
        var u := GetToken(b.rest);
        var x := ParseRedirs(u.rest);
        if x.RedirsPanic? then Panic else Ok(Wrap(b.cmd, x.list), x.rest)
  }

  function ParsePipe(r: string): (x: Parsed)
    ensures x.Ok? ==> |x.rest| <= |r|
    decreases |r|, 2
  {
    var e := ParseExec(r);
    if e.Panic? || !Peek(e.rest, {'|'}) then (if e.Panic? then Panic else Ok(e.cmd, SkipWs(e.rest)))
    else
      var t := GetToken(e.rest);
      var p := ParsePipe(t.rest);
      if p.Panic? then Panic else Ok(PipeCmd(e.cmd, p.cmd), p.rest)
  }

  /** The loop of parseline over '&'. */
  function Backs(c: Cmd, r: string): (x: (Cmd, string))
    ensures |x.1| <= |r|
    decreases |r|
  {
    if Peek(r, {'&'}) then Backs(BackCmd(c), GetToken(r).rest) else (c, SkipWs(r))
  }

  function ParseLine(r: string): (x: Parsed)
    ensures x.Ok? ==> |x.rest| <= |r|
    decreases |r|, 3
  {
    var p := ParsePipe(r);
    if p.Panic? then Panic
    else
      var b := Backs(p.cmd, p.rest);
      if !Peek(b.1, {';'}) then Ok(b.0, SkipWs(b.1))
      else
        var t := GetToken(b.1);
        var l := ParseLine(t.rest);
        if l.Panic? then Panic else Ok(ListCmd(b.0, l.cmd), l.rest)
  }

  /** parsecmd: the whole line must be used up. */
  function ParseCmd(s: string): Parsed {
    var l := ParseLine(s);
    if l.Panic? || SkipWs(l.rest) != [] then Panic else l
  }
}
