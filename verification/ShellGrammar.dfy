/**
 The language of user/sh.c, stated apart from the parser.  A line is a sequence of tokens in exactly one way; a command
 tree belongs to a sequence of tokens by a grammar.  The parser accepts a line with a tree exactly when the grammar
 gives the line that tree, and so each word of the line is recorded once.
 */
module ShellGrammar {
  import opened ShellParser

  datatype Lexeme = Lexeme(tok: Tok, span: Span)

  /** What gettoken finds, called until the end of the line. */
  function Tokens(r: string): (ts: seq<Lexeme>)
    ensures forall i :: 0 <= i < |ts| ==> ts[i].tok != End
    decreases |r|
  {
    var t := GetToken(r);
    if t.tok == End then [] else [Lexeme(t.tok, Span(t.q, t.eq))] + Tokens(t.rest)
  }

  // ---------- the tokens of a line ----------

  predicate AllWs(r: string) { forall i :: 0 <= i < |r| ==> Ws(r[i]) }

  /** The text spells the token, and with `next` behind it the token goes no further. */
  ghost predicate TokenText(tok: Tok, text: string, next: string) {
    match tok
    case End => false
    case Word => IsWord(text) && (next != [] ==> !WordChar(next[0]))
    case Append => text == ">>"
    case Sign(c) => text == [c] && Symbol(c) && (c == '>' ==> !(next != [] && next[0] == '>'))
  }

  /** The line is white space and these tokens, in this order and at these places. */
  ghost predicate Spells(r: string, ts: seq<Lexeme>)
    decreases |ts|
  {
    if ts == [] then AllWs(r)
    else
      var p := ts[0].span;
      && p.eq < p.q <= |r| && AllWs(r[..|r| - p.q]) && TokenText(ts[0].tok, Cut(r, p.q, p.eq), r[|r| - p.eq..])
      && Spells(r[|r| - p.eq..], ts[1..])
  }

  lemma {:induction false} SkipIs(r: string)
    ensures AllWs(r[..|r| - |SkipWs(r)|])
    ensures SkipWs(r) == r[|r| - |SkipWs(r)|..]
  {
    if r != [] && Ws(r[0]) {
      SkipIs(r[1..]);
      var n := |r| - |SkipWs(r)|;
      assert r[..n] == [r[0]] + r[1..][..n - 1];
    }
  }

  /** White space before the first token makes no difference. */
  lemma {:induction false} SkipUnique(r: string, n: nat)
    requires n <= |r| && AllWs(r[..n]) && (n < |r| ==> !Ws(r[n]))
    ensures SkipWs(r) == r[n..]
  {
    if n > 0 {
      assert Ws(r[..n][0]) && r[..n][0] == r[0];
      assert r[1..][..n - 1] == r[..n][1..];
      SkipUnique(r[1..], n - 1);
    }
  }

  lemma TokensSkip(r: string)
    ensures GetToken(SkipWs(r)) == GetToken(r) && Tokens(SkipWs(r)) == Tokens(r) && SkipWs(SkipWs(r)) == SkipWs(r)
  {
    var s := SkipWs(r);
    assert SkipWs(s) == s;
  }

  lemma TokensFirst(r: string)
    ensures Tokens(r) == [] <==> GetToken(r).tok == End
    ensures Tokens(r) != [] ==>
              var t := GetToken(r); Tokens(r)[0] == Lexeme(t.tok, Span(t.q, t.eq)) && Tokens(r)[1..] == Tokens(t.rest)
  {
  }

  /** The first token of a line without white space before it. */
  lemma TokenShape(s: string) returns (n: nat)
    requires SkipWs(s) == s && s != []
    ensures 1 <= n <= |s|
    ensures var t := GetToken(s);
            t.q == |s| && t.eq == |s| - n && TokenText(t.tok, s[..n], s[n..]) && t.rest == SkipWs(s[n..])
  {
    hide SkipWs, WordLen;
    n := WordLen(s);
    if !WordChar(s[0]) {
      n := if s[0] == '>' && |s| > 1 && s[1] == '>' then 2 else 1;
      assert s[..n] == if n == 1 then [s[0]] else [s[0], s[1]];
    }
  }

  /** The first token, read from the text. */
  lemma FirstSpells(r: string)
    ensures var t := GetToken(r);
            if t.tok == End then AllWs(r)
            else
              && t.eq < t.q <= |r| && AllWs(r[..|r| - t.q]) && TokenText(t.tok, Cut(r, t.q, t.eq), r[|r| - t.eq..])
              && t.rest == SkipWs(r[|r| - t.eq..])
  {
    hide SkipWs, AllWs, TokenText, GetToken;
    SkipIs(r);
    TokensSkip(r);
    var s := SkipWs(r);
    if s == [] {
      assert r[..|r|] == r;
      EndOfLine(r);
    } else {
      var n := TokenShape(s);
      assert s[n..] == r[|r| - (|s| - n)..];
      assert Cut(r, |s|, |s| - n) == s[..n];
      NoEnd(GetToken(s).tok, s[..n], s[n..]);
    }
  }

  lemma EndOfLine(r: string)
    ensures SkipWs(r) == [] <==> GetToken(r).tok == End
  {
    hide SkipWs, WordLen;
  }

  lemma {:induction false} TokensSpell(r: string)
    ensures Spells(r, Tokens(r))
    decreases |r|
  {
    hide SkipWs, GetToken, AllWs, TokenText;
    FirstSpells(r);
    TokensFirst(r);
    var t := GetToken(r);
    if t.tok != End {
      var rest := r[|r| - t.eq..];
      TokensSpell(rest);
      TokensSkip(rest);
    }
  }

  /** The text decides the first token. */
  lemma FirstUnique(r: string, tok: Tok, q: nat, eq: nat)
    requires eq < q <= |r| && AllWs(r[..|r| - q]) && TokenText(tok, Cut(r, q, eq), r[|r| - eq..])
    ensures var t := GetToken(r); t.tok == tok && t.q == q && t.eq == eq && t.rest == SkipWs(r[|r| - eq..])
  {
    hide SkipWs, WordLen, AllWs;
    var n := |r| - q;
    assert Cut(r, q, eq)[0] == r[n];
    SkipUnique(r, n);
    var s := SkipWs(r);
    assert s == r[n..];
    assert r[|r| - eq..] == s[q - eq..];
    assert Cut(r, q, eq) == s[..q - eq];
    if tok == Word {
      WordLenIs(s, q - eq);
    }
  }

  lemma {:induction false} WordLenIs(s: string, n: nat)
    requires n <= |s| && (forall i :: 0 <= i < n ==> WordChar(s[..n][i])) && (n < |s| ==> !WordChar(s[n..][0]))
    ensures WordLen(s) == n
  {
    if n > 0 {
      assert s[..n][0] == s[0];
      assert s[1..][..n - 1] == s[..n][1..];
      assert n < |s| ==> s[1..][n - 1..][0] == s[n..][0];
      WordLenIs(s[1..], n - 1);
    }
  }

  /** A line has exactly one sequence of tokens: the one gettoken finds. */
  lemma {:induction false} SpellsIff(r: string, ts: seq<Lexeme>)
    ensures Spells(r, ts) <==> ts == Tokens(r)
    decreases |ts|
  {
    hide SkipWs, GetToken, AllWs, TokenText;
    TokensSpell(r);
    TokensFirst(r);
    if Spells(r, ts) {
      FirstSpells(r);
      if ts == [] {
        OnlyWs(r);
      } else {
        var p := ts[0].span;
        FirstUnique(r, ts[0].tok, p.q, p.eq);
        NoEnd(ts[0].tok, Cut(r, p.q, p.eq), r[|r| - p.eq..]);
        var rest := r[|r| - p.eq..];
        SpellsIff(rest, ts[1..]);
        TokensSkip(rest);
        assert ts == [ts[0]] + ts[1..];
      }
    }
  }

  lemma NoEnd(tok: Tok, text: string, next: string)
    requires TokenText(tok, text, next)
    ensures tok != End
  {
  }

  lemma OnlyWs(r: string)
    requires AllWs(r)
    ensures GetToken(r).tok == End
  {
    assert r[..|r|] == r;
    SkipUnique(r, |r|);
  }

  // ---------- what a word is used for ----------

  predicate IsRedir(t: Tok) { t == Sign('<') || t == Sign('>') || t == Append }

  /** A word behind a redirection sign names a file, any other is an argument. */
  datatype Use = Arg(span: Span) | FileName(file: Target)

  /** What the word at place i is used for: the token before it decides. */
  function UseAt(ts: seq<Lexeme>, i: nat): Use
    requires i < |ts|
  {
    if i > 0 && IsRedir(ts[i - 1].tok) then FileName(Target(ts[i].span, ModeOf(ts[i - 1].tok))) else Arg(ts[i].span)
  }

  /** The uses of the words of a line, in line order. */
  function Uses(ts: seq<Lexeme>): seq<Use> {
    if ts == [] then []
    else Uses(ts[..|ts| - 1]) + if ts[|ts| - 1].tok == Word then [UseAt(ts, |ts| - 1)] else []
  }

  function ArgsOf(us: seq<Use>): (r: seq<Span>) {
    if us == [] then []
    else ArgsOf(us[..|us| - 1]) + if us[|us| - 1].Arg? then [us[|us| - 1].span] else []
  }

  function FilesOf(us: seq<Use>): (r: seq<Target>) {
    if us == [] then []
    else FilesOf(us[..|us| - 1]) + if us[|us| - 1].FileName? then [us[|us| - 1].file] else []
  }

  lemma {:induction false} UsesConcat(a: seq<Lexeme>, b: seq<Lexeme>)
    requires a == [] || !IsRedir(a[|a| - 1].tok)
    ensures Uses(a + b) == Uses(a) + Uses(b)
  {
    hide IsRedir, ModeOf;
    if b == [] {
      assert a + b == a;
    } else {
      var n := |b| - 1;
      UsesConcat(a, b[..n]);
      assert (a + b)[..|a| + n] == a + b[..n];
      SameUse(a, b);
    }
  }

  lemma SameUse(a: seq<Lexeme>, b: seq<Lexeme>)
    requires b != [] && (a == [] || !IsRedir(a[|a| - 1].tok))
    ensures (a + b)[|a + b| - 1] == b[|b| - 1] && UseAt(a + b, |a + b| - 1) == UseAt(b, |b| - 1)
  {
  }

  lemma {:induction false} PartsConcat(a: seq<Use>, b: seq<Use>)
    ensures ArgsOf(a + b) == ArgsOf(a) + ArgsOf(b) && FilesOf(a + b) == FilesOf(a) + FilesOf(b)
  {
    if b == [] {
      assert a + b == a;
    } else {
      PartsConcat(a, b[..|b| - 1]);
      assert (a + b)[..|a + b| - 1] == a + b[..|b| - 1];
    }
  }

  // ---------- the grammar ----------

  /** Words and redirections only, each sign with its file name behind it. */
  ghost predicate Plain(ts: seq<Lexeme>) {
    forall i :: 0 <= i < |ts| ==> PlainAt(ts, i)
  }

  ghost predicate PlainAt(ts: seq<Lexeme>, i: int)
    requires 0 <= i < |ts|
  {
    ts[i].tok == Word || (IsRedir(ts[i].tok) && i + 1 < |ts| && ts[i + 1].tok == Word)
  }

  /** Redirections only. */
  ghost predicate AllRedirs(ts: seq<Lexeme>) { Plain(ts) && ArgsOf(Uses(ts)) == [] }

  /** c is core with one redirection around it for each file, the first one innermost. */
  predicate Redirected(c: Cmd, core: Cmd, files: seq<Target>) {
    if files == [] then c == core
    else
      var last := files[|files| - 1];
      && c.RedirCmd? && c.file == last.file && c.mode == last.mode
      && Redirected(c.cmd, core, files[..|files| - 1])
  }

  lemma {:induction false} WrapLast(c: Cmd, l: seq<Target>)
    requires l != []
    ensures var last := l[|l| - 1]; Wrap(c, l) == RedirCmd(Wrap(c, l[..|l| - 1]), last.file, last.mode)
    decreases |l|
  {
    if |l| > 1 {
      WrapLast(RedirCmd(c, l[0].file, l[0].mode), l[1..]);
      assert l[1..][..|l| - 2] == l[..|l| - 1][1..];
    }
  }

  /** redircmd is called for each redirection in line order. */
  lemma {:induction false} WrapsIff(c: Cmd, core: Cmd, files: seq<Target>)
    ensures Redirected(c, core, files) <==> c == Wrap(core, files)
  {
    if files != [] {
      WrapLast(core, files);
      if c.RedirCmd? {
        WrapsIff(c.cmd, core, files[..|files| - 1]);
      }
    }
  }

  /** A simple command: the arguments in line order, and around them the redirections, the first one innermost. */
  ghost predicate IsSimple(ts: seq<Lexeme>, c: Cmd) {
    Plain(ts) && |ArgsOf(Uses(ts))| < MAXARGS && Redirected(c, ExecCmd(ArgsOf(Uses(ts))), FilesOf(Uses(ts)))
  }

  ghost predicate IsBlock(ts: seq<Lexeme>, c: Cmd)
    decreases |ts|, 0
  {
    exists k, d ::
      && 0 < k < |ts| && ts[0].tok == Sign('(') && ts[k].tok == Sign(')') && IsLine(ts[1..k], d)
      && AllRedirs(ts[k + 1..]) && Redirected(c, d, FilesOf(Uses(ts[k + 1..])))
  }

  ghost predicate IsExec(ts: seq<Lexeme>, c: Cmd)
    decreases |ts|, 1
  {
    IsSimple(ts, c) || IsBlock(ts, c)
  }

  ghost predicate IsPipe(ts: seq<Lexeme>, c: Cmd)
    decreases |ts|, 2
  {
    || IsExec(ts, c)
    || (c.PipeCmd? && exists k ::
          0 <= k < |ts| && ts[k].tok == Sign('|') && IsExec(ts[..k], c.left) && IsPipe(ts[k + 1..], c.right))
  }

  ghost predicate IsBacks(ts: seq<Lexeme>, c: Cmd)
    decreases |ts|, 3
  {
    || IsPipe(ts, c)
    || (c.BackCmd? && ts != [] && ts[|ts| - 1].tok == Sign('&') && IsBacks(ts[..|ts| - 1], c.cmd))
  }

  ghost predicate IsLine(ts: seq<Lexeme>, c: Cmd)
    decreases |ts|, 4
  {
    || IsBacks(ts, c)
    || (c.ListCmd? && exists k ::
          0 <= k < |ts| && ts[k].tok == Sign(';') && IsBacks(ts[..k], c.left) && IsLine(ts[k + 1..], c.right))
  }

  // ---------- peek ----------

  predicate StartsWith(ts: seq<Lexeme>, signs: set<char>) {
    ts != [] && ts[0].tok.Sign? && ts[0].tok.c in signs
  }

  lemma PeekSign(r: string, signs: set<char>)
    requires signs <= {'|', '(', ')', ';', '&'}
    ensures Peek(r, signs) <==> StartsWith(Tokens(r), signs)
  {
    hide SkipWs, WordLen;
    TokensFirst(r);
    if SkipWs(r) != [] {
      assert SkipWs(r)[0] in signs ==> SkipWs(r)[0] in {'|', '(', ')', ';', '&'};
    }
  }

  lemma PeekRedir(r: string)
    ensures Peek(r, {'<', '>'}) <==> Tokens(r) != [] && IsRedir(Tokens(r)[0].tok)
  {
    hide SkipWs, WordLen;
    TokensFirst(r);
  }

  // ---------- what the parser accepts, the grammar gives ----------

  /** The first n tokens of r have been read and x is left. */
  ghost predicate ReadUpTo(r: string, x: string, n: nat) {
    n <= |Tokens(r)| && Tokens(x) == Tokens(r)[n..]
  }

  lemma ReadMore(r: string, x: string, y: string, n: nat, m: nat)
    requires ReadUpTo(r, x, n) && ReadUpTo(x, y, m)
    ensures ReadUpTo(r, y, n + m) && Tokens(r)[..n + m] == Tokens(r)[..n] + Tokens(x)[..m]
  {
    hide Tokens;
  }

  /** The rest of the first n tokens, once k of them have been read. */
  lemma ReadOn(r: string, x: string, k: nat, n: nat)
    requires ReadUpTo(r, x, k) && k <= n <= |Tokens(r)|
    ensures n - k <= |Tokens(x)| && Tokens(x)[..n - k] == Tokens(r)[..n][k..] && Tokens(x)[n - k..] == Tokens(r)[n..]
    ensures k < n ==> Tokens(x) != [] && Tokens(x)[0] == Tokens(r)[..n][k]
  {
    hide Tokens;
  }

  lemma ReadSkip(r: string, x: string, n: nat)
    requires ReadUpTo(r, x, n)
    ensures ReadUpTo(r, SkipWs(x), n)
  {
    hide SkipWs, Tokens;
    TokensSkip(x);
  }

  lemma Before(r: string, n: nat, k: nat)
    requires k < n <= |Tokens(r)|
    ensures Tokens(r)[..k] == Tokens(r)[..n][..k] && Tokens(r)[k..] != [] && Tokens(r)[k..][0] == Tokens(r)[..n][k]
  {
    hide Tokens;
  }

  /** One token read. */
  lemma ReadOne(r: string)
    requires Tokens(r) != []
    ensures var t := GetToken(r);
            ReadUpTo(r, t.rest, 1) && Tokens(r)[..1] == [Lexeme(t.tok, Span(t.q, t.eq))]
  {
    TokensFirst(r);
  }

  lemma PlainConcat(a: seq<Lexeme>, b: seq<Lexeme>)
    requires Plain(a) && Plain(b)
    ensures Plain(a + b) && Uses(a + b) == Uses(a) + Uses(b)
    ensures ArgsOf(Uses(a + b)) == ArgsOf(Uses(a)) + ArgsOf(Uses(b))
    ensures FilesOf(Uses(a + b)) == FilesOf(Uses(a)) + FilesOf(Uses(b))
  {
    hide Uses, ArgsOf, FilesOf, IsRedir;
    forall i | 0 <= i < |a + b| ensures PlainAt(a + b, i) {
      if i < |a| {
        assert PlainAt(a, i);
      } else {
        assert PlainAt(b, i - |a|);
      }
    }
    if a != [] {
      assert PlainAt(a, |a| - 1);
    }
    WordIsNoSign();
    UsesConcat(a, b);
    PartsConcat(Uses(a), Uses(b));
  }

  lemma WordIsNoSign()
    ensures !IsRedir(Word)
  {
  }

  /** One word, and one redirection. */
  lemma OneWord(w: Lexeme)
    requires w.tok == Word
    ensures Plain([w]) && Uses([w]) == [Arg(w.span)] && ArgsOf(Uses([w])) == [w.span] && FilesOf(Uses([w])) == []
  {
    assert [w][..0] == [] && [Arg(w.span)][..0] == [];
  }

  lemma OneRedir(t: Lexeme, w: Lexeme)
    requires IsRedir(t.tok) && w.tok == Word
    ensures var f := Target(w.span, ModeOf(t.tok));
            && Plain([t, w]) && Uses([t, w]) == [FileName(f)]
            && ArgsOf(Uses([t, w])) == [] && FilesOf(Uses([t, w])) == [f]
  {
    var f := Target(w.span, ModeOf(t.tok));
    assert Uses([t, w]) == [FileName(f)] by {
      hide ArgsOf, FilesOf, ModeOf, Plain;
      assert [t, w][..1] == [t] && [t][..0] == [] && Uses([t]) == [];
    }
    OneFile(f);
  }

  lemma OneFile(f: Target)
    ensures ArgsOf([FileName(f)]) == [] && FilesOf([FileName(f)]) == [f]
  {
    assert [FileName(f)][..0] == [];
  }

  lemma {:induction false} RedirsSound(r: string) returns (n: nat)
    requires ParseRedirs(r).RedirsOk?
    ensures var x := ParseRedirs(r);
            && ReadUpTo(r, x.rest, n) && AllRedirs(Tokens(r)[..n]) && FilesOf(Uses(Tokens(r)[..n])) == x.list
    decreases |r|
  {
    hide SkipWs, GetToken, Tokens, Peek, IsRedir, Uses, ArgsOf, FilesOf;
    var s := SkipWs(r);
    TokensSkip(r);
    PeekRedir(r);
    n := 0;
    if Peek(r, {'<', '>'}) {
      var t := GetToken(s);
      var u := GetToken(t.rest);
      ReadOne(s);
      TokensFirst(t.rest);
      ReadOne(t.rest);
      var m := RedirsSound(u.rest);
      ReadMore(s, t.rest, u.rest, 1, 1);
      ReadMore(s, u.rest, ParseRedirs(u.rest).rest, 2, m);
      OneRedir(Tokens(s)[0], Tokens(t.rest)[0]);
      assert Tokens(s)[..2] == [Tokens(s)[0], Tokens(t.rest)[0]];
      PlainConcat(Tokens(s)[..2], Tokens(u.rest)[..m]);
      n := 2 + m;
    } else {
      assert Tokens(r)[..0] == [];
      NoUses();
    }
  }

  lemma NoUses()
    ensures Plain([]) && Uses([]) == [] && ArgsOf(Uses([])) == [] && FilesOf(Uses([])) == []
  {
  }

  lemma {:induction false} ArgsSound(args: seq<Span>, list: seq<Target>, r: string) returns (n: nat)
    requires ParseArgs(args, list, r).ArgsOk? && |args| < MAXARGS
    ensures var x := ParseArgs(args, list, r);
            && ReadUpTo(r, x.rest, n) && Plain(Tokens(r)[..n]) && |x.args| < MAXARGS
            && x.args == args + ArgsOf(Uses(Tokens(r)[..n])) && x.list == list + FilesOf(Uses(Tokens(r)[..n]))
    decreases |r|
  {
    hide SkipWs, GetToken, Tokens, Peek, Uses, ArgsOf, FilesOf, ParseRedirs, Plain;
    var s := SkipWs(r);
    TokensSkip(r);
    TokensFirst(s);
    n := 0;
    NoUses();
    assert Tokens(r)[..0] == [] && args + [] == args && list + [] == list;
    if !Peek(r, {'|', ')', '&', ';'}) {
      var t := GetToken(s);
      if t.tok == End {
        AtEnd(s);
      } else {
        ReadOne(s);
        var m := RedirsSound(t.rest);
        var x := ParseRedirs(t.rest);
        var k := ArgsSound(args + [Span(t.q, t.eq)], list + x.list, x.rest);
        var y := ParseArgs(args + [Span(t.q, t.eq)], list + x.list, x.rest);
        ReadMore(s, t.rest, x.rest, 1, m);
        ReadMore(s, x.rest, y.rest, 1 + m, k);
        OneWord(Tokens(s)[0]);
        RedirsPlain(Tokens(t.rest)[..m]);
        PlainConcat(Tokens(s)[..1], Tokens(t.rest)[..m]);
        PlainConcat(Tokens(s)[..1 + m], Tokens(x.rest)[..k]);
        n := 1 + m + k;
      }
    }
  }

  lemma RedirsPlain(ts: seq<Lexeme>)
    requires AllRedirs(ts)
    ensures Plain(ts) && ArgsOf(Uses(ts)) == []
  {
  }

  lemma AtEnd(s: string)
    requires GetToken(s).tok == End
    ensures Tokens(s) == [] && Tokens(GetToken(s).rest) == []
  {
    TokensSkip(s);
    assert GetToken(s).rest == SkipWs(s);
  }

  lemma SimpleSound(s: string) returns (n: nat)
    requires ParseRedirs(s).RedirsOk?
    requires var x := ParseRedirs(s); ParseArgs([], x.list, x.rest).ArgsOk?
    ensures var x := ParseRedirs(s);
            var y := ParseArgs([], x.list, x.rest);
            ReadUpTo(s, y.rest, n) && IsSimple(Tokens(s)[..n], Wrap(ExecCmd(y.args), y.list))
  {
    hide Tokens, Uses, ArgsOf, FilesOf, ParseRedirs, ParseArgs, Wrap, Redirected, Plain, AllRedirs;
    var m := RedirsSound(s);
    var x := ParseRedirs(s);
    var k := ArgsSound([], x.list, x.rest);
    var y := ParseArgs([], x.list, x.rest);
    RedirsPlain(Tokens(s)[..m]);
    ReadMore(s, x.rest, y.rest, m, k);
    PlainConcat(Tokens(s)[..m], Tokens(x.rest)[..k]);
    n := m + k;
    WrapsIff(Wrap(ExecCmd(y.args), y.list), ExecCmd(y.args), y.list);
  }

  lemma {:induction false} ExecSound(r: string) returns (n: nat)
    requires ParseExec(r).Ok?
    ensures ReadUpTo(r, ParseExec(r).rest, n) && IsExec(Tokens(r)[..n], ParseExec(r).cmd)
    decreases |r|, 1
  {
    hide SkipWs, GetToken, Tokens, Peek, ParseRedirs, ParseArgs, ParseBlock, Wrap, IsSimple, IsBlock;
    var s := SkipWs(r);
    TokensSkip(r);
    if Peek(r, {'('}) {
      n := BlockSound(s);
    } else {
      n := SimpleSound(s);
    }
  }

  lemma {:induction false} BlockSound(r: string) returns (n: nat)
    requires ParseBlock(r).Ok?
    ensures ReadUpTo(r, ParseBlock(r).rest, n) && IsBlock(Tokens(r)[..n], ParseBlock(r).cmd)
    decreases |r|, 0
  {
    hide SkipWs, GetToken, Tokens, Peek, Uses, ArgsOf, FilesOf, ParseRedirs, ParseLine, Wrap, Redirected, Plain;
    hide IsLine, AllRedirs;
    PeekSign(r, {'('});
    ReadOne(r);
    var t := GetToken(r);
    var k := LineSound(t.rest);
    var b := ParseLine(t.rest);
    PeekSign(b.rest, {')'});
    ReadOne(b.rest);
    var u := GetToken(b.rest);
    var m := RedirsSound(u.rest);
    var x := ParseRedirs(u.rest);
    ReadMore(r, t.rest, b.rest, 1, k);
    ReadMore(r, b.rest, u.rest, 1 + k, 1);
    ReadMore(r, u.rest, x.rest, 2 + k, m);
    n := 2 + k + m;
    var ts := Tokens(r)[..n];
    assert ts[1..1 + k] == Tokens(t.rest)[..k] && ts[1 + k + 1..] == Tokens(u.rest)[..m];
    assert ts[0] == Tokens(r)[0] && ts[1 + k] == Tokens(b.rest)[0];
    WrapsIff(Wrap(b.cmd, x.list), b.cmd, x.list);
  }

  lemma {:induction false} PipeSound(r: string) returns (n: nat)
    requires ParsePipe(r).Ok?
    ensures ReadUpTo(r, ParsePipe(r).rest, n) && IsPipe(Tokens(r)[..n], ParsePipe(r).cmd)
    decreases |r|, 2
  {
    hide SkipWs, GetToken, Tokens, Peek, ParseExec, IsExec;
    n := ExecSound(r);
    var e := ParseExec(r);
    PeekSign(e.rest, {'|'});
    TokensSkip(e.rest);
    if Peek(e.rest, {'|'}) {
      ReadOne(e.rest);
      var t := GetToken(e.rest);
      var m := PipeSound(t.rest);
      ReadMore(r, e.rest, t.rest, n, 1);
      ReadMore(r, t.rest, ParsePipe(t.rest).rest, n + 1, m);
      var ts := Tokens(r)[..n + 1 + m];
      assert ts[n] == Tokens(e.rest)[0] && ts[..n] == Tokens(r)[..n] && ts[n + 1..] == Tokens(t.rest)[..m];
      n := n + 1 + m;
    }
  }

  lemma {:induction false} BacksSound(c: Cmd, r: string, whole: string, k: nat) returns (n: nat)
    requires ReadUpTo(whole, r, k) && IsBacks(Tokens(whole)[..k], c)
    ensures ReadUpTo(whole, Backs(c, r).1, n) && IsBacks(Tokens(whole)[..n], Backs(c, r).0)
    decreases |r|
  {
    hide SkipWs, GetToken, Tokens, Peek, IsPipe;
    PeekSign(r, {'&'});
    TokensSkip(r);
    n := k;
    if Peek(r, {'&'}) {
      ReadOne(r);
      ReadMore(whole, r, GetToken(r).rest, k, 1);
      var ts := Tokens(whole)[..k + 1];
      assert ts[k] == Tokens(r)[0] && ts[..k] == Tokens(whole)[..k];
      n := BacksSound(BackCmd(c), GetToken(r).rest, whole, k + 1);
    }
  }

  lemma {:induction false} LineSound(r: string) returns (n: nat)
    requires ParseLine(r).Ok?
    ensures ReadUpTo(r, ParseLine(r).rest, n) && IsLine(Tokens(r)[..n], ParseLine(r).cmd)
    decreases |r|, 3
  {
    hide SkipWs, GetToken, Tokens, Peek, ParsePipe, IsPipe, Backs, IsBacks;
    var k := PipeSound(r);
    var p := ParsePipe(r);
    PipeIsBacks(Tokens(r)[..k], p.cmd);
    n := BacksSound(p.cmd, p.rest, r, k);
    var b := Backs(p.cmd, p.rest);
    PeekSign(b.1, {';'});
    TokensSkip(b.1);
    if Peek(b.1, {';'}) {
      ReadOne(b.1);
      var t := GetToken(b.1);
      var m := LineSound(t.rest);
      ReadMore(r, b.1, t.rest, n, 1);
      ReadMore(r, t.rest, ParseLine(t.rest).rest, n + 1, m);
      var ts := Tokens(r)[..n + 1 + m];
      assert ts[n] == Tokens(b.1)[0] && ts[..n] == Tokens(r)[..n] && ts[n + 1..] == Tokens(t.rest)[..m];
      n := n + 1 + m;
    }
  }

  lemma PipeIsBacks(ts: seq<Lexeme>, c: Cmd)
    requires IsPipe(ts, c)
    ensures IsBacks(ts, c)
  {
  }

  // ---------- what the grammar gives, the parser accepts ----------

  /** How many tokens the redirections at the front take. */
  function RedirLen(ts: seq<Lexeme>): (n: nat)
    ensures n <= |ts|
  {
    if |ts| >= 2 && IsRedir(ts[0].tok) then 2 + RedirLen(ts[2..]) else 0
  }

  lemma PlainTail(ts: seq<Lexeme>, n: nat)
    requires Plain(ts) && n <= |ts|
    ensures Plain(ts[n..])
  {
    hide IsRedir;
    forall i | 0 <= i < |ts[n..]| ensures PlainAt(ts[n..], i) {
      assert PlainAt(ts, n + i);
    }
  }

  lemma {:induction false} RedirLenIs(ts: seq<Lexeme>)
    requires Plain(ts)
    ensures var n := RedirLen(ts); AllRedirs(ts[..n]) && Plain(ts[n..]) && (n < |ts| ==> ts[n].tok == Word)
  {
    hide Uses, ArgsOf, FilesOf, IsRedir, Plain;
    var n := RedirLen(ts);
    PlainTail(ts, n);
    WordIsNoSign();
    if ts != [] {
      PlainFirst(ts);
    }
    if |ts| >= 2 && IsRedir(ts[0].tok) {
      PlainTail(ts, 2);
      RedirLenIs(ts[2..]);
      OneRedir(ts[0], ts[1]);
      RedirsPlain(ts[2..][..n - 2]);
      assert ts[..n] == [ts[0], ts[1]] + ts[2..][..n - 2];
      PlainConcat([ts[0], ts[1]], ts[2..][..n - 2]);
    } else {
      assert ts[..0] == [];
      NoUses();
    }
  }

  lemma PlainFirst(ts: seq<Lexeme>)
    requires Plain(ts) && ts != []
    ensures ts[0].tok == Word || (IsRedir(ts[0].tok) && |ts| >= 2 && ts[1].tok == Word)
  {
    assert PlainAt(ts, 0);
  }

  /** Redirections begin with a sign and go on with redirections. */
  lemma RedirsFirst(ts: seq<Lexeme>)
    requires AllRedirs(ts) && ts != []
    ensures |ts| >= 2 && IsRedir(ts[0].tok) && ts[1].tok == Word && AllRedirs(ts[2..])
    ensures FilesOf(Uses(ts)) == [Target(ts[1].span, ModeOf(ts[0].tok))] + FilesOf(Uses(ts[2..]))
  {
    hide Uses, ArgsOf, FilesOf, IsRedir, Plain;
    RedirsPlain(ts);
    PlainFirst(ts);
    if ts[0].tok == Word {
      WordIsArg(ts);
    } else {
      RedirThen(ts);
    }
  }

  lemma RedirThen(ts: seq<Lexeme>)
    requires Plain(ts) && |ts| >= 2 && IsRedir(ts[0].tok) && ts[1].tok == Word
    ensures Plain(ts[2..]) && ArgsOf(Uses(ts)) == ArgsOf(Uses(ts[2..]))
    ensures FilesOf(Uses(ts)) == [Target(ts[1].span, ModeOf(ts[0].tok))] + FilesOf(Uses(ts[2..]))
  {
    hide Uses, ArgsOf, FilesOf, IsRedir, Plain;
    OneRedir(ts[0], ts[1]);
    PlainTail(ts, 2);
    assert ts == [ts[0], ts[1]] + ts[2..];
    PlainConcat([ts[0], ts[1]], ts[2..]);
  }

  lemma WordIsArg(ts: seq<Lexeme>)
    requires Plain(ts) && ts != [] && ts[0].tok == Word
    ensures ArgsOf(Uses(ts)) != []
  {
    hide Uses, ArgsOf, FilesOf, IsRedir, Plain;
    OneWord(ts[0]);
    PlainTail(ts, 1);
    assert ts == [ts[0]] + ts[1..];
    PlainConcat([ts[0]], ts[1..]);
  }

  lemma {:induction false} RedirsComplete(r: string, n: nat)
    requires n <= |Tokens(r)| && AllRedirs(Tokens(r)[..n]) && (n < |Tokens(r)| ==> !IsRedir(Tokens(r)[n].tok))
    ensures var x := ParseRedirs(r);
            x.RedirsOk? && x.list == FilesOf(Uses(Tokens(r)[..n])) && ReadUpTo(r, x.rest, n)
    decreases n
  {
    hide SkipWs, GetToken, Tokens, Peek, Uses, ArgsOf, FilesOf, AllRedirs, IsRedir, ReadUpTo, ModeOf;
    var s := SkipWs(r);
    TokensSkip(r);
    PeekRedir(r);
    var ts := Tokens(r)[..n];
    if n == 0 {
      NoUses();
      assert ts == [];
      ReadNone(r);
    } else {
      RedirsFirst(ts);
      ReadOne(s);
      var t := GetToken(s);
      ReadOn(s, t.rest, 1, n);
      ReadOne(t.rest);
      var u := GetToken(t.rest);
      ReadMore(s, t.rest, u.rest, 1, 1);
      ReadOn(s, u.rest, 2, n);
      RedirsComplete(u.rest, n - 2);
      ReadMore(s, u.rest, ParseRedirs(u.rest).rest, 2, n - 2);
      ReadFrom(r, s, ParseRedirs(u.rest).rest, n);
    }
  }

  lemma ReadNone(r: string)
    ensures ReadUpTo(r, SkipWs(r), 0)
  {
    hide SkipWs, Tokens;
    TokensSkip(r);
  }

  lemma ReadFrom(r: string, s: string, x: string, n: nat)
    requires Tokens(r) == Tokens(s) && ReadUpTo(s, x, n)
    ensures ReadUpTo(r, x, n)
  {
  }

  /** What may stand behind a simple command. */
  predicate Stops(ts: seq<Lexeme>) {
    ts == [] || StartsWith(ts, {'|', ')', '&', ';'})
  }

  lemma StopsNoRedir(ts: seq<Lexeme>)
    requires Stops(ts) && ts != []
    ensures !IsRedir(ts[0].tok) && ts[0].tok != Word
  {
  }

  lemma {:induction false} ArgsComplete(args: seq<Span>, list: seq<Target>, r: string, n: nat)
    requires n <= |Tokens(r)| && Plain(Tokens(r)[..n]) && (n > 0 ==> Tokens(r)[0].tok == Word) && Stops(Tokens(r)[n..])
    requires |args| + |ArgsOf(Uses(Tokens(r)[..n]))| < MAXARGS
    ensures var x := ParseArgs(args, list, r);
            && x.ArgsOk? && ReadUpTo(r, x.rest, n) && x.args == args + ArgsOf(Uses(Tokens(r)[..n]))
            && x.list == list + FilesOf(Uses(Tokens(r)[..n]))
    decreases n
  {
    hide SkipWs, GetToken, Tokens, Peek, Uses, ArgsOf, FilesOf, ParseRedirs, Plain, AllRedirs;
    var s := SkipWs(r);
    TokensSkip(r);
    TokensFirst(s);
    PeekSign(r, {'|', ')', '&', ';'});
    var ts := Tokens(r)[..n];
    if n == 0 {
      NoUses();
      assert ts == [] && args + [] == args && list + [] == list && Tokens(r)[0..] == Tokens(r);
      if Tokens(r) == [] {
        AtEnd(s);
      }
    } else {
      ReadOne(s);
      var t := GetToken(s);
      var m := AfterWord(ts);
      FirstRedirs(r, t.rest, n, m);
      var x := ParseRedirs(t.rest);
      ReadMore(s, t.rest, x.rest, 1, m);
      assert Tokens(x.rest)[..n - 1 - m] == ts[1 + m..];
      assert Tokens(x.rest)[n - 1 - m..] == Tokens(r)[n..];
      assert n - 1 - m > 0 ==> Tokens(x.rest)[0] == ts[1 + m];
      ArgsComplete(args + [Span(t.q, t.eq)], list + x.list, x.rest, n - 1 - m);
      ReadMore(s, x.rest, ParseArgs(args + [Span(t.q, t.eq)], list + x.list, x.rest).rest, 1 + m, n - 1 - m);
    }
  }

  /** A word, the redirections behind it, and the rest. */
  lemma AfterWord(ts: seq<Lexeme>) returns (m: nat)
    requires Plain(ts) && ts != [] && ts[0].tok == Word
    ensures 1 + m <= |ts| && AllRedirs(ts[1..1 + m]) && Plain(ts[1 + m..]) && (1 + m < |ts| ==> ts[1 + m].tok == Word)
    ensures ArgsOf(Uses(ts)) == [ts[0].span] + ArgsOf(Uses(ts[1 + m..]))
    ensures FilesOf(Uses(ts)) == FilesOf(Uses(ts[1..1 + m])) + FilesOf(Uses(ts[1 + m..]))
  {
    hide Uses, ArgsOf, FilesOf, IsRedir, Plain;
    PlainTail(ts, 1);
    m := RedirLen(ts[1..]);
    RedirLenIs(ts[1..]);
    var a, b, c := [ts[0]], ts[1..1 + m], ts[1 + m..];
    assert ts[1..][..m] == b && ts[1..][m..] == c && ts == a + (b + c);
    OneWord(ts[0]);
    RedirsPlain(b);
    PlainConcat(b, c);
    PlainConcat(a, b + c);
  }

  lemma FirstRedirs(r: string, rest: string, n: nat, m: nat)
    requires n <= |Tokens(r)| && 1 + m <= n && ReadUpTo(r, rest, 1) && Stops(Tokens(r)[n..])
    requires AllRedirs(Tokens(r)[..n][1..1 + m]) && (1 + m < n ==> Tokens(r)[..n][1 + m].tok == Word)
    ensures var x := ParseRedirs(rest);
            x.RedirsOk? && x.list == FilesOf(Uses(Tokens(r)[..n][1..1 + m])) && ReadUpTo(rest, x.rest, m)
  {
    hide Tokens, Uses, ArgsOf, FilesOf, ParseRedirs, AllRedirs;
    assert Tokens(rest)[..m] == Tokens(r)[..n][1..1 + m];
    if m < |Tokens(rest)| {
      assert Tokens(rest)[m] == Tokens(r)[1 + m];
      if 1 + m == n {
        StopsNoRedir(Tokens(r)[n..]);
      }
    }
    RedirsComplete(rest, m);
  }

  lemma SimpleComplete(s: string, n: nat, c: Cmd)
    requires n <= |Tokens(s)| && IsSimple(Tokens(s)[..n], c) && Stops(Tokens(s)[n..])
    ensures var x := ParseRedirs(s);
            && x.RedirsOk?
            && var y := ParseArgs([], x.list, x.rest);
               y.ArgsOk? && ReadUpTo(s, y.rest, n) && c == Wrap(ExecCmd(y.args), y.list)
  {
    hide Tokens, Uses, ArgsOf, FilesOf, ParseRedirs, ParseArgs, Wrap, Redirected, Plain, AllRedirs, ReadUpTo, Stops;
    var ts := Tokens(s)[..n];
    var m := RedirLen(ts);
    RedirLenIs(ts);
    RedirsPlain(ts[..m]);
    assert ts == ts[..m] + ts[m..];
    PlainConcat(ts[..m], ts[m..]);
    FrontRedirs(s, n, m);
    var x := ParseRedirs(s);
    ReadOn(s, x.rest, m, n);
    ArgsComplete([], x.list, x.rest, n - m);
    ReadMore(s, x.rest, ParseArgs([], x.list, x.rest).rest, m, n - m);
    WrapsIff(c, ExecCmd(ArgsOf(Uses(ts))), FilesOf(Uses(ts)));
  }

  lemma FrontRedirs(s: string, n: nat, m: nat)
    requires m <= n <= |Tokens(s)| && AllRedirs(Tokens(s)[..n][..m]) && (m < n ==> Tokens(s)[..n][m].tok == Word)
    requires Stops(Tokens(s)[n..])
    ensures var x := ParseRedirs(s);
            x.RedirsOk? && x.list == FilesOf(Uses(Tokens(s)[..n][..m])) && ReadUpTo(s, x.rest, m)
  {
    hide Tokens, Uses, ArgsOf, FilesOf, ParseRedirs, AllRedirs, ReadUpTo, Stops, IsRedir;
    WordIsNoSign();
    assert Tokens(s)[..m] == Tokens(s)[..n][..m];
    if m == n < |Tokens(s)| {
      StopsNoRedir(Tokens(s)[n..]);
      assert Tokens(s)[n..][0] == Tokens(s)[m];
    }
    RedirsComplete(s, m);
  }

  lemma SimpleFirst(ts: seq<Lexeme>, c: Cmd)
    requires IsSimple(ts, c) && ts != []
    ensures ts[0].tok != Sign('(')
  {
    PlainFirst(ts);
  }

  lemma {:induction false} ExecComplete(r: string, n: nat, c: Cmd)
    requires n <= |Tokens(r)| && IsExec(Tokens(r)[..n], c) && Stops(Tokens(r)[n..])
    ensures ParseExec(r).Ok? && ParseExec(r).cmd == c && ReadUpTo(r, ParseExec(r).rest, n)
    decreases n, 1
  {
    hide SkipWs, GetToken, Tokens, Peek, ParseRedirs, ParseArgs, ParseBlock, Wrap, IsSimple, IsBlock;
    TokensSkip(r);
    PeekSign(r, {'('});
    var ts := Tokens(r)[..n];
    if IsBlock(ts, c) {
      BlockFirst(ts, c);
      BlockComplete(SkipWs(r), n, c);
    } else {
      if n > 0 {
        SimpleFirst(ts, c);
      } else {
        assert Tokens(r)[0..] == Tokens(r);
      }
      SimpleComplete(SkipWs(r), n, c);
    }
  }

  lemma BlockFirst(ts: seq<Lexeme>, c: Cmd)
    requires IsBlock(ts, c)
    ensures ts != [] && ts[0].tok == Sign('(')
  {
  }

  lemma {:induction false} BlockComplete(r: string, n: nat, c: Cmd)
    requires n <= |Tokens(r)| && IsBlock(Tokens(r)[..n], c) && Stops(Tokens(r)[n..])
    ensures ParseBlock(r).Ok? && ParseBlock(r).cmd == c && ReadUpTo(r, ParseBlock(r).rest, n)
    decreases n, 0
  {
    hide SkipWs, GetToken, Tokens, Peek, Uses, ArgsOf, FilesOf, ParseRedirs, ParseLine, Wrap, Redirected, Plain;
    hide IsLine, AllRedirs, ReadUpTo, Stops;
    var ts := Tokens(r)[..n];
    var k, d :| && 0 < k < |ts| && ts[0].tok == Sign('(') && ts[k].tok == Sign(')') && IsLine(ts[1..k], d)
                && AllRedirs(ts[k + 1..]) && Redirected(c, d, FilesOf(Uses(ts[k + 1..])));
    PeekSign(r, {'('});
    ReadOne(r);
    var t := GetToken(r);
    ReadOn(r, t.rest, 1, k);
    assert Tokens(r)[..k][1..] == ts[1..k];
    LineComplete(t.rest, k - 1, d);
    var b := ParseLine(t.rest);
    ReadMore(r, t.rest, b.rest, 1, k - 1);
    ReadOn(r, b.rest, k, n);
    BlockEnd(r, b.rest, n, k);
    WrapsIff(c, d, FilesOf(Uses(ts[k + 1..])));
  }

  /** From the ')' on. */
  lemma BlockEnd(r: string, x: string, n: nat, k: nat)
    requires k < n <= |Tokens(r)| && ReadUpTo(r, x, k) && Tokens(r)[..n][k].tok == Sign(')')
    requires AllRedirs(Tokens(r)[..n][k + 1..]) && Stops(Tokens(r)[n..])
    ensures Peek(x, {')'})
    ensures var y := ParseRedirs(GetToken(x).rest);
            && y.RedirsOk? && y.list == FilesOf(Uses(Tokens(r)[..n][k + 1..])) && ReadUpTo(r, y.rest, n)
  {
    hide SkipWs, GetToken, Tokens, Peek, Uses, ArgsOf, FilesOf, ParseRedirs, Plain, AllRedirs, ReadUpTo;
    ReadOn(r, x, k, n);
    PeekSign(x, {')'});
    ReadOne(x);
    var u := GetToken(x);
    ReadMore(r, x, u.rest, k, 1);
    ReadOn(r, u.rest, k + 1, n);
    if n < |Tokens(r)| {
      StopsNoRedir(Tokens(r)[n..]);
    }
    RedirsComplete(u.rest, n - k - 1);
    ReadMore(r, u.rest, ParseRedirs(u.rest).rest, k + 1, n - k - 1);
  }

  /** What may stand behind a pipe, and behind a line. */
  predicate StopsPipe(ts: seq<Lexeme>) { ts == [] || StartsWith(ts, {')', '&', ';'}) }
  predicate StopsBacks(ts: seq<Lexeme>) { ts == [] || StartsWith(ts, {')', ';'}) }
  predicate StopsLine(ts: seq<Lexeme>) { ts == [] || StartsWith(ts, {')'}) }

  lemma SignStops(ts: seq<Lexeme>, signs: set<char>)
    requires ts == [] || StartsWith(ts, signs)
    requires signs <= {'|', ')', '&', ';'}
    ensures Stops(ts) && ('|' !in signs ==> !StartsWith(ts, {'|'}))
  {
  }

  lemma PipeSign(ts: seq<Lexeme>)
    requires ts != [] && ts[0].tok == Sign('|')
    ensures Stops(ts) && StartsWith(ts, {'|'})
  {
  }

  lemma {:induction false} PipeComplete(r: string, n: nat, c: Cmd)
    requires n <= |Tokens(r)| && IsPipe(Tokens(r)[..n], c) && StopsPipe(Tokens(r)[n..])
    ensures ParsePipe(r).Ok? && ParsePipe(r).cmd == c && ReadUpTo(r, ParsePipe(r).rest, n)
    decreases n, 2
  {
    hide SkipWs, GetToken, Tokens, Peek, ParseExec, IsExec, ReadUpTo, Stops, StartsWith;
    var ts := Tokens(r)[..n];
    if IsExec(ts, c) {
      SignStops(Tokens(r)[n..], {')', '&', ';'});
      ExecComplete(r, n, c);
      var e := ParseExec(r);
      ReadOn(r, e.rest, n, n);
      PeekSign(e.rest, {'|'});
      ReadSkip(r, e.rest, n);
    } else {
      var k :| 0 <= k < n && ts[k].tok == Sign('|') && IsExec(ts[..k], c.left) && IsPipe(ts[k + 1..], c.right);
      Before(r, n, k);
      PipeSign(Tokens(r)[k..]);
      ExecComplete(r, k, c.left);
      var e := ParseExec(r);
      ReadOn(r, e.rest, k, n);
      PipeSign(Tokens(e.rest));
      PeekSign(e.rest, {'|'});
      ReadOne(e.rest);
      var t := GetToken(e.rest);
      ReadMore(r, e.rest, t.rest, k, 1);
      ReadOn(r, t.rest, k + 1, n);
      PipeComplete(t.rest, n - k - 1, c.right);
      ReadMore(r, t.rest, ParsePipe(t.rest).rest, k + 1, n - k - 1);
    }
  }

  /** A pipe and the '&' behind it: the loop of parseline, begun after the pipe. */
  lemma {:induction false} BacksComplete(r: string, n: nat, c: Cmd)
    requires n <= |Tokens(r)| && IsBacks(Tokens(r)[..n], c)
    requires Tokens(r)[n..] == [] || StartsWith(Tokens(r)[n..], {')', '&', ';'})
    ensures ParsePipe(r).Ok?
    ensures exists x :: ReadUpTo(r, x, n) && Backs(ParsePipe(r).cmd, ParsePipe(r).rest) == Backs(c, x)
    decreases n, 3
  {
    hide SkipWs, GetToken, Tokens, Peek, ParsePipe, IsPipe, ReadUpTo;
    var ts := Tokens(r)[..n];
    if IsPipe(ts, c) {
      PipeComplete(r, n, c);
    } else {
      var k := n - 1;
      Before(r, n, k);
      BacksComplete(r, k, c.cmd);
      var x :| ReadUpTo(r, x, k) && Backs(ParsePipe(r).cmd, ParsePipe(r).rest) == Backs(c.cmd, x);
      ReadOn(r, x, k, n);
      PeekSign(x, {'&'});
      ReadOne(x);
      ReadMore(r, x, GetToken(x).rest, k, 1);
    }
  }

  lemma {:induction false} LineComplete(r: string, n: nat, c: Cmd)
    requires n <= |Tokens(r)| && IsLine(Tokens(r)[..n], c) && StopsLine(Tokens(r)[n..])
    ensures ParseLine(r).Ok? && ParseLine(r).cmd == c && ReadUpTo(r, ParseLine(r).rest, n)
    decreases n, 5
  {
    hide SkipWs, GetToken, Tokens, Peek, ParsePipe, IsBacks, ReadUpTo, Backs;
    var ts := Tokens(r)[..n];
    if IsBacks(ts, c) {
      BacksEnd(r, n, c);
      var b := Backs(ParsePipe(r).cmd, ParsePipe(r).rest);
      ReadOn(r, b.1, n, n);
      PeekSign(b.1, {';'});
      ReadSkip(r, b.1, n);
    } else {
      var k :| 0 <= k < n && ts[k].tok == Sign(';') && IsBacks(ts[..k], c.left) && IsLine(ts[k + 1..], c.right);
      Before(r, n, k);
      BacksEnd(r, k, c.left);
      var b := Backs(ParsePipe(r).cmd, ParsePipe(r).rest);
      ReadOn(r, b.1, k, n);
      PeekSign(b.1, {';'});
      ReadOne(b.1);
      var t := GetToken(b.1);
      ReadMore(r, b.1, t.rest, k, 1);
      ReadOn(r, t.rest, k + 1, n);
      LineComplete(t.rest, n - k - 1, c.right);
      ReadMore(r, t.rest, ParseLine(t.rest).rest, k + 1, n - k - 1);
    }
  }

  lemma BacksEnd(r: string, n: nat, c: Cmd)
    requires n <= |Tokens(r)| && IsBacks(Tokens(r)[..n], c) && StopsBacks(Tokens(r)[n..])
    ensures ParsePipe(r).Ok?
    ensures var b := Backs(ParsePipe(r).cmd, ParsePipe(r).rest); b.0 == c && ReadUpTo(r, b.1, n)
    decreases n, 4
  {
    hide SkipWs, GetToken, Tokens, Peek, ParsePipe, IsBacks;
    BacksComplete(r, n, c);
    var x :| ReadUpTo(r, x, n) && Backs(ParsePipe(r).cmd, ParsePipe(r).rest) == Backs(c, x);
    PeekSign(x, {'&'});
    TokensSkip(x);
  }

  // ---------- the parser is the grammar ----------

  /** parsecmd accepts a line with a tree if and only if the grammar gives the tokens of the line that tree. */
  lemma ParsesIff(s: string, c: Cmd)
    ensures IsLine(Tokens(s), c) <==> ParseCmd(s).Ok? && ParseCmd(s).cmd == c
  {
    hide SkipWs, GetToken, Tokens, ParseLine, IsLine;
    assert Tokens(s)[..|Tokens(s)|] == Tokens(s);
    if IsLine(Tokens(s), c) {
      LineComplete(s, |Tokens(s)|, c);
      UsedUp(ParseLine(s).rest);
    }
    if ParseCmd(s).Ok? {
      var n := LineSound(s);
      UsedUp(ParseLine(s).rest);
    }
  }

  lemma UsedUp(r: string)
    ensures SkipWs(r) == [] <==> Tokens(r) == []
  {
    hide SkipWs;
    EndOfLine(r);
    TokensFirst(r);
  }

  // ---------- every word once ----------

  function AsArgs(args: seq<Span>): seq<Use> {
    if args == [] then [] else AsArgs(args[..|args| - 1]) + [Arg(args[|args| - 1])]
  }

  function AsFiles(files: seq<Target>): seq<Use> {
    if files == [] then [] else AsFiles(files[..|files| - 1]) + [FileName(files[|files| - 1])]
  }

  /** The uses of words that a tree holds. */
  ghost function Recorded(c: Cmd): multiset<Use> {
    match c
    case ExecCmd(args) => multiset(AsArgs(args))
    case RedirCmd(d, f, m) => Recorded(d) + multiset{FileName(Target(f, m))}
    case PipeCmd(l, r) => Recorded(l) + Recorded(r)
    case ListCmd(l, r) => Recorded(l) + Recorded(r)
    case BackCmd(d) => Recorded(d)
  }

  lemma {:induction false} RedirectedRecords(c: Cmd, core: Cmd, files: seq<Target>)
    requires Redirected(c, core, files)
    ensures Recorded(c) == Recorded(core) + multiset(AsFiles(files))
    decreases |files|
  {
    if files != [] {
      RedirectedRecords(c.cmd, core, files[..|files| - 1]);
    }
  }

  lemma OneMore(args: seq<Span>, a: Span, files: seq<Target>, f: Target)
    ensures AsArgs(args + [a]) == AsArgs(args) + [Arg(a)] && AsFiles(files + [f]) == AsFiles(files) + [FileName(f)]
  {
    assert (args + [a])[..|args|] == args && (files + [f])[..|files|] == files;
  }

  lemma LastUse(us: seq<Use>)
    requires us != []
    ensures var before, u := us[..|us| - 1], us[|us| - 1];
            && us == before + [u]
            && AsArgs(ArgsOf(us)) == AsArgs(ArgsOf(before)) + (if u.Arg? then [u] else [])
            && AsFiles(FilesOf(us)) == AsFiles(FilesOf(before)) + (if u.Arg? then [] else [u])
  {
    hide AsArgs, AsFiles;
    var before, u := us[..|us| - 1], us[|us| - 1];
    if u.Arg? {
      OneMore(ArgsOf(before), u.span, [], Target(u.span, In));
      assert FilesOf(us) == FilesOf(before);
    } else {
      OneMore([], u.file.file, FilesOf(before), u.file);
      assert ArgsOf(us) == ArgsOf(before);
    }
  }

  /** Arguments and file names are all there is. */
  lemma {:induction false} BothParts(us: seq<Use>)
    ensures multiset(us) == multiset(AsArgs(ArgsOf(us))) + multiset(AsFiles(FilesOf(us)))
  {
    if us != [] {
      hide ArgsOf, FilesOf, AsArgs, AsFiles;
      BothParts(us[..|us| - 1]);
      LastUse(us);
    }
  }

  ghost predicate Closed(ts: seq<Lexeme>) { ts == [] || !IsRedir(ts[|ts| - 1].tok) }

  /** The tree holds the words of these tokens, each as what it is used for. */
  ghost predicate Records(ts: seq<Lexeme>, c: Cmd) {
    Closed(ts) && Recorded(c) == multiset(Uses(ts))
  }

  /** Two parts with a sign between them. */
  lemma UsesJoin(a: seq<Lexeme>, sign: Lexeme, b: seq<Lexeme>)
    requires Closed(a) && sign.tok != Word && !IsRedir(sign.tok)
    ensures Uses(a + [sign] + b) == Uses(a) + Uses(b)
    ensures Closed(b) ==> Closed(a + [sign] + b)
  {
    hide IsRedir;
    UsesConcat(a, [sign]);
    assert [sign][..0] == [] && Uses([sign]) == [];
    UsesConcat(a + [sign], b);
  }

  lemma PlainClosed(ts: seq<Lexeme>)
    requires Plain(ts)
    ensures Closed(ts)
  {
    if ts != [] {
      assert PlainAt(ts, |ts| - 1);
    }
  }

  lemma SimpleRecords(ts: seq<Lexeme>, c: Cmd)
    requires IsSimple(ts, c)
    ensures Records(ts, c)
  {
    hide Uses, ArgsOf, FilesOf, Plain, Closed, Redirected;
    PlainClosed(ts);
    BothParts(Uses(ts));
    RedirectedRecords(c, ExecCmd(ArgsOf(Uses(ts))), FilesOf(Uses(ts)));
  }

  lemma {:induction false} BlockRecords(ts: seq<Lexeme>, c: Cmd)
    requires IsBlock(ts, c)
    ensures Records(ts, c)
    decreases |ts|, 0
  {
    hide Uses, ArgsOf, FilesOf, AsArgs, AsFiles, Plain, Closed, Redirected, IsLine, AllRedirs, Recorded;
    var k, d :| && 0 < k < |ts| && ts[0].tok == Sign('(') && ts[k].tok == Sign(')') && IsLine(ts[1..k], d)
                && AllRedirs(ts[k + 1..]) && Redirected(c, d, FilesOf(Uses(ts[k + 1..])));
    var body, tail := ts[1..k], ts[k + 1..];
    LineRecords(body, d);
    RedirsRecord(tail);
    RedirectedRecords(c, d, FilesOf(Uses(tail)));
    BlockUses(ts, k);
  }

  lemma RedirsRecord(ts: seq<Lexeme>)
    requires AllRedirs(ts)
    ensures Closed(ts) && multiset(Uses(ts)) == multiset(AsFiles(FilesOf(Uses(ts))))
  {
    hide Uses, ArgsOf, FilesOf, AsFiles, Plain, Closed;
    PlainClosed(ts);
    BothParts(Uses(ts));
  }

  lemma BlockUses(ts: seq<Lexeme>, k: nat)
    requires 0 < k < |ts| && ts[0].tok == Sign('(') && ts[k].tok == Sign(')')
    requires Closed(ts[1..k]) && Closed(ts[k + 1..])
    ensures Closed(ts) && Uses(ts) == Uses(ts[1..k]) + Uses(ts[k + 1..])
  {
    hide Uses, Closed, Plain;
    var body, tail := ts[1..k], ts[k + 1..];
    NoUses();
    PlainClosed([]);
    UsesJoin([], ts[0], body);
    UsesJoin([] + [ts[0]] + body, ts[k], tail);
    assert ts == [] + [ts[0]] + body + [ts[k]] + tail;
  }

  lemma {:induction false} ExecRecords(ts: seq<Lexeme>, c: Cmd)
    requires IsExec(ts, c)
    ensures Records(ts, c)
    decreases |ts|, 1
  {
    if IsSimple(ts, c) {
      SimpleRecords(ts, c);
    } else {
      BlockRecords(ts, c);
    }
  }

  lemma {:induction false} PipeRecords(ts: seq<Lexeme>, c: Cmd)
    requires IsPipe(ts, c)
    ensures Records(ts, c)
    decreases |ts|, 2
  {
    hide Uses, Closed, IsExec;
    if IsExec(ts, c) {
      ExecRecords(ts, c);
    } else {
      var k :| 0 <= k < |ts| && ts[k].tok == Sign('|') && IsExec(ts[..k], c.left) && IsPipe(ts[k + 1..], c.right);
      ExecRecords(ts[..k], c.left);
      PipeRecords(ts[k + 1..], c.right);
      UsesJoin(ts[..k], ts[k], ts[k + 1..]);
      assert ts == ts[..k] + [ts[k]] + ts[k + 1..];
    }
  }

  lemma {:induction false} BacksRecords(ts: seq<Lexeme>, c: Cmd)
    requires IsBacks(ts, c)
    ensures Records(ts, c)
    decreases |ts|, 3
  {
    hide Uses, Closed, IsPipe, Plain;
    if IsPipe(ts, c) {
      PipeRecords(ts, c);
    } else {
      var k := |ts| - 1;
      BacksRecords(ts[..k], c.cmd);
      NoUses();
      PlainClosed([]);
      UsesJoin(ts[..k], ts[k], []);
      assert ts == ts[..k] + [ts[k]] + [];
    }
  }

  lemma {:induction false} LineRecords(ts: seq<Lexeme>, c: Cmd)
    requires IsLine(ts, c)
    ensures Records(ts, c)
    decreases |ts|, 4
  {
    hide Uses, Closed, IsBacks;
    if IsBacks(ts, c) {
      BacksRecords(ts, c);
    } else {
      var k :| 0 <= k < |ts| && ts[k].tok == Sign(';') && IsBacks(ts[..k], c.left) && IsLine(ts[k + 1..], c.right);
      BacksRecords(ts[..k], c.left);
      LineRecords(ts[k + 1..], c.right);
      UsesJoin(ts[..k], ts[k], ts[k + 1..]);
      assert ts == ts[..k] + [ts[k]] + ts[k + 1..];
    }
  }

  /** The words of an accepted line are the words of its tree, with the same uses. */
  lemma WordsRecorded(s: string)
    requires ParseCmd(s).Ok?
    ensures Recorded(ParseCmd(s).cmd) == multiset(Uses(Tokens(s)))
  {
    hide Tokens, ParseCmd, IsLine, Uses;
    ParsesIff(s, ParseCmd(s).cmd);
    LineRecords(Tokens(s), ParseCmd(s).cmd);
  }

  function SpanOf(u: Use): Span { if u.Arg? then u.span else u.file.file }

  /** No two tokens in the same place. */
  ghost predicate Apart(ts: seq<Lexeme>) {
    forall i, j :: 0 <= i < j < |ts| ==> ts[i].span != ts[j].span
  }

  lemma {:induction false} TokensApart(r: string)
    ensures forall i :: 0 <= i < |Tokens(r)| ==> Tokens(r)[i].span.eq < Tokens(r)[i].span.q <= |r|
    ensures Apart(Tokens(r))
    decreases |r|
  {
    hide SkipWs, GetToken, Tokens, TokenText, AllWs;
    TokensFirst(r);
    FirstSpells(r);
    if Tokens(r) != [] {
      var t := GetToken(r);
      TokensApart(t.rest);
      assert forall i :: 0 < i < |Tokens(r)| ==> Tokens(r)[i] == Tokens(t.rest)[i - 1];
    }
  }

  lemma {:induction false} UsesFrom(ts: seq<Lexeme>, u: Use)
    requires u in Uses(ts)
    ensures exists i :: 0 <= i < |ts| && ts[i].tok == Word && u == UseAt(ts, i)
  {
    var n := |ts| - 1;
    if u in Uses(ts[..n]) {
      UsesFrom(ts[..n], u);
      var i :| 0 <= i < n && ts[..n][i].tok == Word && u == UseAt(ts[..n], i);
      assert u == UseAt(ts, i);
    } else {
      assert u == UseAt(ts, n);
    }
  }

  lemma {:induction false} UsedOnce(ts: seq<Lexeme>, i: nat)
    requires Apart(ts) && i < |ts| && ts[i].tok == Word
    ensures multiset(Uses(ts))[UseAt(ts, i)] == 1
    ensures forall u :: u in Uses(ts) && SpanOf(u) == ts[i].span ==> u == UseAt(ts, i)
    decreases |ts|
  {
    hide Uses, Apart;
    var n := |ts| - 1;
    LastToken(ts);
    ApartMore(ts);
    if i == n {
      forall v | v in Uses(ts[..n]) ensures SpanOf(v) != ts[n].span {
        UsesFrom(ts[..n], v);
      }
      assert UseAt(ts, n) !in Uses(ts[..n]);
    } else {
      UsedOnce(ts[..n], i);
    }
  }

  lemma LastToken(ts: seq<Lexeme>)
    requires ts != []
    ensures var n := |ts| - 1;
            && Uses(ts) == Uses(ts[..n]) + (if ts[n].tok == Word then [UseAt(ts, n)] else [])
            && forall i :: 0 <= i < n ==> UseAt(ts[..n], i) == UseAt(ts, i)
  {
  }

  lemma ApartMore(ts: seq<Lexeme>)
    requires ts != [] && Apart(ts)
    ensures var n := |ts| - 1; Apart(ts[..n]) && forall i :: 0 <= i < n ==> ts[..n][i].span != ts[n].span
  {
  }

  /**
   Each word of an accepted line stands in the tree exactly once: as a file name with the mode of the sign if the token
   before it is '<', '>' or '>>', as an argument otherwise, and as nothing else.
   */
  lemma EachWordOnce(s: string, i: nat)
    requires ParseCmd(s).Ok? && i < |Tokens(s)| && Tokens(s)[i].tok == Word
    ensures var held := Recorded(ParseCmd(s).cmd);
            && held[UseAt(Tokens(s), i)] == 1
            && forall u :: u in held && SpanOf(u) == Tokens(s)[i].span ==> u == UseAt(Tokens(s), i)
  {
    hide Tokens, ParseCmd, Uses, Recorded, UseAt;
    WordsRecorded(s);
    TokensApart(s);
    UsedOnce(Tokens(s), i);
  }
}
