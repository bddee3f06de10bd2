/**
 Every command tree can be written as a line that the parser of user/sh.c reads back as
 that tree.
 */
module ShellRoundTrip {
  import opened ShellParser

  datatype File = File(name: string, mode: Mode)
  datatype Tree =
    | TExec(args: seq<string>)
    | TRedir(sub: Tree, file: File)
    | TPipe(left: Tree, right: Tree)
    | TList(left: Tree, right: Tree)
    | TBack(sub: Tree)

  /** Trees the shell can hold: at most 9 arguments, all of them words. */
  predicate Holds(t: Tree) {
    match t
    case TExec(args) => |args| < MAXARGS && forall i :: 0 <= i < |args| ==> IsWord(args[i])
    case TRedir(u, f) => Holds(u) && IsWord(f.name)
    case TPipe(l, r) => Holds(l) && Holds(r)
    case TList(l, r) => Holds(l) && Holds(r)
    case TBack(u) => Holds(u)
  }

  // ---------- what a parsed command says ----------

  function Read(s: string, p: Span): string {
    if p.eq <= p.q <= |s| then Cut(s, p.q, p.eq) else ""
  }

  function TreeOf(c: Cmd, s: string): Tree {
    match c
    case ExecCmd(args) => TExec(seq(|args|, i requires 0 <= i < |args| => Read(s, args[i])))
    case RedirCmd(d, f, m) => TRedir(TreeOf(d, s), File(Read(s, f), m))
    case PipeCmd(l, r) => TPipe(TreeOf(l, s), TreeOf(r, s))
    case ListCmd(l, r) => TList(TreeOf(l, s), TreeOf(r, s))
    case BackCmd(d) => TBack(TreeOf(d, s))
  }

  /** All places of the command lie within the last n characters. */
  predicate Within(c: Cmd, n: nat) {
    match c
    case ExecCmd(args) => forall i :: 0 <= i < |args| ==> args[i].eq <= args[i].q <= n
    case RedirCmd(d, f, m) => Within(d, n) && f.eq <= f.q <= n
    case PipeCmd(l, r) => Within(l, n) && Within(r, n)
    case ListCmd(l, r) => Within(l, n) && Within(r, n)
    case BackCmd(d) => Within(d, n)
  }

  /** What stands before does not matter. */
  lemma {:induction false} TreeOfSuffix(c: Cmd, u: string, s: string)
    requires Within(c, |s|)
    ensures TreeOf(c, u + s) == TreeOf(c, s) && Within(c, |u + s|)
  {
    match c
    case ExecCmd(args) =>
      forall i | 0 <= i < |args| ensures Read(u + s, args[i]) == Read(s, args[i]) {
        ReadSuffix(u, s, args[i]);
      }
    case RedirCmd(d, f, m) => TreeOfSuffix(d, u, s); ReadSuffix(u, s, f);
    case PipeCmd(l, r) => TreeOfSuffix(l, u, s); TreeOfSuffix(r, u, s);
    case ListCmd(l, r) => TreeOfSuffix(l, u, s); TreeOfSuffix(r, u, s);
    case BackCmd(d) => TreeOfSuffix(d, u, s);
  }

  lemma ReadSuffix(u: string, s: string, p: Span)
    requires p.eq <= p.q <= |s|
    ensures Read(u + s, p) == Read(s, p)
  {
  }

  // ---------- writing a tree ----------

  /** One piece of text, a blank, and what follows. */
  function Then(a: string, b: string): string { a + " " + b }

  lemma Regroup(x: string, a: string, b: string, v: string)
    ensures x + Then(a, b) + v == x + Then(a, b + v) && Then(a, b) + v == Then(a, b + v)
    ensures x + Then(a, b + v) == (x + a + " ") + (b + v) && Then(a, b + v) == (a + " ") + (b + v)
  {
  }

  function Words(ws: seq<string>): string {
    if ws == [] then "" else Then(ws[0], Words(ws[1..]))
  }

  function Op(m: Mode): string { match m case In => "<" case Out => ">" case More => ">>" }

  function Redirections(l: seq<File>): string {
    if l == [] then "" else Then(Op(l[0].mode), Then(l[0].name, Redirections(l[1..])))
  }

  /** The command under the outer redirections ... */
  function Base(t: Tree): (b: Tree)
    ensures !b.TRedir? && (b == t <==> !t.TRedir?) && (t.TRedir? ==> b < t) && (Holds(t) ==> Holds(b))
  {
    if t.TRedir? then Base(t.sub) else t
  }

  /** ... and these redirections, innermost first. */
  function Outer(t: Tree): (l: seq<File>)
    ensures Holds(t) ==> forall i :: 0 <= i < |l| ==> IsWord(l[i].name)
  {
    if t.TRedir? then Outer(t.sub) + [t.file] else []
  }

  function Place(t: Tree, e: nat, p: nat, b: nat, l: nat): nat {
    if t.TPipe? then e else if t.TBack? then p else if t.TList? then b else l
  }

  function WriteExec(t: Tree): string
    decreases t, Place(t, 3, 2, 1, 0)
  {
    var b := Base(t);
    if b.TExec? then Words(b.args) + Redirections(Outer(t))
    else Then("(", WriteLine(b) + Then(")", Redirections(Outer(t))))
  }

  function WritePipe(t: Tree): string
    decreases t, Place(t, 0, 3, 2, 1)
  {
    if t.TPipe? then WriteExec(t.left) + Then("|", WritePipe(t.right)) else WriteExec(t)
  }

  function WriteBack(t: Tree): string
    decreases t, Place(t, 1, 0, 3, 2)
  {
    if t.TBack? then WriteBack(t.sub) + Then("&", "") else WritePipe(t)
  }

  /** The line for a tree. */
  function WriteLine(t: Tree): string
    decreases t, Place(t, 2, 1, 0, 3)
  {
    if t.TList? then WriteBack(t.left) + Then(";", WriteLine(t.right)) else WriteBack(t)
  }

  // ---------- tokens ----------

  predicate Clean(v: string) { v == [] || !Ws(v[0]) }

  predicate Starts(v: string, cs: set<char>) { v == [] || v[0] in cs }

  lemma SkipClean(v: string)
    requires Clean(v)
    ensures SkipWs(v) == v && SkipWs(" " + v) == v
  {
    assert (" " + v)[1..] == v;
  }

  lemma {:induction false} WordLenIs(w: string, v: string)
    requires (forall i :: 0 <= i < |w| ==> WordChar(w[i])) && (v == [] || !WordChar(v[0]))
    ensures WordLen(w + v) == |w|
  {
    if w != [] {
      WordLenIs(w[1..], v);
      assert (w + v)[1..] == w[1..] + v;
    } else {
      assert w + v == v;
    }
  }

  lemma WordToken(w: string, v: string)
    requires IsWord(w) && Clean(v)
    ensures GetToken(Then(w, v)) == Token(Word, |w| + 1 + |v|, 1 + |v|, v)
  {
    hide SkipWs, WordLen;
    var s := w + (" " + v);
    assert s == Then(w, v) && s[0] == w[0] && WordChar(w[0]);
    SkipClean(s);
    WordLenIs(w, " " + v);
    assert s[|w|..] == " " + v;
    SkipClean(v);
  }

  lemma SignToken(c: char, v: string)
    requires Symbol(c) && Clean(v)
    ensures GetToken(Then([c], v)) == Token(Sign(c), |v| + 2, |v| + 1, v)
  {
    hide SkipWs, WordLen;
    var s := Then([c], v);
    SkipClean(s);
    SkipClean(v);
    assert s[1..] == " " + v && s[1] == ' ';
  }

  lemma AppendToken(v: string)
    requires Clean(v)
    ensures GetToken(Then(">>", v)) == Token(Append, |v| + 3, |v| + 1, v)
  {
    hide SkipWs, WordLen;
    var s := Then(">>", v);
    SkipClean(s);
    SkipClean(v);
    assert s[2..] == " " + v;
  }

  lemma OpToken(m: Mode, v: string)
    requires Clean(v)
    ensures var t := GetToken(Then(Op(m), v)); t.rest == v && ModeOf(t.tok) == m && t.tok != End
    ensures SkipWs(Then(Op(m), v)) == Then(Op(m), v) && Peek(Then(Op(m), v), {'<', '>'})
  {
    hide SkipWs, GetToken;
    SkipClean(Then(Op(m), v));
    match m
    case In => SignToken('<', v);
    case Out => SignToken('>', v);
    case More => AppendToken(v);
  }

  /** A line that begins with a word. */
  lemma WordFirst(w: string, rest: string)
    requires IsWord(w)
    ensures var s := Then(w, rest);
            && Clean(s) && SkipWs(s) == s && s != [] && WordChar(s[0])
            && !Peek(s, {'|', ')', '&', ';'}) && !Peek(s, {'<', '>'}) && !Peek(s, {'('})
  {
    hide SkipWs;
    var s := Then(w, rest);
    assert s[0] == w[0] && WordChar(w[0]);
    SkipClean(s);
  }

  lemma NoPeek(v: string, cs: set<char>)
    requires Clean(v) && (v == [] || v[0] !in cs)
    ensures !Peek(v, cs)
  {
    SkipClean(v);
  }

  // ---------- redirections ----------

  ghost predicate TargetsRead(s: string, x: seq<Target>, l: seq<File>) {
    |x| == |l| && forall i :: 0 <= i < |l| ==>
      x[i].file.eq <= x[i].file.q <= |s| && File(Read(s, x[i].file), x[i].mode) == l[i]
  }

  lemma RedirectionsStart(l: seq<File>, v: string)
    requires Clean(v)
    ensures Clean(Redirections(l) + v)
    ensures l != [] ==> Redirections(l) != [] && Redirections(l)[0] in {'<', '>'}
    ensures l == [] ==> Redirections(l) + v == v
  {
  }

  lemma RedirsUnfold(s: string, more: string, p: Span, m: Mode, rest: string, y: seq<Target>, v: string)
    requires SkipWs(s) == s && Peek(s, {'<', '>'}) && GetToken(s).rest == more && ModeOf(GetToken(s).tok) == m
    requires GetToken(more) == Token(Word, p.q, p.eq, rest) && ParseRedirs(rest) == RedirsOk(y, v)
    ensures ParseRedirs(s) == RedirsOk([Target(p, m)] + y, v)
  {
    hide SkipWs, GetToken, Peek, ModeOf;
  }

  /** One redirection in front of others. */
  lemma RedirStep(name: string, m: Mode, rest: string, y: seq<Target>, v: string)
    requires IsWord(name) && Clean(rest) && ParseRedirs(rest) == RedirsOk(y, v)
    ensures ParseRedirs(Then(Op(m), Then(name, rest))) ==
            RedirsOk([Target(Span(|name| + 1 + |rest|, 1 + |rest|), m)] + y, v)
  {
    hide *;
    var more := Then(name, rest);
    var p := Span(|name| + 1 + |rest|, 1 + |rest|);
    WordFirst(name, rest);
    OpToken(m, more);
    WordToken(name, rest);
    RedirsUnfold(Then(Op(m), more), more, p, m, rest, y, v);
  }

  lemma TargetStep(f: File, rest: string, y: seq<Target>, l: seq<File>)
    requires TargetsRead(rest, y, l)
    ensures var s := Then(Op(f.mode), Then(f.name, rest));
            TargetsRead(s, [Target(Span(|f.name| + 1 + |rest|, 1 + |rest|), f.mode)] + y, [f] + l)
  {
    hide Op;
    var u := Op(f.mode) + " ";
    var s := u + (f.name + " " + rest);
    var p := Span(|f.name| + 1 + |rest|, 1 + |rest|);
    var x, k := [Target(p, f.mode)] + y, [f] + l;
    assert s[|s| - p.q..|s| - p.eq] == f.name;
    assert s == (u + f.name + " ") + rest;
    forall i | 0 <= i < |k| ensures x[i].file.eq <= x[i].file.q <= |s| && File(Read(s, x[i].file), x[i].mode) == k[i] {
      if i > 0 {
        ReadSuffix(u + f.name + " ", rest, y[i - 1].file);
      }
    }
  }

  lemma {:induction false} RedirsTrip(l: seq<File>, v: string) returns (x: seq<Target>)
    requires (forall i :: 0 <= i < |l| ==> IsWord(l[i].name)) && Clean(v) && (v == [] || v[0] !in {'<', '>'})
    ensures ParseRedirs(Redirections(l) + v) == RedirsOk(x, v) && TargetsRead(Redirections(l) + v, x, l)
    decreases |l|
  {
    hide SkipWs, GetToken, TargetsRead, Op, ParseRedirs, Then;
    if l == [] {
      x := [];
      assert Redirections(l) + v == v;
      NoRedirs(v);
      NoTargets(v);
    } else {
      var rest := Redirections(l[1..]) + v;
      var y := RedirsTrip(l[1..], v);
      RedirectionsStart(l[1..], v);
      RedirStep(l[0].name, l[0].mode, rest, y, v);
      TargetStep(l[0], rest, y, l[1..]);
      x := [Target(Span(|l[0].name| + 1 + |rest|, 1 + |rest|), l[0].mode)] + y;
      Regroup("", l[0].name, Redirections(l[1..]), v);
      Regroup("", Op(l[0].mode), Then(l[0].name, Redirections(l[1..])), v);
      assert [l[0]] + l[1..] == l;
    }
  }

  lemma NoTargets(v: string)
    ensures TargetsRead(v, [], [])
  {
  }

  // ---------- arguments ----------

  ghost predicate SpansRead(s: string, x: seq<Span>, ws: seq<string>) {
    |x| == |ws| && forall i :: 0 <= i < |ws| ==> x[i].eq <= x[i].q <= |s| && Read(s, x[i]) == ws[i]
  }

  /** Spans and targets in the rest of a line are the same in the line. */
  lemma ReadOn(u: string, s: string, x: seq<Span>, ws: seq<string>, y: seq<Target>, l: seq<File>)
    requires SpansRead(s, x, ws) && TargetsRead(s, y, l)
    ensures SpansRead(u + s, x, ws) && TargetsRead(u + s, y, l)
  {
    forall i | 0 <= i < |ws| ensures Read(u + s, x[i]) == ws[i] {
      ReadSuffix(u, s, x[i]);
    }
    forall i | 0 <= i < |l| ensures Read(u + s, y[i].file) == l[i].name {
      ReadSuffix(u, s, y[i].file);
    }
  }

  lemma ArgsEnd(args: seq<Span>, list: seq<Target>, v: string)
    requires Starts(v, {'|', ')', '&', ';'})
    ensures ParseArgs(args, list, v) == ArgsOk(args, list, v)
  {
    SkipClean(v);
  }

  lemma ArgsUnfold(args: seq<Span>, s: string, p: Span, y: seq<Target>, r: string)
    requires SkipWs(s) == s && !Peek(s, {'|', ')', '&', ';'}) && GetToken(s).tok == Word && |args| + 1 < MAXARGS
    requires GetToken(s).q == p.q && GetToken(s).eq == p.eq && ParseRedirs(GetToken(s).rest) == RedirsOk(y, r)
    ensures ParseArgs(args, [], s) == ParseArgs(args + [p], y, r)
  {
    hide SkipWs, GetToken, Peek, ParseRedirs;
    assert [] + y == y;
  }

  lemma ArgsStep(args: seq<Span>, w: string, rest: string, y: seq<Target>, r: string)
    requires IsWord(w) && Clean(rest) && |args| + 1 < MAXARGS && ParseRedirs(rest) == RedirsOk(y, r)
    ensures ParseArgs(args, [], Then(w, rest)) == ParseArgs(args + [Span(|w| + 1 + |rest|, 1 + |rest|)], y, r)
  {
    hide *;
    WordFirst(w, rest);
    WordToken(w, rest);
    ArgsUnfold(args, Then(w, rest), Span(|w| + 1 + |rest|, 1 + |rest|), y, r);
  }

  lemma SpanStep(w: string, rest: string, x: seq<Span>, ws: seq<string>)
    requires SpansRead(rest, x, ws)
    ensures SpansRead(Then(w, rest), [Span(|w| + 1 + |rest|, 1 + |rest|)] + x, [w] + ws)
  {
    var s, p := Then(w, rest), Span(|w| + 1 + |rest|, 1 + |rest|);
    assert s[|s| - p.q..|s| - p.eq] == w;
    forall i | 0 <= i < |ws| ensures Read(s, x[i]) == ws[i] {
      ReadSuffix(w + " ", rest, x[i]);
    }
  }

  lemma WordsStart(ws: seq<string>, v: string)
    requires forall i :: 0 <= i < |ws| ==> IsWord(ws[i])
    ensures ws != [] ==> Words(ws) + v != [] && WordChar((Words(ws) + v)[0])
    ensures ws == [] ==> Words(ws) + v == v
  {
    if ws != [] {
      assert (Words(ws) + v)[0] == ws[0][0];
    }
  }

  /** Words, then redirections. */
  lemma {:induction false} ArgsTrip(args: seq<Span>, ws: seq<string>, l: seq<File>, v: string)
    returns (x: seq<Span>, y: seq<Target>)
    requires ws != [] && |args| + |ws| < MAXARGS && forall i :: 0 <= i < |ws| ==> IsWord(ws[i])
    requires (forall i :: 0 <= i < |l| ==> IsWord(l[i].name)) && Starts(v, {'|', ')', '&', ';'})
    ensures var s := Words(ws) + (Redirections(l) + v);
            ParseArgs(args, [], s) == ArgsOk(args + x, y, v) && SpansRead(s, x, ws) && TargetsRead(s, y, l)
    decreases |ws|
  {
    hide SkipWs, GetToken, TargetsRead, SpansRead, ParseArgs, Redirections, ParseRedirs, Then;
    var w, tail := ws[0], Redirections(l) + v;
    RedirectionsStart(l, v);
    var rest := Words(ws[1..]) + tail;
    var p := Span(|w| + 1 + |rest|, 1 + |rest|);
    Regroup("", w, Words(ws[1..]), tail);
    WordsStart(ws[1..], tail);
    if |ws| == 1 {
      y := RedirsTrip(l, v);
      ArgsStep(args, w, rest, y, v);
      ArgsEnd(args + [p], y, v);
      NoSpans(rest);
      SpanStep(w, rest, [], []);
      ReadOn(w + " ", rest, [], [], y, l);
      x := [p];
      assert ws == [w] + [] && x == [p] + [];
    } else {
      NoRedirs(rest);
      ArgsStep(args, w, rest, [], rest);
      var x1;
      x1, y := ArgsTrip(args + [p], ws[1..], l, v);
      SpanStep(w, rest, x1, ws[1..]);
      ReadOn(w + " ", rest, x1, ws[1..], y, l);
      x := [p] + x1;
      assert args + [p] + x1 == args + x && [w] + ws[1..] == ws;
    }
  }

  lemma NoSpans(v: string)
    ensures SpansRead(v, [], [])
  {
  }

  lemma NoRedirs(v: string)
    requires Clean(v) && (v == [] || v[0] !in {'<', '>'})
    ensures ParseRedirs(v) == RedirsOk([], v)
  {
    hide SkipWs, GetToken, Peek;
    SkipClean(v);
    NoPeek(v, {'<', '>'});
  }

  // ---------- redirections around a command ----------

  function WrapTree(b: Tree, l: seq<File>): Tree
    decreases |l|
  {
    if l == [] then b else WrapTree(TRedir(b, l[0]), l[1..])
  }

  lemma {:induction false} WrapLast(b: Tree, l: seq<File>, f: File)
    ensures WrapTree(b, l + [f]) == TRedir(WrapTree(b, l), f)
    decreases |l|
  {
    if l == [] {
      assert l + [f] == [f] && [f][1..] == [];
    } else {
      WrapLast(TRedir(b, l[0]), l[1..], f);
      assert (l + [f])[1..] == l[1..] + [f];
    }
  }

  lemma {:induction false} WrapOuter(t: Tree)
    ensures WrapTree(Base(t), Outer(t)) == t
  {
    if t.TRedir? {
      WrapOuter(t.sub);
      WrapLast(Base(t.sub), Outer(t.sub), t.file);
    }
  }

  lemma {:induction false} WrapReads(c: Cmd, x: seq<Target>, l: seq<File>, s: string)
    requires TargetsRead(s, x, l) && Within(c, |s|)
    ensures TreeOf(Wrap(c, x), s) == WrapTree(TreeOf(c, s), l) && Within(Wrap(c, x), |s|)
    decreases |x|
  {
    if x != [] {
      assert File(Read(s, x[0].file), x[0].mode) == l[0];
      WrapReads(RedirCmd(c, x[0].file, x[0].mode), x[1..], l[1..], s);
    }
  }

  // ---------- lines begin with no white space ----------

  lemma CleanBoth(a: string, b: string)
    requires Clean(a) && Clean(b)
    ensures Clean(a + b)
  {
    assert a == [] ==> a + b == b;
    assert a != [] ==> (a + b)[0] == a[0];
  }

  lemma ExecClean(t: Tree)
    requires Holds(t)
    ensures Clean(WriteExec(t))
  {
    hide Words, Redirections, WriteLine;
    var b, l := Base(t), Outer(t);
    RedirectionsStart(l, []);
    assert Redirections(l) + [] == Redirections(l);
    if b.TExec? {
      WordsStart(b.args, []);
      assert Words(b.args) + [] == Words(b.args);
      CleanBoth(Words(b.args), Redirections(l));
    } else {
    }
  }

  lemma PipeClean(t: Tree)
    requires Holds(t)
    ensures Clean(WritePipe(t))
  {
    hide WriteExec;
    if t.TPipe? {
      ExecClean(t.left);
      CleanBoth(WriteExec(t.left), Then("|", WritePipe(t.right)));
    } else {
      ExecClean(t);
    }
  }

  lemma {:induction false} BackClean(t: Tree)
    requires Holds(t)
    ensures Clean(WriteBack(t))
  {
    hide WritePipe;
    if t.TBack? {
      BackClean(t.sub);
      CleanBoth(WriteBack(t.sub), Then("&", ""));
    } else {
      PipeClean(t);
    }
  }

  lemma LineClean(t: Tree)
    requires Holds(t)
    ensures Clean(WriteLine(t))
  {
    hide WriteBack;
    if t.TList? {
      BackClean(t.left);
      CleanBoth(WriteBack(t.left), Then(";", WriteLine(t.right)));
    } else {
      BackClean(t);
    }
  }

  // ---------- commands ----------

  /** The places of c lie in s, and there c reads as tree t. */
  ghost predicate Gives(c: Cmd, s: string, t: Tree) { Within(c, |s|) && TreeOf(c, s) == t }

  lemma ExecReads(x: seq<Span>, y: seq<Target>, ws: seq<string>, l: seq<File>, s: string)
    requires SpansRead(s, x, ws) && TargetsRead(s, y, l)
    ensures Gives(Wrap(ExecCmd(x), y), s, WrapTree(TExec(ws), l))
  {
    assert TreeOf(ExecCmd(x), s) == TExec(ws);
    WrapReads(ExecCmd(x), y, l, s);
  }

  lemma ExecUnfold(s: string, x: seq<Target>, r: string, a: seq<Span>, y: seq<Target>, v: string)
    requires SkipWs(s) == s
    requires !Peek(s, {'('}) && ParseRedirs(s) == RedirsOk(x, r) && ParseArgs([], x, r) == ArgsOk(a, y, v)
    ensures ParseExec(s) == Ok(Wrap(ExecCmd(a), y), v)
  {
    hide SkipWs, Peek, ParseRedirs, ParseArgs, Wrap;
  }

  /** A simple command: words, then redirections. */
  lemma SimpleTrip(ws: seq<string>, l: seq<File>, v: string) returns (c: Cmd)
    requires |ws| < MAXARGS && (forall i :: 0 <= i < |ws| ==> IsWord(ws[i]))
    requires (forall i :: 0 <= i < |l| ==> IsWord(l[i].name))
    requires Starts(v, {'|', ')', '&', ';'})
    ensures var s := Words(ws) + (Redirections(l) + v); ParseExec(s) == Ok(c, v) && Gives(c, s, WrapTree(TExec(ws), l))
  {
    hide SkipWs, GetToken, TargetsRead, SpansRead, ParseArgs, Redirections, ParseRedirs, ParseExec, Peek, Wrap,
         WrapTree, Gives;
    var tail := Redirections(l) + v;
    var s := Words(ws) + tail;
    RedirectionsStart(l, v);
    WordsStart(ws, tail);
    if ws != [] {
      var x, y := ArgsTrip([], ws, l, v);
      assert [] + x == x;
      NoRedirs(s);
      SkipClean(s);
      NoPeek(s, {'('});
      ExecUnfold(s, [], s, x, y, v);
      c := Wrap(ExecCmd(x), y);
      ExecReads(x, y, ws, l, s);
    } else {
      var y := RedirsTrip(l, v);
      assert s == tail;
      SkipClean(s);
      assert s == [] || s[0] != '(' by { assert l != [] ==> s[0] == Redirections(l)[0]; }
      NoPeek(s, {'('});
      ArgsEnd([], y, v);
      ExecUnfold(s, y, v, [], y, v);
      c := Wrap(ExecCmd([]), y);
      NoSpans(s);
      ExecReads([], y, ws, l, s);
    }
  }

  lemma BlockUnfold(s: string, line: string, cb: Cmd, after: string, tail: string, x: seq<Target>, v: string)
    requires SkipWs(s) == s && Peek(s, {'('}) && GetToken(s).rest == line && ParseLine(line) == Ok(cb, after)
    requires Peek(after, {')'}) && GetToken(after).rest == tail && ParseRedirs(tail) == RedirsOk(x, v)
    ensures ParseExec(s) == Ok(Wrap(cb, x), v)
  {
    hide SkipWs, Peek, ParseRedirs, ParseArgs, Wrap, GetToken, ParseLine;
  }

  lemma SignFirst(c: char, v: string)
    requires Symbol(c)
    ensures var s := Then([c], v);
            Clean(s) && SkipWs(s) == s && s != [] && s[0] == c && forall cs: set<char> :: Peek(s, cs) <==> c in cs
  {
    SkipClean(Then([c], v));
  }

  /** A command in parentheses, then redirections. */
  lemma BlockTrip(cb: Cmd, line: string, b: Tree, l: seq<File>, v: string) returns (c: Cmd)
    requires (forall i :: 0 <= i < |l| ==> IsWord(l[i].name)) && Starts(v, {'|', ')', '&', ';'}) && Clean(line)
    requires ParseLine(line) == Ok(cb, Then(")", Redirections(l) + v)) && Gives(cb, line, b)
    requires |line| >= |Redirections(l) + v| && line[|line| - |Redirections(l) + v|..] == Redirections(l) + v
    ensures var s := Then("(", line); ParseExec(s) == Ok(c, v) && Gives(c, s, WrapTree(b, l))
  {
    hide *;
    var tail := Redirections(l) + v;
    var s, after := Then("(", line), Then(")", tail);
    StopsAreClean(v);
    RedirectionsStart(l, v);
    SignFirst('(', line);
    SignFirst(')', tail);
    SignToken('(', line);
    SignToken(')', tail);
    var x := RedirsTrip(l, v);
    BlockUnfold(s, line, cb, after, tail, x, v);
    c := Wrap(cb, x);
    BlockReads(cb, line, b, x, l, tail);
  }

  lemma StopsAreClean(v: string)
    requires Starts(v, {'|', ')', '&', ';'})
    ensures Clean(v) && (v == [] || v[0] !in {'<', '>'}) && Symbol('(') && Symbol(')')
  {
  }

  lemma BlockReads(cb: Cmd, line: string, b: Tree, x: seq<Target>, l: seq<File>, tail: string)
    requires Gives(cb, line, b) && TargetsRead(tail, x, l) && |line| >= |tail| && line[|line| - |tail|..] == tail
    ensures Gives(Wrap(cb, x), Then("(", line), WrapTree(b, l))
  {
    hide Wrap, WrapTree, TreeOf, Within, TargetsRead;
    var s := Then("(", line);
    var u := s[..|s| - |tail|];
    assert s == u + tail;
    NoSpans(tail);
    ReadOn(u, tail, [], [], x, l);
    assert s == "( " + line;
    TreeOfSuffix(cb, "( ", line);
    WrapReads(cb, x, l, s);
  }

  lemma PipeUnfold(s: string, e: Cmd, after: string, rest: string, p: Cmd, v: string)
    requires ParseExec(s) == Ok(e, after) && Peek(after, {'|'}) && GetToken(after).rest == rest
    requires ParsePipe(rest) == Ok(p, v)
    ensures ParsePipe(s) == Ok(PipeCmd(e, p), v)
  {
    hide SkipWs, Peek, GetToken, ParseExec;
  }

  lemma PipeEnd(s: string, e: Cmd, v: string)
    requires ParseExec(s) == Ok(e, v) && Clean(v) && (v == [] || v[0] != '|')
    ensures ParsePipe(s) == Ok(e, v)
  {
    hide SkipWs, Peek, GetToken, ParseExec;
    SkipClean(v);
    NoPeek(v, {'|'});
  }

  lemma BacksUnfold(c: Cmd, v: string)
    requires Clean(v)
    ensures Backs(c, Then("&", v)) == Backs(BackCmd(c), v)
  {
    hide SkipWs, Peek, GetToken;
    SignFirst('&', v);
    SignToken('&', v);
  }

  lemma BacksEnd(c: Cmd, v: string)
    requires Clean(v) && (v == [] || v[0] != '&')
    ensures Backs(c, v) == (c, v)
  {
    hide SkipWs, Peek, GetToken;
    SkipClean(v);
    NoPeek(v, {'&'});
  }

  lemma ListUnfold(s: string, c0: Cmd, r0: string, c: Cmd, rest: string, l: Cmd, v: string)
    requires ParsePipe(s) == Ok(c0, r0) && Clean(rest) && Backs(c0, r0) == (c, Then(";", rest))
    requires ParseLine(rest) == Ok(l, v)
    ensures ParseLine(s) == Ok(ListCmd(c, l), v)
  {
    hide SkipWs, Peek, GetToken, ParsePipe, Backs;
    SignFirst(';', rest);
    SignToken(';', rest);
  }

  lemma LineEnd(s: string, c0: Cmd, r0: string, c: Cmd, v: string)
    requires ParsePipe(s) == Ok(c0, r0) && Backs(c0, r0) == (c, v) && Clean(v) && (v == [] || v[0] != ';')
    ensures ParseLine(s) == Ok(c, v)
  {
    hide SkipWs, Peek, GetToken, ParsePipe, Backs;
    SkipClean(v);
    NoPeek(v, {';'});
  }

  /** A pipe or a list of two commands: what the second one reads does not depend on the first. */
  lemma GivesBehind(c: Cmd, x: string, a: string, rest: string, t: Tree)
    requires Gives(c, rest, t)
    ensures Gives(c, x + Then(a, rest), t)
  {
    hide Within, TreeOf;
    assert x + Then(a, rest) == (x + a + " ") + rest;
    TreeOfSuffix(c, x + a + " ", rest);
  }

  lemma {:induction false} ExecTrip(t: Tree, v: string) returns (c: Cmd)
    requires Holds(t) && Starts(v, {'|', ')', '&', ';'})
    ensures ParseExec(WriteExec(t) + v) == Ok(c, v) && Gives(c, WriteExec(t) + v, t)
    decreases t, Place(t, 3, 2, 1, 0)
  {
    hide ParseExec, ParseLine, Words, Redirections, WriteLine, WrapTree, Gives, Then;
    var b, l := Base(t), Outer(t);
    WrapOuter(t);
    if b.TExec? {
      c := SimpleTrip(b.args, l, v);
      assert WriteExec(t) + v == Words(b.args) + (Redirections(l) + v);
    } else {
      var tail := Redirections(l) + v;
      var after := Then(")", tail);
      SignFirst(')', tail);
      var cb := LineTrip(b, after);
      LineClean(b);
      CleanBoth(WriteLine(b), after);
      Regroup(WriteLine(b), ")", Redirections(l), v);
      Regroup("", "(", WriteLine(b) + Then(")", Redirections(l)), v);
      TailOf(WriteLine(b), ")", tail);
      c := BlockTrip(cb, WriteLine(b) + after, b, l, v);
    }
  }

  lemma TailOf(x: string, a: string, tail: string)
    ensures var line := x + Then(a, tail); |line| >= |tail| && line[|line| - |tail|..] == tail
  {
  }

  lemma {:induction false} PipeTrip(t: Tree, v: string) returns (c: Cmd)
    requires Holds(t) && Starts(v, {')', '&', ';'})
    ensures ParsePipe(WritePipe(t) + v) == Ok(c, v) && Gives(c, WritePipe(t) + v, t)
    decreases t, Place(t, 0, 3, 2, 1)
  {
    hide ParsePipe, ParseExec, WriteExec, Then, Peek, GetToken, SkipWs;
    if t.TPipe? {
      var rest := WritePipe(t.right) + v;
      var after := Then("|", rest);
      SignFirst('|', rest);
      PipeClean(t.right);
      CleanBoth(WritePipe(t.right), v);
      SignToken('|', rest);
      var e := ExecTrip(t.left, after);
      var p := PipeTrip(t.right, v);
      PipeUnfold(WriteExec(t.left) + after, e, after, rest, p, v);
      c := PipeCmd(e, p);
      Regroup(WriteExec(t.left), "|", WritePipe(t.right), v);
      GivesBehind(p, WriteExec(t.left), "|", rest, t.right);
    } else {
      c := ExecTrip(t, v);
      PipeEnd(WriteExec(t) + v, c, v);
    }
  }

  /** The pipe of a line and the '&' behind it. */
  lemma {:induction false} BackTrip(t: Tree, v: string) returns (c0: Cmd, r0: string, c: Cmd)
    requires Holds(t) && Starts(v, {')', '&', ';'})
    ensures ParsePipe(WriteBack(t) + v) == Ok(c0, r0) && Backs(c0, r0) == Backs(c, v) && Gives(c, WriteBack(t) + v, t)
    decreases t, Place(t, 1, 0, 3, 2)
  {
    hide ParsePipe, WritePipe, Backs, Then;
    if t.TBack? {
      var d;
      SignFirst('&', v);
      c0, r0, d := BackTrip(t.sub, Then("&", v));
      BacksUnfold(d, v);
      c := BackCmd(d);
      Regroup(WriteBack(t.sub), "&", "", v);
      assert "" + v == v;
    } else {
      c0 := PipeTrip(t, v);
      r0, c := v, c0;
    }
  }

  lemma {:induction false} LineTrip(t: Tree, v: string) returns (c: Cmd)
    requires Holds(t) && Starts(v, {')'})
    ensures ParseLine(WriteLine(t) + v) == Ok(c, v) && Gives(c, WriteLine(t) + v, t)
    decreases t, Place(t, 2, 1, 0, 3)
  {
    hide ParsePipe, ParseLine, WriteBack, Backs, Then;
    if t.TList? {
      var rest := WriteLine(t.right) + v;
      var after := Then(";", rest);
      SignFirst(';', rest);
      var c0, r0, d := BackTrip(t.left, after);
      var l := LineTrip(t.right, v);
      LineClean(t.right);
      CleanBoth(WriteLine(t.right), v);
      BacksEnd(d, after);
      ListUnfold(WriteBack(t.left) + after, c0, r0, d, rest, l, v);
      c := ListCmd(d, l);
      Regroup(WriteBack(t.left), ";", WriteLine(t.right), v);
      GivesBehind(l, WriteBack(t.left), ";", rest, t.right);
    } else {
      var c0, r0;
      c0, r0, c := BackTrip(t, v);
      BacksEnd(c, v);
      LineEnd(WriteBack(t) + v, c0, r0, c, v);
    }
  }

  /** The round trip: every tree the shell can hold is read back from the line written for it. */
  lemma WrittenIsParsed(t: Tree)
    requires Holds(t)
    ensures var p := ParseCmd(WriteLine(t)); p.Ok? && TreeOf(p.cmd, WriteLine(t)) == t
  {
    hide ParseLine, WriteLine, TreeOf, Within;
    var c := LineTrip(t, []);
    assert WriteLine(t) + [] == WriteLine(t);
  }
}
