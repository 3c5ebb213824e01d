// The shell's parser (sh.c): the grammar over tokens.  W is what a word is: a pair of
// positions in the line while parsing, a string when printing.
module ShellGrammar {

  const MAXARGS: nat := 10

  datatype Token<+W> = Word(w: W) | Sym(c: char) | Append   // Append is ">>"

  datatype Cmd<+W> =
    | Exec(args: seq<W>)
    | Redirect(cmd: Cmd<W>, file: W, out: bool)
    | Pipe(left: Cmd<W>, right: Cmd<W>)
    | List(left: Cmd<W>, right: Cmd<W>)
    | Back(cmd: Cmd<W>)

  datatype Parse<+T, +W> = Panic | Ok(v: T, rest: seq<Token<W>>)

  predicate StartsWith<W>(toks: seq<Token<W>>, c: char) {
    toks != [] && toks[0].Sym? && toks[0].c == c
  }

  predicate IsRedir<W>(t: Token<W>) {
    t.Append? || (t.Sym? && (t.c == '<' || t.c == '>'))
  }

  /** Redirections apply to the command in the order they are written. */
  function Wrap<W>(c: Cmd<W>, rs: seq<(W, bool)>): Cmd<W> {
    if rs == [] then c else Redirect(Wrap(c, rs[..|rs| - 1]), rs[|rs| - 1].0, rs[|rs| - 1].1)
  }

  /** parseredirs: files and whether they are written. */
  function Redirs<W>(toks: seq<Token<W>>): (p: Parse<seq<(W, bool)>, W>)
    ensures p.Ok? ==> |p.rest| <= |toks| && (p.rest == [] || !IsRedir(p.rest[0]))
  {
    if toks == [] || !IsRedir(toks[0]) then Ok([], toks)
    else if |toks| < 2 || !toks[1].Word? then Panic
    else
      var p := Redirs(toks[2..]);
      if p.Panic? then Panic else Ok([(toks[1].w, !(toks[0].Sym? && toks[0].c == '<'))] + p.v, p.rest)
  }

  predicate EndsExec<W>(toks: seq<Token<W>>) {
    toks == [] || (toks[0].Sym? && (toks[0].c == '|' || toks[0].c == ')' || toks[0].c == '&' || toks[0].c == ';'))
  }

  /** The argument loop of parseexec. */
  function Args<W>(toks: seq<Token<W>>, args: seq<W>, rs: seq<(W, bool)>): (p: Parse<Cmd<W>, W>)
    ensures p.Ok? ==> |p.rest| <= |toks|
    decreases |toks|
  {
    if EndsExec(toks) then Ok(Wrap(Exec(args), rs), toks)
    else if !toks[0].Word? || |args| + 1 >= MAXARGS then Panic
    else
      var p := Redirs(toks[1..]);
      if p.Panic? then Panic else Args(p.rest, args + [toks[0].w], rs + p.v)
  }

  function ExecCmd<W>(toks: seq<Token<W>>): (p: Parse<Cmd<W>, W>)
    ensures p.Ok? ==> |p.rest| <= |toks|
    decreases |toks|, 1
  {
    if StartsWith(toks, '(') then Block(toks)
    else
      var p := Redirs(toks);
      if p.Panic? then Panic else Args(p.rest, [], p.v)
  }

  function Block<W>(toks: seq<Token<W>>): (p: Parse<Cmd<W>, W>)
    requires StartsWith(toks, '(')
    ensures p.Ok? ==> |p.rest| < |toks|
    decreases |toks|, 0
  {
    var p := Line(toks[1..]);
    if p.Panic? || !StartsWith(p.rest, ')') then Panic
    else
      var q := Redirs(p.rest[1..]);
      if q.Panic? then Panic else Ok(Wrap(p.v, q.v), q.rest)
  }

  function PipeCmd<W>(toks: seq<Token<W>>): (p: Parse<Cmd<W>, W>)
    ensures p.Ok? ==> |p.rest| <= |toks|
    decreases |toks|, 2
  {
    var p := ExecCmd(toks);
    if p.Panic? || !StartsWith(p.rest, '|') then p
    else
      var q := PipeCmd(p.rest[1..]);
      if q.Panic? then Panic else Ok(Pipe(p.v, q.v), q.rest)
  }

  /** The '&' loop of parseline. */
  function Backs<W>(c: Cmd<W>, toks: seq<Token<W>>): (p: (Cmd<W>, seq<Token<W>>))
    ensures |p.1| <= |toks| && !StartsWith(p.1, '&')
    decreases |toks|
  {
    if StartsWith(toks, '&') then Backs(Back(c), toks[1..]) else (c, toks)
  }

  function Line<W>(toks: seq<Token<W>>): (p: Parse<Cmd<W>, W>)
    ensures p.Ok? ==> |p.rest| <= |toks|
    decreases |toks|, 3
  {
    var p := PipeCmd(toks);
    if p.Panic? then Panic
    else
      var (c, rest) := Backs(p.v, p.rest);
      if !StartsWith(rest, ';') then Ok(c, rest)
      else
        var q := Line(rest[1..]);
        if q.Panic? then Panic else Ok(List(c, q.v), q.rest)
  }

  /** parsecmd: a line and nothing after it. */
  function Parsed<W>(toks: seq<Token<W>>): (p: Parse<Cmd<W>, W>) {
    var p := Line(toks);
    if p.Panic? || p.rest != [] then Panic else p
  }

  // ----- What a line says -----

  datatype Op = In | Out | App

  /** One piece of a simple command: an argument, or a redirection. */
  datatype Item<+W> = Arg(w: W) | To(op: Op, file: W)

  datatype Simple<+W> = Plain(items: seq<Item<W>>) | Group(line: LineSyn<W>, redirs: seq<(Op, W)>)

  /** Simple commands between bars. */
  datatype PipeSyn<+W> = One(s: Simple<W>) | Bar(s: Simple<W>, p: PipeSyn<W>)

  /** Pipelines, each with its ampersands, between semicolons. */
  datatype LineSyn<+W> = Last(p: PipeSyn<W>, amps: nat) | Then(p: PipeSyn<W>, amps: nat, rest: LineSyn<W>)

  function OpToken<W>(op: Op): Token<W> {
    match op
    case In => Sym('<')
    case Out => Sym('>')
    case App => Append
  }

  function ItemText<W>(i: Item<W>): seq<Token<W>> {
    match i
    case Arg(w) => [Word(w)]
    case To(op, f) => [OpToken(op), Word(f)]
  }

  function ItemsText<W>(items: seq<Item<W>>): seq<Token<W>> {
    if items == [] then [] else ItemText(items[0]) + ItemsText(items[1..])
  }

  function Tos<W>(rs: seq<(Op, W)>): (items: seq<Item<W>>)
    ensures |items| == |rs|
  {
    seq(|rs|, i requires 0 <= i < |rs| => To(rs[i].0, rs[i].1))
  }

  function SimpleText<W>(s: Simple<W>): seq<Token<W>> {
    match s
    case Plain(items) => ItemsText(items)
    case Group(line, redirs) => [Sym('(')] + LineText(line) + [Sym(')')] + ItemsText(Tos(redirs))
  }

  function PipeText<W>(p: PipeSyn<W>): seq<Token<W>> {
    match p
    case One(s) => SimpleText(s)
    case Bar(s, q) => SimpleText(s) + [Sym('|')] + PipeText(q)
  }

  function Amps<W>(n: nat): (toks: seq<Token<W>>)
    ensures |toks| == n && forall i :: 0 <= i < n ==> toks[i] == Sym('&')
  {
    seq(n, _ => Sym('&'))
  }

  function LineText<W>(l: LineSyn<W>): seq<Token<W>> {
    match l
    case Last(p, n) => PipeText(p) + Amps(n)
    case Then(p, n, rest) => PipeText(p) + Amps(n) + [Sym(';')] + LineText(rest)
  }

  // ----- What a line means -----

  function ArgsOf<W>(items: seq<Item<W>>): seq<W> {
    if items == [] then []
    else match items[0]
      case Arg(w) => [w] + ArgsOf(items[1..])
      case To(_, _) => ArgsOf(items[1..])
  }

  /** The first redirection is the innermost. */
  function Applied<W>(c: Cmd<W>, items: seq<Item<W>>): Cmd<W>
    decreases |items|
  {
    if items == [] then c
    else match items[0]
      case Arg(_) => Applied(c, items[1..])
      case To(op, f) => Applied(Redirect(c, f, op != In), items[1..])
  }

  function SimpleTree<W>(s: Simple<W>): Cmd<W> {
    match s
    case Plain(items) => Applied(Exec(ArgsOf(items)), items)
    case Group(line, redirs) => Applied(LineTree(line), Tos(redirs))
  }

  /** Pipelines nest to the right. */
  function PipeTree<W>(p: PipeSyn<W>): Cmd<W> {
    match p
    case One(s) => SimpleTree(s)
    case Bar(s, q) => Pipe(SimpleTree(s), PipeTree(q))
  }

  function Backed<W>(c: Cmd<W>, n: nat): Cmd<W> {
    if n == 0 then c else Back(Backed(c, n - 1))
  }

  /** & takes the pipeline before it, and ; what & made of it. */
  function LineTree<W>(l: LineSyn<W>): Cmd<W> {
    match l
    case Last(p, n) => Backed(PipeTree(p), n)
    case Then(p, n, rest) => List(Backed(PipeTree(p), n), LineTree(rest))
  }

  /** Few enough arguments everywhere. */
  predicate SimpleFits<W>(s: Simple<W>) {
    match s
    case Plain(items) => |ArgsOf(items)| < MAXARGS
    case Group(line, _) => LineFits(line)
  }

  predicate PipeFits<W>(p: PipeSyn<W>) {
    match p
    case One(s) => SimpleFits(s)
    case Bar(s, q) => SimpleFits(s) && PipeFits(q)
  }

  predicate LineFits<W>(l: LineSyn<W>) {
    match l
    case Last(p, _) => PipeFits(p)
    case Then(p, _, rest) => PipeFits(p) && LineFits(rest)
  }

  // ----- The parser finds the meaning of every such line -----

  /** What may follow a line: nothing, or the ')' of the block around it. */
  predicate Closes<W>(k: seq<Token<W>>) {
    k == [] || StartsWith(k, ')')
  }

  /** The redirections among items, as the parser collects them. */
  function RedirsOf<W>(items: seq<Item<W>>): seq<(W, bool)> {
    if items == [] then []
    else match items[0]
      case Arg(_) => RedirsOf(items[1..])
      case To(op, f) => [(f, op != In)] + RedirsOf(items[1..])
  }

  lemma {:induction false} WrapCons<W>(c: Cmd<W>, f: W, out: bool, rs: seq<(W, bool)>)
    ensures Wrap(c, [(f, out)] + rs) == Wrap(Redirect(c, f, out), rs)
  {
    var all := [(f, out)] + rs;
    if rs == [] {
      assert all == [(f, out)] && all[..0] == [];
    } else {
      WrapCons(c, f, out, rs[..|rs| - 1]);
      assert all[..|all| - 1] == [(f, out)] + rs[..|rs| - 1];
    }
  }

  lemma {:induction false} WrapApplies<W>(c: Cmd<W>, items: seq<Item<W>>)
    ensures Wrap(c, RedirsOf(items)) == Applied(c, items)
    decreases |items|
  {
    if items != [] {
      match items[0]
      case Arg(_) =>
        WrapApplies(c, items[1..]);
      case To(op, f) =>
        WrapCons(c, f, op != In, RedirsOf(items[1..]));
        WrapApplies(Redirect(c, f, op != In), items[1..]);
    }
  }

  /** From the first argument on. */
  function After<W>(items: seq<Item<W>>): (rest: seq<Item<W>>)
    ensures |rest| <= |items| && (rest == [] || rest[0].Arg?)
  {
    if items == [] || items[0].Arg? then items else After(items[1..])
  }

  /** The redirections before that. */
  function Leading<W>(items: seq<Item<W>>): seq<(W, bool)> {
    if items == [] || items[0].Arg? then [] else [(items[0].file, items[0].op != In)] + Leading(items[1..])
  }

  lemma {:induction false} LeadSplits<W>(items: seq<Item<W>>)
    ensures RedirsOf(items) == Leading(items) + RedirsOf(After(items))
    ensures ArgsOf(items) == ArgsOf(After(items))
  {
    if items == [] || items[0].Arg? {
      assert [] + RedirsOf(items) == RedirsOf(items);
    } else {
      LeadSplits(items[1..]);
      assert RedirsOf(items) == [(items[0].file, items[0].op != In)] + RedirsOf(items[1..]);
    }
  }

  lemma ItemsStep<W>(items: seq<Item<W>>, k: seq<Token<W>>)
    requires items != []
    ensures ItemsText(items) + k == ItemText(items[0]) + (ItemsText(items[1..]) + k)
  {
  }

  lemma RedirsCons<W>(op: Op, f: W, toks: seq<Token<W>>)
    requires Redirs(toks).Ok?
    ensures Redirs([OpToken(op), Word(f)] + toks) == Ok([(f, op != In)] + Redirs(toks).v, Redirs(toks).rest)
  {
    var all := [OpToken(op), Word(f)] + toks;
    assert all[0] == OpToken(op) && all[1] == Word(f) && all[2..] == toks;
  }

  lemma {:induction false} ParseRedirs<W>(items: seq<Item<W>>, k: seq<Token<W>>)
    requires k == [] || !IsRedir(k[0])
    ensures Redirs(ItemsText(items) + k) == Ok(Leading(items), ItemsText(After(items)) + k)
  {
    if items == [] {
      assert ItemsText(items) + k == k;
    } else {
      ItemsStep(items, k);
      if items[0].To? {
        hide Redirs;
        hide ItemsText;
        ParseRedirs(items[1..], k);
        RedirsCons(items[0].op, items[0].file, ItemsText(items[1..]) + k);
      }
    }
  }

  lemma ArgsCons<W>(w: W, toks: seq<Token<W>>, args: seq<W>, rs: seq<(W, bool)>)
    requires |args| + 1 < MAXARGS && Redirs(toks).Ok?
    ensures Args([Word(w)] + toks, args, rs) == Args(Redirs(toks).rest, args + [w], rs + Redirs(toks).v)
  {
    var all := [Word(w)] + toks;
    assert all[0] == Word(w) && all[1..] == toks;
  }

  lemma Assoc<T>(a: seq<T>, b: seq<T>, c: seq<T>)
    ensures a + b + c == a + (b + c)
  {
  }

  lemma {:induction false} ParseItems<W>(items: seq<Item<W>>, args: seq<W>, rs: seq<(W, bool)>, k: seq<Token<W>>)
    requires EndsExec(k) && |args| + |ArgsOf(items)| < MAXARGS && (items != [] ==> items[0].Arg?)
    ensures Args(ItemsText(items) + k, args, rs) == Ok(Wrap(Exec(args + ArgsOf(items)), rs + RedirsOf(items)), k)
    decreases |items|
  {
    hide Wrap;
    hide Redirs;
    if items == [] {
      assert ItemsText(items) + k == k && args + [] == args && rs + [] == rs;
    } else {
      hide Args;
      hide ItemsText;
      var rest, w := items[1..], items[0].w;
      var next := After(rest);
      ItemsStep(items, k);
      ParseRedirs(rest, k);
      ArgsCons(w, ItemsText(rest) + k, args, rs);
      LeadSplits(rest);
      ParseItems(next, args + [w], rs + Leading(rest), k);
      Assoc(args, [w], ArgsOf(next));
      Assoc(rs, Leading(rest), RedirsOf(next));
    }
  }

  lemma {:induction false} AllLead<W>(items: seq<Item<W>>)
    requires forall i :: 0 <= i < |items| ==> items[i].To?
    ensures ItemsText(After(items)) == [] && Leading(items) == RedirsOf(items)
  {
    if items != [] {
      AllLead(items[1..]);
    }
  }

  lemma PlainParses<W>(items: seq<Item<W>>, k: seq<Token<W>>)
    requires |ArgsOf(items)| < MAXARGS && EndsExec(k)
    ensures ExecCmd(ItemsText(items) + k) == Ok(Applied(Exec(ArgsOf(items)), items), k)
  {
    hide Line;
    hide Args;
    hide Redirs;
    ParseRedirs(items, k);
    LeadSplits(items);
    ParseItems(After(items), [], Leading(items), k);
    assert [] + ArgsOf(items) == ArgsOf(items);
    WrapApplies(Exec(ArgsOf(items)), items);
    assert !StartsWith(ItemsText(items) + k, '(');
  }

  lemma GroupParses<W>(text: seq<Token<W>>, c: Cmd<W>, items: seq<Item<W>>, k: seq<Token<W>>)
    requires EndsExec(k) && forall i :: 0 <= i < |items| ==> items[i].To?
    requires Line(text + ([Sym(')')] + (ItemsText(items) + k))) == Ok(c, [Sym(')')] + (ItemsText(items) + k))
    ensures ExecCmd([Sym('(')] + text + ([Sym(')')] + (ItemsText(items) + k))) == Ok(Applied(c, items), k)
  {
    hide Line;
    hide Wrap;
    hide Redirs;
    hide ItemsText;
    var tail := ItemsText(items) + k;
    var toks := [Sym('(')] + text + ([Sym(')')] + tail);
    assert toks[1..] == text + ([Sym(')')] + tail) && ([Sym(')')] + tail)[1..] == tail;
    AllLead(items);
    ParseRedirs(items, k);
    assert [] + k == k;
    WrapApplies(c, items);
  }

  /** A simple command ends at a bar, an ampersand, a semicolon, a parenthesis or the end. */
  lemma {:induction false} SimpleParses<W>(s: Simple<W>, k: seq<Token<W>>)
    requires SimpleFits(s) && EndsExec(k)
    ensures ExecCmd(SimpleText(s) + k) == Ok(SimpleTree(s), k)
    decreases s, 0
  {
    hide ExecCmd;
    hide Line;
    match s
    case Plain(items) =>
      PlainParses(items, k);
    case Group(line, redirs) =>
      var tail := ItemsText(Tos(redirs)) + k;
      assert SimpleText(s) + k == [Sym('(')] + LineText(line) + ([Sym(')')] + tail);
      LineParses(line, [Sym(')')] + tail);
      GroupParses(LineText(line), LineTree(line), Tos(redirs), k);
  }

  lemma {:induction false} PipeParses<W>(p: PipeSyn<W>, k: seq<Token<W>>)
    requires PipeFits(p) && EndsExec(k) && !StartsWith(k, '|')
    ensures PipeCmd(PipeText(p) + k) == Ok(PipeTree(p), k)
    decreases p, 1
  {
    hide ExecCmd;
    match p
    case One(s) =>
      SimpleParses(s, k);
    case Bar(s, q) =>
      var tail := [Sym('|')] + (PipeText(q) + k);
      assert PipeText(p) + k == SimpleText(s) + tail && tail[1..] == PipeText(q) + k;
      SimpleParses(s, tail);
      PipeParses(q, k);
  }

  lemma {:induction false} BacksAll<W>(c: Cmd<W>, m: nat, n: nat, k: seq<Token<W>>)
    requires !StartsWith(k, '&')
    ensures Backs(Backed(c, m), Amps(n) + k) == (Backed(c, m + n), k)
    decreases n
  {
    var toks := Amps(n) + k;
    if n == 0 {
      assert toks == k;
    } else {
      assert toks[0] == Sym('&') && toks[1..] == Amps(n - 1) + k;
      BacksAll(c, m + 1, n - 1, k);
    }
  }

  lemma {:induction false} LineParses<W>(l: LineSyn<W>, k: seq<Token<W>>)
    requires LineFits(l) && Closes(k)
    ensures Line(LineText(l) + k) == Ok(LineTree(l), k)
    decreases l, 2
  {
    hide PipeCmd;
    hide Backs;
    match l
    case Last(p, n) =>
      assert LineText(l) + k == PipeText(p) + (Amps(n) + k);
      PipeParses(p, Amps(n) + k);
      BacksAll(PipeTree(p), 0, n, k);
    case Then(p, n, rest) =>
      var tail := [Sym(';')] + (LineText(rest) + k);
      assert LineText(l) + k == PipeText(p) + (Amps(n) + tail) && tail[1..] == LineText(rest) + k;
      PipeParses(p, Amps(n) + tail);
      BacksAll(PipeTree(p), 0, n, tail);
      LineParses(rest, k);
  }

  // ----- and accepts no other -----

  function OpOf<W>(t: Token<W>): Op
    requires IsRedir(t)
  {
    if t.Append? then App else if t.c == '<' then In else Out
  }

  lemma TosStep<W>(op: Op, f: W, rs: seq<(Op, W)>, k: seq<Token<W>>)
    ensures var items := Tos([(op, f)] + rs);
      && ItemsText(items) + k == [OpToken(op), Word(f)] + (ItemsText(Tos(rs)) + k)
      && RedirsOf(items) == [(f, op != In)] + RedirsOf(Tos(rs)) && ArgsOf(items) == ArgsOf(Tos(rs))
  {
    var items := Tos([(op, f)] + rs);
    assert items[0] == To(op, f) && items[1..] == Tos(rs);
    ItemsStep(items, k);
  }

  lemma {:induction false} RedirsSyntax<W>(toks: seq<Token<W>>) returns (rs: seq<(Op, W)>)
    requires Redirs(toks).Ok?
    ensures toks == ItemsText(Tos(rs)) + Redirs(toks).rest && Redirs(toks).v == RedirsOf(Tos(rs))
    ensures ArgsOf(Tos(rs)) == []
    decreases |toks|
  {
    rs := [];
    if toks != [] && IsRedir(toks[0]) {
      var op, f := OpOf(toks[0]), toks[1].w;
      var more := RedirsSyntax(toks[2..]);
      rs := [(op, f)] + more;
      TosStep(op, f, more, Redirs(toks[2..]).rest);
      hide ItemsText;
      assert toks == [OpToken(op), Word(f)] + toks[2..];
    }
  }

  lemma {:induction false} TextAppend<W>(a: seq<Item<W>>, b: seq<Item<W>>)
    ensures ItemsText(a + b) == ItemsText(a) + ItemsText(b)
  {
    if a == [] {
      assert a + b == b && [] + ItemsText(b) == ItemsText(b);
    } else {
      assert (a + b)[0] == a[0] && (a + b)[1..] == a[1..] + b;
      TextAppend(a[1..], b);
      Assoc(ItemText(a[0]), ItemsText(a[1..]), ItemsText(b));
    }
  }

  lemma {:induction false} ArgsAppend<W>(a: seq<Item<W>>, b: seq<Item<W>>)
    ensures ArgsOf(a + b) == ArgsOf(a) + ArgsOf(b)
  {
    if a == [] {
      assert a + b == b && [] + ArgsOf(b) == ArgsOf(b);
    } else {
      assert (a + b)[0] == a[0] && (a + b)[1..] == a[1..] + b;
      ArgsAppend(a[1..], b);
      if a[0].Arg? {
        Assoc([a[0].w], ArgsOf(a[1..]), ArgsOf(b));
      }
    }
  }

  lemma {:induction false} RedirsAppend<W>(a: seq<Item<W>>, b: seq<Item<W>>)
    ensures RedirsOf(a + b) == RedirsOf(a) + RedirsOf(b)
  {
    if a == [] {
      assert a + b == b && [] + RedirsOf(b) == RedirsOf(b);
    } else {
      assert (a + b)[0] == a[0] && (a + b)[1..] == a[1..] + b;
      RedirsAppend(a[1..], b);
      if a[0].To? {
        Assoc([(a[0].file, a[0].op != In)], RedirsOf(a[1..]), RedirsOf(b));
      }
    }
  }

  /** One turn of the argument loop. */
  lemma ItemsJoin<W>(w: W, rs: seq<(Op, W)>, more: seq<Item<W>>, k: seq<Token<W>>)
    requires ArgsOf(Tos(rs)) == []
    ensures var items := [Arg(w)] + (Tos(rs) + more);
      && ItemsText(items) + k == [Word(w)] + (ItemsText(Tos(rs)) + (ItemsText(more) + k))
      && ArgsOf(items) == [w] + ArgsOf(more) && RedirsOf(items) == RedirsOf(Tos(rs)) + RedirsOf(more)
  {
    var items := [Arg(w)] + (Tos(rs) + more);
    assert items[0] == Arg(w) && items[1..] == Tos(rs) + more;
    TextAppend(Tos(rs), more);
    ArgsAppend(Tos(rs), more);
    RedirsAppend(Tos(rs), more);
    assert [] + ArgsOf(more) == ArgsOf(more);
    ItemsStep(items, k);
    Assoc(ItemsText(Tos(rs)), ItemsText(more), k);
  }

  lemma ArgsTurn<W>(toks: seq<Token<W>>, args: seq<W>, rs: seq<(W, bool)>)
    requires Args(toks, args, rs).Ok? && !EndsExec(toks)
    ensures toks[0].Word? && toks == [toks[0]] + toks[1..] && |args| + 1 < MAXARGS && Redirs(toks[1..]).Ok?
    ensures var q := Redirs(toks[1..]); Args(toks, args, rs) == Args(q.rest, args + [toks[0].w], rs + q.v)
  {
  }

  lemma ArgsEnd<W>(toks: seq<Token<W>>, args: seq<W>, rs: seq<(W, bool)>)
    requires EndsExec(toks)
    ensures Args(toks, args, rs) == Ok(Wrap(Exec(args + []), rs + []), toks)
  {
    assert args + [] == args && rs + [] == rs;
  }

  lemma {:induction false} ArgsSyntax<W>(toks: seq<Token<W>>, args: seq<W>, rs: seq<(W, bool)>)
    returns (items: seq<Item<W>>)
    requires Args(toks, args, rs).Ok? && |args| < MAXARGS
    ensures var p := Args(toks, args, rs);
      && toks == ItemsText(items) + p.rest && EndsExec(p.rest) && |args| + |ArgsOf(items)| < MAXARGS
      && p.v == Wrap(Exec(args + ArgsOf(items)), rs + RedirsOf(items))
    decreases |toks|
  {
    hide Wrap;
    hide Redirs;
    hide Args;
    if EndsExec(toks) {
      items := [];
      ArgsEnd(toks, args, rs);
      assert [] + toks == toks;
    } else {
      ArgsTurn(toks, args, rs);
      var w, q := toks[0].w, Redirs(toks[1..]);
      var some := RedirsSyntax(toks[1..]);
      var more := ArgsSyntax(q.rest, args + [w], rs + q.v);
      hide ItemsText;
      hide RedirsOf;
      hide ArgsOf;
      items := [Arg(w)] + (Tos(some) + more);
      ItemsJoin(w, some, more, Args(toks, args, rs).rest);
      Assoc(args, [w], ArgsOf(more));
      Assoc(rs, q.v, RedirsOf(more));
    }
  }

  lemma {:induction false} SimpleSyntax<W>(toks: seq<Token<W>>) returns (s: Simple<W>)
    requires ExecCmd(toks).Ok?
    ensures toks == SimpleText(s) + ExecCmd(toks).rest && ExecCmd(toks).v == SimpleTree(s) && SimpleFits(s)
    decreases |toks|, 0
  {
    hide Line;
    hide Wrap;
    hide Redirs;
    hide Args;
    if StartsWith(toks, '(') {
      var p := Line(toks[1..]);
      var line := LineSyntax(toks[1..]);
      var rs := RedirsSyntax(p.rest[1..]);
      s := Group(line, rs);
      WrapApplies(p.v, Tos(rs));
      hide ItemsText;
      assert toks == [Sym('(')] + toks[1..] && p.rest == [Sym(')')] + p.rest[1..];
    } else {
      var p := Redirs(toks);
      var rs := RedirsSyntax(toks);
      var items := ArgsSyntax(p.rest, [], p.v);
      var all := Tos(rs) + items;
      s := Plain(all);
      TextAppend(Tos(rs), items);
      ArgsAppend(Tos(rs), items);
      RedirsAppend(Tos(rs), items);
      WrapApplies(Exec(ArgsOf(all)), all);
      hide ItemsText;
      Assoc(ItemsText(Tos(rs)), ItemsText(items), ExecCmd(toks).rest);
    }
  }

  lemma {:induction false} PipeSyntax<W>(toks: seq<Token<W>>) returns (p: PipeSyn<W>)
    requires PipeCmd(toks).Ok?
    ensures toks == PipeText(p) + PipeCmd(toks).rest && PipeCmd(toks).v == PipeTree(p) && PipeFits(p)
    decreases |toks|, 1
  {
    hide ExecCmd;
    var a := ExecCmd(toks);
    var s := SimpleSyntax(toks);
    p := One(s);
    if StartsWith(a.rest, '|') {
      var q := PipeSyntax(a.rest[1..]);
      p := Bar(s, q);
      assert a.rest == [Sym('|')] + a.rest[1..];
    }
  }

  lemma {:induction false} BacksSyntax<W>(c: Cmd<W>, m: nat, toks: seq<Token<W>>) returns (n: nat)
    ensures var p := Backs(Backed(c, m), toks);
      toks == Amps(n) + p.1 && p.0 == Backed(c, m + n)
    decreases |toks|
  {
    n := 0;
    if StartsWith(toks, '&') {
      var more := BacksSyntax(c, m + 1, toks[1..]);
      n := more + 1;
    }
  }

  lemma {:induction false} LineSyntax<W>(toks: seq<Token<W>>) returns (l: LineSyn<W>)
    requires Line(toks).Ok?
    ensures toks == LineText(l) + Line(toks).rest && Line(toks).v == LineTree(l) && LineFits(l)
    decreases |toks|, 2
  {
    hide PipeCmd;
    hide Backs;
    hide PipeText;
    var a := PipeCmd(toks);
    var p := PipeSyntax(toks);
    var n := BacksSyntax(a.v, 0, a.rest);
    var b := Backs(a.v, a.rest);
    l := Last(p, n);
    if StartsWith(b.1, ';') {
      var rest := LineSyntax(b.1[1..]);
      l := Then(p, n, rest);
      assert b.1 == [Sym(';')] + b.1[1..];
    }
  }

  /** The tokens are the text of some line, and the command its meaning. */
  ghost predicate Says<W(!new)>(toks: seq<Token<W>>, c: Cmd<W>) {
    exists l: LineSyn<W> :: LineFits(l) && LineText(l) == toks && LineTree(l) == c
  }

  /** The parser accepts a line exactly when it can be read, as what it reads. */
  lemma ParsedExactly<W(!new)>(toks: seq<Token<W>>, c: Cmd<W>)
    ensures Says(toks, c) <==> Parsed(toks) == Ok(c, [])
  {
    hide Line;
    if Says(toks, c) {
      var l :| LineFits(l) && LineText(l) == toks && LineTree(l) == c;
      LineParses(l, []);
      assert LineText(l) + [] == LineText(l);
    }
    if Parsed(toks) == Ok(c, []) {
      var l := LineSyntax(toks);
      assert LineText(l) + [] == LineText(l);
    }
  }

  // ----- Printing -----

  predicate Fits<W>(c: Cmd<W>) {
    match c
    case Exec(args) => |args| < MAXARGS
    case Redirect(d, f, out) => Fits(d)
    case Pipe(l, r) => Fits(l) && Fits(r)
    case List(l, r) => Fits(l) && Fits(r)
    case Back(d) => Fits(d)
  }

  /** How tightly a command binds: ; then & then | then redirections. */
  function Level<W>(c: Cmd<W>): nat {
    match c
    case List(_, _) => 0
    case Back(_) => 1
    case Pipe(_, _) => 2
    case _ => 3
  }

  function Arguments<W>(ws: seq<W>): (items: seq<Item<W>>)
    ensures |items| == |ws|
  {
    seq(|ws|, i requires 0 <= i < |ws| => Arg(ws[i]))
  }

  function Directed<W>(s: Simple<W>, op: Op, f: W): Simple<W> {
    match s
    case Plain(items) => Plain(items + [To(op, f)])
    case Group(line, redirs) => Group(line, redirs + [(op, f)])
  }

  /** A command where a line may stand, where a line before a ; may, a pipeline, a simple command;
      in parentheses only when it binds less tightly. */
  function AsLine<W>(c: Cmd<W>): LineSyn<W>
    decreases c, Level(c)
  {
    if c.List? then
      var (p, n) := AsAmps(c.left);
      Then(p, n, AsLine(c.right))
    else
      var (p, n) := AsAmps(c);
      Last(p, n)
  }

  function AsAmps<W>(c: Cmd<W>): (PipeSyn<W>, nat)
    decreases c, (Level(c) + 3) % 4
  {
    if c.Back? then
      var (p, n) := AsAmps(c.cmd);
      (p, n + 1)
    else
      (AsPipe(c), 0)
  }

  function AsPipe<W>(c: Cmd<W>): PipeSyn<W>
    decreases c, (Level(c) + 2) % 4
  {
    if c.Pipe? then Bar(AsSimple(c.left), AsPipe(c.right)) else One(AsSimple(c))
  }

  function AsSimple<W>(c: Cmd<W>): Simple<W>
    decreases c, (Level(c) + 1) % 4
  {
    match c
    case Exec(args) => Plain(Arguments(args))
    case Redirect(d, f, out) => Directed(AsSimple(d), if out then Out else In, f)
    case _ => Group(AsLine(c), [])
  }

  function Print<W>(c: Cmd<W>): seq<Token<W>> {
    LineText(AsLine(c))
  }

  lemma {:induction false} AppliedLast<W>(c: Cmd<W>, items: seq<Item<W>>, op: Op, f: W)
    ensures Applied(c, items + [To(op, f)]) == Redirect(Applied(c, items), f, op != In)
    ensures ArgsOf(items + [To(op, f)]) == ArgsOf(items)
    decreases |items|
  {
    var all := items + [To(op, f)];
    if items == [] {
      assert all[0] == To(op, f) && all[1..] == [];
    } else {
      assert all[0] == items[0] && all[1..] == items[1..] + [To(op, f)];
      AppliedLast(if items[0].Arg? then c else Redirect(c, items[0].file, items[0].op != In), items[1..], op, f);
    }
  }

  lemma DirectedTree<W>(s: Simple<W>, op: Op, f: W)
    ensures SimpleTree(Directed(s, op, f)) == Redirect(SimpleTree(s), f, op != In)
    ensures SimpleFits(Directed(s, op, f)) == SimpleFits(s)
  {
    match s
    case Plain(items) =>
      AppliedLast(Exec(ArgsOf(items)), items, op, f);
    case Group(line, redirs) =>
      assert Tos(redirs + [(op, f)]) == Tos(redirs) + [To(op, f)];
      AppliedLast(LineTree(line), Tos(redirs), op, f);
  }

  lemma {:induction false} ArgumentsTree<W>(c: Cmd<W>, ws: seq<W>)
    ensures ArgsOf(Arguments(ws)) == ws && Applied(c, Arguments(ws)) == c
  {
    if ws != [] {
      ArgumentsTree(c, ws[1..]);
      assert Arguments(ws)[1..] == Arguments(ws[1..]);
      assert [ws[0]] + ws[1..] == ws;
    }
  }

  /** Each form of a command means the command. */
  lemma {:induction false} LineForm<W>(c: Cmd<W>)
    ensures LineTree(AsLine(c)) == c && (Fits(c) ==> LineFits(AsLine(c)))
    decreases c, Level(c)
  {
    if c.List? {
      AmpsForm(c.left);
      LineForm(c.right);
    } else {
      AmpsForm(c);
    }
  }

  lemma {:induction false} AmpsForm<W>(c: Cmd<W>)
    ensures var (p, n) := AsAmps(c); Backed(PipeTree(p), n) == c && (Fits(c) ==> PipeFits(p))
    decreases c, (Level(c) + 3) % 4
  {
    if c.Back? {
      AmpsForm(c.cmd);
    } else {
      PipeForm(c);
    }
  }

  lemma {:induction false} PipeForm<W>(c: Cmd<W>)
    ensures PipeTree(AsPipe(c)) == c && (Fits(c) ==> PipeFits(AsPipe(c)))
    decreases c, (Level(c) + 2) % 4
  {
    if c.Pipe? {
      SimpleForm(c.left);
      PipeForm(c.right);
    } else {
      SimpleForm(c);
    }
  }

  lemma {:induction false} SimpleForm<W>(c: Cmd<W>)
    ensures SimpleTree(AsSimple(c)) == c && (Fits(c) ==> SimpleFits(AsSimple(c)))
    decreases c, (Level(c) + 1) % 4
  {
    match c
    case Exec(args) =>
      ArgumentsTree(c, args);
    case Redirect(d, f, out) =>
      SimpleForm(d);
      DirectedTree(AsSimple(d), if out then Out else In, f);
    case _ =>
      LineForm(c);
  }

  /** Parsing the printed form of a command gives the command back. */
  lemma ParsePrint<W>(c: Cmd<W>, k: seq<Token<W>>)
    requires Fits(c) && Closes(k)
    ensures Line(Print(c) + k) == Ok(c, k)
  {
    LineForm(c);
    LineParses(AsLine(c), k);
  }

  lemma RoundTrip<W>(c: Cmd<W>)
    requires Fits(c)
    ensures Parsed(Print(c)) == Ok(c, [])
  {
    ParsePrint(c, []);
    assert Print(c) + [] == Print(c);
  }

  // ----- No text of a command is shorter -----

  function LineSize<W>(c: Cmd<W>): nat {
    |LineText(AsLine(c))|
  }

  function AmpsSize<W>(c: Cmd<W>): nat {
    var (p, n) := AsAmps(c);
    |PipeText(p)| + n
  }

  function PipeSize<W>(c: Cmd<W>): nat {
    |PipeText(AsPipe(c))|
  }

  function SimpleSize<W>(c: Cmd<W>): nat {
    |SimpleText(AsSimple(c))|
  }

  lemma {:induction false} ItemsLength<W>(items: seq<Item<W>>)
    ensures |ItemsText(items)| == |ArgsOf(items)| + 2 * |RedirsOf(items)|
    ensures |RedirsOf(items)| + |ArgsOf(items)| == |items|
  {
    if items != [] {
      ItemsLength(items[1..]);
    }
  }

  lemma DirectedSize<W>(c: Cmd<W>, f: W, out: bool)
    ensures SimpleSize(Redirect(c, f, out)) == SimpleSize(c) + 2
  {
    var s, op := AsSimple(c), if out then Out else In;
    var one := [To(op, f)];
    assert ItemsText(one) == [OpToken(op), Word(f)] + ItemsText<W>([]);
    match s
    case Plain(items) =>
      TextAppend(items, one);
    case Group(line, redirs) =>
      assert Tos(redirs + [(op, f)]) == Tos(redirs) + one;
      TextAppend(Tos(redirs), one);
  }

  lemma {:induction false} AppliedSize<W>(c: Cmd<W>, items: seq<Item<W>>)
    ensures SimpleSize(Applied(c, items)) == SimpleSize(c) + 2 * |RedirsOf(items)|
    decreases |items|
  {
    hide SimpleSize;
    if items != [] {
      match items[0]
      case Arg(_) =>
        AppliedSize(c, items[1..]);
      case To(op, f) =>
        AppliedSize(Redirect(c, f, op != In), items[1..]);
        DirectedSize(c, f, op != In);
    }
  }

  /** A form that adds nothing is as long, and parentheses are two tokens. */
  lemma SizeSteps<W>(c: Cmd<W>)
    ensures !c.List? ==> LineSize(c) == AmpsSize(c)
    ensures !c.Back? ==> AmpsSize(c) == PipeSize(c)
    ensures !c.Pipe? ==> PipeSize(c) == SimpleSize(c)
    ensures c.List? || c.Back? || c.Pipe? ==> SimpleSize(c) == LineSize(c) + 2
  {
    if c.List? || c.Back? || c.Pipe? {
      assert AsSimple(c) == Group(AsLine(c), []);
      assert Tos<W>([]) == [];
    }
  }

  lemma {:induction false} BackedSize<W>(c: Cmd<W>, n: nat)
    ensures AmpsSize(Backed(c, n)) == AmpsSize(c) + n
  {
    if n > 0 {
      BackedSize(c, n - 1);
    }
  }

  lemma {:induction false} SimpleShortest<W>(s: Simple<W>)
    ensures SimpleSize(SimpleTree(s)) <= |SimpleText(s)|
    decreases s, 0
  {
    hide SimpleSize;
    match s
    case Plain(items) =>
      var c := Exec(ArgsOf(items));
      AppliedSize(c, items);
      ItemsLength(items);
      ExecSize(c.args);
    case Group(line, redirs) =>
      var c := LineTree(line);
      AppliedSize(c, Tos(redirs));
      ItemsLength(Tos(redirs));
      SizeSteps(c);
      LineShortest(line);
  }

  lemma ExecSize<W>(args: seq<W>)
    ensures SimpleSize(Exec(args)) == |args|
  {
    ArgumentsTree(Exec(args), args);
    ItemsLength(Arguments(args));
  }

  lemma {:induction false} PipeShortest<W>(p: PipeSyn<W>)
    ensures PipeSize(PipeTree(p)) <= |PipeText(p)|
    decreases p, 1
  {
    match p
    case One(s) =>
      SimpleShortest(s);
      SizeSteps(SimpleTree(s));
    case Bar(s, q) =>
      SimpleShortest(s);
      PipeShortest(q);
      assert AsPipe(PipeTree(p)) == Bar(AsSimple(SimpleTree(s)), AsPipe(PipeTree(q)));
  }

  /** Nothing that reads as a tree is shorter than its printing: no parenthesis of it is superfluous. */
  lemma {:induction false} LineShortest<W>(l: LineSyn<W>)
    ensures |Print(LineTree(l))| <= |LineText(l)|
    decreases l, 2
  {
    PipeShortest(l.p);
    var c := PipeTree(l.p);
    var d := Backed(c, l.amps);
    SizeSteps(c);
    BackedSize(c, l.amps);
    match l
    case Last(_, _) =>
      SizeSteps(d);
    case Then(_, _, rest) =>
      LineShortest(rest);
      var (p, n) := AsAmps(d);
      assert AsLine(LineTree(l)) == Then(p, n, AsLine(LineTree(rest)));
  }
}
