// The shell's parser on characters (sh.c): a cursor over the command line, the recursive
// descent, and the pass that ends every word of the tree with a NUL in place.
module ShellParser {
  import Common
  import opened ShellGrammar

  const NUL: char := 0 as char

  type Range = (nat, nat)

  predicate IsSpace(c: char) {
    c == ' ' || c == '\t' || c == '\r' || c == '\n' || c == 11 as char
  }

  predicate IsSymbol(c: char) {
    c == '<' || c == '|' || c == '>' || c == '&' || c == ';' || c == '(' || c == ')'
  }

  predicate IsWordChar(c: char) {
    !IsSpace(c) && !IsSymbol(c) && c != NUL
  }

  predicate NoNul(line: string) {
    forall i :: 0 <= i < |line| ==> line[i] != NUL
  }

  // ----- Tokens of a line -----

  function Skip(line: string, i: nat): (j: nat)
    requires i <= |line|
    ensures i <= j <= |line| && (j < |line| ==> !IsSpace(line[j]))
    ensures forall k :: i <= k < j ==> IsSpace(line[k])
    decreases |line| - i
  {
    if i < |line| && IsSpace(line[i]) then Skip(line, i + 1) else i
  }

  function WordEnd(line: string, i: nat): (j: nat)
    requires i <= |line|
    ensures i <= j <= |line| && (j < |line| ==> IsSpace(line[j]) || IsSymbol(line[j]))
    ensures forall k :: i <= k < j ==> !IsSpace(line[k]) && !IsSymbol(line[k])
    decreases |line| - i
  {
    if i < |line| && !IsSpace(line[i]) && !IsSymbol(line[i]) then WordEnd(line, i + 1) else i
  }

  function TokenAt(line: string, i: nat): Token<Range>
    requires i < |line|
  {
    if line[i] == '>' && i + 1 < |line| && line[i + 1] == '>' then Append
    else if IsSymbol(line[i]) then Sym(line[i])
    else Word((i, WordEnd(line, i)))
  }

  function TokenEnd(line: string, i: nat): (j: nat)
    requires i < |line|
    ensures j <= |line| && (!IsSpace(line[i]) ==> i < j)
  {
    match TokenAt(line, i)
    case Append => i + 2
    case Sym(_) => i + 1
    case Word(w) => w.1
  }

  function Lex(line: string, i: nat): seq<Token<Range>>
    requires i <= |line|
    decreases |line| - i
  {
    var j := Skip(line, i);
    if j == |line| then [] else [TokenAt(line, j)] + Lex(line, TokenEnd(line, j))
  }

  lemma LexSkip(line: string, i: nat)
    requires i <= |line|
    ensures Lex(line, Skip(line, i)) == Lex(line, i)
  {
    var j := Skip(line, i);
    assert Skip(line, j) == j;
  }

  /** What gettoken returns for a token. */
  function Code(t: Token<Range>): char {
    match t
    case Word(_) => 'a'
    case Sym(c) => c
    case Append => '+'
  }

  /** The character peek sees at a token that is not a word. */
  predicate Shows(toks: seq<Token<Range>>, cs: string) {
    toks != [] && !toks[0].Word? && (if toks[0].Append? then '>' else toks[0].c) in cs
  }

  // ----- Words are maximal, so no word ends inside another -----

  predicate WordAt(line: string, w: Range) {
    && w.0 < w.1 <= |line|
    && (forall k :: w.0 <= k < w.1 ==> IsWordChar(line[k]))
    && (w.1 < |line| ==> !IsWordChar(line[w.1]))
  }

  predicate TokensAt(line: string, toks: seq<Token<Range>>) {
    forall i :: 0 <= i < |toks| && toks[i].Word? ==> WordAt(line, toks[i].w)
  }

  predicate CmdAt(line: string, c: Cmd<Range>) {
    match c
    case Exec(args) => forall i :: 0 <= i < |args| ==> WordAt(line, args[i])
    case Redirect(d, f, _) => CmdAt(line, d) && WordAt(line, f)
    case Pipe(l, r) => CmdAt(line, l) && CmdAt(line, r)
    case List(l, r) => CmdAt(line, l) && CmdAt(line, r)
    case Back(d) => CmdAt(line, d)
  }

  lemma {:induction false} LexWords(line: string, i: nat)
    requires i <= |line| && NoNul(line)
    ensures TokensAt(line, Lex(line, i))
    decreases |line| - i
  {
    var j := Skip(line, i);
    if j < |line| {
      LexWords(line, TokenEnd(line, j));
    }
  }

  // ----- The words of a tree as text -----

  function Text(line: string, w: Range): string {
    if w.0 <= w.1 <= |line| then line[w.0..w.1] else ""
  }

  function TokenText(line: string, t: Token<Range>): Token<string> {
    match t
    case Word(w) => Word(Text(line, w))
    case Sym(c) => Sym(c)
    case Append => Append
  }

  function Texts(line: string, toks: seq<Token<Range>>): (r: seq<Token<string>>)
    ensures |r| == |toks| && forall i :: 0 <= i < |r| ==> r[i] == TokenText(line, toks[i])
  {
    seq(|toks|, i requires 0 <= i < |toks| => TokenText(line, toks[i]))
  }

  function ArgTexts(line: string, ws: seq<Range>): (r: seq<string>)
    ensures |r| == |ws| && forall i :: 0 <= i < |r| ==> r[i] == Text(line, ws[i])
  {
    seq(|ws|, i requires 0 <= i < |ws| => Text(line, ws[i]))
  }

  function RedirTexts(line: string, rs: seq<(Range, bool)>): (r: seq<(string, bool)>)
    ensures |r| == |rs| && forall i :: 0 <= i < |r| ==> r[i] == (Text(line, rs[i].0), rs[i].1)
  {
    seq(|rs|, i requires 0 <= i < |rs| => (Text(line, rs[i].0), rs[i].1))
  }

  function CmdText(line: string, c: Cmd<Range>): Cmd<string> {
    match c
    case Exec(args) => Exec(ArgTexts(line, args))
    case Redirect(d, f, out) => Redirect(CmdText(line, d), Text(line, f), out)
    case Pipe(l, r) => Pipe(CmdText(line, l), CmdText(line, r))
    case List(l, r) => List(CmdText(line, l), CmdText(line, r))
    case Back(d) => Back(CmdText(line, d))
  }

  predicate RedirsAt(line: string, rs: seq<(Range, bool)>) {
    forall i :: 0 <= i < |rs| ==> WordAt(line, rs[i].0)
  }

  /** The parse p of token positions reads as the parse t of token texts. */
  predicate Reads(line: string, p: Parse<Cmd<Range>, Range>, t: Parse<Cmd<string>, string>) {
    match p
    case Panic => t.Panic?
    case Ok(c, rest) => CmdAt(line, c) && TokensAt(line, rest) && t == Ok(CmdText(line, c), Texts(line, rest))
  }

  predicate ReadsRedirs(line: string, p: Parse<seq<(Range, bool)>, Range>, t: Parse<seq<(string, bool)>, string>) {
    match p
    case Panic => t.Panic?
    case Ok(rs, rest) => RedirsAt(line, rs) && TokensAt(line, rest) && t == Ok(RedirTexts(line, rs), Texts(line, rest))
  }

  lemma TextsDrop(line: string, toks: seq<Token<Range>>, n: nat)
    requires n <= |toks| && TokensAt(line, toks)
    ensures Texts(line, toks)[n..] == Texts(line, toks[n..]) && TokensAt(line, toks[n..])
  {
    assert Texts(line, toks)[n..] == Texts(line, toks[n..]);
    forall i | 0 <= i < |toks[n..]| && toks[n..][i].Word?
      ensures WordAt(line, toks[n..][i].w)
    {
      assert toks[n..][i] == toks[n + i];
    }
  }

  lemma {:induction false} RedirsText(line: string, toks: seq<Token<Range>>)
    requires TokensAt(line, toks)
    ensures ReadsRedirs(line, Redirs(toks), Redirs(Texts(line, toks)))
    decreases |toks|
  {
    hide WordAt;
    hide Text;
    var ts := Texts(line, toks);
    if toks == [] || !IsRedir(toks[0]) {
      assert RedirTexts(line, []) == [];
    } else if |toks| < 2 || !toks[1].Word? {
    } else {
      TextsDrop(line, toks, 2);
      RedirsText(line, toks[2..]);
      var p := Redirs(toks[2..]);
      if p.Ok? {
        var r := (toks[1].w, !(toks[0].Sym? && toks[0].c == '<'));
        assert RedirTexts(line, [r] + p.v) == [(Text(line, r.0), r.1)] + RedirTexts(line, p.v);
      }
    }
  }

  lemma {:induction false} WrapText(line: string, c: Cmd<Range>, rs: seq<(Range, bool)>)
    requires CmdAt(line, c) && RedirsAt(line, rs)
    ensures CmdAt(line, Wrap(c, rs))
    ensures CmdText(line, Wrap(c, rs)) == Wrap(CmdText(line, c), RedirTexts(line, rs))
    decreases |rs|
  {
    hide WordAt;
    hide Text;
    if rs != [] {
      var n := |rs| - 1;
      WrapText(line, c, rs[..n]);
      assert RedirTexts(line, rs)[..n] == RedirTexts(line, rs[..n]);
      assert RedirTexts(line, rs)[n] == (Text(line, rs[n].0), rs[n].1);
      assert Wrap(c, rs) == Redirect(Wrap(c, rs[..n]), rs[n].0, rs[n].1);
    }
  }

  lemma ArgMore(line: string, args: seq<Range>, w: Range)
    requires CmdAt(line, Exec(args)) && WordAt(line, w)
    ensures CmdAt(line, Exec(args + [w]))
    ensures ArgTexts(line, args + [w]) == ArgTexts(line, args) + [Text(line, w)]
  {
  }

  lemma RedirsMore(line: string, rs: seq<(Range, bool)>, more: seq<(Range, bool)>)
    requires RedirsAt(line, rs) && RedirsAt(line, more)
    ensures RedirsAt(line, rs + more)
    ensures RedirTexts(line, rs + more) == RedirTexts(line, rs) + RedirTexts(line, more)
  {
  }

  lemma {:induction false} ArgsText(line: string, toks: seq<Token<Range>>, args: seq<Range>, rs: seq<(Range, bool)>)
    requires TokensAt(line, toks) && RedirsAt(line, rs) && CmdAt(line, Exec(args))
    ensures Reads(line, Args(toks, args, rs),
                  Args(Texts(line, toks), ArgTexts(line, args), RedirTexts(line, rs)))
    decreases |toks|
  {
    hide WordAt;
    hide Text;
    hide Wrap;
    hide Redirs;
    hide RedirsAt;
    hide RedirTexts;
    hide ArgTexts;
    hide CmdAt;
    var ts := Texts(line, toks);
    if EndsExec(toks) {
      WrapText(line, Exec(args), rs);
    } else if !toks[0].Word? || |args| + 1 >= MAXARGS {
    } else {
      TextsDrop(line, toks, 1);
      RedirsText(line, toks[1..]);
      var p := Redirs(toks[1..]);
      if p.Ok? {
        ArgMore(line, args, toks[0].w);
        RedirsMore(line, rs, p.v);
        ArgsText(line, p.rest, args + [toks[0].w], rs + p.v);
      }
    }
  }

  lemma {:induction false} ExecParse(line: string, toks: seq<Token<Range>>)
    requires TokensAt(line, toks)
    ensures Reads(line, ExecCmd(toks), ExecCmd(Texts(line, toks)))
    decreases |toks|, 1
  {
    hide WordAt;
    hide Text;
    hide Args;
    hide Redirs;
    hide Block;
    if StartsWith(toks, '(') {
      BlockParse(line, toks);
    } else {
      RedirsText(line, toks);
      var p := Redirs(toks);
      if p.Ok? {
        ArgsText(line, p.rest, [], p.v);
        assert ArgTexts(line, []) == [];
      }
    }
  }

  lemma {:induction false} BlockParse(line: string, toks: seq<Token<Range>>)
    requires TokensAt(line, toks) && StartsWith(toks, '(')
    ensures Reads(line, Block(toks), Block(Texts(line, toks)))
    decreases |toks|, 0
  {
    hide WordAt;
    hide Text;
    hide Line;
    hide Redirs;
    hide Wrap;
    TextsDrop(line, toks, 1);
    LineParse(line, toks[1..]);
    var p := Line(toks[1..]);
    if p.Ok? && StartsWith(p.rest, ')') {
      TextsDrop(line, p.rest, 1);
      RedirsText(line, p.rest[1..]);
      var q := Redirs(p.rest[1..]);
      if q.Ok? {
        WrapText(line, p.v, q.v);
      }
    }
  }

  lemma {:induction false} PipeParse(line: string, toks: seq<Token<Range>>)
    requires TokensAt(line, toks)
    ensures Reads(line, PipeCmd(toks), PipeCmd(Texts(line, toks)))
    decreases |toks|, 2
  {
    hide WordAt;
    hide Text;
    hide ExecCmd;
    ExecParse(line, toks);
    var p := ExecCmd(toks);
    if p.Ok? && StartsWith(p.rest, '|') {
      TextsDrop(line, p.rest, 1);
      PipeParse(line, p.rest[1..]);
    }
  }

  lemma {:induction false} BacksText(line: string, c: Cmd<Range>, toks: seq<Token<Range>>)
    requires TokensAt(line, toks) && CmdAt(line, c)
    ensures var p := Backs(c, toks);
      CmdAt(line, p.0) && TokensAt(line, p.1)
      && Backs(CmdText(line, c), Texts(line, toks)) == (CmdText(line, p.0), Texts(line, p.1))
    decreases |toks|
  {
    hide WordAt;
    hide Text;
    if StartsWith(toks, '&') {
      TextsDrop(line, toks, 1);
      BacksText(line, Back(c), toks[1..]);
    }
  }

  lemma {:induction false} LineParse(line: string, toks: seq<Token<Range>>)
    requires TokensAt(line, toks)
    ensures Reads(line, Line(toks), Line(Texts(line, toks)))
    decreases |toks|, 3
  {
    hide WordAt;
    hide Text;
    hide PipeCmd;
    hide Backs;
    PipeParse(line, toks);
    var p := PipeCmd(toks);
    if p.Ok? {
      BacksText(line, p.v, p.rest);
      var (c, rest) := Backs(p.v, p.rest);
      if StartsWith(rest, ';') {
        TextsDrop(line, rest, 1);
        LineParse(line, rest[1..]);
      }
    }
  }

  // ----- Text of a token sequence -----

  function Spelling(t: Token<string>): string {
    match t
    case Word(w) => w
    case Sym(c) => [c]
    case Append => ">>"
  }

  predicate Spellable(t: Token<string>) {
    match t
    case Word(w) => w != "" && forall i :: 0 <= i < |w| ==> IsWordChar(w[i])
    case Sym(c) => IsSymbol(c)
    case Append => true
  }

  predicate Blank(gap: string) {
    forall i :: 0 <= i < |gap| ==> IsSpace(gap[i])
  }

  /** Each token followed by its own run of white space. */
  function Render(toks: seq<Token<string>>, gaps: seq<string>): string
    requires |gaps| == |toks|
  {
    if toks == [] then "" else Spelling(toks[0]) + gaps[0] + Render(toks[1..], gaps[1..])
  }

  predicate Gaps(toks: seq<Token<string>>, gaps: seq<string>) {
    && |gaps| == |toks|
    && (forall i :: 0 <= i < |toks| ==> Spellable(toks[i]))
    && (forall i :: 0 <= i < |gaps| ==> Blank(gaps[i]))
  }

  /** Two tokens that read as something else when nothing is between them. */
  predicate NeedsGap(t: Token<string>, u: Token<string>) {
    (t.Word? && u.Word?) || (t == Sym('>') && (u == Sym('>') || u == Append))
  }

  predicate Separated(toks: seq<Token<string>>, gaps: seq<string>)
    requires |gaps| == |toks|
  {
    forall i, j :: 0 <= i < |toks| && j == i + 1 && j < |toks| && gaps[i] == "" ==> !NeedsGap(toks[i], toks[j])
  }

  /** A character after t that t would swallow. */
  predicate Extends(t: Token<string>, c: char) {
    (t.Word? && !IsSpace(c) && !IsSymbol(c)) || (t == Sym('>') && c == '>')
  }

  lemma {:induction false} LexBlank(line: string, i: nat, j: nat)
    requires i <= j <= |line| && forall k :: i <= k < j ==> IsSpace(line[k])
    ensures Lex(line, i) == Lex(line, j)
    decreases j - i
  {
    if i < j {
      assert Skip(line, i) == Skip(line, i + 1);
      LexBlank(line, i + 1, j);
    }
  }

  lemma {:induction false} WordEndAt(line: string, i: nat, j: nat)
    requires i <= j <= |line| && forall k :: i <= k < j ==> IsWordChar(line[k])
    ensures WordEnd(line, i) >= j
    ensures j == |line| || IsSpace(line[j]) || IsSymbol(line[j]) <==> WordEnd(line, i) == j
    decreases j - i
  {
    if i < j {
      WordEndAt(line, i + 1, j);
    }
  }

  /** The first token of a text that starts with the spelling of t is t, unless the next character extends it. */
  lemma FirstToken(line: string, i: nat, t: Token<string>)
    requires Spellable(t) && i + |Spelling(t)| <= |line| && line[i..i + |Spelling(t)|] == Spelling(t)
    ensures i < |line| && !IsSpace(line[i])
    ensures var e := i + |Spelling(t)|;
      if e == |line| || !Extends(t, line[e]) then TokenText(line, TokenAt(line, i)) == t && TokenEnd(line, i) == e
      else TokenText(line, TokenAt(line, i)) != t
  {
    hide WordEnd;
    var sp, e := Spelling(t), i + |Spelling(t)|;
    forall k | i <= k < e ensures line[k] == sp[k - i] {
      assert line[k] == line[i..e][k - i];
    }
    if t.Word? {
      WordEndAt(line, i, e);
    }
  }

  lemma SpaceEnds(t: Token<string>, c: char)
    requires IsSpace(c)
    ensures !Extends(t, c)
  {
  }

  lemma TwoParts(line: string, i: nat, sp: string, gap: string)
    requires i + |sp + gap| <= |line| && line[i..i + |sp + gap|] == sp + gap && Blank(gap)
    ensures line[i..i + |sp|] == sp && forall k :: i + |sp| <= k < i + |sp + gap| ==> IsSpace(line[k])
  {
    var j, e := i + |sp + gap|, i + |sp|;
    assert line[i..e] == line[i..j][..e - i] == sp;
    forall k | e <= k < j ensures IsSpace(line[k]) {
      assert line[k] == line[i..j][k - i] == gap[k - e];
    }
  }

  lemma LexOne(line: string, i: nat, t: Token<string>, gap: string)
    requires Spellable(t) && Blank(gap) && i + |Spelling(t) + gap| <= |line|
    requires line[i..i + |Spelling(t) + gap|] == Spelling(t) + gap
    ensures var j := i + |Spelling(t) + gap|;
      if gap == "" && j < |line| && Extends(t, line[j]) then Lex(line, i) != [] && Texts(line, Lex(line, i))[0] != t
      else Texts(line, Lex(line, i)) == [t] + Texts(line, Lex(line, j))
  {
    hide Lex;
    hide TokenAt;
    hide Spelling;
    hide Extends;
    hide IsSpace;
    var j, e := i + |Spelling(t) + gap|, i + |Spelling(t)|;
    TwoParts(line, i, Spelling(t), gap);
    FirstToken(line, i, t);
    if gap != "" {
      SpaceEnds(t, line[e]);
    }
    LexStep(line, i);
    if e == |line| || !Extends(t, line[e]) {
      LexBlank(line, e, j);
    }
  }

  lemma LexStep(line: string, i: nat)
    requires i < |line| && !IsSpace(line[i])
    ensures Texts(line, Lex(line, i)) == [TokenText(line, TokenAt(line, i))] + Texts(line, Lex(line, TokenEnd(line, i)))
  {
    assert Skip(line, i) == i;
  }

  lemma GapNeeded(t: Token<string>, u: Token<string>)
    requires Spellable(u)
    ensures Spelling(u) != "" && (Extends(t, Spelling(u)[0]) <==> NeedsGap(t, u))
  {
  }

  /** Reading a rendered token sequence gives the tokens back exactly when they are written apart. */
  lemma {:induction false} LexRender(before: string, toks: seq<Token<string>>, gaps: seq<string>)
    requires Gaps(toks, gaps)
    ensures var line := before + Render(toks, gaps);
      Texts(line, Lex(line, |before|)) == toks <==> Separated(toks, gaps)
    decreases |toks|
  {
    hide Lex;
    hide NeedsGap;
    hide Extends;
    hide Spelling;
    hide Spellable;
    hide Texts;
    hide Separated;
    hide Render;
    var line := before + Render(toks, gaps);
    if toks == [] {
      LexEnd(line);
      NoTokens(line, gaps);
    } else {
      var first, rest := Spelling(toks[0]) + gaps[0], toks[1..];
      var j := |before + first|;
      RenderFirst(before, toks, gaps);
      LexRender(before + first, rest, gaps[1..]);
      LexOne(line, |before|, toks[0], gaps[0]);
      SeparatedRest(toks, gaps);
      ConsSame(toks[0], Texts(line, Lex(line, j)), toks);
    }
  }

  lemma NoTokens(line: string, gaps: seq<string>)
    requires gaps == []
    ensures Render([], gaps) == "" && Texts(line, []) == [] && Separated([], gaps)
  {
  }

  lemma ConsSame<T>(x: T, xs: seq<T>, ys: seq<T>)
    requires |ys| > 0 && ys[0] == x
    ensures [x] + xs == ys <==> xs == ys[1..]
  {
    assert ys == [ys[0]] + ys[1..];
    assert xs == ([x] + xs)[1..];
  }

  /** A rendered text starts with its first token and gap; the next character is that of the second token. */
  lemma RenderFirst(before: string, toks: seq<Token<string>>, gaps: seq<string>)
    requires Gaps(toks, gaps) && toks != []
    ensures var line, first := before + Render(toks, gaps), Spelling(toks[0]) + gaps[0];
      var j := |before + first|;
      && line == (before + first) + Render(toks[1..], gaps[1..]) && line[|before|..j] == first
      && (|toks| == 1 <==> j == |line|)
      && (|toks| > 1 ==> (Extends(toks[0], line[j]) <==> NeedsGap(toks[0], toks[1])))
  {
    hide Extends;
    hide NeedsGap;
    hide Spelling;
    hide Spellable;
    var line, first := before + Render(toks, gaps), Spelling(toks[0]) + gaps[0];
    var rest := toks[1..];
    assert line == (before + first) + Render(rest, gaps[1..]);
    if rest != [] {
      GapNeeded(toks[0], rest[0]);
      assert Render(rest, gaps[1..])[0] == Spelling(rest[0])[0];
    }
  }

  lemma SeparatedRest(toks: seq<Token<string>>, gaps: seq<string>)
    requires |gaps| == |toks| > 0
    ensures Separated(toks, gaps) <==>
      Separated(toks[1..], gaps[1..]) && (|toks| > 1 && gaps[0] == "" ==> !NeedsGap(toks[0], toks[1]))
  {
    hide NeedsGap;
    var ts, gs := toks[1..], gaps[1..];
    if Separated(ts, gs) && (|toks| > 1 && gaps[0] == "" ==> !NeedsGap(toks[0], toks[1])) {
      forall i, j | 0 <= i < |toks| && j == i + 1 && j < |toks| && gaps[i] == "" ensures !NeedsGap(toks[i], toks[j]) {
        if i > 0 {
          assert ts[i - 1] == toks[i] && ts[j - 1] == toks[j] && gs[i - 1] == gaps[i];
        }
      }
    }
    if Separated(toks, gaps) {
      forall i, j | 0 <= i < |ts| && j == i + 1 && j < |ts| && gs[i] == "" ensures !NeedsGap(ts[i], ts[j]) {
        assert ts[i] == toks[i + 1] && ts[j] == toks[j + 1] && gs[i] == gaps[i + 1];
      }
    }
  }

  lemma LexEnd(line: string)
    ensures Lex(line, |line|) == []
  {
  }

  // ----- Words ended in place -----

  /** The C string at position q of a buffer. */
  function CString(buf: seq<char>, q: nat): string
    requires q <= |buf|
    decreases |buf| - q
  {
    if q == |buf| || buf[q] == NUL then "" else [buf[q]] + CString(buf, q + 1)
  }

  function Ends(c: Cmd<Range>): set<nat> {
    match c
    case Exec(args) => set i | 0 <= i < |args| :: args[i].1
    case Redirect(d, f, _) => Ends(d) + {f.1}
    case Pipe(l, r) => Ends(l) + Ends(r)
    case List(l, r) => Ends(l) + Ends(r)
    case Back(d) => Ends(d)
  }

  function WordsOf(c: Cmd<Range>): set<Range> {
    match c
    case Exec(args) => set i | 0 <= i < |args| :: args[i]
    case Redirect(d, f, _) => WordsOf(d) + {f}
    case Pipe(l, r) => WordsOf(l) + WordsOf(r)
    case List(l, r) => WordsOf(l) + WordsOf(r)
    case Back(d) => WordsOf(d)
  }

  /** The buffer b after a NUL was stored at each position of es. */
  predicate EndedAt(b: seq<char>, after: seq<char>, es: set<nat>) {
    |after| == |b| && forall i: nat :: i < |b| ==> after[i] == (if i in es then NUL else b[i])
  }

  lemma {:induction false} WordsAt(line: string, c: Cmd<Range>)
    requires CmdAt(line, c)
    ensures forall w :: w in WordsOf(c) ==> WordAt(line, w) && w.1 in Ends(c)
    ensures forall e :: e in Ends(c) ==> e <= |line| && (e < |line| ==> !IsWordChar(line[e]))
  {
    match c
    case Exec(args) =>
    case Redirect(d, f, _) => WordsAt(line, d);
    case Pipe(l, r) => WordsAt(line, l); WordsAt(line, r);
    case List(l, r) => WordsAt(line, l); WordsAt(line, r);
    case Back(d) => WordsAt(line, d);
  }

  lemma {:induction false} CStringIs(buf: seq<char>, q: nat, e: nat)
    requires q <= e < |buf| && buf[e] == NUL && NoNul(buf[q..e])
    ensures CString(buf, q) == buf[q..e]
    decreases e - q
  {
    if q < e {
      assert buf[q] == buf[q..e][0];
      assert buf[q + 1..e] == buf[q..e][1..];
      CStringIs(buf, q + 1, e);
      assert buf[q..e] == [buf[q]] + buf[q + 1..e];
    }
  }

  /** No NUL falls inside a word, so every word of the tree reads as its text. */
  lemma WordsEnded(line: string, b: seq<char>, after: seq<char>, c: Cmd<Range>, w: Range)
    requires |line| < |b| && b[..|line|] == line
    requires CmdAt(line, c) && EndedAt(b, after, Ends(c)) && w in WordsOf(c)
    ensures w.0 <= |after| && CString(after, w.0) == Text(line, w)
  {
    hide CString;
    WordsAt(line, c);
    assert after[w.1] == NUL;
    forall k | w.0 <= k < w.1
      ensures after[k] == line[k] && after[k] != NUL
    {
      assert line[k] == b[k];
      assert IsWordChar(line[k]) && k !in Ends(c);
    }
    assert after[w.0..w.1] == line[w.0..w.1];
    CStringIs(after, w.0, w.1);
  }

  method Nulterminate(buf: array<char>, c: Cmd<Range>)
    requires forall e :: e in Ends(c) ==> e < buf.Length
    modifies buf
    ensures EndedAt(old(buf[..]), buf[..], Ends(c))
    decreases c
  {
    match c
    case Exec(args) =>
      var i := 0;
      while i < |args|
        invariant 0 <= i <= |args|
        invariant EndedAt(old(buf[..]), buf[..], Ends(Exec(args[..i])))
      {
        assert args[i].1 in Ends(c);
        assert Ends(Exec(args[..i + 1])) == Ends(Exec(args[..i])) + {args[i].1};
        buf[args[i].1] := NUL;
        i := i + 1;
      }
      assert args[..i] == args;
    case Redirect(d, f, _) =>
      assert Ends(d) <= Ends(c) && f.1 in Ends(c);
      Nulterminate(buf, d);
      buf[f.1] := NUL;
    case Pipe(l, r) =>
      assert Ends(l) <= Ends(c) && Ends(r) <= Ends(c);
      Nulterminate(buf, l);
      Nulterminate(buf, r);
    case List(l, r) =>
      assert Ends(l) <= Ends(c) && Ends(r) <= Ends(c);
      Nulterminate(buf, l);
      Nulterminate(buf, r);
    case Back(d) =>
      assert Ends(d) <= Ends(c);
      Nulterminate(buf, d);
  }

  // ----- The parser -----

  /** The redirections at toks, added to those already read. */
  function RedirsFrom(rs: seq<(Range, bool)>, toks: seq<Token<Range>>): Parse<seq<(Range, bool)>, Range> {
    var p := Redirs(toks);
    if p.Panic? then Panic else Ok(rs + p.v, p.rest)
  }

  lemma RedirsStart(toks: seq<Token<Range>>)
    ensures RedirsFrom([], toks) == Redirs(toks)
  {
    var p := Redirs(toks);
    if p.Ok? {
      assert [] + p.v == p.v;
    }
  }

  lemma RedirsStep(rs: seq<(Range, bool)>, toks: seq<Token<Range>>)
    ensures Shows(toks, "<>") <==> toks != [] && IsRedir(toks[0])
    ensures !Shows(toks, "<>") ==> RedirsFrom(rs, toks) == Ok(rs, toks)
    ensures Shows(toks, "<>") && (|toks| < 2 || !toks[1].Word?) ==> RedirsFrom(rs, toks).Panic?
    ensures Shows(toks, "<>") && |toks| >= 2 && toks[1].Word? ==>
      RedirsFrom(rs, toks) == RedirsFrom(rs + [(toks[1].w, toks[0] != Sym('<'))], toks[2..])
  {
    var p := Redirs(toks);
    if !Shows(toks, "<>") {
      assert rs + [] == rs;
    } else if p.Ok? {
      var one, q := [(toks[1].w, toks[0] != Sym('<'))], Redirs(toks[2..]);
      assert rs + (one + q.v) == (rs + one) + q.v;
    }
  }

  class Parser {
    const buf: array<char>
    const es: nat
    var s: nat

    ghost predicate Valid()
      reads this, buf
    {
      s <= es < buf.Length && buf[es] == NUL && NoNul(buf[..es])
    }

    /** The tokens not read yet. */
    ghost function Toks(): seq<Token<Range>>
      requires Valid()
      reads this, buf
    {
      Lex(buf[..es], s)
    }

    ghost predicate Answers(r: Common.Option<Cmd<Range>>, p: Parse<Cmd<Range>, Range>)
      reads this, buf
    {
      Valid() && match p
        case Panic => r.None?
        case Ok(c, rest) => r == Common.Some(c) && Toks() == rest
    }

    constructor (buf: array<char>, es: nat)
      requires es < buf.Length && buf[es] == NUL && NoNul(buf[..es])
      ensures Valid() && this.buf == buf && this.es == es && s == 0
    {
      this.buf := buf;
      this.es := es;
      s := 0;
    }

    method SkipBlanks()
      requires Valid()
      modifies this`s
      ensures Valid() && s == Skip(buf[..es], old(s)) && Toks() == old(Toks())
    {
      ghost var line := buf[..es];
      while s < es && IsSpace(buf[s])
        invariant s <= es && Skip(line, s) == Skip(line, old(s))
        decreases es - s
      {
        s := s + 1;
      }
      LexSkip(line, old(s));
    }

    method Peek(cs: string) returns (r: bool)
      requires Valid() && forall i :: 0 <= i < |cs| ==> IsSymbol(cs[i])
      modifies this`s
      ensures Valid() && s == Skip(buf[..es], old(s)) && Toks() == old(Toks())
      ensures r == Shows(Toks(), cs)
      ensures s == es <==> Toks() == []
    {
      SkipBlanks();
      r := buf[s] != NUL && buf[s] in cs;
    }

    method Gettoken() returns (tok: char, q: nat, eq: nat)
      requires Valid()
      modifies this`s
      ensures Valid()
      ensures old(Toks()) == [] ==> tok == NUL && Toks() == []
      ensures old(Toks()) != [] ==>
        && Toks() == old(Toks())[1..] && tok == Code(old(Toks())[0]) && tok != NUL
        && (tok == 'a' <==> old(Toks())[0].Word?)
        && (old(Toks())[0].Word? ==> old(Toks())[0] == Word((q, eq)))
    {
      ghost var line := buf[..es];
      SkipBlanks();
      q := s;
      tok := buf[s];
      if tok == NUL {
      } else if tok == '>' {
        s := s + 1;
        if buf[s] == '>' {
          tok := '+';
          s := s + 1;
        }
      } else if IsSymbol(tok) {
        s := s + 1;
      } else {
        tok := 'a';
        while s < es && !IsSpace(buf[s]) && !IsSymbol(buf[s])
          invariant q <= s <= es && WordEnd(line, s) == WordEnd(line, q)
          decreases es - s
        {
          s := s + 1;
        }
      }
      eq := s;
      SkipBlanks();
    }

    /** The redirections at the cursor, in order. */
    method Parseredirs() returns (r: Common.Option<seq<(Range, bool)>>)
      requires Valid()
      modifies this`s
      ensures Valid()
      ensures match Redirs(old(Toks()))
        case Panic => r.None?
        case Ok(rs, rest) => r == Common.Some(rs) && Toks() == rest
    {
      hide Redirs;
      hide Lex;
      ghost var toks := Toks();
      var rs: seq<(Range, bool)> := [];
      RedirsStart(toks);
      var more := Peek("<>");
      while more
        invariant Valid() && more == Shows(Toks(), "<>")
        invariant RedirsFrom(rs, Toks()) == Redirs(toks)
        decreases |Toks()|
      {
        ghost var now := Toks();
        RedirsStep(rs, now);
        var tok, _, _ := Gettoken();
        var kind, q, eq := Gettoken();
        if kind != 'a' {
          return Common.None;
        }
        rs := rs + [((q, eq), tok != '<')];
        more := Peek("<>");
      }
      RedirsStep(rs, Toks());
      return Common.Some(rs);
    }

    method Parseexec() returns (r: Common.Option<Cmd<Range>>)
      requires Valid()
      modifies this`s
      ensures Answers(r, ExecCmd(old(Toks())))
      decreases |Toks()|, 1
    {
      ghost var toks := Toks();
      var block := Peek("(");
      if block {
        r := Parseblock();
        return;
      }
      var args: seq<Range> := [];
      var rs := Parseredirs();
      if rs.None? {
        return Common.None;
      }
      var ret := rs.value;
      var done := Peek("|)&;");
      while !done
        invariant Valid() && done == Shows(Toks(), "|)&;")
        invariant |args| < MAXARGS
        invariant ExecCmd(toks) == Args(Toks(), args, ret)
        decreases |Toks()|, !done
      {
        ghost var now := Toks();
        var tok, q, eq := Gettoken();
        if tok == NUL {
          break;
        }
        if tok != 'a' {
          return Common.None;
        }
        args := args + [(q, eq)];
        if |args| >= MAXARGS {
          return Common.None;
        }
        rs := Parseredirs();
        if rs.None? {
          return Common.None;
        }
        ret := ret + rs.value;
        done := Peek("|)&;");
      }
      return Common.Some(Wrap(Exec(args), ret));
    }

    method Parseblock() returns (r: Common.Option<Cmd<Range>>)
      requires Valid()
      modifies this`s
      ensures Valid() && (!StartsWith(old(Toks()), '(') ==> r.None?)
      ensures StartsWith(old(Toks()), '(') ==> Answers(r, Block(old(Toks())))
      decreases |Toks()|, 0
    {
      var open := Peek("(");
      if !open {
        return Common.None;
      }
      var _, _, _ := Gettoken();
      var c := Parseline();
      if c.None? {
        return Common.None;
      }
      var close := Peek(")");
      if !close {
        return Common.None;
      }
      var _, _, _ := Gettoken();
      var rs := Parseredirs();
      if rs.None? {
        return Common.None;
      }
      return Common.Some(Wrap(c.value, rs.value));
    }

    method Parsepipe() returns (r: Common.Option<Cmd<Range>>)
      requires Valid()
      modifies this`s
      ensures Answers(r, PipeCmd(old(Toks())))
      decreases |Toks()|, 2
    {
      r := Parseexec();
      if r.None? {
        return;
      }
      var bar := Peek("|");
      if bar {
        var _, _, _ := Gettoken();
        var right := Parsepipe();
        if right.None? {
          return Common.None;
        }
        r := Common.Some(Pipe(r.value, right.value));
      }
    }

    method Parseline() returns (r: Common.Option<Cmd<Range>>)
      requires Valid()
      modifies this`s
      ensures Answers(r, Line(old(Toks())))
      decreases |Toks()|, 3
    {
      ghost var toks := Toks();
      r := Parsepipe();
      if r.None? {
        return;
      }
      var c := r.value;
      ghost var p := PipeCmd(toks);
      var amp := Peek("&");
      while amp
        invariant Valid() && amp == Shows(Toks(), "&")
        invariant |Toks()| <= |toks| && Backs(p.v, p.rest) == Backs(c, Toks())
        decreases |Toks()|
      {
        var _, _, _ := Gettoken();
        c := Back(c);
        amp := Peek("&");
      }
      var semi := Peek(";");
      if semi {
        var _, _, _ := Gettoken();
        var right := Parseline();
        if right.None? {
          return Common.None;
        }
        c := List(c, right.value);
      }
      return Common.Some(c);
    }
  }

  /** parsecmd on the NUL-terminated line at the start of buf. */
  method Parsecmd(buf: array<char>) returns (r: Common.Option<Cmd<Range>>)
    requires NUL in buf[..]
    modifies buf
    ensures var line := CString(old(buf[..]), 0);
      match r
      case None => buf[..] == old(buf[..]) && forall c :: !Says(Texts(line, Lex(line, 0)), c)
      case Some(c) =>
        && Says(Texts(line, Lex(line, 0)), CmdText(line, c))
        && forall w :: w in WordsOf(c) ==> w.0 <= |buf[..]| && CString(buf[..], w.0) == Text(line, w)
  {
    var es := 0;
    while buf[es] != NUL
      invariant 0 <= es < buf.Length && NoNul(buf[..es]) && NUL in buf[es..]
      decreases buf.Length - es
    {
      assert buf[es..] == [buf[es]] + buf[es + 1..];
      es := es + 1;
    }
    ghost var line, b := buf[..es], buf[..];
    assert b[0..es] == line;
    CStringIs(b, 0, es);
    LexWords(line, 0);
    ghost var toks := Texts(line, Lex(line, 0));
    LineParse(line, Lex(line, 0));
    forall c
      ensures Says(toks, c) <==> Parsed(toks) == Ok(c, [])
    {
      ParsedExactly(toks, c);
    }
    hide Says;
    var parser := new Parser(buf, es);
    r := parser.Parseline();
    if r.None? {
      return;
    }
    var _ := parser.Peek("");
    if parser.s != es {
      return Common.None;
    }
    WordsAt(line, r.value);
    Nulterminate(buf, r.value);
    forall w | w in WordsOf(r.value)
      ensures w.0 <= |buf[..]| && CString(buf[..], w.0) == Text(line, w)
    {
      WordsEnded(line, b, buf[..], r.value, w);
    }
  }

  predicate Speakable(c: Cmd<string>) {
    match c
    case Exec(args) => forall i :: 0 <= i < |args| ==> Spellable(Word(args[i]))
    case Redirect(d, f, _) => Speakable(d) && Spellable(Word(f))
    case Pipe(l, r) => Speakable(l) && Speakable(r)
    case List(l, r) => Speakable(l) && Speakable(r)
    case Back(d) => Speakable(d)
  }

  predicate AllSpellable(toks: seq<Token<string>>) {
    forall i :: 0 <= i < |toks| ==> Spellable(toks[i])
  }

  lemma SpellableAppend(a: seq<Token<string>>, b: seq<Token<string>>)
    requires AllSpellable(a) && AllSpellable(b)
    ensures AllSpellable(a + b)
  {
  }

  lemma {:induction false} ItemsSpellable(c: Cmd<string>, items: seq<Item<string>>)
    requires Speakable(Applied(c, items)) && Speakable(Exec(ArgsOf(items)))
    ensures AllSpellable(ItemsText(items)) && Speakable(c)
    decreases |items|
  {
    if items != [] {
      var args := ArgsOf(items);
      match items[0] {
        case Arg(w) =>
          assert args[0] == w && args[1..] == ArgsOf(items[1..]);
          ItemsSpellable(c, items[1..]);
        case To(op, f) =>
          ItemsSpellable(Redirect(c, f, op != In), items[1..]);
      }
      SpellableAppend(ItemText(items[0]), ItemsText(items[1..]));
    }
  }

  lemma {:induction false} NoArgs(items: seq<Item<string>>)
    requires forall i :: 0 <= i < |items| ==> items[i].To?
    ensures ArgsOf(items) == []
  {
    if items != [] {
      NoArgs(items[1..]);
    }
  }

  lemma {:induction false} Applieds(c: Cmd<string>, items: seq<Item<string>>)
    requires Speakable(Applied(c, items))
    ensures Speakable(c)
    decreases |items|
  {
    if items != [] {
      Applieds(if items[0].Arg? then c else Redirect(c, items[0].file, items[0].op != In), items[1..]);
    }
  }

  /** A line whose tree can be spelt can be spelt. */
  lemma {:induction false} SimpleSpellable(s: Simple<string>)
    requires Speakable(SimpleTree(s))
    ensures AllSpellable(SimpleText(s))
    decreases s, 0
  {
    match s
    case Plain(items) =>
      Applieds(Exec(ArgsOf(items)), items);
      ItemsSpellable(Exec(ArgsOf(items)), items);
    case Group(line, redirs) =>
      NoArgs(Tos(redirs));
      ItemsSpellable(LineTree(line), Tos(redirs));
      LineSpellable(line);
  }

  lemma {:induction false} PipeSpellable(p: PipeSyn<string>)
    requires Speakable(PipeTree(p))
    ensures AllSpellable(PipeText(p))
    decreases p, 1
  {
    SimpleSpellable(p.s);
    if p.Bar? {
      PipeSpellable(p.p);
    }
  }

  lemma {:induction false} Backeds(c: Cmd<string>, n: nat)
    ensures Speakable(Backed(c, n)) == Speakable(c)
  {
    if n > 0 {
      Backeds(c, n - 1);
    }
  }

  lemma {:induction false} LineSpellable(l: LineSyn<string>)
    requires Speakable(LineTree(l))
    ensures AllSpellable(LineText(l))
    decreases l, 2
  {
    Backeds(PipeTree(l.p), l.amps);
    PipeSpellable(l.p);
    if l.Then? {
      LineSpellable(l.rest);
    }
  }

  /** A line written with any white space that keeps its tokens apart parses to its tree. */
  lemma ParseRendered(l: LineSyn<string>, gaps: seq<string>)
    requires LineFits(l) && Speakable(LineTree(l))
    requires |gaps| == |LineText(l)| && Separated(LineText(l), gaps) && forall i :: 0 <= i < |gaps| ==> Blank(gaps[i])
    ensures var line := Render(LineText(l), gaps);
      Parsed(Texts(line, Lex(line, 0))) == Ok(LineTree(l), [])
  {
    hide LineText;
    hide Lex;
    hide Line;
    LineSpellable(l);
    var toks := LineText(l);
    LexRender("", toks, gaps);
    assert "" + Render(toks, gaps) == Render(toks, gaps);
    LineParses(l, []);
    assert toks + [] == toks;
  }

  /** So does the shortest line that says a command. */
  lemma PrintRendered(c: Cmd<string>, gaps: seq<string>)
    requires Fits(c) && Speakable(c)
    requires |gaps| == |Print(c)| && Separated(Print(c), gaps) && forall i :: 0 <= i < |gaps| ==> Blank(gaps[i])
    ensures var line := Render(Print(c), gaps);
      Parsed(Texts(line, Lex(line, 0))) == Ok(c, [])
  {
    LineForm(c);
    ParseRendered(AsLine(c), gaps);
  }
}
