/**
 * The task parser: a Portuguese instruction becomes a `Task` (action, target
 * name, optional value) or is rejected.  The source's four regular expressions
 * are modelled as patterns over whitespace-separated words; each pattern is
 * matched with the regex engine's backtracking order (an optional phrase is
 * tried present first, a capture group is tried shortest first), and the four
 * groups are tried select, fill, click, enable.
 */
module Tasks {
  import opened Wrappers
  import opened Text

  datatype Action = Click | Fill | Select | Enable

  datatype Task = Task(action: Action, target: string, value: Option<string>)

  datatype ParseResult = Parsed(task: Task) | Unrecognized

  // ---------------------------------------------------------------
  // Words
  // ---------------------------------------------------------------

  /** A word of the instruction and the whitespace that follows it. */
  datatype Token = Token(word: string, gap: string)

  predicate WordOk(w: string) {
    w != [] && forall i :: 0 <= i < |w| ==> !IsSpace(w[i])
  }

  predicate TokensOk(ts: seq<Token>) {
    forall i :: 0 <= i < |ts| ==> WordOk(ts[i].word)
  }

  /** The longest prefix of `s` without whitespace. */
  function TakeWord(s: string): (w: string)
    ensures w <= s
    ensures forall i :: 0 <= i < |w| ==> !IsSpace(w[i])
    ensures s != [] && !IsSpace(s[0]) ==> w != []
  {
    if s != [] && !IsSpace(s[0]) then [s[0]] + TakeWord(s[1..]) else []
  }

  /** Splits a stripped instruction into words, keeping the whitespace between them. */
  function Tokenize(s: string): (ts: seq<Token>)
    requires s == [] || !IsSpace(s[0])
    ensures TokensOk(ts)
    ensures s != [] ==> ts != []
    decreases |s|
  {
    if s == [] then []
    else
      var w := TakeWord(s);
      var rest := s[|w|..];
      var next := TrimLeft(rest);
      [Token(w, rest[..|rest| - |next|])] + Tokenize(next)
  }

  /** The text a capture group covers: its words with the original whitespace between them. */
  function Join(ts: seq<Token>): (r: string)
    requires TokensOk(ts)
    ensures ts != [] ==> r != [] && NoOuterSpace(r)
  {
    if ts == [] then []
    else if |ts| == 1 then ts[0].word
    else
      var tail := Join(ts[1..]);
      var r := ts[0].word + ts[0].gap + tail;
      assert r[|r| - 1] == tail[|tail| - 1];
      r
  }

  // ---------------------------------------------------------------
  // Patterns
  // ---------------------------------------------------------------

  /** One element of a pattern: an optional or required phrase (alternatives in
      order, each a sequence of lower-case words), a lazy capture of one or more
      words, or a capture of all remaining words. */
  datatype Piece = Opt(alts: seq<seq<string>>) | Req(alts: seq<seq<string>>) | Group | Tail

  /** How many captures a pattern produces. */
  function Captures(ps: seq<Piece>): nat {
    if ps == [] then 0
    else (if ps[0].Group? || ps[0].Tail? then 1 else 0) + Captures(ps[1..])
  }

  /** The first words of `ts`, case-folded, spell `phrase`. */
  predicate IsPhrase(ts: seq<Token>, phrase: seq<string>) {
    |phrase| <= |ts| && forall j :: 0 <= j < |phrase| ==> LowerStr(ts[j].word) == phrase[j]
  }

  predicate CapturesOk(ps: seq<Piece>, ts: seq<Token>, c: seq<seq<Token>>) {
    && |c| == Captures(ps)
    && (forall i :: 0 <= i < |c| ==> c[i] != [])
    && (forall i, j :: 0 <= i < |c| && 0 <= j < |c[i]| ==> c[i][j] in ts)
  }

  /** Matches the whole of `ts` against `ps`; the captures in order, or None. */
  function Match(ps: seq<Piece>, ts: seq<Token>): (r: Option<seq<seq<Token>>>)
    ensures r.Some? ==> CapturesOk(ps, ts, r.value)
    decreases |ps|, 2, 0
  {
    if ps == [] then (if ts == [] then Some([]) else None)
    else match ps[0]
      case Opt(alts) => TryAlts(ps, alts, ts, true)
      case Req(alts) => TryAlts(ps, alts, ts, false)
      case Group => TryGroup(ps, ts, 1)
      case Tail =>
        if ts == [] then None
        else match Match(ps[1..], [])
          case None => None
          case Some(c) => Some([ts] + c)
  }

  /** Tries the alternatives of `ps[0]` in order, then (if optional) its absence. */
  function TryAlts(ps: seq<Piece>, alts: seq<seq<string>>, ts: seq<Token>, optional: bool): (r: Option<seq<seq<Token>>>)
    requires ps != [] && !ps[0].Group? && !ps[0].Tail?
    ensures r.Some? ==> CapturesOk(ps, ts, r.value)
    decreases |ps|, 1, |alts|
  {
    if alts == [] then (if optional then Match(ps[1..], ts) else None)
    else if IsPhrase(ts, alts[0]) then
      match Match(ps[1..], ts[|alts[0]|..])
        case Some(c) => Some(c)
        case None => TryAlts(ps, alts[1..], ts, optional)
    else TryAlts(ps, alts[1..], ts, optional)
  }

  /** Tries the capture `ps[0]` with `k`, `k + 1`, ... words. */
  function TryGroup(ps: seq<Piece>, ts: seq<Token>, k: nat): (r: Option<seq<seq<Token>>>)
    requires ps != [] && ps[0].Group? && 1 <= k <= |ts| + 1
    ensures r.Some? ==> CapturesOk(ps, ts, r.value)
    decreases |ps|, 1, |ts| + 1 - k
  {
    if k > |ts| then None
    else match Match(ps[1..], ts[k..])
      case Some(c) => Some([ts[..k]] + c)
      case None => TryGroup(ps, ts, k + 1)
  }

  // ---------------------------------------------------------------
  // The four pattern groups
  // ---------------------------------------------------------------

  function Verbs(a: Action): seq<seq<string>> {
    match a
    case Select => [["seleciono"], ["selecione"], ["selecionar"]]
    case Fill => [["preencho"], ["preencha"], ["preenche"], ["preencher"], ["digito"], ["digite"], ["digitar"]]
    case Click => [["clico"], ["clique"], ["clicar"], ["pressiono"], ["aperte"], ["aperto"]]
    case Enable => [["habilito"], ["habilite"], ["habilitar"], ["ativo"], ["ative"], ["ativar"], ["marco"], ["marque"]]
  }

  const Subject: Piece := Opt([["eu"]])
  const Article: Piece := Opt([["o"], ["a"]])
  const Separator: Piece := Req([["com"], ["="]])
  const ValueLead: Piece := Opt([["o", "valor"]])

  /** The one pattern of each group, in the source's element order. */
  function Pattern(a: Action): seq<Piece> {
    match a
    case Select =>
      [Subject, Req(Verbs(Select)), Article, Opt([["campo"], ["select"], ["lista"], ["combobox"]]),
       Group, Separator, ValueLead, Tail]
    case Fill =>
      [Subject, Req(Verbs(Fill)), Article, Opt([["campo"], ["input"], ["caixa"], ["textarea"]]),
       Group, Separator, ValueLead, Tail]
    case Click =>
      [Subject, Req(Verbs(Click)), Req([["no"], ["na"], ["em"]]), Opt([["botao"], ["botão"], ["link"]]), Tail]
    case Enable =>
      [Subject, Req(Verbs(Enable)), Article,
       Opt([["campo"], ["opcao"], ["opção"], ["opçao"], ["opcão"], ["checkbox"], ["caixa"]]), Tail]
  }

  function Words(text: string): (ts: seq<Token>)
    ensures TokensOk(ts)
  {
    Tokenize(Strip(text))
  }

  /** Builds the task from the captures of group `a`: target, then value for select and fill. */
  function TaskOf(a: Action, c: seq<seq<Token>>): (t: Task)
    requires |c| == if a in {Select, Fill} then 2 else 1
    requires forall i :: 0 <= i < |c| ==> c[i] != [] && TokensOk(c[i])
    ensures t.action == a
    ensures IsNormal(t.target) && t.target != []
    ensures t.value.Some? <==> a in {Select, Fill}
    ensures t.value.Some? ==> t.value.value != [] && NoOuterSpace(t.value.value)
  {
    NormNonEmpty(Join(c[0]));
    NormIsNormal(Join(c[0]));
    if a in {Select, Fill} then Task(a, Norm(Join(c[0])), Some(Strip(Join(c[1]))))
    else Task(a, Norm(Join(c[0])), None)
  }

  /** The captures of a successful match of group `a`, in the shape `TaskOf` needs. */
  lemma MatchShape(a: Action, ts: seq<Token>)
    requires TokensOk(ts) && Match(Pattern(a), ts).Some?
    ensures var c := Match(Pattern(a), ts).value;
      && |c| == (if a in {Select, Fill} then 2 else 1)
      && forall i :: 0 <= i < |c| ==> c[i] != [] && TokensOk(c[i])
  {
    PatternCaptures(a);
    var c := Match(Pattern(a), ts).value;
    forall i | 0 <= i < |c| ensures TokensOk(c[i]) {
      forall j | 0 <= j < |c[i]| ensures WordOk(c[i][j].word) {
        assert c[i][j] in ts;
      }
    }
  }

  /** Matches group `a` and builds its task. */
  function TryGroupOf(a: Action, ts: seq<Token>): (r: Option<Task>)
    requires TokensOk(ts)
    ensures r.Some? <==> Match(Pattern(a), ts).Some?
    ensures r.Some? ==> r.value.action == a && IsNormal(r.value.target) && r.value.target != []
    ensures r.Some? ==> (r.value.value.Some? <==> a in {Select, Fill})
    ensures r.Some? && r.value.value.Some? ==> r.value.value.value != [] && NoOuterSpace(r.value.value.value)
  {
    match Match(Pattern(a), ts)
    case None => None
    case Some(c) =>
      MatchShape(a, ts);
      Some(TaskOf(a, c))
  }

  /** `parse_task`: the first group whose pattern matches decides the task. */
  function ParseTask(text: string): (r: ParseResult)
    ensures r.Parsed? ==> IsNormal(r.task.target) && r.task.target != []
    ensures r.Parsed? ==> (r.task.value.Some? <==> r.task.action in {Select, Fill})
    ensures r.Parsed? && r.task.value.Some? ==> r.task.value.value != [] && NoOuterSpace(r.task.value.value)
  {
    var ts := Words(text);
    match TryGroupOf(Select, ts)
    case Some(t) => Parsed(t)
    case None =>
      match TryGroupOf(Fill, ts)
      case Some(t) => Parsed(t)
      case None =>
        match TryGroupOf(Click, ts)
        case Some(t) => Parsed(t)
        case None =>
          match TryGroupOf(Enable, ts)
          case Some(t) => Parsed(t)
          case None => Unrecognized
  }

  lemma PatternCaptures(a: Action)
    ensures Captures(Pattern(a)) == if a in {Select, Fill} then 2 else 1
  {
    var p := Pattern(a);
    if a in {Select, Fill} {
      CapturesTwo(p[0], p[1], p[2], p[3], p[5], p[6], p);
    } else {
      CapturesOne(p[0], p[1], p[2], p[3], p);
    }
  }

  /** The shape of the click and enable patterns: four fixed pieces, then the tail. */
  lemma CapturesOne(x0: Piece, x1: Piece, x2: Piece, x3: Piece, p: seq<Piece>)
    requires !x0.Group? && !x0.Tail? && !x1.Group? && !x1.Tail? && !x2.Group? && !x2.Tail? && !x3.Group? && !x3.Tail?
    requires p == [x0, x1, x2, x3, Tail]
    ensures Captures(p) == 1
  {
    assert Captures(p[4..]) == 1;
    assert Captures(p[2..]) == 1;
    assert p[0..] == p;
  }

  /** The shape of the select and fill patterns: four fixed pieces, the field group, two more, then the tail. */
  lemma CapturesTwo(x0: Piece, x1: Piece, x2: Piece, x3: Piece, x5: Piece, x6: Piece, p: seq<Piece>)
    requires !x0.Group? && !x0.Tail? && !x1.Group? && !x1.Tail? && !x2.Group? && !x2.Tail? && !x3.Group? && !x3.Tail?
    requires !x5.Group? && !x5.Tail? && !x6.Group? && !x6.Tail?
    requires p == [x0, x1, x2, x3, Group, x5, x6, Tail]
    ensures Captures(p) == 2
  {
    assert Captures(p[7..]) == 1;
    assert Captures(p[5..]) == 1;
    assert Captures(p[4..]) == 2;
    assert Captures(p[2..]) == 2;
    assert p[0..] == p;
  }

  lemma NormNonEmpty(s: string)
    requires s != [] && NoOuterSpace(s)
    ensures Norm(s) != []
  {
    CollapseEnds(LowerStr(Strip(s)));
  }

  // ---------------------------------------------------------------
  // Group precedence
  // ---------------------------------------------------------------

  /** A required phrase matches only if one of its alternatives starts the words. */
  lemma {:induction false} ReqHead(ps: seq<Piece>, alts: seq<seq<string>>, ts: seq<Token>)
    requires ps != [] && !ps[0].Group? && !ps[0].Tail?
    requires TryAlts(ps, alts, ts, false).Some?
    ensures exists k :: 0 <= k < |alts| && IsPhrase(ts, alts[k])
    decreases |alts|
  {
    if !IsPhrase(ts, alts[0]) || Match(ps[1..], ts[|alts[0]|..]).None? {
      ReqHead(ps, alts[1..], ts);
      var k :| 0 <= k < |alts[1..]| && IsPhrase(ts, alts[1..][k]);
      assert IsPhrase(ts, alts[k + 1]);
    }
  }

  predicate IsVerb(a: Action, w: string) {
    [w] in Verbs(a)
  }

  /** The verb of group `a` is the first word, or the second after `eu`. */
  predicate StartsWithVerb(a: Action, ts: seq<Token>) {
    && ts != []
    && (|| IsVerb(a, LowerStr(ts[0].word))
        || (LowerStr(ts[0].word) == "eu" && |ts| >= 2 && IsVerb(a, LowerStr(ts[1].word))))
  }

  lemma VerbsDisjoint(a: Action, b: Action, w: string)
    requires IsVerb(a, w) && IsVerb(b, w)
    ensures a == b && w != "eu"
  {
  }

  lemma VerbLeads(a: Action, ts: seq<Token>)
    requires Match(Pattern(a), ts).Some?
    ensures StartsWithVerb(a, ts)
  {
    HeadLeads(Pattern(a), Verbs(a), ts);
  }

  /** A pattern opening with an optional `eu` and a required one-word verb matches only
      words that open with that verb, or with `eu` and then the verb. */
  lemma HeadLeads(p: seq<Piece>, v: seq<seq<string>>, ts: seq<Token>)
    requires |p| >= 2 && p[0] == Subject && p[1] == Req(v)
    requires forall k :: 0 <= k < |v| ==> |v[k]| == 1
    requires Match(p, ts).Some?
    ensures ts != []
    ensures || [LowerStr(ts[0].word)] in v
            || (LowerStr(ts[0].word) == "eu" && |ts| >= 2 && [LowerStr(ts[1].word)] in v)
  {
    assert Match(p, ts) == TryAlts(p, [["eu"]], ts, true);
    if IsPhrase(ts, ["eu"]) && Match(p[1..], ts[1..]).Some? {
      assert Match(p[1..], ts[1..]) == TryAlts(p[1..], v, ts[1..], false);
      ReqHead(p[1..], v, ts[1..]);
      var k :| 0 <= k < |v| && IsPhrase(ts[1..], v[k]);
      assert v[k] == [LowerStr(ts[1].word)];
    } else {
      assert TryAlts(p, [["eu"]][1..], ts, true) == Match(p[1..], ts);
      assert Match(p[1..], ts) == TryAlts(p[1..], v, ts, false);
      ReqHead(p[1..], v, ts);
      var k :| 0 <= k < |v| && IsPhrase(ts, v[k]);
      assert v[k] == [LowerStr(ts[0].word)];
    }
  }

  /** No instruction matches two groups: the verb lists are disjoint and none contains `eu`. */
  lemma GroupsExclusive(a: Action, b: Action, ts: seq<Token>)
    requires Match(Pattern(a), ts).Some? && Match(Pattern(b), ts).Some?
    ensures a == b
  {
    VerbLeads(a, ts);
    VerbLeads(b, ts);
    var w0 := LowerStr(ts[0].word);
    if IsVerb(a, w0) && IsVerb(b, w0) {
      VerbsDisjoint(a, b, w0);
    } else if IsVerb(a, w0) {
      VerbsDisjoint(a, a, w0);
    } else if IsVerb(b, w0) {
      VerbsDisjoint(b, b, w0);
    } else {
      VerbsDisjoint(a, b, LowerStr(ts[1].word));
    }
  }

  /** `parse_task` yields an `a` task exactly when the instruction matches group `a`'s pattern. */
  lemma ParseTaskAction(text: string, a: Action)
    ensures ParseTask(text).Parsed? && ParseTask(text).task.action == a
        <==> Match(Pattern(a), Words(text)).Some?
  {
    var ts := Words(text);
    ParsedByGroup(text);
    if Match(Pattern(a), ts).Some? {
      forall b | b != a ensures TryGroupOf(b, ts).None? {
        if Match(Pattern(b), ts).Some? { GroupsExclusive(a, b, ts); }
      }
      assert ParseTask(text) == Parsed(TryGroupOf(a, ts).value);
    }
  }

  /** A parsed task is the one its own group's pattern produced. */
  lemma ParsedByGroup(text: string)
    ensures ParseTask(text).Parsed? ==>
      TryGroupOf(ParseTask(text).task.action, Words(text)) == Some(ParseTask(text).task)
  {
  }

  /** An instruction that matches no group is rejected rather than turned into a task. */
  lemma ParseTaskRejects(text: string)
    ensures ParseTask(text).Unrecognized?
        <==> forall a: Action :: Match(Pattern(a), Words(text)).None?
  {
    var r := ParseTask(text);
    if r.Parsed? {
      ParseTaskAction(text, r.task.action);
    } else {
      forall a: Action ensures Match(Pattern(a), Words(text)).None? {
        assert TryGroupOf(a, Words(text)).None?;
      }
    }
  }

  // ---------------------------------------------------------------
  // Whole-word keywords on `seleciono Ano com 2020`
  // ---------------------------------------------------------------

  /** A select instruction whose field name opens with the letter of an article. */
  const YearInstruction: string := "seleciono Ano com 2020"

  /** `TakeWord` stops at the first whitespace. */
  lemma {:induction false} TakeWordOf(w: string, rest: string)
    requires forall i :: 0 <= i < |w| ==> !IsSpace(w[i])
    requires rest == [] || IsSpace(rest[0])
    ensures TakeWord(w + rest) == w
    decreases |w|
  {
    if w != [] {
      assert (w + rest)[1..] == w[1..] + rest;
      TakeWordOf(w[1..], rest);
      assert [w[0]] + w[1..] == w;
    } else {
      assert w + rest == rest;
    }
  }

  /** `TrimLeft` drops a run of whitespace and nothing more. */
  lemma {:induction false} TrimLeftOf(g: string, rest: string)
    requires forall i :: 0 <= i < |g| ==> IsSpace(g[i])
    requires rest == [] || !IsSpace(rest[0])
    ensures TrimLeft(g + rest) == rest
    decreases |g|
  {
    if g != [] {
      assert (g + rest)[1..] == g[1..] + rest;
      TrimLeftOf(g[1..], rest);
    } else {
      assert g + rest == rest;
    }
  }

  /** A word followed by whitespace becomes one token carrying that whitespace. */
  lemma TokenizeStep(w: string, g: string, rest: string)
    requires WordOk(w) && g != [] && forall i :: 0 <= i < |g| ==> IsSpace(g[i])
    requires rest == [] || !IsSpace(rest[0])
    ensures (w + g + rest)[0] == w[0]
    ensures Tokenize(w + g + rest) == [Token(w, g)] + Tokenize(rest)
  {
    var s := w + g + rest;
    assert s == w + (g + rest);
    TakeWordOf(w, g + rest);
    assert s[|w|..] == g + rest;
    TrimLeftOf(g, rest);
    assert (g + rest)[..|g + rest| - |rest|] == g;
  }

  /** The last word becomes a token with no whitespace after it. */
  lemma TokenizeLast(w: string)
    requires WordOk(w)
    ensures Tokenize(w) == [Token(w, [])]
  {
    TakeWordOf(w, []);
    assert w + [] == w;
    assert w[|w|..] == [];
  }

  lemma YearWordsOk()
    ensures WordOk("seleciono") && WordOk("Ano") && WordOk("com") && WordOk("2020")
  {
  }

  lemma YearSplit()
    ensures YearInstruction == "seleciono" + " " + ("Ano" + " " + ("com" + " " + "2020"))
    ensures NoOuterSpace(YearInstruction)
  {
  }

  /** A word followed by one space, then more words. */
  lemma TokenizeSpace(w: string, rest: string)
    requires WordOk(w) && (rest == [] || !IsSpace(rest[0]))
    ensures (w + " " + rest) != [] && !IsSpace((w + " " + rest)[0])
    ensures Tokenize(w + " " + rest) == [Token(w, " ")] + Tokenize(rest)
  {
    TokenizeStep(w, " ", rest);
  }

  /** Two words separated by a single space become two tokens. */
  lemma TwoWords(c: string, d: string)
    requires WordOk(c) && WordOk(d)
    ensures c + " " + d != [] && !IsSpace((c + " " + d)[0])
    ensures Tokenize(c + " " + d) == [Token(c, " "), Token(d, "")]
  {
    TokenizeLast(d);
    TokenizeSpace(c, d);
  }

  /** Three words separated by single spaces become three tokens. */
  lemma ThreeWords(b: string, c: string, d: string)
    requires WordOk(b) && WordOk(c) && WordOk(d)
    ensures b + " " + (c + " " + d) != [] && !IsSpace((b + " " + (c + " " + d))[0])
    ensures Tokenize(b + " " + (c + " " + d)) == [Token(b, " "), Token(c, " "), Token(d, "")]
  {
    TwoWords(c, d);
    TokenizeSpace(b, c + " " + d);
  }

  lemma ConsFour<T>(x0: T, x1: T, x2: T, x3: T)
    ensures [x0] + [x1, x2, x3] == [x0, x1, x2, x3]
  {
  }

  /** Four words separated by single spaces become four tokens. */
  lemma FourWords(a: string, b: string, c: string, d: string)
    requires WordOk(a) && WordOk(b) && WordOk(c) && WordOk(d)
    ensures Tokenize(a + " " + (b + " " + (c + " " + d))) == [Token(a, " "), Token(b, " "), Token(c, " "), Token(d, "")]
  {
    var rest := b + " " + (c + " " + d);
    ThreeWords(b, c, d);
    TokenizeSpace(a, rest);
    ConsFour(Token(a, " "), Token(b, " "), Token(c, " "), Token(d, ""));
  }

  /** The instruction splits into four words, one space after each of the first three. */
  lemma YearWords()
    ensures Words(YearInstruction) == [Token("seleciono", " "), Token("Ano", " "), Token("com", " "), Token("2020", "")]
  {
    YearSplit();
    YearWordsOk();
    FourWords("seleciono", "Ano", "com", "2020");
  }

  lemma LowerWord(w: string)
    requires forall i :: 0 <= i < |w| ==> 'a' <= w[i] <= 'z'
    ensures LowerStr(w) == w
  {
  }

  /** An optional phrase none of whose alternatives starts the words is skipped. */
  lemma {:induction false} KeywordsAbsent(ps: seq<Piece>, alts: seq<seq<string>>, ts: seq<Token>)
    requires ps != [] && !ps[0].Group? && !ps[0].Tail?
    requires forall i :: 0 <= i < |alts| ==> !IsPhrase(ts, alts[i])
    ensures TryAlts(ps, alts, ts, true) == Match(ps[1..], ts)
    decreases |alts|
  {
    if alts != [] {
      KeywordsAbsent(ps, alts[1..], ts);
    }
  }

  /** After the separator nothing but the value is left: `o valor` is absent. */
  lemma IntendedTail(t3: Token)
    ensures Match([ValueLead, Tail], [t3]) == Some([[t3]])
  {
    var p := [ValueLead, Tail];
    assert p[1..] == [Tail] && [Tail][1..] == [];
    assert Match([], []) == Some([]);
    assert Match([Tail], [t3]) == Some([[t3]] + []);
    assert [[t3]] + [] == [[t3]];
    assert !IsPhrase([t3], ["o", "valor"]);
    KeywordsAbsent(p, [["o", "valor"]], [t3]);
    assert Match(p, [t3]) == TryAlts(p, [["o", "valor"]], [t3], true);
  }

  /** From the separator on: `com`, then the value. */
  lemma IntendedValue(t2: Token, t3: Token)
    requires LowerStr(t2.word) == "com"
    ensures Match([Separator, ValueLead, Tail], [t2, t3]) == Some([[t3]])
  {
    var p := [Separator, ValueLead, Tail];
    var ts := [t2, t3];
    IntendedTail(t3);
    assert p[1..] == [ValueLead, Tail] && ts[|["com"]|..] == [t3];
    assert IsPhrase(ts, ["com"]);
    assert TryAlts(p, [["com"], ["="]], ts, false) == Some([[t3]]);
  }

  /** The target is one word: the separator follows it at once. */
  lemma IntendedGroup(t1: Token, t2: Token, t3: Token)
    requires LowerStr(t2.word) == "com"
    ensures Match([Group, Separator, ValueLead, Tail], [t1, t2, t3]) == Some([[t1], [t3]])
  {
    var g := [Group, Separator, ValueLead, Tail];
    var ts := [t1, t2, t3];
    IntendedValue(t2, t3);
    assert g[1..] == [Separator, ValueLead, Tail] && ts[1..] == [t2, t3] && ts[..1] == [t1];
    assert Match(g[1..], ts[1..]) == Some([[t3]]);
    assert TryGroup(g, ts, 1) == Some([ts[..1]] + [[t3]]);
    assert Match(g, ts) == TryGroup(g, ts, 1);
    assert [ts[..1]] + [[t3]] == [[t1], [t3]];
  }

  /** From the field on: no article and no kind, since `Ano` is neither. */
  lemma IntendedField(t1: Token, t2: Token, t3: Token)
    requires |LowerStr(t1.word)| == 3 && LowerStr(t2.word) == "com"
    ensures Match([Article, Opt([["campo"], ["select"], ["lista"], ["combobox"]]), Group, Separator, ValueLead, Tail],
                  [t1, t2, t3]) == Some([[t1], [t3]])
  {
    var g := [Group, Separator, ValueLead, Tail];
    var ts := [t1, t2, t3];
    IntendedGroup(t1, t2, t3);
    var kinds := [["campo"], ["select"], ["lista"], ["combobox"]];
    var k := [Opt(kinds)] + g;
    assert k[1..] == g;
    forall i | 0 <= i < |kinds| ensures !IsPhrase(ts, kinds[i]) {
      assert |kinds[i][0]| != 3;
    }
    KeywordsAbsent(k, kinds, ts);
    var a := [Article] + k;
    assert a == [Article, Opt(kinds), Group, Separator, ValueLead, Tail] && a[1..] == k;
    assert |LowerStr(ts[0].word)| != |"o"| && |LowerStr(ts[0].word)| != |"a"|;
    KeywordsAbsent(a, [["o"], ["a"]], ts);
  }

  /** With whole-word keywords the instruction selects `2020` in the field `ano`. */
  lemma IntendedMatch(t0: Token, t1: Token, t2: Token, t3: Token)
    requires LowerStr(t0.word) == "seleciono" && |LowerStr(t1.word)| == 3 && LowerStr(t2.word) == "com"
    ensures Match(Pattern(Select), [t0, t1, t2, t3]) == Some([[t1], [t3]])
  {
    var ts := [t0, t1, t2, t3];
    IntendedField(t1, t2, t3);
    var p := Pattern(Select);
    var f := [Article, Opt([["campo"], ["select"], ["lista"], ["combobox"]]), Group, Separator, ValueLead, Tail];
    assert p[1..][1..] == f && ts[1..] == [t1, t2, t3];
    assert IsPhrase(ts, ["seleciono"]);
    assert TryAlts(p[1..], Verbs(Select), ts, false) == Some([[t1], [t3]]);
    assert LowerStr(ts[0].word) != ["eu"][0];
    KeywordsAbsent(p, [["eu"]], ts);
  }

  lemma NormAno()
    ensures Norm("Ano") == "ano"
  {
    PlainWordNormal("ano");
    assert LowerStr("Ano") == "ano" && LowerStr("ano") == "ano";
  }

  lemma YearWordsLower()
    ensures LowerStr("seleciono") == "seleciono" && LowerStr("com") == "com" && |LowerStr("Ano")| == 3
  {
    LowerWord("seleciono");
    LowerWord("com");
  }

  lemma YearIntendedMatch()
    ensures Match(Pattern(Select), Words(YearInstruction)) == Some([[Token("Ano", " ")], [Token("2020", "")]])
  {
    YearWords();
    YearWordsLower();
    IntendedMatch(Token("seleciono", " "), Token("Ano", " "), Token("com", " "), Token("2020", ""));
  }

  lemma YearIntendedTask()
    ensures TaskOf(Select, [[Token("Ano", " ")], [Token("2020", "")]]) == Task(Select, "ano", Some("2020"))
  {
    NormAno();
    assert Join([Token("Ano", " ")]) == "Ano" && Join([Token("2020", "")]) == "2020";
    assert Strip("2020") == "2020";
  }

  /**
   * `seleciono Ano com 2020` selects `2020` in the field `ano`: an article or
   * a field kind is a whole word, so the target keeps every letter of its word.
   */
  lemma SelectYearIntended()
    ensures ParseTask(YearInstruction) == Parsed(Task(Select, "ano", Some("2020")))
  {
    var ts := Words(YearInstruction);
    YearIntendedMatch();
    YearIntendedTask();
    assert TryGroupOf(Select, ts) == Some(Task(Select, "ano", Some("2020")));
  }
}
