/**
 * The four task patterns exactly as the source writes them, matched character
 * by character in the order Python's regex engine backtracks: alternatives
 * left to right, an optional group present first, `\s*` and `\s+` longest
 * first, the lazy capture `(.+?)` shortest first.  Matching is anchored at the
 * start (`pattern.match`) and the pattern's `$` accepts the end of the text or
 * a final newline.  Letters compare case-insensitively (`re.I`).
 *
 * This is the parser as written; `Tasks.ParseTask` is the parser as intended,
 * where every keyword is a whole word.  They differ because each optional
 * keyword group is followed by `\s*` rather than `\s+`, so it can take the
 * first letters of the target: see `SelectYearAsWritten`.
 */
module TaskRegex {
  import opened Wrappers
  import opened Text
  import opened Tasks

  /** A pattern element that an optional group may hold. */
  datatype Atom =
    | Lit(alts: seq<string>)   // `(?:a|b|...)`: lower-case alternatives, tried in order
    | Ws(min: nat)             // `\s*` (min 0) or `\s+` (min 1), greedy

  /** A pattern element: an atom, an optional group `(?:...)?`, or the lazy capture `(.+?)`. */
  datatype Rx = Fixed(atom: Atom) | Maybe(body: seq<Atom>) | Lazy

  function Lift(body: seq<Atom>): (r: seq<Rx>)
    ensures |r| == |body| && forall i :: 0 <= i < |r| ==> r[i] == Fixed(body[i])
  {
    if body == [] then [] else [Fixed(body[0])] + Lift(body[1..])
  }

  /** The termination measure: an optional group counts its body and itself. */
  function Size(ps: seq<Rx>): nat {
    if ps == [] then 0
    else (if ps[0].Maybe? then 1 + |ps[0].body| else 1) + Size(ps[1..])
  }

  /** How many captures a successful match yields. */
  function Captures(ps: seq<Rx>): nat {
    if ps == [] then 0
    else (if ps[0].Lazy? then 1 else 0) + Captures(ps[1..])
  }

  lemma {:induction false} LiftSize(body: seq<Atom>, rest: seq<Rx>)
    ensures Size(Lift(body) + rest) == |body| + Size(rest)
    ensures Captures(Lift(body) + rest) == Captures(rest)
  {
    if body != [] {
      LiftSize(body[1..], rest);
      var x := Lift(body) + rest;
      assert x[0] == Fixed(body[0]) && x[1..] == Lift(body[1..]) + rest;
    } else {
      assert Lift(body) + rest == rest;
    }
  }

  /** `$`: the end of the text, or a newline that ends it. */
  predicate AtEnd(s: string, pos: nat) {
    pos == |s| || (pos + 1 == |s| && s[pos] == '\n')
  }

  /** The word `w` starts at `pos`, ignoring case. */
  predicate LitAt(s: string, pos: nat, w: string) {
    pos + |w| <= |s| && forall j :: 0 <= j < |w| ==> Lower(s[pos + j]) == w[j]
  }

  /** The length of the run of whitespace starting at `pos`. */
  function SpaceRun(s: string, pos: nat): (k: nat)
    requires pos <= |s|
    ensures pos + k <= |s|
    ensures forall j :: pos <= j < pos + k ==> IsSpace(s[j])
    ensures pos + k == |s| || !IsSpace(s[pos + k])
    decreases |s| - pos
  {
    if pos < |s| && IsSpace(s[pos]) then 1 + SpaceRun(s, pos + 1) else 0
  }

  /** Matches `s[pos..]` against `ps`; the captured texts in order, or None. */
  function Match(ps: seq<Rx>, s: string, pos: nat): (r: Option<seq<string>>)
    requires pos <= |s|
    ensures r.Some? ==> |r.value| == Captures(ps)
    ensures r.Some? ==> forall i :: 0 <= i < |r.value| ==> r.value[i] != [] && '\n' !in r.value[i]
    decreases Size(ps), 2, 0
  {
    if ps == [] then (if AtEnd(s, pos) then Some([]) else None)
    else match ps[0]
      case Maybe(body) =>
        LiftSize(body, ps[1..]);
        (match Match(Lift(body) + ps[1..], s, pos)
         case Some(c) => Some(c)
         case None => Match(ps[1..], s, pos))
      case Fixed(Lit(alts)) => TryLit(ps, alts, s, pos)
      case Fixed(Ws(m)) =>
        var run := SpaceRun(s, pos);
        if run < m then None else TryWs(ps, s, pos, run, m)
      case Lazy => TryLazy(ps, s, pos, 1)
  }

  /** Tries the alternatives of the literal `ps[0]` in order. */
  function TryLit(ps: seq<Rx>, alts: seq<string>, s: string, pos: nat): (r: Option<seq<string>>)
    requires ps != [] && ps[0].Fixed? && pos <= |s|
    ensures r.Some? ==> |r.value| == Captures(ps)
    ensures r.Some? ==> forall i :: 0 <= i < |r.value| ==> r.value[i] != [] && '\n' !in r.value[i]
    decreases Size(ps), 1, |alts|
  {
    if alts == [] then None
    else if LitAt(s, pos, alts[0]) then
      match Match(ps[1..], s, pos + |alts[0]|)
      case Some(c) => Some(c)
      case None => TryLit(ps, alts[1..], s, pos)
    else TryLit(ps, alts[1..], s, pos)
  }

  /** Tries the whitespace `ps[0]` with `k`, `k - 1`, ..., `m` characters. */
  function TryWs(ps: seq<Rx>, s: string, pos: nat, k: nat, m: nat): (r: Option<seq<string>>)
    requires ps != [] && ps[0].Fixed? && pos + k <= |s| && m <= k
    ensures r.Some? ==> |r.value| == Captures(ps)
    ensures r.Some? ==> forall i :: 0 <= i < |r.value| ==> r.value[i] != [] && '\n' !in r.value[i]
    decreases Size(ps), 1, k
  {
    match Match(ps[1..], s, pos + k)
    case Some(c) => Some(c)
    case None => if k == m then None else TryWs(ps, s, pos, k - 1, m)
  }

  /** Tries the lazy capture `ps[0]` with `k`, `k + 1`, ... characters, none of them a newline. */
  function TryLazy(ps: seq<Rx>, s: string, pos: nat, k: nat): (r: Option<seq<string>>)
    requires ps != [] && ps[0].Lazy? && pos <= |s| && 1 <= k && pos + k <= |s| + 1
    requires forall j :: pos <= j < pos + k - 1 ==> s[j] != '\n'
    ensures r.Some? ==> |r.value| == Captures(ps)
    ensures r.Some? ==> forall i :: 0 <= i < |r.value| ==> r.value[i] != [] && '\n' !in r.value[i]
    decreases Size(ps), 1, |s| + 1 - pos - k
  {
    if pos + k > |s| || s[pos + k - 1] == '\n' then None
    else
      match Match(ps[1..], s, pos + k)
      case Some(c) =>
        NoNewline(s, pos, k);
        Some([s[pos..pos + k]] + c)
      case None => TryLazy(ps, s, pos, k + 1)
  }

  lemma NoNewline(s: string, pos: nat, k: nat)
    requires pos + k <= |s| && forall j :: pos <= j < pos + k ==> s[j] != '\n'
    ensures '\n' !in s[pos..pos + k]
  {
  }

  // ---------------------------------------------------------------
  // The four patterns as written
  // ---------------------------------------------------------------

  /** `^\s*(?:eu\s*)?(?:verb|...)\s+`, shared by every pattern. */
  function Lead(verbs: seq<string>): seq<Rx> {
    [Fixed(Ws(0)), Maybe([Lit(["eu"]), Ws(0)]), Fixed(Lit(verbs)), Fixed(Ws(1))]
  }

  /** `(?:o|a)?\s*(?:kind|...)?\s*`: an optional article and an optional kind of field. */
  function Field(kinds: seq<string>): seq<Rx> {
    [Maybe([Lit(["o", "a"])]), Fixed(Ws(0)), Maybe([Lit(kinds)]), Fixed(Ws(0))]
  }

  /** `(.+?)\s+(?:com|=)\s*(?:o\s*valor\s*)?`: the target, then the separator before the value. */
  const Target: seq<Rx> :=
    [Lazy, Fixed(Ws(1)), Fixed(Lit(["com", "="])), Fixed(Ws(0)), Maybe([Lit(["o"]), Ws(0), Lit(["valor"]), Ws(0)])]

  /** `(.+?)\s*$`: the last capture. */
  const Last: seq<Rx> := [Lazy, Fixed(Ws(0))]

  /** The one pattern of each group; `bot[aã]o` and `op[cç][aã]o` are spelt out as alternatives. */
  function Regex(a: Action): seq<Rx> {
    match a
    case Select =>
      Lead(["seleciono", "selecione", "selecionar"]) + Field(["campo", "select", "lista", "combobox"]) + Target + Last
    case Fill =>
      Lead(["preencho", "preencha", "preenche", "preencher", "digito", "digite", "digitar"])
        + Field(["campo", "input", "caixa", "textarea"]) + Target + Last
    case Click =>
      Lead(["clico", "clique", "clicar", "pressiono", "aperte", "aperto"])
        + [Fixed(Lit(["no", "na", "em"])), Fixed(Ws(1)), Maybe([Lit(["botao", "botão", "link"])]), Fixed(Ws(0))] + Last
    case Enable =>
      Lead(["habilito", "habilite", "habilitar", "ativo", "ative", "ativar", "marco", "marque"])
        + Field(["campo", "opcao", "opcão", "opçao", "opção", "checkbox", "caixa"]) + Last
  }

  lemma {:induction false} CapturesAppend(x: seq<Rx>, y: seq<Rx>)
    ensures Captures(x + y) == Captures(x) + Captures(y)
  {
    if x != [] {
      CapturesAppend(x[1..], y);
      assert (x + y)[0] == x[0] && (x + y)[1..] == x[1..] + y;
    } else {
      assert x + y == y;
    }
  }

  /** The select and fill patterns capture the target and the value; click and enable capture the target. */
  lemma RegexCaptures(a: Action)
    ensures Captures(Regex(a)) == if a in {Select, Fill} then 2 else 1
  {
    var r := Regex(a);
    assert Captures(Last) == 1;
    assert Captures(Target) == 1;
    match a
    case Select =>
      var l := Lead(["seleciono", "selecione", "selecionar"]);
      var f := Field(["campo", "select", "lista", "combobox"]);
      CapturesAppend(l, f);
      CapturesAppend(l + f, Target);
      CapturesAppend(l + f + Target, Last);
    case Fill =>
      var l := Lead(["preencho", "preencha", "preenche", "preencher", "digito", "digite", "digitar"]);
      var f := Field(["campo", "input", "caixa", "textarea"]);
      CapturesAppend(l, f);
      CapturesAppend(l + f, Target);
      CapturesAppend(l + f + Target, Last);
    case Click =>
      var l := Lead(["clico", "clique", "clicar", "pressiono", "aperte", "aperto"]);
      var m := [Fixed(Lit(["no", "na", "em"])), Fixed(Ws(1)), Maybe([Lit(["botao", "botão", "link"])]), Fixed(Ws(0))];
      CapturesAppend(l, m);
      CapturesAppend(l + m, Last);
    case Enable =>
      var l := Lead(["habilito", "habilite", "habilitar", "ativo", "ative", "ativar", "marco", "marque"]);
      var f := Field(["campo", "opcao", "opcão", "opçao", "opção", "checkbox", "caixa"]);
      CapturesAppend(l, f);
      CapturesAppend(l + f, Last);
  }

  /** The task group `a` builds from its captures: the normalised target, and the stripped value. */
  function TaskFrom(a: Action, c: seq<string>): (t: Task)
    requires |c| == if a in {Select, Fill} then 2 else 1
    ensures t.action == a && IsNormal(t.target)
    ensures t.value.Some? <==> a in {Select, Fill}
  {
    NormIsNormal(c[0]);
    if a in {Select, Fill} then Task(a, Norm(c[0]), Some(Strip(c[1]))) else Task(a, Norm(c[0]), None)
  }

  /** Group `a`'s pattern applied to the stripped instruction. */
  function TryRegex(a: Action, t: string): (r: Option<Task>)
    ensures r.Some? ==> r.value.action == a && IsNormal(r.value.target)
    ensures r.Some? ==> (r.value.value.Some? <==> a in {Select, Fill})
  {
    RegexCaptures(a);
    match Match(Regex(a), t, 0)
    case None => None
    case Some(c) => Some(TaskFrom(a, c))
  }

  /** `parse_task` as written: select, fill, click, enable, the first match deciding. */
  function ParseTaskAsWritten(text: string): (r: ParseResult)
    ensures r.Parsed? ==> IsNormal(r.task.target)
    ensures r.Parsed? ==> (r.task.value.Some? <==> r.task.action in {Select, Fill})
  {
    var t := Strip(text);
    match TryRegex(Select, t)
    case Some(task) => Parsed(task)
    case None =>
      match TryRegex(Fill, t)
      case Some(task) => Parsed(task)
      case None =>
        match TryRegex(Click, t)
        case Some(task) => Parsed(task)
        case None =>
          match TryRegex(Enable, t)
          case Some(task) => Parsed(task)
          case None => Unrecognized
  }

  // ---------------------------------------------------------------
  // The article absorbs the target's first letter
  // ---------------------------------------------------------------

  /** `\s*$` fails before a character that is neither whitespace nor a final newline. */
  lemma TrailFails(s: string, pos: nat)
    requires pos < |s| && !IsSpace(s[pos]) && s[pos] != '\n'
    ensures Match([Fixed(Ws(0))], s, pos) == None
  {
    assert SpaceRun(s, pos) == 0;
    assert [Fixed(Ws(0))][1..] == [];
  }

  /** `\s*$` holds at the end of the text. */
  lemma TrailHolds(s: string)
    ensures Match([Fixed(Ws(0))], s, |s|) == Some([])
  {
    assert SpaceRun(s, |s|) == 0;
    assert [Fixed(Ws(0))][1..] == [];
  }

  /** Whitespace that takes exactly the run before the next character. */
  lemma WsExact(m: nat, rest: seq<Rx>, s: string, pos: nat)
    requires pos <= |s| && SpaceRun(s, pos) == m
    ensures Match([Fixed(Ws(m))] + rest, s, pos) == Match(rest, s, pos + m)
  {
    var p := [Fixed(Ws(m))] + rest;
    assert p[0] == Fixed(Ws(m)) && p[1..] == rest;
  }

  /** `\s*` takes the whole run when the rest then matches. */
  lemma WsGreedy(rest: seq<Rx>, s: string, pos: nat)
    requires pos <= |s| && Match(rest, s, pos + SpaceRun(s, pos)).Some?
    ensures Match([Fixed(Ws(0))] + rest, s, pos) == Match(rest, s, pos + SpaceRun(s, pos))
  {
    var p := [Fixed(Ws(0))] + rest;
    assert p[0] == Fixed(Ws(0)) && p[1..] == rest;
  }

  /** `\s+` fails where no whitespace follows. */
  lemma WsMissing(rest: seq<Rx>, s: string, pos: nat)
    requires pos <= |s| && SpaceRun(s, pos) == 0
    ensures Match([Fixed(Ws(1))] + rest, s, pos) == None
  {
    var p := [Fixed(Ws(1))] + rest;
    assert p[0] == Fixed(Ws(1)) && p[1..] == rest;
  }

  /** A word whose first letter differs does not start at `pos`. */
  lemma FirstLetterDiffers(s: string, pos: nat, w: string)
    requires pos < |s| && w != [] && Lower(s[pos]) != w[0]
    ensures !LitAt(s, pos, w)
  {
  }

  /** No alternative of a literal starts at `pos`. */
  lemma {:induction false} LitMiss(p: seq<Rx>, alts: seq<string>, s: string, pos: nat)
    requires p != [] && p[0].Fixed? && pos <= |s|
    requires forall i :: 0 <= i < |alts| ==> !LitAt(s, pos, alts[i])
    ensures TryLit(p, alts, s, pos) == None
  {
    if alts != [] {
      LitMiss(p, alts[1..], s, pos);
    }
  }

  /** The first alternative that starts at `pos` is taken when the rest then matches. */
  lemma {:induction false} LitHit(p: seq<Rx>, alts: seq<string>, s: string, pos: nat, k: nat)
    requires p != [] && p[0].Fixed? && pos <= |s| && k < |alts|
    requires forall i :: 0 <= i < k ==> !LitAt(s, pos, alts[i])
    requires LitAt(s, pos, alts[k]) && Match(p[1..], s, pos + |alts[k]|).Some?
    ensures TryLit(p, alts, s, pos) == Match(p[1..], s, pos + |alts[k]|)
  {
    if k > 0 {
      LitHit(p, alts[1..], s, pos, k - 1);
    }
  }

  /** An optional group whose first literal does not start at `pos` is skipped. */
  lemma MaybeSkip(body: seq<Atom>, rest: seq<Rx>, s: string, pos: nat)
    requires pos <= |s| && body != [] && body[0].Lit?
    requires forall i :: 0 <= i < |body[0].alts| ==> !LitAt(s, pos, body[0].alts[i])
    ensures Match([Maybe(body)] + rest, s, pos) == Match(rest, s, pos)
  {
    var p := [Maybe(body)] + rest;
    assert p[0] == Maybe(body) && p[1..] == rest;
    var q := Lift(body) + rest;
    assert q[0] == Fixed(body[0]);
    LitMiss(q, body[0].alts, s, pos);
  }

  /** An optional group is taken when the match through it succeeds. */
  lemma MaybeTake(body: seq<Atom>, rest: seq<Rx>, s: string, pos: nat)
    requires pos <= |s| && Match(Lift(body) + rest, s, pos).Some?
    ensures Match([Maybe(body)] + rest, s, pos) == Match(Lift(body) + rest, s, pos)
  {
    var p := [Maybe(body)] + rest;
    assert p[0] == Maybe(body) && p[1..] == rest;
  }

  // The steps below follow the engine through `seleciono Ano com 2020`; each
  // names only the characters it looks at.

  /** The value capture `(.+?)\s*$` on the last four characters takes all four. */
  lemma YearValue(s: string)
    requires |s| == 22 && forall j :: 18 <= j < 22 ==> IsDigit(s[j])
    ensures Match(Last, s, 18) == Some([s[18..22]])
  {
    assert Last[1..] == [Fixed(Ws(0))];
    TrailFails(s, 19);
    TrailFails(s, 20);
    TrailFails(s, 21);
    TrailHolds(s);
    assert [s[18..22]] + [] == [s[18..22]];
    assert TryLazy(Last, s, 18, 4) == Some([s[18..22]]);
    assert TryLazy(Last, s, 18, 3) == Some([s[18..22]]);
    assert TryLazy(Last, s, 18, 2) == Some([s[18..22]]);
  }

  /** After the separator: `\s*` takes the space and the optional `o valor` is absent. */
  lemma YearAfterSeparator(s: string, t: seq<Rx>, c: seq<string>)
    requires |s| == 22 && s[17] == ' ' && IsDigit(s[18]) && Match(Last, s, 18) == Some(c)
    requires t == [Fixed(Ws(0)), Maybe([Lit(["o"]), Ws(0), Lit(["valor"]), Ws(0)])] + Last
    ensures Match(t, s, 17) == Some(c)
  {
    var t4 := [Maybe([Lit(["o"]), Ws(0), Lit(["valor"]), Ws(0)])] + Last;
    assert t == [Fixed(Ws(0))] + t4;
    FirstLetterDiffers(s, 18, "o");
    MaybeSkip([Lit(["o"]), Ws(0), Lit(["valor"]), Ws(0)], Last, s, 18);
    assert SpaceRun(s, 18) == 0;
    assert SpaceRun(s, 17) == 1;
    WsGreedy(t4, s, 17);
  }

  /** `\s+(?:com|=)` matches ` com` after `no`, and fails right after `n`. */
  lemma YearSeparator(s: string, t: seq<Rx>, c: seq<string>)
    requires |s| == 22 && s[12] == 'o' && s[13] == ' ' && s[14] == 'c' && s[15] == 'o' && s[16] == 'm'
    requires Match(t, s, 17) == Some(c)
    ensures Match([Fixed(Ws(1)), Fixed(Lit(["com", "="]))] + t, s, 13) == Some(c)
    ensures Match([Fixed(Ws(1)), Fixed(Lit(["com", "="]))] + t, s, 12) == None
  {
    var t2 := [Fixed(Lit(["com", "="]))] + t;
    assert [Fixed(Ws(1)), Fixed(Lit(["com", "="]))] + t == [Fixed(Ws(1))] + t2 && t2[1..] == t;
    assert LitAt(s, 14, "com");
    LitHit(t2, ["com", "="], s, 14, 0);
    assert SpaceRun(s, 14) == 0;
    assert SpaceRun(s, 13) == 1;
    WsExact(1, t2, s, 13);
    assert SpaceRun(s, 12) == 0;
    WsMissing(t2, s, 12);
  }

  /** `(.+?)` takes one character, fails, then takes two. */
  lemma YearLazyTarget(s: string, t: seq<Rx>, c: seq<string>)
    requires |s| == 22 && s[11] != '\n' && s[12] != '\n'
    requires Match(t, s, 13) == Some(c) && Match(t, s, 12) == None
    ensures Match([Lazy] + t, s, 11) == Some([s[11..13]] + c)
  {
    var p := [Lazy] + t;
    assert p[0] == Lazy && p[1..] == t;
    assert TryLazy(p, s, 11, 2) == Some([s[11..13]] + c);
  }

  /** `(?:o|a)?\s*(?:campo|select|lista|combobox)?\s*`: the article takes `A`, no kind follows. */
  lemma YearField(s: string, t: seq<Rx>, c: seq<string>)
    requires |s| == 22 && s[10] == 'A' && s[11] == 'n' && Match(t, s, 11) == Some(c)
    ensures Match(Field(["campo", "select", "lista", "combobox"]) + t, s, 10) == Some(c)
  {
    var f3 := [Fixed(Ws(0))] + t;
    var f2 := [Maybe([Lit(["campo", "select", "lista", "combobox"])])] + f3;
    var f1 := [Fixed(Ws(0))] + f2;
    var f0 := [Maybe([Lit(["o", "a"])])] + f1;
    assert f0 == Field(["campo", "select", "lista", "combobox"]) + t;
    assert SpaceRun(s, 11) == 0;
    WsExact(0, t, s, 11);
    FirstLetterDiffers(s, 11, "campo");
    FirstLetterDiffers(s, 11, "select");
    FirstLetterDiffers(s, 11, "lista");
    FirstLetterDiffers(s, 11, "combobox");
    MaybeSkip([Lit(["campo", "select", "lista", "combobox"])], f3, s, 11);
    WsExact(0, f2, s, 11);
    var q := Lift([Lit(["o", "a"])]) + f1;
    assert q[0] == Fixed(Lit(["o", "a"])) && q[1..] == f1;
    FirstLetterDiffers(s, 10, "o");
    assert LitAt(s, 10, "a");
    LitHit(q, ["o", "a"], s, 10, 1);
    MaybeTake([Lit(["o", "a"])], f1, s, 10);
  }

  /** `^\s*(?:eu\s*)?(?:seleciono|...)\s+`: no `eu`, the verb `seleciono`, one space. */
  lemma YearLead(s: string, t: seq<Rx>, c: seq<string>)
    requires |s| == 22 && LitAt(s, 0, "seleciono") && s[0] == 's' && s[9] == ' ' && s[10] == 'A'
    requires Match(t, s, 10) == Some(c)
    ensures Match(Lead(["seleciono", "selecione", "selecionar"]) + t, s, 0) == Some(c)
  {
    var l3 := [Fixed(Ws(1))] + t;
    var l2 := [Fixed(Lit(["seleciono", "selecione", "selecionar"]))] + l3;
    var l1 := [Maybe([Lit(["eu"]), Ws(0)])] + l2;
    var l0 := [Fixed(Ws(0))] + l1;
    assert l0 == Lead(["seleciono", "selecione", "selecionar"]) + t && l2[1..] == l3;
    assert SpaceRun(s, 10) == 0;
    assert SpaceRun(s, 9) == 1;
    WsExact(1, t, s, 9);
    LitHit(l2, ["seleciono", "selecione", "selecionar"], s, 0, 0);
    FirstLetterDiffers(s, 0, "eu");
    MaybeSkip([Lit(["eu"]), Ws(0)], l2, s, 0);
    assert SpaceRun(s, 0) == 0;
    WsExact(0, l1, s, 0);
  }

  /** The characters of `seleciono Ano com 2020` that the steps above look at. */
  predicate YearShape(s: string) {
    && |s| == 22 && LitAt(s, 0, "seleciono") && s[0] == 's' && s[9] == ' ' && s[10] == 'A' && s[11] == 'n'
    && s[12] == 'o' && s[13] == ' ' && s[14] == 'c' && s[15] == 'o' && s[16] == 'm' && s[17] == ' '
    && (forall j :: 18 <= j < 22 ==> IsDigit(s[j]))
  }

  /** From the article on: `(.+?)` stops at the first ` com`, and `(.+?)\s*$` takes the rest. */
  lemma YearTail(s: string)
    requires YearShape(s)
    ensures Match(Target + Last, s, 11) == Some([s[11..13], s[18..22]])
  {
    YearValue(s);
    var t3 := [Fixed(Ws(0)), Maybe([Lit(["o"]), Ws(0), Lit(["valor"]), Ws(0)])] + Last;
    YearAfterSeparator(s, t3, [s[18..22]]);
    YearSeparator(s, t3, [s[18..22]]);
    var t1 := [Fixed(Ws(1)), Fixed(Lit(["com", "="]))] + t3;
    YearLazyTarget(s, t1, [s[18..22]]);
    assert [Lazy] + t1 == Target + Last;
    assert [s[11..13]] + [s[18..22]] == [s[11..13], s[18..22]];
  }

  /** The whole select pattern: the article `(?:o|a)?` takes the `A` of `Ano`. */
  lemma YearAnywhere(s: string)
    requires YearShape(s)
    ensures Match(Regex(Select), s, 0) == Some([s[11..13], s[18..22]])
  {
    YearTail(s);
    YearField(s, Target + Last, [s[11..13], s[18..22]]);
    var f := Field(["campo", "select", "lista", "combobox"]) + (Target + Last);
    YearLead(s, f, [s[11..13], s[18..22]]);
    assert Lead(["seleciono", "selecione", "selecionar"]) + f == Regex(Select);
  }

  lemma YearVerbLetters()
    ensures LitAt(YearInstruction, 0, "seleciono")
  {
  }

  lemma YearInstructionShape()
    ensures YearShape(YearInstruction)
  {
    YearVerbLetters();
  }

  lemma YearInstructionParts()
    ensures YearInstruction[11..13] == "no" && YearInstruction[18..22] == "2020"
  {
  }

  /** The select pattern on `seleciono Ano com 2020` captures `no` and `2020`. */
  lemma YearMatch()
    ensures Match(Regex(Select), YearInstruction, 0) == Some(["no", "2020"])
  {
    YearInstructionShape();
    YearAnywhere(YearInstruction);
    YearInstructionParts();
  }

  lemma YearStripped()
    ensures Strip(YearInstruction) == YearInstruction
  {
    var s := YearInstruction;
    assert s[0] == 's' && s[|s| - 1] == '0';
  }

  lemma YearTask()
    ensures TryRegex(Select, YearInstruction) == Some(Task(Select, "no", Some("2020")))
  {
    YearMatch();
    PlainWordNormal("no");
    assert Strip("2020") == "2020";
  }

  /**
   * As written, `seleciono Ano com 2020` selects in the field `no`: the
   * optional article `(?:o|a)?` takes the `A` of `Ano`.
   */
  lemma SelectYearAsWritten()
    ensures ParseTaskAsWritten(YearInstruction) == Parsed(Task(Select, "no", Some("2020")))
  {
    YearStripped();
    YearTask();
  }
}
