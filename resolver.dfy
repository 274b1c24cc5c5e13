/**
 * `resolve_selector`: parse the instruction, rank the candidates, keep those
 * of the action's element type, and return the first selector among the best
 * 80 that picks out its element alone.  Each of the four ways it can fail is
 * a `Failure`.
 */
module Resolver {
  import opened Wrappers
  import opened Tasks
  import opened Dom
  import opened Candidates
  import opened Selectors
  import opened Synthesis
  import opened Scoring

  /** The `ValueError` of `parse_task` and the three `ResolutionError`s. */
  datatype Failure = ParseError | NoCandidates | TypeMismatch | NoUniqueSelector

  /** The selector and its CSS text, or why there is none. */
  datatype Outcome = Resolved(selector: Selector, css: string) | Failed(reason: Failure)

  /** A candidate element and the selector built for it. */
  datatype Pick = Pick(node: nat, selector: Selector)

  /** `cands[:80]`: how many of the best candidates get a selector attempt. */
  const MaxCandidates: nat := 80

  /** Every entry of `cs` names an element of `d`. */
  predicate InDoc(d: Doc, cs: seq<Candidate>) {
    forall c :: c in cs ==> 1 <= c.node < |d.nodes|
  }

  /** The candidates whose element is of the action's type, in their ranked order. */
  function OfType(d: Doc, a: Action, cs: seq<Candidate>): (r: seq<Candidate>)
    requires InDoc(d, cs)
    ensures forall c :: c in r <==> c in cs && MatchesTaskType(d.nodes[c.node], a)
    ensures |r| <= |cs|
  {
    if cs == [] then []
    else
      var rest := OfType(d, a, cs[1..]);
      if MatchesTaskType(d.nodes[cs[0].node], a) then [cs[0]] + rest else rest
  }

  /** `cands[:80]`. */
  function Best(cs: seq<Candidate>): (r: seq<Candidate>)
    ensures |r| <= MaxCandidates && |r| <= |cs| && r == cs[..|r|]
    ensures |cs| <= MaxCandidates ==> r == cs
  {
    if |cs| <= MaxCandidates then cs else cs[..MaxCandidates]
  }

  /** `build_unique_selector` for every node, by index. */
  function UniqueSelectors(d: Doc): (t: seq<Option<Selector>>)
    requires Valid(d)
    ensures |t| == |d.nodes|
  {
    seq(|d.nodes|, i requires 0 <= i < |d.nodes| => UniqueSelector(d, i))
  }

  /** `sels` holds `build_unique_selector` of every node. */
  predicate IsSelectorTable(d: Doc, sels: seq<Option<Selector>>)
    requires Valid(d)
  {
    && |sels| == |d.nodes|
    && forall i {:trigger UniqueSelector(d, i)} :: 0 <= i < |d.nodes| ==> sels[i] == UniqueSelector(d, i)
  }

  /** Every selector of `sels` is unique for its node. */
  predicate SelectorsUnique(d: Doc, sels: seq<Option<Selector>>)
    requires Valid(d)
  {
    forall i :: 0 <= i < |sels| && sels[i].Some? ==> IsUnique(d, sels[i].value, i)
  }

  lemma SelectorsIsTable(d: Doc)
    requires Valid(d)
    ensures IsSelectorTable(d, UniqueSelectors(d))
  {
  }

  /** Whatever `build_unique_selector` returns is unique for its element. */
  lemma SelectorsSound(d: Doc)
    requires Valid(d)
    ensures SelectorsUnique(d, UniqueSelectors(d))
  {
    forall i | 0 <= i < |d.nodes| && UniqueSelectors(d)[i].Some?
      ensures IsUnique(d, UniqueSelectors(d)[i].value, i)
    {
      assert UniqueSelectors(d)[i] == UniqueSelector(d, i);
    }
  }

  /** Every entry of `cs` names a node of the table. */
  predicate Covered(sels: seq<Option<Selector>>, cs: seq<Candidate>) {
    forall c :: c in cs ==> c.node < |sels|
  }

  /** The first candidate of `cs` that has a selector in `sels`, with that selector. */
  function FirstResolved(sels: seq<Option<Selector>>, cs: seq<Candidate>): (r: Option<Pick>)
    requires Covered(sels, cs)
  {
    if cs == [] then None
    else
      match sels[cs[0].node]
      case Some(s) => Some(Pick(cs[0].node, s))
      case None => FirstResolved(sels, cs[1..])
  }

  /**
   * What `FirstResolved` finds: the element of entry `i` of `cs` with its
   * selector, and no earlier entry has one; `None` exactly when no entry
   * has one.
   */
  lemma {:induction false} FirstResolvedSpec(sels: seq<Option<Selector>>, cs: seq<Candidate>) returns (i: nat)
    requires Covered(sels, cs)
    ensures FirstResolved(sels, cs).Some? ==>
      && i < |cs| && FirstResolved(sels, cs).value.node == cs[i].node
      && sels[cs[i].node] == Some(FirstResolved(sels, cs).value.selector)
      && forall j :: 0 <= j < i ==> sels[cs[j].node].None?
    ensures FirstResolved(sels, cs).None? <==> forall j :: 0 <= j < |cs| ==> sels[cs[j].node].None?
  {
    if cs == [] {
      i := 0;
    } else if sels[cs[0].node].Some? {
      i := 0;
    } else {
      var k := FirstResolvedSpec(sels, cs[1..]);
      i := k + 1;
      forall j | 0 <= j < |cs| && sels[cs[j].node].Some?
        ensures FirstResolved(sels, cs).Some?
      {
        assert cs[j] == cs[1..][j - 1];
      }
    }
  }

  /** `find_candidates`: the discovered entries, ranked. */
  function Ranking(d: Doc, task: Task): (r: seq<Candidate>)
    requires Valid(d)
    ensures InDoc(d, r)
  {
    RankedCandidates(d, task);
    SortByScore(Discovered(d, task))
  }

  /** The ranked list is ranked and holds exactly the candidate entries. */
  lemma RankedCandidates(d: Doc, task: Task)
    requires Valid(d)
    ensures Ranked(SortByScore(Discovered(d, task)))
    ensures forall c :: c in SortByScore(Discovered(d, task)) <==> IsCandidate(d, task, c)
  {
    DiscoveredSpec(d, task);
    SortPerm(Discovered(d, task));
    SortRanked(Discovered(d, task));
    forall c ensures c in SortByScore(Discovered(d, task)) <==> c in Discovered(d, task) {
      assert c in SortByScore(Discovered(d, task)) <==> c in multiset(SortByScore(Discovered(d, task)));
      assert c in Discovered(d, task) <==> c in multiset(Discovered(d, task));
    }
  }

  /** `resolve_selector` once the task is parsed, with `sels` standing for `build_unique_selector` of each node. */
  function Pipeline(d: Doc, sels: seq<Option<Selector>>, task: Task): Outcome
    requires Valid(d) && |sels| == |d.nodes|
  {
    var cands := Ranking(d, task);
    if cands == [] then Failed(NoCandidates)
    else
      var typed := OfType(d, task.action, cands);
      if typed == [] then Failed(TypeMismatch)
      else
        match FirstResolved(sels, Best(typed))
        case Some(p) => Resolved(p.selector, Render(p.selector))
        case None => Failed(NoUniqueSelector)
  }

  /** The whole of `resolve_selector` on a parsed document. */
  function Resolution(d: Doc, text: string): Outcome
    requires Valid(d)
  {
    match ParseTask(text)
    case Unrecognized => Failed(ParseError)
    case Parsed(task) => Pipeline(d, UniqueSelectors(d), task)
  }

  /** Filtering keeps the ranked order. */
  lemma {:induction false} OfTypeRanked(d: Doc, a: Action, cs: seq<Candidate>)
    requires InDoc(d, cs) && Ranked(cs)
    ensures Ranked(OfType(d, a, cs))
  {
    if cs != [] {
      var rest := OfType(d, a, cs[1..]);
      OfTypeRanked(d, a, cs[1..]);
      if MatchesTaskType(d.nodes[cs[0].node], a) {
        HeadComesFirst(cs);
        ConsRanked(cs[0], rest);
      }
    }
  }

  /** In a ranked list the head comes before every later entry. */
  lemma HeadComesFirst(cs: seq<Candidate>)
    requires Ranked(cs) && cs != []
    ensures forall c :: c in cs[1..] ==> Before(cs[0], c)
  {
    forall c | c in cs[1..] ensures Before(cs[0], c) {
      var k :| 0 <= k < |cs[1..]| && cs[1..][k] == c;
      assert cs[k + 1] == c;
    }
  }

  /** A ranked list stays ranked behind an entry that comes before all of it. */
  lemma ConsRanked(x: Candidate, s: seq<Candidate>)
    requires Ranked(s) && forall c :: c in s ==> Before(x, c)
    ensures Ranked([x] + s)
  {
    var r := [x] + s;
    forall i, j | 0 <= i < j < |r| ensures Before(r[i], r[j]) {
      if i == 0 {
        assert r[j] == s[j - 1] && s[j - 1] in s;
      } else {
        assert r[i] == s[i - 1] && r[j] == s[j - 1];
      }
    }
  }

  /** When every entry already has the action's type, the filter keeps the list as it is. */
  lemma {:induction false} OfTypeKeepsAll(d: Doc, a: Action, cs: seq<Candidate>)
    requires InDoc(d, cs)
    requires forall c :: c in cs ==> MatchesTaskType(d.nodes[c.node], a)
    ensures OfType(d, a, cs) == cs
  {
    if cs != [] {
      OfTypeKeepsAll(d, a, cs[1..]);
      assert cs == [cs[0]] + cs[1..];
    }
  }

  // ---------------------------------------------------------------
  // What the resolver promises
  // ---------------------------------------------------------------

  /** Discovery already applies the action's filter, so the type filter drops nothing. */
  lemma TypeFilterKeepsAll(d: Doc, task: Task)
    requires Valid(d)
    ensures OfType(d, task.action, Ranking(d, task)) == Ranking(d, task)
  {
    RankedCandidates(d, task);
    forall c | c in Ranking(d, task)
      ensures MatchesTaskType(d.nodes[c.node], task.action)
    {
      EligibleIsTypeMatch(d.nodes[c.node], task.action);
    }
    OfTypeKeepsAll(d, task.action, Ranking(d, task));
  }

  /** The type error of `resolve_selector` never occurs. */
  lemma NeverTypeMismatch(d: Doc, text: string)
    requires Valid(d)
    ensures Resolution(d, text) != Failed(TypeMismatch)
  {
    if ParseTask(text).Parsed? {
      TypeFilterKeepsAll(d, ParseTask(text).task);
    }
  }

  /** The instruction is rejected exactly when it matches none of the four task patterns. */
  lemma ParseErrorIff(d: Doc, text: string)
    requires Valid(d)
    ensures Resolution(d, text) == Failed(ParseError) <==> ParseTask(text).Unrecognized?
  {
    if ParseTask(text).Parsed? {
      PipelineParses(d, UniqueSelectors(d), ParseTask(text).task);
    }
  }

  /** A parsed task never fails for want of parsing. */
  lemma PipelineParses(d: Doc, sels: seq<Option<Selector>>, task: Task)
    requires Valid(d) && |sels| == |d.nodes|
    ensures Pipeline(d, sels, task) != Failed(ParseError)
  {
  }

  /** The ranking is empty exactly when no element passes the filter with a positive score. */
  lemma RankingEmptyIff(d: Doc, task: Task)
    requires Valid(d)
    ensures Ranking(d, task) == [] <==> forall i :: 1 <= i < |d.nodes| ==> !Found(d, task, i)
  {
    var cands := Ranking(d, task);
    RankedCandidates(d, task);
    if exists i :: 1 <= i < |d.nodes| && Found(d, task, i) {
      var i :| 1 <= i < |d.nodes| && Found(d, task, i);
      assert IsCandidate(d, task, Candidate(i, Score(d, i, task)));
    } else if cands != [] {
      assert IsCandidate(d, task, cands[0]);
    }
  }

  /** "No candidates" exactly when the instruction parses and no element passes the filter with a positive score. */
  lemma NoCandidatesIff(d: Doc, text: string)
    requires Valid(d)
    ensures Resolution(d, text) == Failed(NoCandidates) <==>
      ParseTask(text).Parsed? && forall i :: 1 <= i < |d.nodes| ==> !Found(d, ParseTask(text).task, i)
  {
    if ParseTask(text).Parsed? {
      var task := ParseTask(text).task;
      RankingEmptyIff(d, task);
      TypeFilterKeepsAll(d, task);
    }
  }

  /** What a resolved pipeline returns, for any table of unique selectors. */
  lemma PipelineResolved(d: Doc, sels: seq<Option<Selector>>, task: Task) returns (i: nat)
    requires Valid(d) && |sels| == |d.nodes| && SelectorsUnique(d, sels)
    requires Pipeline(d, sels, task).Resolved?
    ensures
      var cands := Ranking(d, task);
      var r := Pipeline(d, sels, task);
      && i < |cands| && i < MaxCandidates
      && sels[cands[i].node] == Some(r.selector)
      && IsUnique(d, r.selector, cands[i].node)
      && (forall j :: 0 <= j < i ==> sels[cands[j].node].None?)
      && r.css == Render(r.selector)
  {
    TypeFilterKeepsAll(d, task);
    var cands := Ranking(d, task);
    i := FirstResolvedSpec(sels, Best(cands));
    assert Best(cands)[i] == cands[i];
    forall j | 0 <= j < i ensures sels[cands[j].node].None? {
      assert Best(cands)[j] == cands[j];
    }
  }

  /** What a pipeline that finds no unique selector has seen: candidates, none of the best 80 with a selector. */
  lemma PipelineNoSelector(d: Doc, sels: seq<Option<Selector>>, task: Task)
    requires Valid(d) && |sels| == |d.nodes|
    ensures Pipeline(d, sels, task) == Failed(NoUniqueSelector) <==>
      && Ranking(d, task) != []
      && forall j :: 0 <= j < |Ranking(d, task)| && j < MaxCandidates ==> sels[Ranking(d, task)[j].node].None?
  {
    TypeFilterKeepsAll(d, task);
    var cands := Ranking(d, task);
    var _ := FirstResolvedSpec(sels, Best(cands));
    forall j | 0 <= j < |cands| && j < MaxCandidates ensures Best(cands)[j] == cands[j] {
    }
  }

  /**
   * A resolved selector picks out exactly one element: the `i`-th of the
   * ranked candidates (all of the action's type), among the first 80,
   * eligible with a positive score; no better-ranked candidate had a unique
   * selector; and the CSS text is the selector's.
   */
  lemma ResolvedSpec(d: Doc, text: string) returns (i: nat)
    requires Valid(d) && Resolution(d, text).Resolved?
    ensures ParseTask(text).Parsed?
    ensures
      var task := ParseTask(text).task;
      var cands := Ranking(d, task);
      var r := Resolution(d, text);
      && i < |cands| && i < MaxCandidates
      && IsUnique(d, r.selector, cands[i].node)
      && MatchesTaskType(d.nodes[cands[i].node], task.action)
      && IsCandidate(d, task, cands[i])
      && (forall j :: 0 <= j < i ==> UniqueSelector(d, cands[j].node).None?)
      && r.css == Render(r.selector)
  {
    var task := ParseTask(text).task;
    var sels := UniqueSelectors(d);
    SelectorsSound(d);
    SelectorsIsTable(d);
    i := PipelineResolved(d, sels, task);
    var cands := Ranking(d, task);
    RankedCandidates(d, task);
    assert cands[i] in cands;
    EligibleIsTypeMatch(d.nodes[cands[i].node], task.action);
    forall j | 0 <= j < i ensures UniqueSelector(d, cands[j].node).None? {
      assert sels[cands[j].node].None?;
    }
  }

  /** "No unique selector" exactly when there are candidates and none of the best 80 has a unique selector. */
  lemma NoUniqueSelectorIff(d: Doc, text: string)
    requires Valid(d)
    ensures Resolution(d, text) == Failed(NoUniqueSelector) <==>
      && ParseTask(text).Parsed?
      && var cands := Ranking(d, ParseTask(text).task);
      && cands != []
      && forall j :: 0 <= j < |cands| && j < MaxCandidates ==> UniqueSelector(d, cands[j].node).None?
  {
    if ParseTask(text).Parsed? {
      var task := ParseTask(text).task;
      var sels := UniqueSelectors(d);
      SelectorsIsTable(d);
      PipelineNoSelector(d, sels, task);
    }
  }

  // ---------------------------------------------------------------
  // The resolver
  // ---------------------------------------------------------------

  /** The loop over `cands[:80]`: the first candidate for which `build_unique_selector` yields a selector. */
  method PickSelector(d: Doc, ghost sels: seq<Option<Selector>>, cs: seq<Candidate>) returns (r: Option<Pick>)
    requires Valid(d) && InDoc(d, cs) && IsSelectorTable(d, sels)
    ensures r == FirstResolved(sels, cs)
  {
    var i := 0;
    while i < |cs|
      invariant i <= |cs|
      invariant FirstResolved(sels, cs) == FirstResolved(sels, cs[i..])
    {
      assert cs[i..][1..] == cs[i + 1..];
      var sel := BuildUnique(d, cs[i].node);
      if sel.Some? {
        return Some(Pick(cs[i].node, sel.value));
      }
      i := i + 1;
    }
    return None;
  }

  /** `resolve_selector`, from the parsed document and the instruction. */
  method Resolve(d: Doc, text: string) returns (outcome: Outcome)
    requires Valid(d)
    ensures outcome == Resolution(d, text)
  {
    var parsed := ParseTask(text);
    if parsed.Unrecognized? {
      return Failed(ParseError);
    }
    var task := parsed.task;
    var cands := FindCandidates(d, task);
    if cands == [] {
      return Failed(NoCandidates);
    }
    var typed := OfType(d, task.action, cands);
    if typed == [] {
      return Failed(TypeMismatch);
    }
    SelectorsIsTable(d);
    var pick := PickSelector(d, UniqueSelectors(d), Best(typed));
    if pick.None? {
      return Failed(NoUniqueSelector);
    }
    outcome := Resolved(pick.value.selector, Render(pick.value.selector));
  }
}
