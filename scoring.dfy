/**
 * Candidate scoring: the weighted tables of `candidate_score_click`,
 * `candidate_score_field`, `candidate_score_enable` and
 * `candidate_score_select`.  Each scorer is specified by a function that sums
 * the weight every signal earns, and implemented by a method that runs the
 * source's accumulator loops.
 */
module Scoring {
  import opened Text
  import opened Tasks
  import opened Dom
  import opened Hints

  /** One row of a scoring table: an attribute, the weight of an exact match and of a substring match. */
  datatype Weight = Weight(attr: string, exact: nat, sub: nat)

  const ClickWeights: seq<Weight> := [
    Weight("aria-label", 90, 50), Weight("title", 70, 40), Weight("value", 80, 45),
    Weight("name", 25, 10), Weight("id", 20, 8)]

  const FieldWeights: seq<Weight> := [
    Weight("placeholder", 95, 55), Weight("aria-label", 95, 55), Weight("title", 95, 55),
    Weight("name", 80, 40), Weight("id", 70, 35), Weight("autocomplete", 20, 8)]

  const EnableWeights: seq<Weight> := [
    Weight("aria-label", 95, 55), Weight("title", 80, 40), Weight("name", 60, 30), Weight("id", 50, 25)]

  /** Weights of the element's own text (click), of label texts and of sibling hints. */
  const TextExact: nat := 100
  const TextSub: nat := 60
  const ButtonBonus: nat := 10
  const LabelExact: nat := 120
  const LabelSub: nat := 70
  const HintExact: nat := 110
  const HintSub: nat := 60
  const SelectBonus: nat := 5

  /** Every row of a table rewards both kinds of match. */
  predicate PositiveWeights(ws: seq<Weight>) {
    forall k :: 0 <= k < |ws| ==> ws[k].exact > 0 && ws[k].sub > 0
  }

  /** `v` names the target `tn`: it equals it, or the non-empty target occurs inside it. */
  predicate Mentions(v: string, tn: string) {
    v == tn || (tn != "" && Contains(v, tn))
  }

  /** The weight one text earns against the normalised target: `exact` on equality, else `sub` on a substring. */
  function Signal(v: string, tn: string, exact: nat, sub: nat): (w: nat)
    ensures exact > 0 && sub > 0 ==> (w > 0 <==> Mentions(v, tn))
    ensures w <= if exact < sub then sub else exact
  {
    if v == tn then exact
    else if tn != "" && Contains(v, tn) then sub
    else 0
  }

  /** The normalised value of the attribute of row `w`, `""` when absent. */
  function AttrValue(n: Node, w: Weight): string {
    Norm(Get(n, w.attr))
  }

  /** The weight one table row earns; an empty attribute value is skipped. */
  function AttrSignal(n: Node, w: Weight, tn: string): nat {
    var v := AttrValue(n, w);
    if v == "" then 0 else Signal(v, tn, w.exact, w.sub)
  }

  /** Row `w` of the table fires on node `n`. */
  predicate AttrMentions(n: Node, w: Weight, tn: string) {
    AttrValue(n, w) != "" && Mentions(AttrValue(n, w), tn)
  }

  /** The sum of the weights the rows `ws` earn on node `n`. */
  function AttrsScore(n: Node, ws: seq<Weight>, tn: string): nat {
    if ws == [] then 0
    else AttrsScore(n, ws[..|ws| - 1], tn) + AttrSignal(n, ws[|ws| - 1], tn)
  }

  /** The sum of the weights the texts `ts` earn. */
  function TextsScore(ts: seq<string>, tn: string, exact: nat, sub: nat): nat {
    if ts == [] then 0
    else TextsScore(ts[..|ts| - 1], tn, exact, sub) + Signal(ts[|ts| - 1], tn, exact, sub)
  }

  /** `candidate_score_click`. */
  function ClickScore(d: Doc, i: nat, target: string): nat
    requires i < |d.nodes|
  {
    var tn := Norm(target);
    var txt := VisibleText(d, i);
    var n := d.nodes[i];
    Signal(txt, tn, TextExact, TextSub) + AttrsScore(n, ClickWeights, tn)
    + (if Role(n) == "button" && tn != "" && Contains(txt, tn) then ButtonBonus else 0)
  }

  /** The shape shared by `candidate_score_field` and `candidate_score_enable`: a table, the labels, the hints. */
  function LabelledScore(d: Doc, i: nat, ws: seq<Weight>, target: string): nat
    requires Valid(d) && 1 <= i < |d.nodes|
  {
    var tn := Norm(target);
    AttrsScore(d.nodes[i], ws, tn)
    + TextsScore(Labels(d, i), tn, LabelExact, LabelSub)
    + TextsScore(HintTexts(d, i, MaxHintLen), tn, HintExact, HintSub)
  }

  /** `candidate_score_field`. */
  function FieldScore(d: Doc, i: nat, target: string): nat
    requires Valid(d) && 1 <= i < |d.nodes|
  {
    LabelledScore(d, i, FieldWeights, target)
  }

  /** `candidate_score_enable`. */
  function EnableScore(d: Doc, i: nat, target: string): nat
    requires Valid(d) && 1 <= i < |d.nodes|
  {
    LabelledScore(d, i, EnableWeights, target)
  }

  /** `candidate_score_select`: the field score plus a constant. */
  function SelectScore(d: Doc, i: nat, target: string): nat
    requires Valid(d) && 1 <= i < |d.nodes|
  {
    FieldScore(d, i, target) + SelectBonus
  }

  /** The scorer `find_candidates` applies for the task's action. */
  function Score(d: Doc, i: nat, task: Task): nat
    requires Valid(d) && 1 <= i < |d.nodes|
  {
    match task.action
    case Click => ClickScore(d, i, task.target)
    case Fill => FieldScore(d, i, task.target)
    case Select => SelectScore(d, i, task.target)
    case Enable => EnableScore(d, i, task.target)
  }

  // ---------------------------------------------------------------
  // The accumulator loops
  // ---------------------------------------------------------------

  /** The loop over a scoring table. */
  method WeighAttrs(n: Node, ws: seq<Weight>, tn: string) returns (score: nat)
    ensures score == AttrsScore(n, ws, tn)
  {
    score := 0;
    var k := 0;
    while k < |ws|
      invariant 0 <= k <= |ws|
      invariant score == AttrsScore(n, ws[..k], tn)
    {
      assert ws[..k + 1][..k] == ws[..k];
      var w := ws[k];
      var v := Norm(Get(n, w.attr));
      if v != "" {
        if v == tn {
          score := score + w.exact;
        } else if tn != "" && Contains(v, tn) {
          score := score + w.sub;
        }
      }
      k := k + 1;
    }
    assert ws[..|ws|] == ws;
  }

  /** The loop over label or hint texts. */
  method WeighTexts(ts: seq<string>, tn: string, exact: nat, sub: nat) returns (score: nat)
    ensures score == TextsScore(ts, tn, exact, sub)
  {
    score := 0;
    var k := 0;
    while k < |ts|
      invariant 0 <= k <= |ts|
      invariant score == TextsScore(ts[..k], tn, exact, sub)
    {
      assert ts[..k + 1][..k] == ts[..k];
      if ts[k] == tn {
        score := score + exact;
      } else if tn != "" && Contains(ts[k], tn) {
        score := score + sub;
      }
      k := k + 1;
    }
    assert ts[..|ts|] == ts;
  }

  /** `candidate_score_click`. */
  method ScoreClick(d: Doc, i: nat, target: string) returns (score: nat)
    requires i < |d.nodes|
    ensures score == ClickScore(d, i, target)
  {
    var tn := Norm(target);
    score := 0;
    var txt := VisibleText(d, i);
    if txt == tn {
      score := score + TextExact;
    } else if tn != "" && Contains(txt, tn) {
      score := score + TextSub;
    }
    var attrs := WeighAttrs(d.nodes[i], ClickWeights, tn);
    score := score + attrs;
    if Role(d.nodes[i]) == "button" && tn != "" && Contains(txt, tn) {
      score := score + ButtonBonus;
    }
  }

  /** `candidate_score_field` and `candidate_score_enable`, for the table `ws`. */
  method ScoreLabelled(d: Doc, i: nat, ws: seq<Weight>, target: string) returns (score: nat)
    requires Valid(d) && 1 <= i < |d.nodes|
    ensures score == LabelledScore(d, i, ws, target)
  {
    var tn := Norm(target);
    score := WeighAttrs(d.nodes[i], ws, tn);
    var labels := LabelTexts(d, i);
    var fromLabels := WeighTexts(labels, tn, LabelExact, LabelSub);
    var hints := NearbyHints(d, i, MaxHintLen);
    var fromHints := WeighTexts(hints, tn, HintExact, HintSub);
    score := score + fromLabels + fromHints;
  }

  /** The scorer for the task's action. */
  method ScoreTask(d: Doc, i: nat, task: Task) returns (score: nat)
    requires Valid(d) && 1 <= i < |d.nodes|
    ensures score == Score(d, i, task)
  {
    match task.action {
      case Click =>
        score := ScoreClick(d, i, task.target);
      case Fill =>
        score := ScoreLabelled(d, i, FieldWeights, task.target);
      case Select =>
        score := ScoreLabelled(d, i, FieldWeights, task.target);
        score := score + SelectBonus;
      case Enable =>
        score := ScoreLabelled(d, i, EnableWeights, task.target);
    }
  }

  // ---------------------------------------------------------------
  // What a positive score means
  // ---------------------------------------------------------------

  /** A table earns a positive score exactly when one of its rows fires. */
  lemma AttrsScorePositive(n: Node, ws: seq<Weight>, tn: string)
    requires PositiveWeights(ws)
    ensures AttrsScore(n, ws, tn) > 0 <==> exists k :: 0 <= k < |ws| && AttrMentions(n, ws[k], tn)
  {
    if AttrsScore(n, ws, tn) > 0 {
      var k := AttrsScoreWitness(n, ws, tn);
    }
    if exists k :: 0 <= k < |ws| && AttrMentions(n, ws[k], tn) {
      var k :| 0 <= k < |ws| && AttrMentions(n, ws[k], tn);
      AttrsScoreFires(n, ws, tn, k);
    }
  }

  /** A positive table score comes from a row that fires. */
  lemma {:induction false} AttrsScoreWitness(n: Node, ws: seq<Weight>, tn: string) returns (k: nat)
    requires PositiveWeights(ws) && AttrsScore(n, ws, tn) > 0
    ensures k < |ws| && AttrMentions(n, ws[k], tn)
  {
    var p := ws[..|ws| - 1];
    AttrSignalPositive(n, ws[|ws| - 1], tn);
    if AttrSignal(n, ws[|ws| - 1], tn) > 0 {
      k := |ws| - 1;
    } else {
      k := AttrsScoreWitness(n, p, tn);
      assert p[k] == ws[k];
    }
  }

  /** A row that fires makes the table score positive. */
  lemma {:induction false} AttrsScoreFires(n: Node, ws: seq<Weight>, tn: string, k: nat)
    requires PositiveWeights(ws) && k < |ws| && AttrMentions(n, ws[k], tn)
    ensures AttrsScore(n, ws, tn) > 0
  {
    var p := ws[..|ws| - 1];
    if k == |ws| - 1 {
      AttrSignalPositive(n, ws[k], tn);
    } else {
      assert p[k] == ws[k];
      AttrsScoreFires(n, p, tn, k);
    }
  }

  lemma AttrSignalPositive(n: Node, w: Weight, tn: string)
    requires w.exact > 0 && w.sub > 0
    ensures AttrSignal(n, w, tn) > 0 <==> AttrMentions(n, w, tn)
  {
  }

  /** A list of texts earns a positive score exactly when one of them mentions the target. */
  lemma {:induction false} TextsScorePositive(ts: seq<string>, tn: string, exact: nat, sub: nat)
    requires exact > 0 && sub > 0
    ensures TextsScore(ts, tn, exact, sub) > 0 <==> exists t :: t in ts && Mentions(t, tn)
  {
    if ts != [] {
      var p := ts[..|ts| - 1];
      TextsScorePositive(p, tn, exact, sub);
      assert ts == p + [ts[|ts| - 1]];
      assert forall t :: t in ts <==> t in p || t == ts[|ts| - 1];
    }
  }

  /** A text equal to the target earns at least the exact weight. */
  lemma {:induction false} TextsScoreExact(ts: seq<string>, tn: string, exact: nat, sub: nat)
    requires tn in ts
    ensures TextsScore(ts, tn, exact, sub) >= exact
  {
    var p := ts[..|ts| - 1];
    assert ts == p + [ts[|ts| - 1]];
    if ts[|ts| - 1] != tn {
      assert tn in p;
      TextsScoreExact(p, tn, exact, sub);
    }
  }

  /** A clickable element scores above zero exactly when its text or one of its table attributes mentions the target. */
  lemma ClickScorePositive(d: Doc, i: nat, target: string)
    requires i < |d.nodes|
    ensures var tn := Norm(target);
      ClickScore(d, i, target) > 0 <==>
        Mentions(VisibleText(d, i), tn) || exists k :: 0 <= k < |ClickWeights| && AttrMentions(d.nodes[i], ClickWeights[k], tn)
  {
    AttrsScorePositive(d.nodes[i], ClickWeights, Norm(target));
  }

  /** A field or enable target scores above zero exactly when a table attribute, a label or a hint mentions the target. */
  lemma LabelledScorePositive(d: Doc, i: nat, ws: seq<Weight>, target: string)
    requires Valid(d) && 1 <= i < |d.nodes| && PositiveWeights(ws)
    ensures var tn := Norm(target);
      LabelledScore(d, i, ws, target) > 0 <==>
        || (exists k :: 0 <= k < |ws| && AttrMentions(d.nodes[i], ws[k], tn))
        || (exists t :: t in Labels(d, i) && Mentions(t, tn))
        || (exists t :: t in HintTexts(d, i, MaxHintLen) && Mentions(t, tn))
  {
    var tn := Norm(target);
    AttrsScorePositive(d.nodes[i], ws, tn);
    TextsScorePositive(Labels(d, i), tn, LabelExact, LabelSub);
    TextsScorePositive(HintTexts(d, i, MaxHintLen), tn, HintExact, HintSub);
  }

  /** The field table rewards every match, so `LabelledScorePositive` applies to fields. */
  lemma FieldScorePositive(d: Doc, i: nat, target: string)
    requires Valid(d) && 1 <= i < |d.nodes|
    ensures var tn := Norm(target);
      FieldScore(d, i, target) > 0 <==>
        || (exists k :: 0 <= k < |FieldWeights| && AttrMentions(d.nodes[i], FieldWeights[k], tn))
        || (exists t :: t in Labels(d, i) && Mentions(t, tn))
        || (exists t :: t in HintTexts(d, i, MaxHintLen) && Mentions(t, tn))
  {
    LabelledScorePositive(d, i, FieldWeights, target);
  }

  /** The enable table rewards every match, so `LabelledScorePositive` applies to enable targets. */
  lemma EnableScorePositive(d: Doc, i: nat, target: string)
    requires Valid(d) && 1 <= i < |d.nodes|
    ensures var tn := Norm(target);
      EnableScore(d, i, target) > 0 <==>
        || (exists k :: 0 <= k < |EnableWeights| && AttrMentions(d.nodes[i], EnableWeights[k], tn))
        || (exists t :: t in Labels(d, i) && Mentions(t, tn))
        || (exists t :: t in HintTexts(d, i, MaxHintLen) && Mentions(t, tn))
  {
    LabelledScorePositive(d, i, EnableWeights, target);
  }

  /** The select score is never zero, so every select-like element becomes a candidate whatever the target. */
  lemma SelectScorePositive(d: Doc, i: nat, target: string)
    requires Valid(d) && 1 <= i < |d.nodes|
    ensures SelectScore(d, i, target) >= SelectBonus > 0
  {
  }

  /** A label equal to the target gives a field at least the exact label weight. */
  lemma ExactLabelScore(d: Doc, i: nat, target: string)
    requires Valid(d) && 1 <= i < |d.nodes| && Norm(target) in Labels(d, i)
    ensures FieldScore(d, i, target) >= LabelExact
    ensures EnableScore(d, i, target) >= LabelExact
  {
    TextsScoreExact(Labels(d, i), Norm(target), LabelExact, LabelSub);
  }

  function Larger(a: nat, b: nat): nat {
    if a < b then b else a
  }

  /** The most a table can award: each row's larger weight. */
  function TableCeiling(ws: seq<Weight>): nat {
    if ws == [] then 0
    else TableCeiling(ws[..|ws| - 1]) + Larger(ws[|ws| - 1].exact, ws[|ws| - 1].sub)
  }

  /** Each row adds its exact or its substring weight, never both, so a table awards at most its ceiling. */
  lemma {:induction false} AttrsScoreBound(n: Node, ws: seq<Weight>, tn: string)
    ensures AttrsScore(n, ws, tn) <= TableCeiling(ws)
  {
    if ws != [] {
      AttrsScoreBound(n, ws[..|ws| - 1], tn);
    }
  }

  /** Each text adds its exact or its substring weight, never both. */
  lemma {:induction false} TextsScoreBound(ts: seq<string>, tn: string, exact: nat, sub: nat)
    ensures TextsScore(ts, tn, exact, sub) <= |ts| * Larger(exact, sub)
  {
    if ts != [] {
      var k := |ts| - 1;
      TextsScoreBound(ts[..k], tn, exact, sub);
      assert |ts| * Larger(exact, sub) == k * Larger(exact, sub) + Larger(exact, sub);
    }
  }

}
