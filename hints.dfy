/**
 * Label and hint lookup: the texts of `<label for=id>` elements and of the
 * nearest wrapping `<label>` (`label_text_for_field`), and the short texts of a
 * field's siblings (`nearby_text_hints`).  Both lists are deduplicated keeping
 * first occurrences, as `list(dict.fromkeys(texts))` does.
 */
module Hints {
  import opened Wrappers
  import opened Text
  import opened Dom

  // ---------------------------------------------------------------
  // Deduplication
  // ---------------------------------------------------------------

  /** `list(dict.fromkeys(s))`: each text once, at its first occurrence. */
  function Dedupe(s: seq<string>): seq<string>
  {
    if s == [] then []
    else
      var r := Dedupe(s[..|s| - 1]);
      if s[|s| - 1] in r then r else r + [s[|s| - 1]]
  }

  predicate NoDups(s: seq<string>) {
    forall i, j :: 0 <= i < j < |s| ==> s[i] != s[j]
  }

  /** The deduplicated list holds each text of `s` exactly once, in order of first occurrence. */
  lemma {:induction false} DedupeSpec(s: seq<string>)
    ensures var r := Dedupe(s);
      && NoDups(r)
      && (forall x :: x in r <==> x in s)
      && (forall i, j :: 0 <= i < j < |r| ==> FirstIndex(s, r[i]) < FirstIndex(s, r[j]))
    decreases |s|
  {
    if s != [] {
      var p := s[..|s| - 1];
      var x := s[|s| - 1];
      assert s == p + [x];
      DedupeSpec(p);
      var r := Dedupe(p);
      forall y | y in p ensures FirstIndex(s, y) == FirstIndex(p, y) {
        FirstIndexSnoc(p, x, y);
      }
      if x !in r {
        assert x !in p;
        FirstIndexUnique(s, x, |p|);
        forall y | y in p ensures FirstIndex(p, y) < |p| { }
      }
    }
  }

  // ---------------------------------------------------------------
  // Labels
  // ---------------------------------------------------------------

  /** A `<label for=fid>` element with visible text. */
  predicate IsForLabel(d: Doc, i: nat, fid: string)
    requires i < |d.nodes|
  {
    d.nodes[i].tag == "label" && Get(d.nodes[i], "for") == fid && VisibleText(d, i) != ""
  }

  /** The texts of the `for=fid` labels among elements `1 .. k-1`, in document order. */
  function ForLabels(d: Doc, fid: string, k: nat): seq<string>
    requires k <= |d.nodes|
  {
    if k <= 1 then []
    else ForLabels(d, fid, k - 1) + (if IsForLabel(d, k - 1, fid) then [VisibleText(d, k - 1)] else [])
  }

  /** The nearest node at or above `p` whose tag is `label`. */
  function NearestLabel(d: Doc, p: Option<nat>): (r: Option<nat>)
    requires Valid(d) && (p.Some? ==> p.value < |d.nodes|)
    ensures r.Some? ==> r.value < |d.nodes| && d.nodes[r.value].tag == "label"
    decreases if p.Some? then p.value + 1 else 0
  {
    if p.None? then None
    else if d.nodes[p.value].tag == "label" then p
    else
      ParentBelow(d, p.value);
      NearestLabel(d, d.nodes[p.value].parent)
  }

  /** The text of the wrapping label, if it has any. */
  function WrapLabel(d: Doc, f: nat): seq<string>
    requires Valid(d) && f < |d.nodes|
  {
    ParentBelow(d, f);
    match NearestLabel(d, d.nodes[f].parent)
    case None => []
    case Some(l) => if VisibleText(d, l) != "" then [VisibleText(d, l)] else []
  }

  /** Everything `label_text_for_field` collects, before deduplication. */
  function LabelSources(d: Doc, f: nat): seq<string>
    requires Valid(d) && f < |d.nodes|
  {
    var fid := Get(d.nodes[f], "id");
    (if fid != "" then ForLabels(d, fid, |d.nodes|) else []) + WrapLabel(d, f)
  }

  function Labels(d: Doc, f: nat): seq<string>
    requires Valid(d) && f < |d.nodes|
  {
    Dedupe(LabelSources(d, f))
  }

  /** The first loop of `label_text_for_field`: the texts of the `for=fid` labels. */
  method CollectForLabels(d: Doc, fid: string) returns (texts: seq<string>)
    ensures texts == ForLabels(d, fid, |d.nodes|)
  {
    texts := [];
    var i := 1;
    if |d.nodes| == 0 {
      return;
    }
    while i < |d.nodes|
      invariant 1 <= i <= |d.nodes|
      invariant texts == ForLabels(d, fid, i)
    {
      if IsForLabel(d, i, fid) {
        texts := texts + [VisibleText(d, i)];
      }
      i := i + 1;
    }
  }

  /** The walk of `label_text_for_field` from the field's parent up to the nearest `label`. */
  method FindWrapLabel(d: Doc, f: nat) returns (texts: seq<string>)
    requires Valid(d) && f < |d.nodes|
    ensures texts == WrapLabel(d, f)
  {
    ParentBelow(d, f);
    var parent: Option<nat> := d.nodes[f].parent;
    while parent.Some?
      invariant parent.Some? ==> parent.value < |d.nodes|
      invariant NearestLabel(d, parent) == NearestLabel(d, d.nodes[f].parent)
      decreases if parent.Some? then parent.value + 1 else 0
    {
      var p := parent.value;
      if d.nodes[p].tag == "label" {
        var lt := VisibleText(d, p);
        texts := if lt != "" then [lt] else [];
        return;
      }
      ParentBelow(d, p);
      parent := d.nodes[p].parent;
    }
    texts := [];
  }

  /** `label_text_for_field`. */
  method LabelTexts(d: Doc, f: nat) returns (texts: seq<string>)
    requires Valid(d) && 1 <= f < |d.nodes|
    ensures texts == Labels(d, f)
    ensures NoDups(texts)
    ensures forall t :: t in texts ==> t != "" && IsNormal(t)
  {
    var fid := Get(d.nodes[f], "id");
    var byFor: seq<string> := [];
    if fid != "" {
      byFor := CollectForLabels(d, fid);
    }
    var wrap := FindWrapLabel(d, f);
    texts := Dedupe(byFor + wrap);
    LabelsShape(d, f);
  }

  /** The label texts are distinct, non-empty and normalised. */
  lemma LabelsShape(d: Doc, f: nat)
    requires Valid(d) && f < |d.nodes|
    ensures NoDups(Labels(d, f))
    ensures forall t :: t in Labels(d, f) ==> t != "" && IsNormal(t)
  {
    SourcesNormal(d, f);
    DedupeSpec(LabelSources(d, f));
  }

  lemma {:induction false} ForLabelsNormal(d: Doc, fid: string, k: nat)
    requires k <= |d.nodes|
    ensures forall t :: t in ForLabels(d, fid, k) ==> t != "" && IsNormal(t)
  {
    if k > 1 {
      ForLabelsNormal(d, fid, k - 1);
      NormIsNormal(d.nodes[k - 1].text);
    }
  }

  lemma SourcesNormal(d: Doc, f: nat)
    requires Valid(d) && f < |d.nodes|
    ensures forall t :: t in LabelSources(d, f) ==> t != "" && IsNormal(t)
  {
    ForLabelsNormal(d, Get(d.nodes[f], "id"), |d.nodes|);
    ParentBelow(d, f);
    var l := NearestLabel(d, d.nodes[f].parent);
    if l.Some? {
      NormIsNormal(d.nodes[l.value].text);
    }
  }

  // ---------------------------------------------------------------
  // Sibling hints
  // ---------------------------------------------------------------

  /** The default length limit of `nearby_text_hints`. */
  const MaxHintLen: nat := 80

  /** A sibling text kept as a hint. */
  predicate IsHint(d: Doc, c: nat, f: nat, maxLen: nat)
    requires c < |d.nodes|
  {
    c != f && VisibleText(d, c) != "" && |VisibleText(d, c)| <= maxLen
  }

  /** `t` is the text of a sibling of element `f` that is kept as a hint. */
  predicate IsSiblingText(d: Doc, f: nat, maxLen: nat, t: string)
    requires Valid(d) && 1 <= f < |d.nodes|
  {
    var ch := d.nodes[ParentOf(d, f)].children;
    exists c :: c in ch && c < |d.nodes| && IsHint(d, c, f, maxLen) && VisibleText(d, c) == t
  }

  /** The hint texts among the first `k` children `ch` of the field's parent. */
  function SiblingTexts(d: Doc, ch: seq<nat>, f: nat, maxLen: nat, k: nat): seq<string>
    requires k <= |ch| && forall j :: 0 <= j < |ch| ==> ch[j] < |d.nodes|
  {
    if k == 0 then []
    else
      var last := if IsHint(d, ch[k - 1], f, maxLen) then [VisibleText(d, ch[k - 1])] else [];
      SiblingTexts(d, ch, f, maxLen, k - 1) + last
  }

  function HintSources(d: Doc, f: nat, maxLen: nat): seq<string>
    requires Valid(d) && f < |d.nodes|
  {
    ParentBelow(d, f);
    match d.nodes[f].parent
    case None => []
    case Some(p) =>
      ChildrenIn(d, p);
      SiblingTexts(d, d.nodes[p].children, f, maxLen, |d.nodes[p].children|)
  }

  function HintTexts(d: Doc, f: nat, maxLen: nat): seq<string>
    requires Valid(d) && f < |d.nodes|
  {
    Dedupe(HintSources(d, f, maxLen))
  }

  /** The loop of `nearby_text_hints` over the children `ch` of the field's parent. */
  method CollectSiblingTexts(d: Doc, ch: seq<nat>, f: nat, maxLen: nat) returns (texts: seq<string>)
    requires forall j :: 0 <= j < |ch| ==> ch[j] < |d.nodes|
    ensures texts == SiblingTexts(d, ch, f, maxLen, |ch|)
  {
    texts := [];
    var i := 0;
    while i < |ch|
      invariant 0 <= i <= |ch|
      invariant texts == SiblingTexts(d, ch, f, maxLen, i)
    {
      var c := ch[i];
      var t := VisibleText(d, c);
      SiblingTextsStep(d, ch, f, maxLen, i);
      if c != f && t != "" && |t| <= maxLen {
        texts := texts + [t];
      }
      i := i + 1;
    }
  }

  /** One more child: its text is appended when it is a hint. */
  lemma SiblingTextsStep(d: Doc, ch: seq<nat>, f: nat, maxLen: nat, k: nat)
    requires k < |ch| && forall j :: 0 <= j < |ch| ==> ch[j] < |d.nodes|
    ensures IsHint(d, ch[k], f, maxLen) ==>
      SiblingTexts(d, ch, f, maxLen, k + 1) == SiblingTexts(d, ch, f, maxLen, k) + [VisibleText(d, ch[k])]
    ensures !IsHint(d, ch[k], f, maxLen) ==>
      SiblingTexts(d, ch, f, maxLen, k + 1) == SiblingTexts(d, ch, f, maxLen, k)
  {
  }

  /** `nearby_text_hints`. */
  method NearbyHints(d: Doc, f: nat, maxLen: nat) returns (texts: seq<string>)
    requires Valid(d) && 1 <= f < |d.nodes|
    ensures texts == HintTexts(d, f, maxLen)
    ensures NoDups(texts)
    ensures forall t :: t in texts ==> t != "" && |t| <= maxLen && IsNormal(t)
    ensures forall t :: t in texts ==> IsSiblingText(d, f, maxLen, t)
  {
    var p := ParentOf(d, f);
    ChildrenIn(d, p);
    var raw := CollectSiblingTexts(d, d.nodes[p].children, f, maxLen);
    texts := Dedupe(raw);
    HintsShape(d, f, maxLen);
  }

  lemma {:induction false} SiblingTextsFrom(d: Doc, ch: seq<nat>, f: nat, maxLen: nat, k: nat)
    requires k <= |ch| && forall j :: 0 <= j < |ch| ==> ch[j] < |d.nodes|
    ensures forall t :: t in SiblingTexts(d, ch, f, maxLen, k) ==>
      exists c :: c in ch && c < |d.nodes| && IsHint(d, c, f, maxLen) && VisibleText(d, c) == t
    ensures forall t :: t in SiblingTexts(d, ch, f, maxLen, k) ==> IsNormal(t)
  {
    if k > 0 {
      SiblingTextsFrom(d, ch, f, maxLen, k - 1);
      assert ch[k - 1] in ch;
      NormIsNormal(d.nodes[ch[k - 1]].text);
    }
  }

  /** The hints are distinct, each the text of a sibling other than the field, non-empty and at most `maxLen` long. */
  lemma HintsShape(d: Doc, f: nat, maxLen: nat)
    requires Valid(d) && 1 <= f < |d.nodes|
    ensures NoDups(HintTexts(d, f, maxLen))
    ensures forall t :: t in HintTexts(d, f, maxLen) ==> t != "" && |t| <= maxLen && IsNormal(t)
    ensures forall t :: t in HintTexts(d, f, maxLen) ==> IsSiblingText(d, f, maxLen, t)
  {
    var p := ParentOf(d, f);
    var ch := d.nodes[p].children;
    ChildrenIn(d, p);
    SiblingTextsFrom(d, ch, f, maxLen, |ch|);
    var src := HintSources(d, f, maxLen);
    assert src == SiblingTexts(d, ch, f, maxLen, |ch|);
    DedupeSpec(src);
    forall t | t in HintTexts(d, f, maxLen) ensures IsSiblingText(d, f, maxLen, t) {
      assert t in src;
    }
  }
}
