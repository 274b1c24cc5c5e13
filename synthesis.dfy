/**
 * Building a unique selector for one element: first from the element's own
 * attributes (`build_selector_from_attrs`), then by climbing towards the root
 * with `:nth-of-type` steps until an ancestor has an attribute selector of its
 * own (`build_structural_selector`).  Every selector returned has passed
 * `selector_is_unique`.
 */
module Synthesis {
  import opened Wrappers
  import opened Text
  import opened Dom
  import opened Selectors

  /** `PREFERRED_TEST_ATTRS`. */
  const TestAttrs: seq<string> := ["data-testid", "data-test", "data-qa", "data-cy"]

  /** The descriptive attributes tried after `name`. */
  const SemanticAttrs: seq<string> := ["aria-label", "placeholder", "title", "value", "role"]

  // ---------------------------------------------------------------
  // The attribute selectors, in the order they are tried
  // ---------------------------------------------------------------

  /** `tag#id`, then `#id`, when the id is non-empty and a plain identifier. */
  function IdCandidates(n: Node): (r: seq<Compound>)
    ensures forall c :: c in r ==> NodeMatches(n, c)
  {
    var id := Get(n, "id");
    if id != "" && SafeIdent(id) then [ById(Some(n.tag), id), ById(None, id)] else []
  }

  /** For each test attribute with a non-empty value, `tag[a="v"]` then `[a="v"]`. */
  function TestCandidates(n: Node, attrs: seq<string>): (r: seq<Compound>)
    ensures forall c :: c in r ==> NodeMatches(n, c)
    ensures forall c :: c in r ==> c.ByAttr? && c.name in attrs
    ensures r == [] <==> forall a :: a in attrs ==> Get(n, a) == ""
  {
    if attrs == [] then []
    else
      var v := Get(n, attrs[0]);
      var here := if v != "" then [ByAttr(Some(n.tag), attrs[0], v), ByAttr(None, attrs[0], v)] else [];
      here + TestCandidates(n, attrs[1..])
  }

  /** `tag[name="v"]` when `name` is non-empty. */
  function NameCandidates(n: Node): (r: seq<Compound>)
    ensures forall c :: c in r ==> NodeMatches(n, c)
  {
    var v := Get(n, "name");
    if v != "" then [ByAttr(Some(n.tag), "name", v)] else []
  }

  /** For each descriptive attribute with a non-empty value, `tag[a="v"]`. */
  function SemanticCandidates(n: Node, attrs: seq<string>): (r: seq<Compound>)
    ensures forall c :: c in r ==> NodeMatches(n, c)
    ensures forall c :: c in r ==> c.ByAttr? && c.tag == Some(n.tag) && c.name in attrs
    ensures r == [] <==> forall a :: a in attrs ==> Get(n, a) == ""
  {
    if attrs == [] then []
    else
      var v := Get(n, attrs[0]);
      var here := if v != "" then [ByAttr(Some(n.tag), attrs[0], v)] else [];
      here + SemanticCandidates(n, attrs[1..])
  }

  /** `tag.c` for each class `c` that is a plain identifier, in class-list order. */
  function ClassCandidates(n: Node, classes: seq<string>): (r: seq<Compound>)
    requires forall c :: c in classes ==> c in n.classes
    ensures forall c :: c in r ==> NodeMatches(n, c)
    ensures forall c :: c in r ==> c.ByClass? && c.elem == n.tag && SafeIdent(c.cls)
  {
    if classes == [] then []
    else
      var here := if SafeIdent(classes[0]) then [ByClass(n.tag, classes[0])] else [];
      here + ClassCandidates(n, classes[1..])
  }

  /** Every selector `build_selector_from_attrs` tries for `n`, in order. */
  function AttrCandidates(n: Node): (r: seq<Compound>)
    ensures forall c :: c in r ==> NodeMatches(n, c)
    ensures forall c :: c in r ==> c.ById? || c.ByAttr? || c.ByClass?
  {
    IdCandidates(n) + TestCandidates(n, TestAttrs) + NameCandidates(n)
      + SemanticCandidates(n, SemanticAttrs) + ClassCandidates(n, n.classes)
  }

  /** A node without attributes and classes, such as the document root, has no attribute selector. */
  lemma NoAttrsNoCandidates(n: Node)
    requires n.attrs == map[] && n.classes == []
    ensures AttrCandidates(n) == []
  {
  }

  // ---------------------------------------------------------------
  // The first unique candidate
  // ---------------------------------------------------------------

  /** The first of `cs` that, on its own, is a unique selector for `el`. */
  function FirstUnique(d: Doc, el: nat, cs: seq<Compound>): Option<Compound>
    requires Valid(d)
  {
    if cs == [] then None
    else if IsUnique(d, [cs[0]], el) then Some(cs[0])
    else FirstUnique(d, el, cs[1..])
  }

  /** The search finds a candidate that is unique for `el`, and finds none only when no candidate is. */
  lemma {:induction false} FirstUniqueSpec(d: Doc, el: nat, cs: seq<Compound>)
    requires Valid(d)
    ensures FirstUnique(d, el, cs).Some? ==>
      FirstUnique(d, el, cs).value in cs && IsUnique(d, [FirstUnique(d, el, cs).value], el)
    ensures FirstUnique(d, el, cs).None? <==> forall c :: c in cs ==> !IsUnique(d, [c], el)
  {
    if cs != [] && !IsUnique(d, [cs[0]], el) {
      FirstUniqueSpec(d, el, cs[1..]);
      assert cs == [cs[0]] + cs[1..];
    }
  }

  /** The chosen candidate sits at a position before which every candidate is ambiguous (or misses `el`). */
  lemma {:induction false} FirstUniqueIndex(d: Doc, el: nat, cs: seq<Compound>) returns (i: nat)
    requires Valid(d) && FirstUnique(d, el, cs).Some?
    ensures i < |cs| && cs[i] == FirstUnique(d, el, cs).value
    ensures forall j :: 0 <= j < i ==> !IsUnique(d, [cs[j]], el)
  {
    if IsUnique(d, [cs[0]], el) {
      i := 0;
    } else {
      var k := FirstUniqueIndex(d, el, cs[1..]);
      i := k + 1;
      forall j | 0 <= j < i ensures !IsUnique(d, [cs[j]], el) {
        if j > 0 {
          assert cs[j] == cs[1..][j - 1];
        }
      }
    }
  }

  /** The attribute selector the resolver settles on for element `el`, if any. */
  function Anchor(d: Doc, el: nat): Option<Compound>
    requires Valid(d) && el < |d.nodes|
  {
    FirstUnique(d, el, AttrCandidates(d.nodes[el]))
  }

  /** `build_selector_from_attrs`: tries the candidates in order and stops at the first unique one. */
  method BuildFromAttrs(d: Doc, el: nat) returns (sel: Option<Compound>)
    requires Valid(d) && el < |d.nodes|
    ensures sel == Anchor(d, el)
  {
    var cs := AttrCandidates(d.nodes[el]);
    var i := 0;
    while i < |cs|
      invariant 0 <= i <= |cs|
      invariant FirstUnique(d, el, cs) == FirstUnique(d, el, cs[i..])
    {
      assert cs[i..][1..] == cs[i + 1..];
      if IsUnique(d, [cs[i]], el) {
        return Some(cs[i]);
      }
      i := i + 1;
    }
    return None;
  }

  /** The anchor of every node, as the climb consults them. */
  function Anchors(d: Doc): (a: seq<Option<Compound>>)
    requires Valid(d)
    ensures |a| == |d.nodes|
  {
    seq(|d.nodes|, i requires 0 <= i < |d.nodes| => Anchor(d, i))
  }

  /** A table of anchors, one per node: each an attribute selector its node matches, none for the root. */
  predicate AnchorsFit(d: Doc, anchors: seq<Option<Compound>>)
    requires Valid(d)
  {
    && |anchors| == |d.nodes| && anchors[0] == None
    && forall i :: 0 <= i < |anchors| && anchors[i].Some? ==>
         && NodeMatches(d.nodes[i], anchors[i].value)
         && !anchors[i].value.NthOfType? && !anchors[i].value.RootStep?
  }

  /** Each anchor in the table is a unique selector for its node. */
  predicate AnchorsUnique(d: Doc, anchors: seq<Option<Compound>>)
    requires Valid(d) && |anchors| == |d.nodes|
  {
    forall i :: 0 <= i < |anchors| && anchors[i].Some? ==> IsUnique(d, [anchors[i].value], i)
  }

  /** The anchors `build_selector_from_attrs` finds fit their nodes and are unique. */
  lemma AnchorsSound(d: Doc)
    requires Valid(d)
    ensures AnchorsFit(d, Anchors(d)) && AnchorsUnique(d, Anchors(d))
  {
    var a := Anchors(d);
    forall i | 0 <= i < |a| && a[i].Some?
      ensures NodeMatches(d.nodes[i], a[i].value) && !a[i].value.NthOfType? && !a[i].value.RootStep?
    {
      AnchorFits(d, i);
    }
    forall i | 0 <= i < |a| && a[i].Some?
      ensures IsUnique(d, [a[i].value], i)
    {
      AnchorFits(d, i);
    }
    RootAnchor(d);
  }

  lemma AnchorAt(d: Doc, i: nat)
    requires Valid(d) && i < |d.nodes|
    ensures Anchors(d)[i] == Anchor(d, i)
  {
  }

  /** The root has no anchor. */
  lemma RootAnchor(d: Doc)
    requires Valid(d)
    ensures Anchors(d)[0] == None
  {
    NoAttrsNoCandidates(d.nodes[0]);
    assert Anchors(d)[0] == Anchor(d, 0);
  }

  lemma AnchorFits(d: Doc, i: nat)
    requires Valid(d) && i < |d.nodes| && Anchors(d)[i].Some?
    ensures NodeMatches(d.nodes[i], Anchors(d)[i].value)
    ensures !Anchors(d)[i].value.NthOfType? && !Anchors(d)[i].value.RootStep?
    ensures IsUnique(d, [Anchors(d)[i].value], i)
  {
    AnchorAt(d, i);
    var cs := AttrCandidates(d.nodes[i]);
    FirstUniqueSpec(d, i, cs);
    assert Anchors(d)[i].value in cs;
  }

  // ---------------------------------------------------------------
  // The structural climb
  // ---------------------------------------------------------------

  /** `max_depth`: how many `:nth-of-type` steps the climb may take. */
  const MaxDepth: nat := 7

  /**
   * The structural selector from the element `cur`, reached after `depth`
   * steps, outermost step first: the anchor of `cur` if it has one, else
   * its `tag:nth-of-type(k)` step below the parent's selector.  The climb
   * stops at the document root without writing a step for it.
   */
  function Climb(d: Doc, anchors: seq<Option<Compound>>, cur: nat, depth: nat): Selector
    requires Valid(d) && |anchors| == |d.nodes| && cur < |d.nodes| && depth <= MaxDepth
    decreases cur
  {
    if depth == MaxDepth then []
    else if anchors[cur].Some? then [anchors[cur].value]
    else if cur == 0 then []
    else Climb(d, anchors, ParentOf(d, cur), depth + 1) + [NthOfType(d.nodes[cur].tag, TypeIndex(d, cur))]
  }

  /** The climb as `build_structural_selector` writes it: at the root it writes the root's name, `[document]`. */
  function ClimbAsWritten(d: Doc, anchors: seq<Option<Compound>>, cur: nat, depth: nat): Selector
    requires Valid(d) && |anchors| == |d.nodes| && cur < |d.nodes| && depth <= MaxDepth
    decreases cur
  {
    if depth == MaxDepth then []
    else if anchors[cur].Some? then [anchors[cur].value]
    else if cur == 0 then [RootStep]
    else ClimbAsWritten(d, anchors, ParentOf(d, cur), depth + 1) + [NthOfType(d.nodes[cur].tag, TypeIndex(d, cur))]
  }

  /** `build_structural_selector` as written. */
  function StructuralAsWritten(d: Doc, el: nat): Option<Selector>
    requires Valid(d) && el < |d.nodes|
  {
    var s := ClimbAsWritten(d, Anchors(d), el, 0);
    if IsUnique(d, s, el) then Some(s) else None
  }

  /** `build_structural_selector`, with the root step left out. */
  function Structural(d: Doc, el: nat): (r: Option<Selector>)
    requires Valid(d) && el < |d.nodes|
    ensures r.Some? ==> IsUnique(d, r.value, el)
  {
    var s := Climb(d, Anchors(d), el, 0);
    if IsUnique(d, s, el) then Some(s) else None
  }

  /** At most `MaxDepth` steps of `:nth-of-type`, with an anchor only in front, and never a step for the root. */
  lemma {:induction false} ClimbShape(d: Doc, anchors: seq<Option<Compound>>, cur: nat, depth: nat)
    requires Valid(d) && AnchorsFit(d, anchors) && cur < |d.nodes| && depth <= MaxDepth
    ensures var r := Climb(d, anchors, cur, depth);
      && (forall i :: 1 <= i < |r| ==> r[i].NthOfType?)
      && (r != [] && r[0].NthOfType? ==> |r| <= MaxDepth - depth)
      && |r| <= MaxDepth + 1 - depth
      && RootStep !in r
    decreases cur
  {
    if depth < MaxDepth && anchors[cur].None? && cur != 0 {
      var p := ParentOf(d, cur);
      ClimbShape(d, anchors, p, depth + 1);
      var r := Climb(d, anchors, p, depth + 1);
      var c := NthOfType(d.nodes[cur].tag, TypeIndex(d, cur));
      assert Climb(d, anchors, cur, depth) == r + [c];
      assert r != [] ==> (r + [c])[0] == r[0];
    }
  }

  /** Matching `s + [c]`: the last step on the node, the rest on its parent. */
  lemma ChainSnoc(d: Doc, x: nat, s: Selector, c: Compound)
    requires Valid(d) && x < |d.nodes|
    ensures ChainMatches(d, x, s + [c]) <==>
      StepMatches(d, x, c) && (s == [] || (1 <= x && ChainMatches(d, ParentOf(d, x), s)))
  {
    assert (s + [c])[..|s|] == s;
  }

  /** The element the climb starts from matches its own structural selector. */
  lemma {:induction false} ClimbMatches(d: Doc, anchors: seq<Option<Compound>>, cur: nat, depth: nat)
    requires Valid(d) && AnchorsFit(d, anchors) && 1 <= cur < |d.nodes| && depth < MaxDepth
    ensures ChainMatches(d, cur, Climb(d, anchors, cur, depth))
    decreases cur
  {
    if anchors[cur].None? {
      var p := ParentOf(d, cur);
      var r := Climb(d, anchors, p, depth + 1);
      if 1 <= p && depth + 1 < MaxDepth {
        ClimbMatches(d, anchors, p, depth + 1);
      }
      ChainSnoc(d, cur, r, NthOfType(d.nodes[cur].tag, TypeIndex(d, cur)));
    }
  }

  /** The climb ended at an anchor: its first step is an attribute selector, not a position. */
  predicate Anchored(s: Selector) {
    s != [] && !s[0].NthOfType?
  }

  /** No element other than `cur` matches an anchored climb from `cur`: the anchor fixes the ancestor, each `:nth-of-type` step one child. */
  lemma {:induction false} AnchoredOnly(d: Doc, anchors: seq<Option<Compound>>, cur: nat, depth: nat, x: nat)
    requires Valid(d) && AnchorsFit(d, anchors) && AnchorsUnique(d, anchors)
    requires cur < |d.nodes| && depth <= MaxDepth && x < |d.nodes| && x != cur
    requires Anchored(Climb(d, anchors, cur, depth))
    ensures !ChainMatches(d, x, Climb(d, anchors, cur, depth))
    decreases cur
  {
    if anchors[cur].Some? {
      var a := anchors[cur].value;
      if 1 <= x {
        MatchesFromUnique(d, [a], cur);
      }
    } else {
      var p := ParentOf(d, cur);
      var r := Climb(d, anchors, p, depth + 1);
      var c := NthOfType(d.nodes[cur].tag, TypeIndex(d, cur));
      assert Climb(d, anchors, cur, depth) == r + [c];
      assert r != [] && (r + [c])[0] == r[0];
      if 1 <= x && d.nodes[x].tag == d.nodes[cur].tag {
        var px := ParentOf(d, x);
        if px != p {
          AnchoredOnly(d, anchors, p, depth + 1, px);
        } else {
          SiblingsDiffer(d, x, cur);
        }
      }
      ChainSnoc(d, x, r, c);
    }
  }

  /** A structural selector that reaches an anchor is always unique, so `build_structural_selector` then succeeds. */
  lemma AnchoredIsUnique(d: Doc, el: nat)
    requires Valid(d) && 1 <= el < |d.nodes| && Anchored(Climb(d, Anchors(d), el, 0))
    ensures Structural(d, el) == Some(Climb(d, Anchors(d), el, 0))
  {
    var s := Climb(d, Anchors(d), el, 0);
    AnchorsSound(d);
    ClimbMatches(d, Anchors(d), el, 0);
    forall x | 1 <= x < |d.nodes| && x != el ensures !ChainMatches(d, x, s) {
      AnchoredOnly(d, Anchors(d), el, 0, x);
    }
    UniqueFromMatches(d, s, el);
  }

  /** A climb as written that reaches the root puts `[document]` where the root stands, which the root does not match. */
  lemma {:induction false} RootStepMisses(d: Doc, anchors: seq<Option<Compound>>, cur: nat, depth: nat)
    requires Valid(d) && AnchorsFit(d, anchors) && cur < |d.nodes| && depth <= MaxDepth
    requires RootStep in ClimbAsWritten(d, anchors, cur, depth)
    ensures !ChainMatches(d, cur, ClimbAsWritten(d, anchors, cur, depth))
    decreases cur
  {
    if anchors[cur].None? && cur != 0 {
      var p := ParentOf(d, cur);
      var r := ClimbAsWritten(d, anchors, p, depth + 1);
      var c := NthOfType(d.nodes[cur].tag, TypeIndex(d, cur));
      assert RootStep in r;
      RootStepMisses(d, anchors, p, depth + 1);
      ChainSnoc(d, cur, r, c);
    }
  }

  /** So `build_structural_selector` as written fails for every element whose climb reaches the root. */
  lemma RootStepNeverUnique(d: Doc, el: nat)
    requires Valid(d) && el < |d.nodes| && RootStep in ClimbAsWritten(d, Anchors(d), el, 0)
    ensures StructuralAsWritten(d, el) == None
  {
    var s := ClimbAsWritten(d, Anchors(d), el, 0);
    AnchorsSound(d);
    RootStepMisses(d, Anchors(d), el, 0);
    if IsUnique(d, s, el) {
      MatchesFromUnique(d, s, el);
    }
  }

  // ---------------------------------------------------------------
  // The builders
  // ---------------------------------------------------------------

  /** The `idx` of `build_structural_selector`: the 1-based position of `cur` among its parent's children with its tag. */
  method NthIndex(d: Doc, cur: nat) returns (idx: nat)
    requires Valid(d) && 1 <= cur < |d.nodes|
    ensures idx == TypeIndex(d, cur)
  {
    var p := ParentOf(d, cur);
    ChildrenIn(d, p);
    var ch := d.nodes[p].children;
    var tag := d.nodes[cur].tag;
    ghost var at := FirstIndex(ch, cur);
    var count := 0;
    var i := 0;
    while ch[i] != cur
      invariant 0 <= i <= at
      invariant count == CountTag(d, ch, tag, i)
      decreases at - i
    {
      if d.nodes[ch[i]].tag == tag {
        count := count + 1;
      }
      i := i + 1;
    }
    idx := count + 1;
  }

  /** `reversed(chain)`: the climb collects steps innermost first. */
  function Reversed(s: seq<Compound>): (r: seq<Compound>)
    ensures |r| == |s|
    ensures forall i :: 0 <= i < |s| ==> r[i] == s[|s| - 1 - i]
  {
    if s == [] then [] else [s[|s| - 1]] + Reversed(s[..|s| - 1])
  }

  /** `anchors` lists the anchor of every node; the facts are released only where a node's anchor is computed. */
  predicate IsAnchorTable(d: Doc, anchors: seq<Option<Compound>>)
    requires Valid(d)
  {
    && |anchors| == |d.nodes|
    && forall i {:trigger Anchor(d, i)} :: 0 <= i < |d.nodes| ==> anchors[i] == Anchor(d, i)
  }

  lemma AnchorsIsTable(d: Doc)
    requires Valid(d)
    ensures IsAnchorTable(d, Anchors(d))
  {
    forall i | 0 <= i < |d.nodes| ensures Anchors(d)[i] == Anchor(d, i) {
      AnchorAt(d, i);
    }
  }

  /** The `anchor` of one climbing step. */
  method FindAnchor(d: Doc, ghost anchors: seq<Option<Compound>>, cur: nat) returns (anchor: Option<Compound>)
    requires Valid(d) && cur < |d.nodes| && IsAnchorTable(d, anchors)
    ensures anchor == anchors[cur]
  {
    anchor := BuildFromAttrs(d, cur);
  }

  /** The loop of `build_structural_selector`: the steps of the climb from `el`, innermost first. */
  method CollectChain(d: Doc, ghost anchors: seq<Option<Compound>>, el: nat) returns (chain: seq<Compound>)
    requires Valid(d) && el < |d.nodes| && IsAnchorTable(d, anchors)
    ensures Reversed(chain) == Climb(d, anchors, el, 0)
  {
    chain := [];
    var cur: nat := el;
    var depth: nat := 0;
    while depth < MaxDepth
      invariant cur < |d.nodes| && depth <= MaxDepth
      invariant Climb(d, anchors, el, 0) == Climb(d, anchors, cur, depth) + Reversed(chain)
      decreases MaxDepth - depth
    {
      var anchor := FindAnchor(d, anchors, cur);
      if anchor.Some? {
        ClimbEnds(d, anchors, cur, depth);
        ReversedSnoc(chain, anchor.value);
        chain := chain + [anchor.value];
        break;
      }
      if cur == 0 {
        ClimbEnds(d, anchors, cur, depth);
        break;
      }
      var idx := NthIndex(d, cur);
      var step := NthOfType(d.nodes[cur].tag, idx);
      ClimbStep(d, anchors, cur, depth);
      ReversedSnoc(chain, step);
      chain := chain + [step];
      cur := ParentOf(d, cur);
      depth := depth + 1;
    }
  }

  /** Where the climb stops: at an anchor, or at the root. */
  lemma ClimbEnds(d: Doc, anchors: seq<Option<Compound>>, cur: nat, depth: nat)
    requires Valid(d) && |anchors| == |d.nodes| && cur < |d.nodes| && depth < MaxDepth
    requires anchors[cur].Some? || cur == 0
    ensures Climb(d, anchors, cur, depth) == if anchors[cur].Some? then [anchors[cur].value] else []
  {
  }

  /** One step of the climb: the parent's chain, then the element's `nth-of-type` step. */
  lemma ClimbStep(d: Doc, anchors: seq<Option<Compound>>, cur: nat, depth: nat)
    requires Valid(d) && |anchors| == |d.nodes| && 1 <= cur < |d.nodes| && depth < MaxDepth
    requires anchors[cur].None?
    ensures Climb(d, anchors, cur, depth)
      == Climb(d, anchors, ParentOf(d, cur), depth + 1) + [NthOfType(d.nodes[cur].tag, TypeIndex(d, cur))]
  {
  }

  /** `build_structural_selector`: climbs from `el`, then keeps the selector only if it is unique. */
  method BuildStructural(d: Doc, el: nat) returns (sel: Option<Selector>)
    requires Valid(d) && el < |d.nodes|
    ensures sel == Structural(d, el)
  {
    AnchorsIsTable(d);
    var chain := CollectChain(d, Anchors(d), el);
    var s := Reversed(chain);
    if IsUnique(d, s, el) {
      sel := Some(s);
    } else {
      sel := None;
    }
  }

  lemma ReversedSnoc(s: seq<Compound>, x: Compound)
    ensures Reversed(s + [x]) == [x] + Reversed(s)
  {
    assert (s + [x])[..|s|] == s;
  }

  /** The selector `build_unique_selector` settles on: the element's own anchor, else the structural selector. */
  function UniqueSelector(d: Doc, el: nat): (r: Option<Selector>)
    requires Valid(d) && el < |d.nodes|
    ensures r.Some? ==> IsUnique(d, r.value, el)
  {
    AnchorAt(d, el);
    AnchorsSound(d);
    match Anchor(d, el)
    case Some(a) => Some([a])
    case None => Structural(d, el)
  }

  /** `build_unique_selector`. */
  method BuildUnique(d: Doc, el: nat) returns (sel: Option<Selector>)
    requires Valid(d) && el < |d.nodes|
    ensures sel == UniqueSelector(d, el)
  {
    var anchor := BuildFromAttrs(d, el);
    if anchor.Some? {
      return Some([anchor.value]);
    }
    sel := BuildStructural(d, el);
  }

  // ---------------------------------------------------------------
  // The root step, on a small document
  // ---------------------------------------------------------------

  /** `<div><input></div>`: no attributes anywhere. */
  function Example(): Doc {
    Doc([
      Node(RootTag, map[], [], [1], None, ""),
      Node("div", map[], [], [2], Some(0), ""),
      Node("input", map[], [], [], Some(1), "")])
  }

  lemma ExampleValid()
    ensures Valid(Example())
  {
    var d := Example();
    assert ElementOk(d, 1) && ElementOk(d, 2);
    assert ChildrenOk(d, 0) && ChildrenOk(d, 1) && ChildrenOk(d, 2);
  }

  /** A node without attributes and classes has no anchor. */
  lemma BareNodeNoAnchor(d: Doc, i: nat)
    requires Valid(d) && i < |d.nodes| && d.nodes[i].attrs == map[] && d.nodes[i].classes == []
    ensures Anchors(d)[i] == None
  {
    NoAttrsNoCandidates(d.nodes[i]);
    assert Anchors(d)[i] == Anchor(d, i);
  }

  /** No node of the example has an attribute selector of its own. */
  lemma ExampleNoAnchors()
    ensures Valid(Example())
    ensures |Anchors(Example())| == 3
    ensures forall i :: 0 <= i < 3 ==> Anchors(Example())[i] == None
  {
    ExampleValid();
    var d := Example();
    forall i | 0 <= i < 3 ensures Anchors(d)[i] == None {
      BareNodeNoAnchor(d, i);
    }
  }

  lemma ExampleTypeIndex()
    ensures Valid(Example())
    ensures TypeIndex(Example(), 1) == 1 && TypeIndex(Example(), 2) == 1
  {
    ExampleValid();
  }

  /** The structural selector of the example's `input`, with and without the root step. */
  lemma ExampleClimbs(anchors: seq<Option<Compound>>)
    requires anchors == [None, None, None]
    ensures Valid(Example())
    ensures ClimbAsWritten(Example(), anchors, 2, 0) == [RootStep, NthOfType("div", 1), NthOfType("input", 1)]
    ensures Climb(Example(), anchors, 2, 0) == [NthOfType("div", 1), NthOfType("input", 1)]
  {
    ExampleTypeIndex();
  }

  /** The corrected selector matches the example's `input` and nothing else. */
  lemma ExampleUnique()
    ensures Valid(Example())
    ensures IsUnique(Example(), [NthOfType("div", 1), NthOfType("input", 1)], 2)
  {
    ExampleTypeIndex();
    var d := Example();
    var s := [NthOfType("div", 1), NthOfType("input", 1)];
    assert s[..1] == [NthOfType("div", 1)];
    assert ChainMatches(d, 2, s);
    assert !ChainMatches(d, 1, s);
    UniqueFromMatches(d, s, 2);
  }

  /** On `<div><input></div>` the climb as written yields `[document] > div:nth-of-type(1) > input:nth-of-type(1)`, which matches nothing; without the root step the selector is unique. */
  lemma ExampleRootStep()
    ensures Valid(Example())
    ensures StructuralAsWritten(Example(), 2) == None
    ensures Structural(Example(), 2) == Some([NthOfType("div", 1), NthOfType("input", 1)])
  {
    ExampleNoAnchors();
    var a := Anchors(Example());
    assert a == [None, None, None];
    ExampleClimbs(a);
    ExampleUnique();
    RootStepNeverUnique(Example(), 2);
  }
}
