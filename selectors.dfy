/**
 * The selectors the resolver writes, what they match, and their text.
 * A selector is a chain of compound selectors joined by the child
 * combinator `>`; `Query` stands for `soup.select`, returning the matching
 * elements in document order.  Only the selector shapes the resolver can
 * produce are modelled.
 */
module Selectors {
  import opened Wrappers
  import opened Text
  import opened Dom

  /**
   * One compound selector.  `tag` is `None` for the bare `#id` and `[a="v"]`
   * forms.  `RootStep` is what the structural walk writes for the parser's
   * document root: the text `[document]`, which CSS reads as "has an
   * attribute named `document`".
   */
  datatype Compound =
    | ById(tag: Option<string>, id: string)
    | ByAttr(tag: Option<string>, name: string, value: string)
    | ByClass(elem: string, cls: string)
    | NthOfType(elem: string, index: nat)
    | RootStep

  /** Outermost step first; the last step is the one the selected element matches. */
  type Selector = seq<Compound>

  /** The attribute the CSS reading of `[document]` asks for. */
  const RootAttr: string := "document"

  // ---------------------------------------------------------------
  // Sibling positions
  // ---------------------------------------------------------------

  /** How many of the nodes `ch[..k]` carry tag `t`. */
  function CountTag(d: Doc, ch: seq<nat>, t: string, k: nat): nat
    requires k <= |ch| && forall j :: 0 <= j < |ch| ==> ch[j] < |d.nodes|
  {
    if k == 0 then 0
    else CountTag(d, ch, t, k - 1) + (if d.nodes[ch[k - 1]].tag == t then 1 else 0)
  }

  /** The 1-based position of element `x` among its parent's children with the same tag. */
  function TypeIndex(d: Doc, x: nat): nat
    requires Valid(d) && 1 <= x < |d.nodes|
  {
    var p := ParentOf(d, x);
    ChildrenIn(d, p);
    var ch := d.nodes[p].children;
    1 + CountTag(d, ch, d.nodes[x].tag, FirstIndex(ch, x))
  }

  /** `CountTag` never decreases as more children are counted. */
  lemma {:induction false} CountTagMono(d: Doc, ch: seq<nat>, t: string, i: nat, j: nat)
    requires i <= j <= |ch| && forall k :: 0 <= k < |ch| ==> ch[k] < |d.nodes|
    ensures CountTag(d, ch, t, i) <= CountTag(d, ch, t, j)
    decreases j
  {
    if i < j {
      CountTagMono(d, ch, t, i, j - 1);
    }
  }

  /** Of two same-tag siblings, the earlier has the smaller type index. */
  lemma TypeIndexOrder(d: Doc, x: nat, y: nat)
    requires Valid(d) && 1 <= x < |d.nodes| && 1 <= y < |d.nodes|
    requires ParentOf(d, x) == ParentOf(d, y) && d.nodes[x].tag == d.nodes[y].tag
    requires FirstIndex(d.nodes[ParentOf(d, x)].children, x) < FirstIndex(d.nodes[ParentOf(d, x)].children, y)
    ensures TypeIndex(d, x) < TypeIndex(d, y)
  {
    var p := ParentOf(d, x);
    ChildrenIn(d, p);
    var ch := d.nodes[p].children;
    CountTagMono(d, ch, d.nodes[x].tag, FirstIndex(ch, x) + 1, FirstIndex(ch, y));
  }

  /** `nth-of-type` counts in document order: of two same-tag siblings, the one with the smaller index has the smaller type index. */
  lemma TypeIndexFollowsOrder(d: Doc, x: nat, y: nat)
    requires Valid(d) && 1 <= x < y < |d.nodes|
    requires ParentOf(d, x) == ParentOf(d, y) && d.nodes[x].tag == d.nodes[y].tag
    ensures TypeIndex(d, x) < TypeIndex(d, y)
  {
    ChildrenIn(d, ParentOf(d, x));
    TypeIndexOrder(d, x, y);
  }

  /** Distinct siblings with the same tag have distinct type indices, so `tag:nth-of-type(k)` picks one child. */
  lemma SiblingsDiffer(d: Doc, x: nat, y: nat)
    requires Valid(d) && 1 <= x < |d.nodes| && 1 <= y < |d.nodes| && x != y
    requires ParentOf(d, x) == ParentOf(d, y) && d.nodes[x].tag == d.nodes[y].tag
    ensures TypeIndex(d, x) != TypeIndex(d, y)
  {
    var ch := d.nodes[ParentOf(d, x)].children;
    if FirstIndex(ch, x) < FirstIndex(ch, y) {
      TypeIndexOrder(d, x, y);
    } else {
      TypeIndexOrder(d, y, x);
    }
  }

  // ---------------------------------------------------------------
  // Matching
  // ---------------------------------------------------------------

  predicate TagMatches(n: Node, tag: Option<string>) {
    tag.None? || n.tag == tag.value
  }

  /** `a in el.attrs and el.attrs[a] == v`. */
  predicate HasValue(n: Node, a: string, v: string) {
    a in n.attrs && n.attrs[a] == v
  }

  /** Node `n` matches a compound that looks only at the node itself (every kind but `NthOfType`). */
  predicate NodeMatches(n: Node, c: Compound) {
    match c
    case ById(tag, id) => TagMatches(n, tag) && HasValue(n, "id", id)
    case ByAttr(tag, a, v) => TagMatches(n, tag) && HasValue(n, a, v)
    case ByClass(tag, cls) => n.tag == tag && cls in n.classes
    case NthOfType(_, _) => false
    case RootStep => RootAttr in n.attrs
  }

  /** Node `x` matches one compound selector. */
  predicate StepMatches(d: Doc, x: nat, c: Compound)
    requires Valid(d) && x < |d.nodes|
  {
    match c
    case NthOfType(tag, k) => 1 <= x && d.nodes[x].tag == tag && TypeIndex(d, x) == k
    case _ => NodeMatches(d.nodes[x], c)
  }

  /** Node `x` matches the chain `s`: its last step, and the rest on its parent. */
  predicate ChainMatches(d: Doc, x: nat, s: Selector)
    requires Valid(d) && x < |d.nodes|
    decreases |s|
  {
    if s == [] then false
    else
      && StepMatches(d, x, s[|s| - 1])
      && (|s| == 1 || (1 <= x && ChainMatches(d, ParentOf(d, x), s[..|s| - 1])))
  }

  /** The elements among `1 .. k-1` that match `s`, in document order. */
  function QueryUpTo(d: Doc, s: Selector, k: nat): seq<nat>
    requires Valid(d) && 1 <= k <= |d.nodes|
  {
    if k == 1 then []
    else QueryUpTo(d, s, k - 1) + (if ChainMatches(d, k - 1, s) then [k - 1] else [])
  }

  /** `soup.select(selector)`: every element matching `s`, in document order. */
  function Query(d: Doc, s: Selector): seq<nat>
    requires Valid(d)
  {
    QueryUpTo(d, s, |d.nodes|)
  }

  /** `selector_is_unique`: the query returns `el` and nothing else. */
  predicate IsUnique(d: Doc, s: Selector, el: nat)
    requires Valid(d)
  {
    Query(d, s) == [el]
  }

  /** The query returns exactly the matching elements, each once, in document order. */
  lemma {:induction false} QueryUpToSpec(d: Doc, s: Selector, k: nat)
    requires Valid(d) && 1 <= k <= |d.nodes|
    ensures forall x :: x in QueryUpTo(d, s, k) <==> 1 <= x < k && ChainMatches(d, x, s)
    ensures forall i, j :: 0 <= i < j < |QueryUpTo(d, s, k)| ==> QueryUpTo(d, s, k)[i] < QueryUpTo(d, s, k)[j]
  {
    if k > 1 {
      QueryUpToSpec(d, s, k - 1);
      var p := QueryUpTo(d, s, k - 1);
      var q := QueryUpTo(d, s, k);
      forall i, j | 0 <= i < j < |q| ensures q[i] < q[j] {
        if j >= |p| {
          assert q[i] == p[i] && p[i] in p;
        } else {
          assert q[i] == p[i] && q[j] == p[j];
        }
      }
    }
  }

  /** When `el` is the only element matching `s`, the query up to `k` holds `el` once it is below `k`. */
  lemma {:induction false} QueryOnly(d: Doc, s: Selector, el: nat, k: nat)
    requires Valid(d) && 1 <= el < |d.nodes| && ChainMatches(d, el, s)
    requires forall x :: 1 <= x < |d.nodes| && x != el ==> !ChainMatches(d, x, s)
    requires 1 <= k <= |d.nodes|
    ensures QueryUpTo(d, s, k) == if el < k then [el] else []
  {
    if k > 1 {
      QueryOnly(d, s, el, k - 1);
    }
  }

  /** A selector that `el` matches and no other element matches is unique for `el`. */
  lemma UniqueFromMatches(d: Doc, s: Selector, el: nat)
    requires Valid(d) && 1 <= el < |d.nodes| && ChainMatches(d, el, s)
    requires forall x :: 1 <= x < |d.nodes| && x != el ==> !ChainMatches(d, x, s)
    ensures IsUnique(d, s, el)
  {
    QueryOnly(d, s, el, |d.nodes|);
  }

  /** A unique selector for `el` matches `el` and no other element. */
  lemma MatchesFromUnique(d: Doc, s: Selector, el: nat)
    requires Valid(d) && IsUnique(d, s, el)
    ensures 1 <= el < |d.nodes| && ChainMatches(d, el, s)
    ensures forall x :: 1 <= x < |d.nodes| && x != el ==> !ChainMatches(d, x, s)
  {
    QueryUpToSpec(d, s, |d.nodes|);
    assert el in Query(d, s);
  }

  /** No element carries the root step: a chain that contains it matches nothing. */
  lemma RootStepMatchesNothing(d: Doc, x: nat, s: Selector)
    requires Valid(d) && x < |d.nodes| && RootStep in s
    requires forall y :: 0 <= y < |d.nodes| ==> RootAttr !in d.nodes[y].attrs
    ensures !ChainMatches(d, x, s)
    decreases |s|
  {
    if s != [] && StepMatches(d, x, s[|s| - 1]) && |s| > 1 && 1 <= x {
      assert s == s[..|s| - 1] + [s[|s| - 1]];
      RootStepMatchesNothing(d, ParentOf(d, x), s[..|s| - 1]);
    }
  }

  // ---------------------------------------------------------------
  // Text
  // ---------------------------------------------------------------

  function DigitChar(k: nat): char
    requires k < 10
  {
    "0123456789"[k]
  }

  /** `str(n)`. */
  function NatToString(n: nat): (s: string)
    ensures s != [] && forall i :: 0 <= i < |s| ==> IsDigit(s[i])
  {
    if n < 10 then [DigitChar(n)] else NatToString(n / 10) + [DigitChar(n % 10)]
  }

  function TagPrefix(tag: Option<string>): string {
    if tag.Some? then tag.value else ""
  }

  /** The text of one compound, as the f-strings of the selector builders write it. */
  function RenderStep(c: Compound): string {
    match c
    case ById(tag, id) => TagPrefix(tag) + "#" + id
    case ByAttr(tag, a, v) => TagPrefix(tag) + AttrEquals(a, v)
    case ByClass(tag, cls) => tag + "." + cls
    case NthOfType(tag, k) => tag + ":nth-of-type(" + NatToString(k) + ")"
    case RootStep => RootTag
  }

  /** `" > ".join(steps)`. */
  function Render(s: Selector): string {
    if s == [] then ""
    else if |s| == 1 then RenderStep(s[0])
    else Render(s[..|s| - 1]) + " > " + RenderStep(s[|s| - 1])
  }
}
