/**
 * The parsed document and the eligibility predicates.  The tree is an arena of
 * nodes addressed by index in document order (pre-order, the order of
 * `find_all(True)`): node 0 is the parser's document root, every other node is
 * an element whose parent has a smaller index, so walks towards the root
 * terminate, and a node's children are listed in index order.  Tag and attribute names are lower-case, as
 * the HTML parser delivers them; the source's `.lower()` on a tag name is
 * therefore the identity and is not repeated here.
 */
module Dom {
  import opened Wrappers
  import opened Text
  import opened Tasks

  /** One node: `classes` is the parser's split `class` attribute, `text` the node's
      visible text (all descendant strings joined by spaces). */
  datatype Node = Node(
    tag: string,
    attrs: map<string, string>,
    classes: seq<string>,
    children: seq<nat>,
    parent: Option<nat>,
    text: string)

  datatype Doc = Doc(nodes: seq<Node>)

  /** The name the parser gives its document root. */
  const RootTag: string := "[document]"

  predicate LowerCase(s: string) {
    forall i :: 0 <= i < |s| ==> !IsUpper(s[i])
  }

  /** Node `a` is node `x` or one of its ancestors. */
  predicate AncestorOrSelf(d: Doc, a: nat, x: nat)
    requires x < |d.nodes|
    decreases x
  {
    || a == x
    || (d.nodes[x].parent.Some? && d.nodes[x].parent.value < x && AncestorOrSelf(d, a, d.nodes[x].parent.value))
  }

  /**
   * Element `i` hangs below a node with a smaller index that lists it as a
   * child.  In pre-order the node after `i - 1` is its first child or the next
   * sibling of `i - 1` or of one of its ancestors, so the parent of `i` is
   * `i - 1` or one of its ancestors.
   */
  predicate ElementOk(d: Doc, i: nat)
    requires 1 <= i < |d.nodes|
  {
    var n := d.nodes[i];
    && n.parent.Some? && n.parent.value < i
    && i in d.nodes[n.parent.value].children
    && AncestorOrSelf(d, n.parent.value, i - 1)
    && n.tag != RootTag
    && LowerCase(n.tag)
  }

  /** The children of node `i` are elements that name `i` as their parent, in document order. */
  predicate ChildrenOk(d: Doc, i: nat)
    requires i < |d.nodes|
  {
    var ch := d.nodes[i].children;
    && (forall k :: 0 <= k < |ch| ==> 1 <= ch[k] < |d.nodes| && d.nodes[ch[k]].parent == Some(i))
    && (forall j, k :: 0 <= j < k < |ch| ==> ch[j] < ch[k])
  }

  predicate Valid(d: Doc) {
    && |d.nodes| >= 1
    && d.nodes[0].parent.None? && d.nodes[0].tag == RootTag
    && d.nodes[0].attrs == map[] && d.nodes[0].classes == []
    && (forall i :: 1 <= i < |d.nodes| ==> ElementOk(d, i))
    && (forall i :: 0 <= i < |d.nodes| ==> ChildrenOk(d, i))
  }

  /** The parent of an element of a valid document. */
  function ParentOf(d: Doc, i: nat): (p: nat)
    requires Valid(d) && 1 <= i < |d.nodes|
    ensures p < i && d.nodes[i].parent == Some(p)
    ensures i in d.nodes[p].children
  {
    assert ElementOk(d, i);
    d.nodes[i].parent.value
  }

  /** Every node's parent, if any, has a smaller index; only the root has none. */
  lemma ParentBelow(d: Doc, i: nat)
    requires Valid(d) && i < |d.nodes|
    ensures d.nodes[i].parent.Some? ==> d.nodes[i].parent.value < i
    ensures d.nodes[i].parent.None? <==> i == 0
  {
    if i > 0 { assert ElementOk(d, i); }
  }

  /** The children of a node are in-range elements whose parent is that node, listed in document order. */
  lemma ChildrenIn(d: Doc, i: nat)
    requires Valid(d) && i < |d.nodes|
    ensures forall k :: 0 <= k < |d.nodes[i].children| ==>
      1 <= d.nodes[i].children[k] < |d.nodes| && d.nodes[d.nodes[i].children[k]].parent == Some(i)
    ensures forall j, k :: 0 <= j < k < |d.nodes[i].children| ==> d.nodes[i].children[j] < d.nodes[i].children[k]
  {
    assert ChildrenOk(d, i);
  }

  /** `el.get(attr) or ""`. */
  function Get(n: Node, attr: string): string {
    if attr in n.attrs then n.attrs[attr] else ""
  }

  /** `el.get("type") or default`. */
  function TypeOr(n: Node, default: string): string {
    if Get(n, "type") != "" then Get(n, "type") else default
  }

  function Role(n: Node): string {
    Norm(Get(n, "role"))
  }

  /** `visible_text(el)`: the normalised text of node `i`. */
  function VisibleText(d: Doc, i: nat): string
    requires i < |d.nodes|
  {
    Norm(d.nodes[i].text)
  }

  // ---------------------------------------------------------------
  // Eligibility
  // ---------------------------------------------------------------

  const FieldTags: set<string> := {"input", "textarea", "select"}
  const FieldInvalidTypes: set<string> := {"hidden", "submit", "button", "reset", "image", "file"}
  const ClickableInputTypes: set<string> := {"button", "submit", "reset", "image"}

  /** `element_is_clickable`. */
  predicate IsClickable(n: Node) {
    if n.tag == "button" then true
    else if n.tag == "a" then Get(n, "href") != "" || Role(n) == "button"
    else if n.tag == "input" then Norm(TypeOr(n, "text")) in ClickableInputTypes
    else Role(n) == "button"
  }

  /** `element_is_field`. */
  predicate IsField(n: Node) {
    && n.tag in FieldTags
    && (n.tag == "input" ==> Norm(TypeOr(n, "text")) !in FieldInvalidTypes)
  }

  /** `element_is_select`. */
  predicate IsSelect(n: Node) {
    n.tag == "select" || Role(n) in {"combobox", "listbox"}
  }

  /** `element_is_enable_target`. */
  predicate IsEnableTarget(n: Node) {
    (n.tag == "input" && Norm(TypeOr(n, "")) == "checkbox") || Role(n) in {"switch", "checkbox"}
  }

  /** The filter `find_candidates` applies while walking the document. */
  predicate Eligible(n: Node, a: Action) {
    match a
    case Click => IsClickable(n)
    case Fill => n.tag in FieldTags && IsField(n)
    case Select => IsSelect(n) || (IsField(n) && n.tag == "select")
    case Enable => IsEnableTarget(n)
  }

  /** `matches_task_type`. */
  predicate MatchesTaskType(n: Node, a: Action) {
    match a
    case Click => IsClickable(n)
    case Fill => IsField(n)
    case Select => IsSelect(n) || n.tag == "select"
    case Enable => IsEnableTarget(n)
  }

  // ---------------------------------------------------------------
  // Properties of the predicates
  // ---------------------------------------------------------------

  /** An `input` without a `type` is a text field: fillable, not clickable. */
  lemma UntypedInputIsText(n: Node)
    requires n.tag == "input" && Get(n, "type") == ""
    ensures IsField(n) && !IsClickable(n)
  {
    PlainWordNormal("text");
  }

  /** An `input` of a non-textual type is never a field. */
  lemma InvalidTypeIsNoField(n: Node)
    requires n.tag == "input" && Norm(Get(n, "type")) in FieldInvalidTypes
    ensures !IsField(n)
  {
    NormEmpty();
    assert Get(n, "type") != "";
    assert TypeOr(n, "text") == Get(n, "type");
  }

  /** A `button` is always clickable. */
  lemma ButtonIsClickable(n: Node)
    requires n.tag == "button"
    ensures IsClickable(n)
  {
  }

  /** An anchor is clickable exactly when it has a non-empty `href` or the button role. */
  lemma AnchorClickable(n: Node)
    requires n.tag == "a"
    ensures IsClickable(n) <==> Get(n, "href") != "" || Role(n) == "button"
  {
  }

  /** Enable targets are exactly checkbox inputs and switch or checkbox roles. */
  lemma EnableTargetIff(n: Node)
    ensures IsEnableTarget(n) <==>
      (n.tag == "input" && Norm(Get(n, "type")) == "checkbox") || Role(n) == "switch" || Role(n) == "checkbox"
  {
    NormEmpty();
  }

  /** Discovery and the type check agree, so the type filter of the resolver never drops a candidate. */
  lemma EligibleIsTypeMatch(n: Node, a: Action)
    ensures Eligible(n, a) <==> MatchesTaskType(n, a)
  {
  }
}
