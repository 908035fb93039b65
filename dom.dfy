/** The slice of the DOM that the table plugin reads, as an arena: every node has an
    id (its index), a parent id and the ordered ids of its `childNodes`. */
module Dom {

  datatype Option<T> = None | Some(value: T)

  type NodeId = nat

  /** One DOM node. `name` is `nodeName`: the upper-case tag of an element, "#text" for
      a text node. The serialisations `textContent` and `outerHTML`, and CSS resolution
      of `style.textAlign`, are taken as given strings. */
  datatype Node = Node(
    name: string,
    align: string,          // the `align` attribute; "" when absent
    textAlign: string,      // `style.textAlign`; "" when unset or for a non-element
    colspan: Option<int>,   // parseInt(getAttribute('colspan') || '1', 10); None for NaN
    text: string,           // textContent
    outerHtml: string,      // outerHTML
    parent: Option<NodeId>,
    children: seq<NodeId>)

  datatype Tree = Tree(nodes: seq<Node>)

  /** A tree: children have larger ids than their parent and point back to it, every
      node with a parent is among its children, and no child is listed twice. */
  ghost predicate WF(doc: Tree) {
    && (forall n, k | 0 <= n < |doc.nodes| && 0 <= k < |doc.nodes[n].children| ::
          n < doc.nodes[n].children[k] < |doc.nodes| &&
          doc.nodes[doc.nodes[n].children[k]].parent == Some(n))
    && (forall n | 0 <= n < |doc.nodes| && doc.nodes[n].parent.Some? ::
          doc.nodes[n].parent.value < n && n in doc.nodes[doc.nodes[n].parent.value].children)
    && (forall n, k, l | 0 <= n < |doc.nodes| && 0 <= k < l < |doc.nodes[n].children| ::
          doc.nodes[n].children[k] != doc.nodes[n].children[l])
  }

  /** Stands for an id outside the arena, which a well-formed tree never hands out. */
  const Detached := Node("", "", "", Some(1), "", "", None, [])

  function NodeAt(doc: Tree, n: NodeId): Node {
    if n < |doc.nodes| then doc.nodes[n] else Detached
  }

  function Name(doc: Tree, n: NodeId): string { NodeAt(doc, n).name }

  function Kids(doc: Tree, n: NodeId): seq<NodeId> { NodeAt(doc, n).children }

  function ParentOf(doc: Tree, n: NodeId): Option<NodeId> { NodeAt(doc, n).parent }

  lemma KidOf(doc: Tree, n: NodeId, c: NodeId)
    requires WF(doc) && c in Kids(doc, n)
    ensures n < c < |doc.nodes| && ParentOf(doc, c) == Some(n)
  {
    var k :| 0 <= k < |Kids(doc, n)| && Kids(doc, n)[k] == c;
  }

  lemma ParentFacts(doc: Tree, n: NodeId)
    requires WF(doc) && ParentOf(doc, n).Some?
    ensures ParentOf(doc, n).value < n < |doc.nodes|
    ensures n in Kids(doc, ParentOf(doc, n).value)
  {
  }

  /** `Array.prototype.indexOf`: the first position of `x` in `s`, -1 when absent. */
  function IndexOf(s: seq<NodeId>, x: NodeId): (r: int)
    ensures -1 <= r
    ensures r == -1 <==> x !in s
    ensures 0 <= r ==> r < |s| && s[r] == x && x !in s[..r]
  {
    if s == [] then -1
    else if s[0] == x then 0
    else
      var r := IndexOf(s[1..], x);
      assert s == [s[0]] + s[1..];
      if r == -1 then -1
      else
        assert s[..r + 1] == [s[0]] + s[1..][..r];
        r + 1
  }

  /** `firstChild`. */
  function FirstChild(doc: Tree, n: NodeId): Option<NodeId> {
    if Kids(doc, n) == [] then None else Some(Kids(doc, n)[0])
  }

  /** `previousSibling`. */
  function PreviousSibling(doc: Tree, n: NodeId): (r: Option<NodeId>)
    ensures r.Some? ==> ParentOf(doc, n).Some?
  {
    match ParentOf(doc, n)
    case None => None
    case Some(p) =>
      var i := IndexOf(Kids(doc, p), n);
      if i > 0 then Some(Kids(doc, p)[i - 1]) else None
  }

  /** The previous sibling is the child just before `n` among its parent's children;
      there is none exactly for a node without a parent and for a first child. */
  lemma PreviousSiblingSpec(doc: Tree, n: NodeId)
    requires WF(doc) && n < |doc.nodes|
    ensures var r := PreviousSibling(doc, n);
      && (r.None? <==> ParentOf(doc, n).None? || Kids(doc, ParentOf(doc, n).value)[0] == n)
      && (r.Some? ==> var kids := Kids(doc, ParentOf(doc, n).value);
                      exists i | 0 < i < |kids| :: kids[i] == n && kids[i - 1] == r.value)
  {
    if ParentOf(doc, n).Some? {
      ParentFacts(doc, n);
    }
  }

  /** `a` is a strict ancestor of `d`: reached from `d` by following parent links. */
  ghost predicate IsAncestor(doc: Tree, a: NodeId, d: NodeId)
    decreases d
  {
    match ParentOf(doc, d)
    case None => false
    case Some(p) => p < d && (p == a || IsAncestor(doc, a, p))
  }

  lemma {:induction false} AncestorBelow(doc: Tree, a: NodeId, d: NodeId)
    requires IsAncestor(doc, a, d)
    ensures a < d
    decreases d
  {
    var p := ParentOf(doc, d).value;
    if p != a {
      AncestorBelow(doc, a, p);
    }
  }

  lemma {:induction false} AncestorThroughChild(doc: Tree, n: NodeId, c: NodeId, d: NodeId)
    requires ParentOf(doc, c) == Some(n) && n < c
    requires IsAncestor(doc, c, d)
    ensures IsAncestor(doc, n, d)
    decreases d
  {
    var p := ParentOf(doc, d).value;
    if p != c {
      AncestorThroughChild(doc, n, c, p);
    }
  }

  /** Whether some strict descendant of `n` satisfies `P`: the child-first depth-first
      search of `nodeContains` and `nodeContainsTable`. */
  function SubtreeAny(doc: Tree, n: NodeId, P: NodeId -> bool): bool
    requires WF(doc) && n < |doc.nodes|
    decreases |doc.nodes| - n, 1, 0
  {
    KidsAny(doc, n, Kids(doc, n), P)
  }

  function KidsAny(doc: Tree, n: NodeId, kids: seq<NodeId>, P: NodeId -> bool): bool
    requires WF(doc) && n < |doc.nodes|
    requires forall c | c in kids :: c in Kids(doc, n)
    decreases |doc.nodes| - n, 0, |kids|
  {
    if kids == [] then false
    else
      KidOf(doc, n, kids[0]);
      P(kids[0]) || SubtreeAny(doc, kids[0], P) || KidsAny(doc, n, kids[1..], P)
  }

  lemma {:induction false} KidsAnyWitness(doc: Tree, n: NodeId, kids: seq<NodeId>, P: NodeId -> bool)
    requires WF(doc) && n < |doc.nodes|
    requires forall c | c in kids :: c in Kids(doc, n)
    requires KidsAny(doc, n, kids, P)
    ensures exists d | n < d < |doc.nodes| :: IsAncestor(doc, n, d) && P(d)
    decreases |doc.nodes| - n, 0, |kids|
  {
    var c := kids[0];
    KidOf(doc, n, c);
    if P(c) {
      assert IsAncestor(doc, n, c);
    } else if SubtreeAny(doc, c, P) {
      KidsAnyWitness(doc, c, Kids(doc, c), P);
      var d :| c < d < |doc.nodes| && IsAncestor(doc, c, d) && P(d);
      AncestorThroughChild(doc, n, c, d);
    } else {
      KidsAnyWitness(doc, n, kids[1..], P);
    }
  }

  lemma {:induction false} KidsAnyMember(doc: Tree, n: NodeId, kids: seq<NodeId>, c: NodeId, P: NodeId -> bool)
    requires WF(doc) && n < |doc.nodes|
    requires forall k | k in kids :: k in Kids(doc, n)
    requires c in kids && c < |doc.nodes| && (P(c) || SubtreeAny(doc, c, P))
    ensures KidsAny(doc, n, kids, P)
    decreases |kids|
  {
    if kids[0] != c {
      KidsAnyMember(doc, n, kids[1..], c, P);
    }
  }

  lemma {:induction false} AncestorSees(doc: Tree, n: NodeId, d: NodeId, P: NodeId -> bool)
    requires WF(doc) && n < |doc.nodes| && d < |doc.nodes|
    requires IsAncestor(doc, n, d) && (P(d) || SubtreeAny(doc, d, P))
    ensures SubtreeAny(doc, n, P)
    decreases d
  {
    var p := ParentOf(doc, d).value;
    ParentFacts(doc, d);
    KidsAnyMember(doc, p, Kids(doc, p), d, P);
    if p != n {
      AncestorSees(doc, n, p, P);
    }
  }

  /** The search finds exactly the strict descendants satisfying `P`. */
  lemma SubtreeAnyIff(doc: Tree, n: NodeId, P: NodeId -> bool)
    requires WF(doc) && n < |doc.nodes|
    ensures SubtreeAny(doc, n, P) <==> exists d | n < d < |doc.nodes| :: IsAncestor(doc, n, d) && P(d)
  {
    if SubtreeAny(doc, n, P) {
      KidsAnyWitness(doc, n, Kids(doc, n), P);
    }
    if exists d | n < d < |doc.nodes| :: IsAncestor(doc, n, d) && P(d) {
      var d :| n < d < |doc.nodes| && IsAncestor(doc, n, d) && P(d);
      AncestorSees(doc, n, d, P);
    }
  }

  /** The `tr` elements among `kids`, in order. */
  function TrKids(doc: Tree, kids: seq<NodeId>): seq<NodeId> {
    if kids == [] then []
    else (if Name(doc, kids[0]) == "TR" then [kids[0]] else []) + TrKids(doc, kids[1..])
  }

  /** The `tr` elements among `kids`, and nothing else. */
  lemma {:induction false} TrKidsIff(doc: Tree, kids: seq<NodeId>, x: NodeId)
    ensures x in TrKids(doc, kids) <==> x in kids && Name(doc, x) == "TR"
    decreases |kids|
  {
    if kids != [] {
      TrKidsIff(doc, kids[1..], x);
      assert x in kids <==> x == kids[0] || x in kids[1..];
    }
  }

  /** The rows of every `section` element among `kids`, in tree order. */
  function SectionRows(doc: Tree, kids: seq<NodeId>, section: string): seq<NodeId> {
    if kids == [] then []
    else
      (if Name(doc, kids[0]) == section then TrKids(doc, Kids(doc, kids[0])) else [])
      + SectionRows(doc, kids[1..], section)
  }

  /** The `tr` children of a table, and the rows of its `tbody` children, in tree order. */
  function BodyRows(doc: Tree, kids: seq<NodeId>): seq<NodeId> {
    if kids == [] then []
    else
      (if Name(doc, kids[0]) == "TR" then [kids[0]]
       else if Name(doc, kids[0]) == "TBODY" then TrKids(doc, Kids(doc, kids[0]))
       else [])
      + BodyRows(doc, kids[1..])
  }

  /** `HTMLTableElement.rows`: the rows of the `thead` children first, then the direct
      `tr` children and the rows of the `tbody` children, then those of the `tfoot`
      children. The rows of nested tables are not included. */
  function Rows(doc: Tree, t: NodeId): seq<NodeId> {
    var kids := Kids(doc, t);
    SectionRows(doc, kids, "THEAD") + BodyRows(doc, kids) + SectionRows(doc, kids, "TFOOT")
  }

  /** `r` is a row of table `t`: a `tr` that is a child of `t` or of a `thead`, `tbody`
      or `tfoot` child of `t`. */
  ghost predicate IsRowOf(doc: Tree, t: NodeId, r: NodeId) {
    && Name(doc, r) == "TR"
    && ParentOf(doc, r).Some?
    && var p := ParentOf(doc, r).value;
       (p == t || (Name(doc, p) in {"THEAD", "TBODY", "TFOOT"} && ParentOf(doc, p) == Some(t)))
  }

  lemma {:induction false} SectionRowsIff(doc: Tree, t: NodeId, kids: seq<NodeId>, section: string, r: NodeId)
    requires WF(doc) && forall k | k in kids :: k in Kids(doc, t)
    ensures r in SectionRows(doc, kids, section) <==>
      Name(doc, r) == "TR" && ParentOf(doc, r).Some? && ParentOf(doc, r).value in kids
      && Name(doc, ParentOf(doc, r).value) == section
    decreases |kids|
  {
    if kids != [] {
      SectionRowsIff(doc, t, kids[1..], section, r);
      var k := kids[0];
      TrKidsIff(doc, Kids(doc, k), r);
      if r in Kids(doc, k) { KidOf(doc, k, r); }
      if ParentOf(doc, r) == Some(k) { ParentFacts(doc, r); }
    }
  }

  lemma {:induction false} BodyRowsIff(doc: Tree, t: NodeId, kids: seq<NodeId>, r: NodeId)
    requires WF(doc) && forall k | k in kids :: k in Kids(doc, t)
    ensures r in BodyRows(doc, kids) <==>
      Name(doc, r) == "TR" &&
      (r in kids || (ParentOf(doc, r).Some? && ParentOf(doc, r).value in kids
                     && Name(doc, ParentOf(doc, r).value) == "TBODY"))
    decreases |kids|
  {
    if kids != [] {
      BodyRowsIff(doc, t, kids[1..], r);
      var k := kids[0];
      TrKidsIff(doc, Kids(doc, k), r);
      if r in Kids(doc, k) { KidOf(doc, k, r); }
      if ParentOf(doc, r) == Some(k) { ParentFacts(doc, r); }
    }
  }

  /** `rows` holds exactly the rows of the table. */
  lemma RowsIff(doc: Tree, t: NodeId, r: NodeId)
    requires WF(doc)
    ensures r in Rows(doc, t) <==> IsRowOf(doc, t, r)
  {
    var kids := Kids(doc, t);
    SectionRowsIff(doc, t, kids, "THEAD", r);
    SectionRowsIff(doc, t, kids, "TFOOT", r);
    BodyRowsIff(doc, t, kids, r);
    if r in kids { KidOf(doc, t, r); }
    if ParentOf(doc, r).Some? {
      var p := ParentOf(doc, r).value;
      ParentFacts(doc, r);
      if p in kids { KidOf(doc, t, p); }
      if ParentOf(doc, p) == Some(t) { ParentFacts(doc, p); }
    }
  }
}
