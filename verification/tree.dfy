/**
  A parsed markup document as a generic tree of named elements with
  attributes, and the navigation the time-entry extractor performs on it:
  the child indexer `node["Name"]`, the XPath query `*[@attr='value']`,
  `InnerText` and `GetElementsByTagName`.
 */
module Tree {
  import opened Wrappers

  datatype Attribute = Attribute(name: string, value: string)

  datatype Node =
    | Element(name: string, attributes: seq<Attribute>, children: seq<Node>)
    | Text(text: string)

  /** A document is its sequence of top-level nodes (the root element among them). */
  datatype Document = Document(nodes: seq<Node>)

  /** `InnerText`: the concatenated text of every text node below `n`, in document order. */
  function InnerText(n: Node): string {
    match n
    case Text(t) => t
    case Element(_, _, cs) => TextOf(cs)
  }

  function TextOf(ns: seq<Node>): string {
    if ns == [] then "" else InnerText(ns[0]) + TextOf(ns[1..])
  }

  predicate IsElementNamed(n: Node, name: string) {
    n.Element? && n.name == name
  }

  predicate HasAttribute(n: Node, name: string, value: string) {
    n.Element? && exists a :: a in n.attributes && a.name == name && a.value == value
  }

  /** `node[name]`: the first child element with that name, or null. */
  function Child(ns: seq<Node>, name: string): (r: Option<Node>)
    ensures r.Some? ==> IsElementNamed(r.value, name)
    ensures r.Some? ==> exists i :: 0 <= i < |ns| && ns[i] == r.value
                                    && forall j :: 0 <= j < i ==> !IsElementNamed(ns[j], name)
    ensures r.None? <==> forall i :: 0 <= i < |ns| ==> !IsElementNamed(ns[i], name)
  {
    if ns == [] then None
    else if IsElementNamed(ns[0], name) then Some(ns[0])
    else
      var r := Child(ns[1..], name);
      assert r.Some? ==> exists i :: 0 <= i < |ns| && ns[i] == r.value
                                     && forall j :: 0 <= j < i ==> !IsElementNamed(ns[j], name) by {
        if r.Some? {
          var i :| 0 <= i < |ns[1..]| && ns[1..][i] == r.value
                   && forall j :: 0 <= j < i ==> !IsElementNamed(ns[1..][j], name);
          assert ns[i + 1] == r.value;
          assert forall j :: 0 <= j < i + 1 ==> !IsElementNamed(ns[j], name) by {
            forall j | 0 <= j < i + 1 ensures !IsElementNamed(ns[j], name) {
              if j > 0 { assert ns[j] == ns[1..][j - 1]; }
            }
          }
        }
      }
      assert r.None? ==> forall i :: 0 <= i < |ns| ==> !IsElementNamed(ns[i], name) by {
        if r.None? {
          forall i | 0 <= i < |ns| ensures !IsElementNamed(ns[i], name) {
            if i > 0 { assert ns[i] == ns[1..][i - 1]; }
          }
        }
      }
      r
  }

  /** `node.SelectSingleNode("*[@name='value']")`: the first child element carrying
      the attribute `name` with exactly that value, or null. */
  function ChildWithAttribute(ns: seq<Node>, name: string, value: string): (r: Option<Node>)
    ensures r.Some? ==> HasAttribute(r.value, name, value)
    ensures r.Some? ==> exists i :: 0 <= i < |ns| && ns[i] == r.value
                                    && forall j :: 0 <= j < i ==> !HasAttribute(ns[j], name, value)
    ensures r.None? <==> forall i :: 0 <= i < |ns| ==> !HasAttribute(ns[i], name, value)
  {
    if ns == [] then None
    else if HasAttribute(ns[0], name, value) then Some(ns[0])
    else
      var r := ChildWithAttribute(ns[1..], name, value);
      assert r.Some? ==> exists i :: 0 <= i < |ns| && ns[i] == r.value
                                     && forall j :: 0 <= j < i ==> !HasAttribute(ns[j], name, value) by {
        if r.Some? {
          var i :| 0 <= i < |ns[1..]| && ns[1..][i] == r.value
                   && forall j :: 0 <= j < i ==> !HasAttribute(ns[1..][j], name, value);
          assert ns[i + 1] == r.value;
          assert forall j :: 0 <= j < i + 1 ==> !HasAttribute(ns[j], name, value) by {
            forall j | 0 <= j < i + 1 ensures !HasAttribute(ns[j], name, value) {
              if j > 0 { assert ns[j] == ns[1..][j - 1]; }
            }
          }
        }
      }
      assert r.None? ==> forall i :: 0 <= i < |ns| ==> !HasAttribute(ns[i], name, value) by {
        if r.None? {
          forall i | 0 <= i < |ns| ensures !HasAttribute(ns[i], name, value) {
            if i > 0 { assert ns[i] == ns[1..][i - 1]; }
          }
        }
      }
      r
  }

  /** Follows `[p0][p1]...` from a sequence of siblings; null as soon as a step is missing. */
  function Descend(ns: seq<Node>, path: seq<string>): (r: Option<Node>)
    requires path != []
    ensures r.Some? ==> IsElementNamed(r.value, path[|path| - 1])
    ensures |path| == 1 ==> r == Child(ns, path[0])
    ensures Child(ns, path[0]).None? ==> r.None?
    decreases |path|
  {
    match Child(ns, path[0])
    case None => None
    case Some(n) => if |path| == 1 then Some(n) else Descend(n.children, path[1..])
  }

  /** The chain read left to right: one more step `[q]` after a path is the
      first child named `q` of the element reached, and null once the path is. */
  lemma {:induction false} DescendSnoc(ns: seq<Node>, path: seq<string>, q: string)
    requires path != []
    ensures Descend(ns, path + [q]) == match Descend(ns, path)
                                       case None => None
                                       case Some(n) => Child(n.children, q)
    decreases |path|
  {
    assert (path + [q])[0] == path[0];
    if |path| > 1 {
      match Child(ns, path[0])
      case None =>
      case Some(n) =>
        assert (path + [q])[1..] == path[1..] + [q];
        DescendSnoc(n.children, path[1..], q);
    } else {
      assert (path + [q])[1..] == [q];
    }
  }

  /** Every element below `ns` (the nodes themselves included), in document order. */
  function Elements(ns: seq<Node>): seq<Node> {
    if ns == [] then []
    else
      (if ns[0].Element? then [ns[0]] + Elements(ns[0].children) else [])
      + Elements(ns[1..])
  }

  /** `GetElementsByTagName(name)`: the elements of the document with that name, in document order. */
  function ElementsByTagName(doc: Document, name: string): (r: seq<Node>)
    ensures forall i :: 0 <= i < |r| ==> IsElementNamed(r[i], name)
  {
    NamedAmong(Elements(doc.nodes), name)
  }

  function NamedAmong(es: seq<Node>, name: string): (r: seq<Node>)
    ensures forall i :: 0 <= i < |r| ==> IsElementNamed(r[i], name) && r[i] in es
    ensures forall i :: 0 <= i < |es| && IsElementNamed(es[i], name) ==> es[i] in r
  {
    if es == [] then []
    else
      var rest := NamedAmong(es[1..], name);
      assert forall i :: 1 <= i < |es| ==> es[i] == es[1..][i - 1];
      (if IsElementNamed(es[0], name) then [es[0]] else []) + rest
  }

  /** `x` occurs somewhere in the forest `ns`, at any depth. */
  ghost predicate Reachable(x: Node, ns: seq<Node>)
    decreases ns
  {
    exists i :: 0 <= i < |ns| && (ns[i] == x || (ns[i].Element? && Reachable(x, ns[i].children)))
  }

  /** `Elements` visits exactly the element nodes of the forest, at every depth. */
  lemma {:induction false} ElementsExact(ns: seq<Node>, x: Node)
    ensures x in Elements(ns) <==> x.Element? && Reachable(x, ns)
    decreases ns
  {
    if ns == [] {
    } else {
      var head := if ns[0].Element? then [ns[0]] + Elements(ns[0].children) else [];
      assert Elements(ns) == head + Elements(ns[1..]);
      ElementsExact(ns[1..], x);
      if ns[0].Element? {
        ElementsExact(ns[0].children, x);
      }
      if x.Element? && Reachable(x, ns) {
        var i :| 0 <= i < |ns| && (ns[i] == x || (ns[i].Element? && Reachable(x, ns[i].children)));
        if i > 0 {
          assert ns[1..][i - 1] == ns[i];
        }
      }
      if x in Elements(ns[1..]) {
        var j :| 0 <= j < |ns[1..]| && (ns[1..][j] == x || (ns[1..][j].Element? && Reachable(x, ns[1..][j].children)));
        assert ns[j + 1] == ns[1..][j];
      }
    }
  }

  /** `GetElementsByTagName` returns exactly the elements with that tag, at any depth. */
  lemma {:induction false} ElementsByTagNameExact(doc: Document, name: string, x: Node)
    ensures x in ElementsByTagName(doc, name) <==> IsElementNamed(x, name) && Reachable(x, doc.nodes)
  {
    ElementsExact(doc.nodes, x);
  }
}
