/**
 * The part of the LINQ to XML object model the tools read: elements with a
 * namespace-qualified name and an ordered list of child nodes, text nodes,
 * and the other node kinds (comments, processing instructions), which carry
 * no text.
 */
module XmlTree {
  import opened Wrappers

  /** An expanded name: namespace URI and local name. */
  datatype Name = Name(namespace: string, local: string)

  /** The WordprocessingML namespace of ECMA-376 Part 1. */
  const WordNamespace: string := "http://schemas.openxmlformats.org/wordprocessingml/2006/main"

  /** `wordNamespace + local`. */
  function W(local: string): (r: Name)
    ensures r.namespace == WordNamespace && r.local == local
  {
    Name(WordNamespace, local)
  }

  /** A node of the tree. */
  datatype Node =
    | Element(name: Name, children: seq<Node>)
    | Text(text: string)
    | Other

  /** `XElement.Value`: the text of all descendant text nodes in document
      order; for a text node its text. */
  function Value(n: Node): string
    decreases n, 1
  {
    match n
    case Element(_, children) => ValueOfAll(children)
    case Text(t) => t
    case Other => ""
  }

  function ValueOfAll(ns: seq<Node>): string
    decreases ns, 0
  {
    if ns == [] then "" else ValueOfAll(ns[..|ns| - 1]) + Value(ns[|ns| - 1])
  }

  /** An element with that name. */
  predicate IsNamed(n: Node, name: Name)
  {
    n.Element? && n.name == name
  }

  /** `e.Elements(name)`: the element children with that name, in order,
      each as often as it occurs. */
  function ChildrenNamed(ns: seq<Node>, name: Name): (r: seq<Node>)
    ensures forall c :: c in r <==> c in ns && IsNamed(c, name)
  {
    if ns == [] then []
    else
      var front, last := ns[..|ns| - 1], ns[|ns| - 1];
      ChildrenNamed(front, name) + if IsNamed(last, name) then [last] else []
  }

  /** Document order: the children named in a list of nodes followed by
      another are those of the first list followed by those of the second. */
  lemma {:induction false} ChildrenNamedAppend(a: seq<Node>, b: seq<Node>, name: Name)
    ensures ChildrenNamed(a + b, name) == ChildrenNamed(a, name) + ChildrenNamed(b, name)
  {
    if b != [] {
      var front, last := b[..|b| - 1], b[|b| - 1];
      assert b == front + [last];
      assert a + b == (a + front) + [last];
      ChildrenNamedSnoc(a + front, last, name);
      ChildrenNamedSnoc(front, last, name);
      ChildrenNamedAppend(a, front, name);
    } else {
      assert a + b == a;
    }
  }

  /** Each child with the name is listed as often as it occurs, and no
      other node is listed. */
  lemma {:induction false} ChildrenNamedCounts(ns: seq<Node>, name: Name)
    ensures forall c :: multiset(ChildrenNamed(ns, name))[c] == if IsNamed(c, name) then multiset(ns)[c] else 0
  {
    if ns != [] {
      var front, last := ns[..|ns| - 1], ns[|ns| - 1];
      assert ns == front + [last];
      ChildrenNamedCounts(front, name);
    }
  }

  lemma ChildrenNamedSnoc(ns: seq<Node>, n: Node, name: Name)
    ensures ChildrenNamed(ns + [n], name) == ChildrenNamed(ns, name) + if IsNamed(n, name) then [n] else []
  {
    assert (ns + [n])[..|ns|] == ns;
  }

  /** `ns[k]` is the first element of `ns` with that name. */
  predicate FirstNamedAt(ns: seq<Node>, k: int, name: Name)
  {
    0 <= k < |ns| && IsNamed(ns[k], name) && forall j :: 0 <= j < k ==> !IsNamed(ns[j], name)
  }

  /** `e.Element(name)`: the first element child with that name, or none
      when there is no such child. */
  function FirstChildNamed(ns: seq<Node>, name: Name): (r: Option<Node>)
    ensures r.Some? ==> exists k :: FirstNamedAt(ns, k, name) && ns[k] == r.value
    ensures r.None? <==> forall c :: c in ns ==> !IsNamed(c, name)
  {
    if ns == [] then None
    else if IsNamed(ns[0], name) then
      assert FirstNamedAt(ns, 0, name);
      Some(ns[0])
    else
      var r := FirstChildNamed(ns[1..], name);
      assert r.Some? ==> exists k :: FirstNamedAt(ns, k, name) && ns[k] == r.value by {
        if r.Some? {
          var k :| FirstNamedAt(ns[1..], k, name) && ns[1..][k] == r.value;
          forall j | 0 <= j < k + 1 ensures !IsNamed(ns[j], name) {
            if j > 0 {
              assert ns[j] == ns[1..][j - 1];
            }
          }
          assert FirstNamedAt(ns, k + 1, name);
        }
      }
      assert r.None? <==> forall c :: c in ns ==> !IsNamed(c, name) by {
        assert forall c :: c in ns ==> c == ns[0] || c in ns[1..];
      }
      r
  }

  /** `e.Descendants()`: every element below `e`, in document order (each
      element before its own descendants). */
  function Descendants(n: Node): (r: seq<Node>)
    ensures forall d :: d in r ==> d.Element?
    decreases n, 1
  {
    match n
    case Element(_, children) => DescendantsOfAll(children)
    case _ => []
  }

  function DescendantsOfAll(ns: seq<Node>): (r: seq<Node>)
    ensures forall d :: d in r ==> d.Element?
    decreases ns, 0
  {
    if ns == [] then []
    else
      var last := ns[|ns| - 1];
      DescendantsOfAll(ns[..|ns| - 1]) + (if last.Element? then [last] + Descendants(last) else [])
  }
}
