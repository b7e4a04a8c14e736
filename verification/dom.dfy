/**
 The document the template compiler walks.

 A template's content is a forest of `Node`s. The walk runs over the forest's
 document-order token form: an element is `Open`, then (for a TEMPLATE element)
 its content fragment followed by `EndContent`, then its own children, then
 `Close`. Text and comment nodes are single tokens. Reading the tokens left to
 right, skipping `Close`, meets the nodes exactly in the order a TreeWalker that
 descends into each nested template's content (and resumes at the template
 element afterwards) meets them.
 */
module Dom {

  datatype Attr = Attr(name: string, value: string)

  /** A node of a template's content. `content` is the content fragment of a
      TEMPLATE element; for every other tag it is never looked at. */
  datatype Node =
    | Element(tagName: string, attributes: seq<Attr>, children: seq<Node>, content: seq<Node>)
    | Text(data: string)
    | Comment(data: string)

  datatype Token =
    | Open(tagName: string, attributes: seq<Attr>)
    | EndContent
    | Close
    | TextNode(data: string)
    | CommentNode(data: string)

  /** Tokens that stand for a node (and are numbered by the walk). */
  predicate IsNode(t: Token)
  {
    t.Open? || t.TextNode? || t.CommentNode?
  }

  predicate IsTemplate(t: Token)
  {
    t.Open? && t.tagName == "TEMPLATE"
  }

  /** The token that stands for `n` itself. */
  function Head(n: Node): (t: Token)
    ensures IsNode(t)
  {
    match n
    case Element(tag, attrs, _, _) => Open(tag, attrs)
    case Text(d) => TextNode(d)
    case Comment(d) => CommentNode(d)
  }

  function Serialize(n: Node): seq<Token>
    decreases n
  {
    match n
    case Text(d) => [TextNode(d)]
    case Comment(d) => [CommentNode(d)]
    case Element(tag, attrs, children, content) =>
      [Open(tag, attrs)]
      + (if tag == "TEMPLATE" then SerializeAll(content) + [EndContent] else [])
      + SerializeAll(children)
      + [Close]
  }

  function SerializeAll(ns: seq<Node>): seq<Token>
    decreases ns
  {
    if ns == [] then [] else Serialize(ns[0]) + SerializeAll(ns[1..])
  }

  /** Reference order of the walk: a node, then (for a TEMPLATE element) the
      nodes of its content, then its children. */
  function Preorder(n: Node): seq<Token>
    decreases n
  {
    match n
    case Text(_) => [Head(n)]
    case Comment(_) => [Head(n)]
    case Element(tag, _, children, content) =>
      [Head(n)] + (if tag == "TEMPLATE" then PreorderAll(content) else []) + PreorderAll(children)
  }

  function PreorderAll(ns: seq<Node>): seq<Token>
    decreases ns
  {
    if ns == [] then [] else Preorder(ns[0]) + PreorderAll(ns[1..])
  }

  /** The node tokens of `s`, in order. */
  function Nodes(s: seq<Token>): (r: seq<Token>)
    ensures |r| <= |s|
    ensures forall t :: t in r ==> IsNode(t)
  {
    if s == [] then [] else (if IsNode(s[0]) then [s[0]] else []) + Nodes(s[1..])
  }

  lemma {:induction false} NodesAppend(a: seq<Token>, b: seq<Token>)
    ensures Nodes(a + b) == Nodes(a) + Nodes(b)
  {
    if a == [] {
      assert a + b == b;
    } else {
      assert (a + b)[0] == a[0];
      assert (a + b)[1..] == a[1..] + b;
      NodesAppend(a[1..], b);
    }
  }

  /** A sequence made only of node tokens is its own node list. */
  lemma {:induction false} NodesOfNodes(s: seq<Token>)
    requires forall i :: 0 <= i < |s| ==> IsNode(s[i])
    ensures Nodes(s) == s
  {
    if s != [] {
      NodesOfNodes(s[1..]);
    }
  }

  lemma {:induction false} SerializePreorder(n: Node)
    ensures Nodes(Serialize(n)) == Preorder(n)
    decreases n
  {
    match n
    case Text(_) =>
    case Comment(_) =>
    case Element(tag, attrs, children, content) =>
      var inner := if tag == "TEMPLATE" then SerializeAll(content) + [EndContent] else [];
      var rest := SerializeAll(children);
      assert Serialize(n) == [Open(tag, attrs)] + inner + rest + [Close];
      assert Nodes(Serialize(n)) == [Head(n)] + Nodes(inner) + Nodes(rest) by {
        NodesAppend([Open(tag, attrs)] + inner + rest, [Close]);
        NodesAppend([Open(tag, attrs)] + inner, rest);
        NodesAppend([Open(tag, attrs)], inner);
      }
      assert Nodes(inner) == (if tag == "TEMPLATE" then PreorderAll(content) else []) by {
        if tag == "TEMPLATE" {
          NodesAppend(SerializeAll(content), [EndContent]);
          SerializeAllPreorder(content);
        }
      }
      SerializeAllPreorder(children);
  }

  /** The token form lists the nodes of a forest in walk order. */
  lemma {:induction false} SerializeAllPreorder(ns: seq<Node>)
    ensures Nodes(SerializeAll(ns)) == PreorderAll(ns)
    decreases ns
  {
    if ns != [] {
      NodesAppend(Serialize(ns[0]), SerializeAll(ns[1..]));
      SerializePreorder(ns[0]);
      SerializeAllPreorder(ns[1..]);
    }
  }

  /** How a token changes the number of template contents being walked. */
  function Delta(t: Token): int
  {
    if IsTemplate(t) then 1 else if t.EndContent? then -1 else 0
  }

  /** Number of TEMPLATE contents entered and not yet left after reading `s`. */
  function TemplateDepth(s: seq<Token>): int
  {
    if s == [] then 0 else TemplateDepth(s[..|s| - 1]) + Delta(s[|s| - 1])
  }

  lemma {:induction false} TemplateDepthAppend(a: seq<Token>, b: seq<Token>)
    ensures TemplateDepth(a + b) == TemplateDepth(a) + TemplateDepth(b)
    decreases |b|
  {
    if b == [] {
      assert a + b == a;
    } else {
      assert (a + b)[..|a + b| - 1] == a + b[..|b| - 1];
      assert (a + b)[|a + b| - 1] == b[|b| - 1];
      TemplateDepthAppend(a, b[..|b| - 1]);
    }
  }

  /** Every `EndContent` closes a TEMPLATE opened before it, and every TEMPLATE
      content is closed. */
  ghost predicate Balanced(s: seq<Token>)
  {
    && (forall k :: 0 <= k <= |s| ==> TemplateDepth(s[..k]) >= 0)
    && TemplateDepth(s) == 0
  }

  lemma BalancedConcat(a: seq<Token>, b: seq<Token>)
    requires Balanced(a) && Balanced(b)
    ensures Balanced(a + b)
  {
    forall k | 0 <= k <= |a + b| ensures TemplateDepth((a + b)[..k]) >= 0 {
      if k <= |a| {
        assert (a + b)[..k] == a[..k];
      } else {
        assert (a + b)[..k] == a + b[..k - |a|];
        TemplateDepthAppend(a, b[..k - |a|]);
      }
    }
    TemplateDepthAppend(a, b);
  }

  lemma BalancedSingle(t: Token)
    requires Delta(t) == 0
    ensures Balanced([t])
  {
    assert [t][..0] == [];
    assert [t][..1] == [t];
  }

  lemma BalancedTemplate(t: Token, c: seq<Token>)
    requires IsTemplate(t) && Balanced(c)
    ensures Balanced([t] + c + [EndContent])
  {
    var s := [t] + c + [EndContent];
    forall k | 0 <= k <= |s| ensures TemplateDepth(s[..k]) >= 0 {
      if k == 0 {
        assert s[..k] == [];
      } else if k <= |c| + 1 {
        assert s[..k] == [t] + c[..k - 1];
        TemplateDepthAppend([t], c[..k - 1]);
        assert [t][..0] == [];
      } else {
        assert s[..k] == s;
        TemplateDepthAppend([t] + c, [EndContent]);
        TemplateDepthAppend([t], c);
        assert [t][..0] == [];
        assert [EndContent][..0] == [];
        assert c[..|c|] == c;
      }
    }
    assert s[..|s|] == s;
    TemplateDepthAppend([t] + c, [EndContent]);
    TemplateDepthAppend([t], c);
    assert [t][..0] == [];
    assert [EndContent][..0] == [];
  }

  lemma {:induction false} SerializeBalanced(n: Node)
    ensures Balanced(Serialize(n))
    decreases n
  {
    match n
    case Text(d) =>
      BalancedSingle(TextNode(d));
    case Comment(d) =>
      BalancedSingle(CommentNode(d));
    case Element(tag, attrs, children, content) =>
      var open := Open(tag, attrs);
      var head := [open] + (if tag == "TEMPLATE" then SerializeAll(content) + [EndContent] else []);
      if tag == "TEMPLATE" {
        SerializeAllBalanced(content);
        BalancedTemplate(open, SerializeAll(content));
        assert head == [open] + SerializeAll(content) + [EndContent];
      } else {
        BalancedSingle(open);
        assert head == [open];
      }
      SerializeAllBalanced(children);
      BalancedConcat(head, SerializeAll(children));
      BalancedSingle(Close);
      BalancedConcat(head + SerializeAll(children), [Close]);
  }

  /** The token form of any forest is balanced. */
  lemma {:induction false} SerializeAllBalanced(ns: seq<Node>)
    ensures Balanced(SerializeAll(ns))
    decreases ns
  {
    if ns == [] {
      assert SerializeAll(ns)[..0] == [];
    } else {
      SerializeBalanced(ns[0]);
      SerializeAllBalanced(ns[1..]);
      BalancedConcat(Serialize(ns[0]), SerializeAll(ns[1..]));
    }
  }

  /** `Node.previousSibling === null` for the node at `pos`: it is the first
      child of an element, of a template's content, or of the root fragment. */
  predicate PreviousSiblingIsNull(s: seq<Token>, pos: nat)
    requires pos < |s|
  {
    pos == 0 || s[pos - 1].Open? || s[pos - 1].EndContent?
  }

  /** `Node.nextSibling === null` for a childless node at `pos`. */
  predicate NextSiblingIsNull(s: seq<Token>, pos: nat)
    requires pos < |s|
  {
    pos + 1 == |s| || s[pos + 1].Close? || s[pos + 1].EndContent?
  }

  /** The tokens of `s[..n]` whose positions are not in `removed`. */
  function Kept(s: seq<Token>, removed: set<nat>, n: nat): (r: seq<Token>)
    requires n <= |s|
    ensures |r| <= n
  {
    if n == 0 then []
    else Kept(s, removed, n - 1) + (if n - 1 in removed then [] else [s[n - 1]])
  }

  lemma {:induction false} KeptPrefix(s: seq<Token>, t: seq<Token>, r1: set<nat>, r2: set<nat>, n: nat)
    requires n <= |s| && n <= |t| && s[..n] == t[..n]
    requires forall i: nat :: i < n ==> (i in r1 <==> i in r2)
    ensures Kept(s, r1, n) == Kept(t, r2, n)
  {
    if n > 0 {
      assert s[n - 1] == s[..n][n - 1] == t[..n][n - 1] == t[n - 1];
      assert s[..n - 1] == s[..n][..n - 1] == t[..n][..n - 1] == t[..n - 1];
      KeptPrefix(s, t, r1, r2, n - 1);
    }
  }

  lemma {:induction false} KeptRun(s: seq<Token>, removed: set<nat>, n: nat, m: nat)
    requires n <= m <= |s|
    requires forall i: nat :: n <= i < m ==> i !in removed
    ensures Kept(s, removed, m) == Kept(s, removed, n) + s[n..m]
    decreases m - n
  {
    if n < m {
      KeptRun(s, removed, n, m - 1);
      assert s[n..m] == s[n..m - 1] + [s[m - 1]];
    }
  }

  /** Inserting `ins` before the node at `c` and rewriting that node to `rep`,
      possibly scheduling it for removal, extends the kept prefix accordingly. */
  lemma KeptSplice(s: seq<Token>, removed: set<nat>, c: nat, ins: seq<Token>, rep: Token, doomed: bool,
                    s': seq<Token>, removed': set<nat>)
    requires c < |s|
    requires forall i :: i in removed ==> i < c
    requires s' == s[..c] + ins + [rep] + s[c + 1..]
    requires removed' == if doomed then removed + {c + |ins|} else removed
    ensures Kept(s', removed', c + |ins| + 1) == Kept(s, removed, c) + (ins + if doomed then [] else [rep])
  {
    assert s'[..c] == s[..c];
    KeptPrefix(s', s, removed', removed, c);
    KeptRun(s', removed', c, c + |ins|);
    assert s'[c..c + |ins|] == ins;
    assert s'[c + |ins|] == rep;
  }
}
