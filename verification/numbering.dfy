/**
 The numbering the compiler promises: every part's `index` names the right
 node of the template as it will be once the scheduled removals are done
 (src/lib/html-template.ts:25-28, 44, 103-146).

 `walked` is the list of nodes that the walk has passed and that survive the
 removals; `lastNode` is the index of the last bound node part (0 if none).
 A sentinel comment scheduled for removal leaves its part pointing one past
 `walked` -- at the node that will take its place -- until the next node is
 visited; the walk state records this as `lastNode == |walked|`.
 */
module Numbering {
  import opened Wrappers
  import opened Dom
  import opened Marker
  import opened TemplateRules

  /** The index of the last bound node part of `ps`, or `d` if there is none. */
  function LastBound(ps: seq<TemplatePart>, d: int): int
  {
    if ps == [] then d
    else if IsBound(ps[|ps| - 1]) then ps[|ps| - 1].index
    else LastBound(ps[..|ps| - 1], d)
  }

  lemma {:induction false} LastBoundUnbound(ps: seq<TemplatePart>, d: int)
    requires forall k :: 0 <= k < |ps| ==> !IsBound(ps[k])
    ensures LastBound(ps, d) == d
  {
    if ps != [] {
      LastBoundUnbound(ps[..|ps| - 1], d);
    }
  }

  /** Parts `ps` made so far resolve against `walked`: attribute parts name an
      element, expression parts name the node right after a marker comment,
      and bound node parts are numbered from 1 to `lastNode`, strictly
      increasing, so no two of them share an index. */
  ghost predicate Resolves(ps: seq<TemplatePart>, walked: seq<Token>, lastNode: int)
  {
    && 0 <= lastNode <= |walked|
    && (forall k :: 0 <= k < |ps| && ps[k].AttributePart? ==>
          0 <= ps[k].index < |walked| && walked[ps[k].index].Open?)
    && (forall k :: 0 <= k < |ps| && IsExprPart(ps[k]) ==>
          1 <= ps[k].index < |walked| && walked[ps[k].index - 1] == CommentNode(""))
    && (forall k :: 0 <= k < |ps| && IsBound(ps[k]) ==> 1 <= ps[k].index <= lastNode)
    && (forall k, l :: 0 <= k < l < |ps| && IsBound(ps[k]) && IsBound(ps[l]) ==> ps[k].index < ps[l].index)
  }

  /** The numbering of a finished template with node list `nodes`. */
  ghost predicate Resolved(ps: seq<TemplatePart>, nodes: seq<Token>)
  {
    && (forall k :: 0 <= k < |ps| && ps[k].AttributePart? ==>
          0 <= ps[k].index < |nodes| && nodes[ps[k].index].Open?)
    && (forall k :: 0 <= k < |ps| && IsExprPart(ps[k]) ==>
          1 <= ps[k].index < |nodes| && nodes[ps[k].index - 1] == CommentNode(""))
    && (forall k :: 0 <= k < |ps| && IsBound(ps[k]) ==> 1 <= ps[k].index < |nodes|)
    && (forall k, l :: 0 <= k < l < |ps| && IsBound(ps[k]) && IsBound(ps[l]) ==> ps[k].index < ps[l].index)
  }

  /** New parts `np` made at a node numbered `n` whose visit leaves `app` in
      the final tree resolve against the extended walk. */
  ghost predicate Advances(np: seq<TemplatePart>, n: int, app: seq<Token>, lastNode: int, lastNode': int)
  {
    && 0 <= lastNode <= lastNode' <= n + |app|
    && (forall k :: 0 <= k < |np| && np[k].AttributePart? ==> np[k].index == n && 0 < |app| && app[0].Open?)
    && (forall k :: 0 <= k < |np| && IsExprPart(np[k]) ==>
          n + 1 <= np[k].index < n + |app| && app[np[k].index - 1 - n] == CommentNode(""))
    && (forall k :: 0 <= k < |np| && IsBound(np[k]) ==> lastNode < np[k].index <= lastNode')
    && (forall k, l :: 0 <= k < l < |np| && IsBound(np[k]) && IsBound(np[l]) ==> np[k].index < np[l].index)
  }

  /** Appending the parts and surviving nodes of one visit keeps the numbering. */
  lemma ResolvesStep(ps: seq<TemplatePart>, walked: seq<Token>, lastNode: int,
                     np: seq<TemplatePart>, app: seq<Token>, lastNode': int)
    requires Resolves(ps, walked, lastNode)
    requires Advances(np, |walked|, app, lastNode, lastNode')
    ensures Resolves(ps + np, walked + app, lastNode')
  {
    var ps' := ps + np;
    var w' := walked + app;
    var n := |walked|;
    forall k | 0 <= k < |ps'|
      ensures ps'[k].AttributePart? ==> 0 <= ps'[k].index < |w'| && w'[ps'[k].index].Open?
      ensures IsExprPart(ps'[k]) ==> 1 <= ps'[k].index < |w'| && w'[ps'[k].index - 1] == CommentNode("")
      ensures IsBound(ps'[k]) ==> 1 <= ps'[k].index <= lastNode'
    {
      if k < |ps| {
        assert ps'[k] == ps[k];
      } else {
        assert ps'[k] == np[k - |ps|];
        if ps'[k].AttributePart? {
          assert w'[n] == app[0];
        }
        if IsExprPart(ps'[k]) {
          assert w'[ps'[k].index - 1] == app[ps'[k].index - 1 - n];
        }
      }
    }
    forall k, l | 0 <= k < l < |ps'| && IsBound(ps'[k]) && IsBound(ps'[l])
      ensures ps'[k].index < ps'[l].index
    {
      if l < |ps| {
        assert ps'[k] == ps[k] && ps'[l] == ps[l];
      } else if k < |ps| {
        assert ps'[k] == ps[k] && ps'[l] == np[l - |ps|];
      } else {
        assert ps'[k] == np[k - |ps|] && ps'[l] == np[l - |ps|];
      }
    }
  }

  /** When no part is left pointing past the walk, the walk's numbering is the
      finished template's. */
  lemma ResolvesFinal(ps: seq<TemplatePart>, walked: seq<Token>, lastNode: int)
    requires Resolves(ps, walked, lastNode)
    requires lastNode < |walked| || lastNode == 0
    ensures Resolved(ps, walked)
  {
  }

  /** What one visit must guarantee for the walk's numbering: its parts advance
      the numbering, `index` ends at the last surviving node, and a part left
      pointing past the walk is the sentinel part just made, whose node is
      scheduled for removal and has a next sibling to stand in for it. */
  ghost predicate StepOk(v: Visit, n: int, lastNode: int, nextNull: bool)
  {
    && Advances(v.parts, n, Appended(v), lastNode, LastBound(v.parts, lastNode))
    && v.index + 1 == n + |Appended(v)|
    && (LastBound(v.parts, lastNode) == n + |Appended(v)| ==>
          && v.lastPartIndex == LastBound(v.parts, lastNode)
          && (LastBound(v.parts, lastNode) >= 1 ==> v.doomed && !nextNull))
  }

  /** A step that keeps the numbering extends the walk: the parts still
      resolve, `index` is again the number of the last surviving node, and
      only a doomed sentinel with a next sibling leaves its part pending. */
  lemma NumberingStep(ps: seq<TemplatePart>, walked: seq<Token>, lastNode: int, lpi: int,
                      v: Visit, nextNull: bool)
    requires Resolves(ps, walked, lastNode)
    requires StepOk(v, |walked|, lastNode, nextNull)
    ensures Resolves(ps + v.parts, walked + Appended(v), LastBound(v.parts, lastNode))
    ensures v.index + 1 == |walked + Appended(v)|
    ensures LastBound(v.parts, lastNode) == v.index + 1 ==> LastBound(v.parts, lastNode) == v.lastPartIndex
    ensures LastBound(v.parts, lastNode) == v.index + 1 && LastBound(v.parts, lastNode) >= 1 ==>
              v.doomed && !nextNull
  {
    ResolvesStep(ps, walked, lastNode, v.parts, Appended(v), LastBound(v.parts, lastNode));
  }

  /** The parts of the `exec` loop advance the numbering, whatever single node
      follows the inserted ones. */
  lemma RewriteAdvances(data: string, ms: seq<Match>, n: nat, lastNode: int, rw: Rewritten, app: seq<Token>)
    requires forall k :: 0 <= k < |ms| ==> ms[k].start <= |data|
    requires rw == Rewrite(data, ms, n)
    requires 0 <= lastNode <= n
    requires |app| == |rw.parts| + 1
    requires app[..|app| - 1] == rw.inserted
    ensures Advances(rw.parts, n, app, lastNode, n + |rw.parts|)
    ensures |rw.parts| > 0 ==> LastBound(rw.parts, lastNode) == n + |rw.parts|
  {
    RewriteMarkers(data, ms, n);
    forall k | 0 <= k < |rw.parts| && IsExprPart(rw.parts[k])
      ensures n + 1 <= rw.parts[k].index < n + |app| && app[rw.parts[k].index - 1 - n] == CommentNode("")
    {
      assert rw.parts[k].index - 1 - n == k;
      assert app[k] == app[..|app| - 1][k] == rw.inserted[k];
    }
    assert forall k :: 0 <= k < |rw.parts| ==> IsBound(rw.parts[k]) && lastNode < rw.parts[k].index <= n + |rw.parts|;
  }

  /** A visit shaped like a marked text node's keeps the numbering. */
  lemma RewriteStepOk(v: Visit, rw: Rewritten, n: nat, lastNode: int, nextNull: bool)
    requires 0 <= lastNode <= n
    requires v.parts == rw.parts && v.index == n + |rw.parts|
    requires |Appended(v)| == |rw.parts| + 1
    requires Advances(rw.parts, n, Appended(v), lastNode, n + |rw.parts|)
    requires |rw.parts| > 0 ==> LastBound(rw.parts, lastNode) == n + |rw.parts|
    requires |rw.parts| == 0 ==> LastBound(rw.parts, lastNode) == lastNode
    ensures StepOk(v, n, lastNode, nextNull)
  {
  }

  lemma TextStepOk(data: string, n: nat, lpi: int, pi: int, li: nat, nextNull: bool, lastNode: int)
    requires 0 <= lastNode <= n
    ensures StepOk(TextVisit(data, n, lpi, pi, li), n, lastNode, nextNull)
  {
    var v := TextVisit(data, n, lpi, pi, li);
    if RegExpExec(data, li).found.Some? {
      var rw := Rewrite(data, Matches(data, 0), n);
      TextVisitShape(data, n, lpi, pi, li);
      RewriteAdvances(data, Matches(data, 0), n, lastNode, rw, Appended(v));
      if |rw.parts| == 0 {
        LastBoundUnbound(rw.parts, lastNode);
      }
      RewriteStepOk(v, rw, n, lastNode, nextNull);
    } else {
      LastBoundUnbound(v.parts, lastNode);
      assert Appended(v) == [TextNode(data)];
    }
  }

  lemma CommentStepOk(data: string, n: nat, lpi: int, pi: int, li: nat, prevNull: bool, nextNull: bool,
                      sentinel: bool, lastNode: int)
    requires 0 <= lastNode <= n
    requires lastNode == n ==> lpi == lastNode
    ensures StepOk(CommentVisit(data, n, lpi, pi, li, prevNull, nextNull, sentinel), n, lastNode, nextNull)
  {
    if sentinel {
      SentinelStepOk(data, n, lpi, pi, li, prevNull, nextNull, lastNode, CommentVisit(data, n, lpi, pi, li, prevNull, nextNull, true));
    } else {
      var v := CommentVisit(data, n, lpi, pi, li, prevNull, nextNull, false);
      LastBoundUnbound(v.parts, lastNode);
      assert Appended(v) == [CommentNode(data)];
    }
  }

  /** The sentinel rule keeps the numbering: its one bound part comes after
      every earlier one, and it is left pending only when the comment is
      removed and has a next sibling. */
  lemma SentinelStepOk(data: string, n: nat, lpi: int, pi: int, li: nat, prevNull: bool, nextNull: bool,
                       lastNode: int, v: Visit)
    requires 0 <= lastNode <= n
    requires lastNode == n ==> lpi == lastNode
    requires v == CommentVisit(data, n, lpi, pi, li, prevNull, nextNull, true)
    ensures StepOk(v, n, lastNode, nextNull)
  {
    var insert := prevNull || n == lpi;
    var idx := if insert then n + 1 else n;
    assert v.parts == [NodePart(idx, None)];
    assert v.parts[..0] == [];
    assert LastBound(v.parts, lastNode) == idx;
    assert lastNode < idx;
    var app := Appended(v);
    assert |app| == (if insert then 1 else 0) + (if nextNull then 1 else 0);
    assert Advances(v.parts, n, app, lastNode, idx);
  }

  lemma ElementStepOk(tag: string, attrs: seq<Attr>, n: nat, lpi: int, pi: int, li: nat, ext: Externals,
                      nextNull: bool, lastNode: int)
    requires 0 <= lastNode <= n
    ensures StepOk(ElementVisit(tag, attrs, n, lpi, pi, li, ext), n, lastNode, nextNull)
  {
    var v := ElementVisit(tag, attrs, n, lpi, pi, li, ext);
    ElementVisitParts(tag, attrs, n, lpi, pi, li, ext);
    LastBoundUnbound(v.parts, lastNode);
  }

  /** What a text visit leaves in the tree is made of text and comments. */
  lemma TextLeavesNodes(data: string, n: nat, lpi: int, pi: int, li: nat)
    ensures forall t :: 0 <= t < |Appended(TextVisit(data, n, lpi, pi, li))| ==>
              IsNode(Appended(TextVisit(data, n, lpi, pi, li))[t])
  {
    var v := TextVisit(data, n, lpi, pi, li);
    if RegExpExec(data, li).found.Some? {
      var rw := Rewrite(data, Matches(data, 0), n);
      TextVisitShape(data, n, lpi, pi, li);
      var app := Appended(v);
      forall t | 0 <= t < |app| ensures IsNode(app[t]) {
        if t < |rw.parts| {
          assert app[t] == app[..|rw.parts|][t] == rw.inserted[t];
        }
      }
    }
  }

  /** What a visit leaves in the tree is made of nodes: text, comments, and the
      element itself. */
  lemma VisitLeavesNodes(tok: Token, prevNull: bool, nextNull: bool, n: nat, lpi: int, pi: int, li: nat, ext: Externals)
    requires IsNode(tok)
    ensures forall t :: 0 <= t < |Appended(VisitSpec(tok, prevNull, nextNull, n, lpi, pi, li, ext))| ==>
              IsNode(Appended(VisitSpec(tok, prevNull, nextNull, n, lpi, pi, li, ext))[t])
  {
    match tok
    case Open(tag, attrs) =>
      ElementVisitParts(tag, attrs, n, lpi, pi, li, ext);
    case TextNode(data) =>
      TextLeavesNodes(data, n, lpi, pi, li);
    case CommentNode(data) =>
  }

  /** The visit the walk makes keeps the numbering and leaves only nodes
      behind. */
  lemma VisitKeepsNumbering(tok: Token, prevNull: bool, nextNull: bool, n: nat, lpi: int, pi: int, li: nat,
                            ext: Externals, lastNode: int, v: Visit)
    requires IsNode(tok)
    requires 0 <= lastNode <= n
    requires lastNode == n ==> lpi == lastNode
    requires v == VisitSpec(tok, prevNull, nextNull, n, lpi, pi, li, ext)
    ensures StepOk(v, n, lastNode, nextNull)
    ensures forall t :: 0 <= t < |Appended(v)| ==> IsNode(Appended(v)[t])
  {
    VisitStepOk(tok, prevNull, nextNull, n, lpi, pi, li, ext, lastNode);
    VisitLeavesNodes(tok, prevNull, nextNull, n, lpi, pi, li, ext);
  }

  /** Every rule keeps the numbering, provided a pending sentinel part (one
      pointing at `n`, the number of the node now visited) was the last part
      made. An element keeps its place and tag. */
  lemma VisitStepOk(tok: Token, prevNull: bool, nextNull: bool, n: nat, lpi: int, pi: int, li: nat,
                    ext: Externals, lastNode: int)
    requires IsNode(tok)
    requires 0 <= lastNode <= n
    requires lastNode == n ==> lpi == lastNode
    ensures StepOk(VisitSpec(tok, prevNull, nextNull, n, lpi, pi, li, ext), n, lastNode, nextNull)
    ensures tok.Open? ==> && VisitSpec(tok, prevNull, nextNull, n, lpi, pi, li, ext).inserted == []
                          && !VisitSpec(tok, prevNull, nextNull, n, lpi, pi, li, ext).doomed
                          && VisitSpec(tok, prevNull, nextNull, n, lpi, pi, li, ext).replacement.Open?
                          && VisitSpec(tok, prevNull, nextNull, n, lpi, pi, li, ext).replacement.tagName == tok.tagName
  {
    match tok
    case Open(tag, attrs) =>
      ElementStepOk(tag, attrs, n, lpi, pi, li, ext, nextNull, lastNode);
      ElementVisitParts(tag, attrs, n, lpi, pi, li, ext);
    case TextNode(data) =>
      TextStepOk(data, n, lpi, pi, li, nextNull, lastNode);
    case CommentNode(data) =>
      CommentStepOk(data, n, lpi, pi, li, prevNull, nextNull, ext.isSentinel(data), lastNode);
  }
}
