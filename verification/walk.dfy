/**
 The walk of `_traverse` (src/lib/html-template.ts:16-165) as a state that
 every step keeps.

 The walk reads the template's content as tokens through a cursor. `orig` is
 the content as it was before the walk and `o` the matching position in it;
 the tokens from the cursor on are untouched. `removed` lists the positions
 scheduled for removal (`nodesToRemove`), all behind the cursor and in
 increasing order. `walked` is the list of nodes passed so far that survive
 the removals, and the running `index` is always its length minus one.
 */
module Walk {
  import opened Wrappers
  import opened Dom
  import opened TemplateRules
  import opened Numbering

  predicate Increasing(r: seq<nat>)
  {
    forall i, j :: 0 <= i < j < |r| ==> r[i] < r[j]
  }

  function Elements(r: seq<nat>): set<nat>
  {
    set i | 0 <= i < |r| :: r[i]
  }

  /** The content after visiting the node at `c`: the visit's nodes inserted
      before it, and the node rewritten in place. */
  function Splice(content: seq<Token>, c: nat, v: Visit): (s: seq<Token>)
    requires c < |content|
    ensures |s| == |content| + |v.inserted|
  {
    content[..c] + v.inserted + [v.replacement] + content[c + 1..]
  }

  /** `nodesToRemove` after visiting the node at `c`. */
  function Scheduled(removed: seq<nat>, c: nat, v: Visit): (r: seq<nat>)
    ensures |r| == |removed| + (if v.doomed then 1 else 0)
  {
    removed + (if v.doomed then [c + |v.inserted|] else [])
  }

  ghost predicate WalkState(orig: seq<Token>, content: seq<Token>, cursor: nat, o: nat,
                            depth: int, removed: seq<nat>, walked: seq<Token>, visited: seq<Token>,
                            index: int, lpi: int, lastNode: int, parts: seq<TemplatePart>)
  {
    && cursor <= |content| && o <= |orig|
    && content[cursor..] == orig[o..]
    && visited == Nodes(orig[..o])
    && depth == TemplateDepth(orig[..o])
    && Increasing(removed)
    && (forall i :: 0 <= i < |removed| ==> removed[i] < cursor)
    && walked == Nodes(Kept(content, Elements(removed), cursor))
    && index + 1 == |walked|
    && Resolves(parts, walked, lastNode)
    && (lastNode == index + 1 ==> lastNode == lpi)
    && (lastNode == index + 1 && lastNode >= 1 ==> cursor < |content| && IsNode(content[cursor]))
  }

  /** The state before the first `nextNode()`: `index` is -1, nothing walked. */
  lemma WalkBegins(orig: seq<Token>)
    ensures WalkState(orig, orig, 0, 0, 0, [], [], [], -1, 0, 0, [])
  {
    assert Elements([]) == {};
    assert orig[..0] == [];
  }

  /** Reading a `Close` (the walker climbs out of an element) or an
      `EndContent` (a nested template's content is exhausted and the walk
      resumes at the template) passes no node. */
  lemma WalkSkips(orig: seq<Token>, content: seq<Token>, cursor: nat, o: nat,
                  depth: int, removed: seq<nat>, walked: seq<Token>, visited: seq<Token>,
                  index: int, lpi: int, lastNode: int, parts: seq<TemplatePart>,
                  cursor': nat, o': nat, depth': int)
    requires WalkState(orig, content, cursor, o, depth, removed, walked, visited, index, lpi, lastNode, parts)
    requires cursor < |content| && !IsNode(content[cursor])
    requires cursor' == cursor + 1 && o' == o + 1 && depth' == depth + Delta(content[cursor])
    ensures WalkState(orig, content, cursor', o', depth', removed, walked, visited, index, lpi, lastNode, parts)
  {
    assert content[cursor] == orig[o] by {
      assert content[cursor..][0] == orig[o..][0];
    }
    assert content[cursor + 1..] == content[cursor..][1..];
    assert orig[o + 1..] == orig[o..][1..];
    assert orig[..o + 1] == orig[..o] + [orig[o]];
    NodesAppend(orig[..o], [orig[o]]);
    TemplateDepthAppend(orig[..o], [orig[o]]);
    assert [orig[o]][..0] == [];
    assert Kept(content, Elements(removed), cursor + 1) == Kept(content, Elements(removed), cursor) + [content[cursor]] by {
      assert cursor !in Elements(removed);
    }
    NodesAppend(Kept(content, Elements(removed), cursor), [content[cursor]]);
    assert Nodes([content[cursor]]) == [];
  }

  /** In a balanced content an exhausted nested template always has its
      template on the stack: the depth before its `EndContent` is positive. */
  lemma WalkPopSafe(orig: seq<Token>, content: seq<Token>, cursor: nat, o: nat,
                    depth: int, removed: seq<nat>, walked: seq<Token>, visited: seq<Token>,
                    index: int, lpi: int, lastNode: int, parts: seq<TemplatePart>)
    requires WalkState(orig, content, cursor, o, depth, removed, walked, visited, index, lpi, lastNode, parts)
    requires Balanced(orig)
    requires cursor < |content| && content[cursor].EndContent?
    ensures depth >= 1
  {
    assert content[cursor] == orig[o] by {
      assert content[cursor..][0] == orig[o..][0];
    }
    assert orig[..o + 1] == orig[..o] + [orig[o]];
    TemplateDepthAppend(orig[..o], [orig[o]]);
    assert [orig[o]][..0] == [];
    assert TemplateDepth(orig[..o + 1]) >= 0;
  }

  /** When the cursor reaches the end, every node of the original content has
      been visited, in order, the depth is back to zero, and the parts resolve
      against the nodes that survive the removals. */
  lemma WalkEnds(orig: seq<Token>, content: seq<Token>, cursor: nat, o: nat,
                 depth: int, removed: seq<nat>, walked: seq<Token>, visited: seq<Token>,
                 index: int, lpi: int, lastNode: int, parts: seq<TemplatePart>)
    requires WalkState(orig, content, cursor, o, depth, removed, walked, visited, index, lpi, lastNode, parts)
    requires cursor == |content|
    ensures o == |orig| && visited == Nodes(orig) && depth == TemplateDepth(orig)
    ensures Resolved(parts, Nodes(Kept(content, Elements(removed), |content|)))
  {
    assert |orig[o..]| == 0;
    assert orig[..o] == orig;
    ResolvesFinal(parts, walked, lastNode);
  }

  /** The tokens after the visited node are untouched by the visit. */
  lemma SpliceTail(orig: seq<Token>, content: seq<Token>, cursor: nat, o: nat, v: Visit)
    requires cursor < |content| && o <= |orig| && content[cursor..] == orig[o..]
    ensures o < |orig| && content[cursor] == orig[o]
    ensures Splice(content, cursor, v)[cursor + |v.inserted| + 1..] == orig[o + 1..]
    ensures Splice(content, cursor, v)[..cursor] == content[..cursor]
  {
    assert content[cursor..][0] == orig[o..][0];
    assert content[cursor + 1..] == content[cursor..][1..];
    assert orig[o + 1..] == orig[o..][1..];
  }

  /** One more node read from the original content. */
  lemma ReadOne(orig: seq<Token>, o: nat)
    requires o < |orig|
    ensures Nodes(orig[..o + 1]) == Nodes(orig[..o]) + Nodes([orig[o]])
    ensures TemplateDepth(orig[..o + 1]) == TemplateDepth(orig[..o]) + Delta(orig[o])
  {
    assert orig[..o + 1] == orig[..o] + [orig[o]];
    NodesAppend(orig[..o], [orig[o]]);
    TemplateDepthAppend(orig[..o], [orig[o]]);
    assert [orig[o]][..0] == [];
  }

  /** The scheduled positions stay increasing and behind the cursor, and the
      visited node's final position joins them when it is doomed. */
  lemma ScheduledStep(removed: seq<nat>, cursor: nat, v: Visit)
    requires Increasing(removed) && forall i :: 0 <= i < |removed| ==> removed[i] < cursor
    ensures Increasing(Scheduled(removed, cursor, v))
    ensures forall i :: 0 <= i < |Scheduled(removed, cursor, v)| ==>
              Scheduled(removed, cursor, v)[i] < cursor + |v.inserted| + 1
    ensures forall i :: i in Elements(removed) ==> i < cursor
    ensures Elements(Scheduled(removed, cursor, v)) ==
              if v.doomed then Elements(removed) + {cursor + |v.inserted|} else Elements(removed)
  {
    var removed' := Scheduled(removed, cursor, v);
    if v.doomed {
      assert removed'[|removed|] == cursor + |v.inserted|;
      assert forall i :: 0 <= i < |removed| ==> removed'[i] == removed[i];
    } else {
      assert removed' == removed;
    }
  }

  /** The visit's tokens join the kept prefix. */
  lemma KeptStep(content: seq<Token>, removed: seq<nat>, cursor: nat, v: Visit)
    requires cursor < |content|
    requires Increasing(removed) && forall i :: 0 <= i < |removed| ==> removed[i] < cursor
    ensures Kept(Splice(content, cursor, v), Elements(Scheduled(removed, cursor, v)), cursor + |v.inserted| + 1)
            == Kept(content, Elements(removed), cursor) + Appended(v)
  {
    var r := Elements(removed);
    assert && (forall i :: i in r ==> i < cursor)
           && Elements(Scheduled(removed, cursor, v)) == if v.doomed then r + {cursor + |v.inserted|} else r by {
      ScheduledStep(removed, cursor, v);
    }
    KeptSplice(content, r, cursor, v.inserted, v.replacement, v.doomed,
               Splice(content, cursor, v), Elements(Scheduled(removed, cursor, v)));
  }

  /** What the visit leaves behind joins the surviving walked nodes. */
  lemma WalkedStep(content: seq<Token>, removed: seq<nat>, cursor: nat, v: Visit,
                    content': seq<Token>, removed': seq<nat>, cursor': nat)
    requires cursor < |content|
    requires Increasing(removed) && forall i :: 0 <= i < |removed| ==> removed[i] < cursor
    requires forall t :: 0 <= t < |Appended(v)| ==> IsNode(Appended(v)[t])
    requires content' == Splice(content, cursor, v) && removed' == Scheduled(removed, cursor, v)
    requires cursor' == cursor + |v.inserted| + 1
    ensures Nodes(Kept(content', Elements(removed'), cursor')) == Nodes(Kept(content, Elements(removed), cursor)) + Appended(v)
  {
    var before := Kept(content, Elements(removed), cursor);
    assert Kept(content', Elements(removed'), cursor') == before + Appended(v) by {
      KeptStep(content, removed, cursor, v);
    }
    assert Nodes(before + Appended(v)) == Nodes(before) + Appended(v) by {
      NodesAppend(before, Appended(v));
      NodesOfNodes(Appended(v));
    }
  }

  /** A visit that keeps the numbering and leaves only nodes behind keeps the
      walk state. */
  lemma WalkAdvances(orig: seq<Token>, content: seq<Token>, cursor: nat, o: nat,
                     depth: int, removed: seq<nat>, walked: seq<Token>, visited: seq<Token>,
                     index: int, lpi: int, lastNode: int, parts: seq<TemplatePart>, v: Visit,
                     content': seq<Token>, cursor': nat, o': nat, depth': int, removed': seq<nat>,
                     walked': seq<Token>, visited': seq<Token>, index': int, lpi': int, lastNode': int,
                     parts': seq<TemplatePart>)
    requires WalkState(orig, content, cursor, o, depth, removed, walked, visited, index, lpi, lastNode, parts)
    requires cursor < |content| && IsNode(content[cursor])
    requires StepOk(v, index + 1, lastNode, NextSiblingIsNull(content, cursor))
    requires forall t :: 0 <= t < |Appended(v)| ==> IsNode(Appended(v)[t])
    requires content' == Splice(content, cursor, v) && cursor' == cursor + |v.inserted| + 1 && o' == o + 1
    requires depth' == depth + Delta(content[cursor]) && removed' == Scheduled(removed, cursor, v)
    requires walked' == walked + Appended(v) && visited' == visited + [content[cursor]]
    requires index' == v.index && lpi' == v.lastPartIndex && lastNode' == LastBound(v.parts, lastNode)
    requires parts' == parts + v.parts
    ensures WalkState(orig, content', cursor', o', depth', removed', walked', visited', index', lpi', lastNode', parts')
  {
    assert content'[cursor'..] == orig[o'..] && content[cursor] == orig[o] by {
      SpliceTail(orig, content, cursor, o, v);
    }
    assert visited' == Nodes(orig[..o']) && depth' == TemplateDepth(orig[..o']) by {
      ReadOne(orig, o);
    }
    assert Increasing(removed') && forall i :: 0 <= i < |removed'| ==> removed'[i] < cursor' by {
      ScheduledStep(removed, cursor, v);
    }
    assert walked' == Nodes(Kept(content', Elements(removed'), cursor')) by {
      WalkedStep(content, removed, cursor, v, content', removed', cursor');
    }
    assert && Resolves(parts', walked', lastNode')
           && index' + 1 == |walked'|
           && (lastNode' == index' + 1 ==> lastNode' == lpi')
           && (lastNode' == index' + 1 && lastNode' >= 1 ==> v.doomed && !NextSiblingIsNull(content, cursor)) by {
      NumberingStep(parts, walked, lastNode, lpi, v, NextSiblingIsNull(content, cursor));
    }
    if lastNode' == index' + 1 && lastNode' >= 1 {
      assert content'[cursor'] == content[cursor + 1];
    }
  }

  // ---------------------------------------------------------------------
  // The removals after the walk (src/lib/html-template.ts:161-164)
  // ---------------------------------------------------------------------

  /** With nothing scheduled, every token survives. */
  lemma {:induction false} KeptNone(s: seq<Token>, n: nat)
    requires n <= |s|
    ensures Kept(s, {}, n) == s[..n]
  {
    if n > 0 {
      KeptNone(s, n - 1);
      assert s[..n] == s[..n - 1] + [s[n - 1]];
    }
  }

  /** Exactly one token fewer survives for each scheduled position. */
  lemma {:induction false} KeptLength(s: seq<Token>, r: seq<nat>, n: nat)
    requires n <= |s| && Increasing(r)
    requires forall i :: 0 <= i < |r| ==> r[i] < n
    ensures |Kept(s, Elements(r), n)| == n - |r|
    decreases n
  {
    if |r| == 0 {
      assert Elements(r) == {};
      KeptNone(s, n);
    } else {
      var last := r[|r| - 1];
      var r' := r[..|r| - 1];
      assert forall i :: 0 <= i < |r'| ==> r'[i] == r[i] && r[i] < last;
      assert Elements(r) == Elements(r') + {last} by {
        assert forall i :: 0 <= i < |r'| ==> r'[i] == r[i];
        assert r == r' + [last];
      }
      KeptRun(s, Elements(r), last + 1, n);
      KeptPrefix(s, s, Elements(r), Elements(r'), last);
      KeptLength(s, r', last);
    }
  }

  /** One more scheduled position adds its element. */
  lemma ElementsSnoc(r: seq<nat>, j: nat)
    requires j < |r|
    ensures Elements(r[..j + 1]) == Elements(r[..j]) + {r[j]}
  {
    forall x | x in Elements(r[..j + 1])
      ensures x in Elements(r[..j]) + {r[j]}
    {
      var k :| 0 <= k < j + 1 && r[..j + 1][k] == x;
      if k < j {
        assert r[..j][k] == x;
      }
    }
    forall x | x in Elements(r[..j]) + {r[j]}
      ensures x in Elements(r[..j + 1])
    {
      if x == r[j] {
        assert r[..j + 1][j] == x;
      } else {
        var k :| 0 <= k < j && r[..j][k] == x;
        assert r[..j + 1][k] == x;
      }
    }
  }

  /** Removing the `j`-th scheduled node, once the earlier ones are gone: it
      sits at its original position minus `j`, and taking it out leaves the
      content with the first `j + 1` scheduled nodes removed. */
  lemma RemoveStep(s: seq<Token>, r: seq<nat>, j: nat)
    requires Increasing(r) && forall i :: 0 <= i < |r| ==> r[i] < |s|
    requires j < |r|
    ensures Kept(s, Elements(r[..j]), |s|) == Kept(s, Elements(r[..j]), r[j]) + s[r[j]..]
    ensures |Kept(s, Elements(r[..j]), r[j])| == r[j] - j
    ensures Kept(s, Elements(r[..j + 1]), |s|) == Kept(s, Elements(r[..j]), r[j]) + s[r[j] + 1..]
  {
    RemoveStepBefore(s, r, j);
    RemoveStepAfter(s, r, j);
  }

  /** Before the removal: the scheduled node is the first token after the
      `r[j] - j` survivors in front of it. */
  lemma RemoveStepBefore(s: seq<Token>, r: seq<nat>, j: nat)
    requires Increasing(r) && forall i :: 0 <= i < |r| ==> r[i] < |s|
    requires j < |r|
    ensures Kept(s, Elements(r[..j]), |s|) == Kept(s, Elements(r[..j]), r[j]) + s[r[j]..]
    ensures |Kept(s, Elements(r[..j]), r[j])| == r[j] - j
  {
    var e := Elements(r[..j]);
    assert forall i :: 0 <= i < j ==> r[..j][i] == r[i] && r[i] < r[j];
    KeptRun(s, e, r[j], |s|);
    assert Increasing(r[..j]);
    KeptLength(s, r[..j], r[j]);
  }

  /** After the removal: the survivors in front, then the tokens after it. */
  lemma RemoveStepAfter(s: seq<Token>, r: seq<nat>, j: nat)
    requires Increasing(r) && forall i :: 0 <= i < |r| ==> r[i] < |s|
    requires j < |r|
    ensures Kept(s, Elements(r[..j + 1]), |s|) == Kept(s, Elements(r[..j]), r[j]) + s[r[j] + 1..]
  {
    KeptPastRemoved(s, r, j);
    KeptUpToRemoved(s, r, j);
  }

  /** Nothing after the `j`-th scheduled position is among the first `j + 1`. */
  lemma KeptPastRemoved(s: seq<Token>, r: seq<nat>, j: nat)
    requires Increasing(r) && forall i :: 0 <= i < |r| ==> r[i] < |s|
    requires j < |r|
    ensures Kept(s, Elements(r[..j + 1]), |s|) == Kept(s, Elements(r[..j + 1]), r[j] + 1) + s[r[j] + 1..]
  {
    ElementsSnoc(r, j);
    assert forall x :: x in Elements(r[..j]) ==> x < r[j] by {
      forall x | x in Elements(r[..j])
        ensures x < r[j]
      {
        var k :| 0 <= k < j && r[..j][k] == x;
      }
    }
    KeptRun(s, Elements(r[..j + 1]), r[j] + 1, |s|);
  }

  /** Up to and including the `j`-th scheduled position, the first `j + 1`
      remove what the first `j` remove, and that position too. */
  lemma KeptUpToRemoved(s: seq<Token>, r: seq<nat>, j: nat)
    requires j < |r| && r[j] < |s|
    ensures Kept(s, Elements(r[..j + 1]), r[j] + 1) == Kept(s, Elements(r[..j]), r[j])
  {
    ElementsSnoc(r, j);
    assert Kept(s, Elements(r[..j + 1]), r[j] + 1) == Kept(s, Elements(r[..j + 1]), r[j]);
    KeptPrefix(s, s, Elements(r[..j + 1]), Elements(r[..j]), r[j]);
  }

  // ---------------------------------------------------------------------
  // The trace of the walk: which visit each node of the original content
  // received, and from which counters.
  // ---------------------------------------------------------------------

  /** The values a visit starts from: the incremented `index`,
      `lastPartIndex`, `partIndex` and the marker's `lastIndex`. */
  datatype Counters = Counters(index: int, lastPartIndex: int, partIndex: int, lastIndex: nat)

  /** One visit: the position of the visited node in the original content and
      what its rule did there. */
  datatype Step = Step(pos: nat, visit: Visit)

  /** The counters the visit after `steps` starts from; the first visit starts
      from `index` 0 (-1 incremented), no part and the marker's initial
      `lastIndex` `li0`. */
  function NextCounters(steps: seq<Step>, li0: nat): Counters
  {
    if steps == [] then Counters(0, 0, 0, li0)
    else
      var v := steps[|steps| - 1].visit;
      Counters(v.index + 1, v.lastPartIndex, v.partIndex, v.lastIndex)
  }

  /** `s` visits the `n`-th node of `orig`, by that node's rule, starting from
      `c`, with the sibling tests answered by the original content; it did not
      throw. */
  ghost predicate StepOf(orig: seq<Token>, n: nat, s: Step, c: Counters, ext: Externals)
  {
    && s.pos < |orig| && IsNode(orig[s.pos]) && |Nodes(orig[..s.pos])| == n
    && s.visit == VisitSpec(orig[s.pos], PreviousSiblingIsNull(orig, s.pos), NextSiblingIsNull(orig, s.pos),
                            c.index, c.lastPartIndex, c.partIndex, c.lastIndex, ext)
    && !s.visit.threw
  }

  /** `steps` visit the first `|steps|` nodes of `orig` in document order, each
      from the counters the one before it left. */
  ghost predicate Trace(orig: seq<Token>, steps: seq<Step>, li0: nat, ext: Externals)
    decreases |steps|
  {
    steps == [] ||
    (Trace(orig, steps[..|steps| - 1], li0, ext) &&
     StepOf(orig, |steps| - 1, steps[|steps| - 1], NextCounters(steps[..|steps| - 1], li0), ext))
  }

  /** The parts of the visits, in order. */
  function PartsOf(steps: seq<Step>): seq<TemplatePart>
  {
    if steps == [] then [] else PartsOf(steps[..|steps| - 1]) + steps[|steps| - 1].visit.parts
  }

  /** The surviving nodes of the visits, in order. */
  function AppendedOf(steps: seq<Step>): seq<Token>
  {
    if steps == [] then [] else AppendedOf(steps[..|steps| - 1]) + Appended(steps[|steps| - 1].visit)
  }

  /** A visit leaves the walk at a node of the same kind as far as sibling
      tests go: an element stays an element, and no rule makes an `EndContent`. */
  lemma VisitReplacementKind(tok: Token, prevNull: bool, nextNull: bool, index: int, lpi: int, pi: int, li: nat,
                             ext: Externals)
    requires IsNode(tok)
    ensures var r := VisitSpec(tok, prevNull, nextNull, index, lpi, pi, li, ext).replacement;
            (r.Open? <==> tok.Open?) && !r.EndContent?
  {
  }

  /** The token before the cursor answers the previous-sibling test as the
      token before `o` in the original content does. */
  ghost predicate PrevAgrees(orig: seq<Token>, content: seq<Token>, cursor: nat, o: nat)
  {
    && (cursor == 0 <==> o == 0)
    && (0 < cursor <= |content| && 0 < o <= |orig| ==>
          && (content[cursor - 1].Open? <==> orig[o - 1].Open?)
          && (content[cursor - 1].EndContent? <==> orig[o - 1].EndContent?))
  }

  /** So the sibling tests at the cursor agree with the original content. */
  lemma SiblingsAgree(orig: seq<Token>, content: seq<Token>, cursor: nat, o: nat)
    requires cursor < |content| && o <= |orig| && content[cursor..] == orig[o..]
    requires PrevAgrees(orig, content, cursor, o)
    ensures o < |orig| && content[cursor] == orig[o]
    ensures PreviousSiblingIsNull(content, cursor) == PreviousSiblingIsNull(orig, o)
    ensures NextSiblingIsNull(content, cursor) == NextSiblingIsNull(orig, o)
  {
    assert content[cursor..][0] == orig[o..][0];
    if cursor + 1 < |content| {
      assert content[cursor..][1] == orig[o..][1];
    }
  }

  /** Passing a token that is not visited keeps the agreement. */
  lemma PrevAgreesSkip(orig: seq<Token>, content: seq<Token>, cursor: nat, o: nat)
    requires cursor < |content| && o <= |orig| && content[cursor..] == orig[o..]
    ensures PrevAgrees(orig, content, cursor + 1, o + 1)
  {
    assert content[cursor..][0] == orig[o..][0];
  }

  /** A visit keeps it: the rewritten node sits right before the new cursor. */
  lemma PrevAgreesVisit(orig: seq<Token>, content: seq<Token>, cursor: nat, o: nat, v: Visit,
                        prevNull: bool, nextNull: bool, c: Counters, ext: Externals)
    requires cursor < |content| && o < |orig| && content[cursor] == orig[o] && IsNode(orig[o])
    requires v == VisitSpec(orig[o], prevNull, nextNull, c.index, c.lastPartIndex, c.partIndex, c.lastIndex, ext)
    ensures PrevAgrees(orig, Splice(content, cursor, v), cursor + |v.inserted| + 1, o + 1)
  {
    VisitReplacementKind(orig[o], prevNull, nextNull, c.index, c.lastPartIndex, c.partIndex, c.lastIndex, ext);
    assert Splice(content, cursor, v)[cursor + |v.inserted|] == v.replacement;
  }

  /** A visit that did not throw extends the trace by one step, and the parts
      and surviving nodes by the visit's. */
  lemma TraceGrows(orig: seq<Token>, steps: seq<Step>, li0: nat, ext: Externals, o: nat, v: Visit)
    requires Trace(orig, steps, li0, ext)
    requires o < |orig| && IsNode(orig[o]) && |Nodes(orig[..o])| == |steps|
    requires v == VisitSpec(orig[o], PreviousSiblingIsNull(orig, o), NextSiblingIsNull(orig, o),
                            NextCounters(steps, li0).index, NextCounters(steps, li0).lastPartIndex,
                            NextCounters(steps, li0).partIndex, NextCounters(steps, li0).lastIndex, ext)
    requires !v.threw
    ensures Trace(orig, steps + [Step(o, v)], li0, ext)
    ensures NextCounters(steps + [Step(o, v)], li0) == Counters(v.index + 1, v.lastPartIndex, v.partIndex, v.lastIndex)
    ensures PartsOf(steps + [Step(o, v)]) == PartsOf(steps) + v.parts
    ensures AppendedOf(steps + [Step(o, v)]) == AppendedOf(steps) + Appended(v)
  {
    assert (steps + [Step(o, v)])[..|steps|] == steps;
  }

  /** What the walk has done so far, as a trace: the visits `steps` of the
      nodes before `o`, whose counters lead to the current ones, whose parts
      are `parts` and whose surviving nodes are `walked`; `li` is the marker's
      `lastIndex`. */
  ghost predicate Traced(orig: seq<Token>, content: seq<Token>, cursor: nat, o: nat, visited: seq<Token>,
                         index: int, lpi: int, pi: int, li: nat, parts: seq<TemplatePart>, walked: seq<Token>,
                         steps: seq<Step>, li0: nat, ext: Externals)
  {
    && PrevAgrees(orig, content, cursor, o)
    && Trace(orig, steps, li0, ext) && |steps| == |visited|
    && NextCounters(steps, li0) == Counters(index + 1, lpi, pi, li)
    && parts == PartsOf(steps) && walked == AppendedOf(steps)
  }

  /** Before the first step nothing has been visited. */
  lemma TracedBegins(orig: seq<Token>, li0: nat, ext: Externals)
    ensures Traced(orig, orig, 0, 0, [], -1, 0, 0, li0, [], [], [], li0, ext)
  {
  }

  /** Passing a token that is not a node adds no visit. */
  lemma TracedSkips(orig: seq<Token>, content: seq<Token>, cursor: nat, o: nat, visited: seq<Token>,
                    index: int, lpi: int, pi: int, li: nat, parts: seq<TemplatePart>, walked: seq<Token>,
                    steps: seq<Step>, li0: nat, ext: Externals)
    requires Traced(orig, content, cursor, o, visited, index, lpi, pi, li, parts, walked, steps, li0, ext)
    requires cursor < |content| && o <= |orig| && content[cursor..] == orig[o..]
    ensures Traced(orig, content, cursor + 1, o + 1, visited, index, lpi, pi, li, parts, walked, steps, li0, ext)
  {
    PrevAgreesSkip(orig, content, cursor, o);
  }

  /** A visit that did not throw adds one step: the node at `o`, visited by
      its rule from the current counters. */
  lemma TracedVisits(orig: seq<Token>, content: seq<Token>, cursor: nat, o: nat, visited: seq<Token>,
                     index: int, lpi: int, pi: int, li: nat, parts: seq<TemplatePart>, walked: seq<Token>,
                     steps: seq<Step>, li0: nat, ext: Externals, v: Visit)
    requires Traced(orig, content, cursor, o, visited, index, lpi, pi, li, parts, walked, steps, li0, ext)
    requires cursor < |content| && o <= |orig| && content[cursor..] == orig[o..] && visited == Nodes(orig[..o])
    requires IsNode(content[cursor])
    requires v == VisitSpec(content[cursor], PreviousSiblingIsNull(content, cursor), NextSiblingIsNull(content, cursor),
                            index + 1, lpi, pi, li, ext)
    requires !v.threw
    ensures Traced(orig, Splice(content, cursor, v), cursor + |v.inserted| + 1, o + 1, visited + [content[cursor]],
                   v.index, v.lastPartIndex, v.partIndex, v.lastIndex, parts + v.parts, walked + Appended(v),
                   steps + [Step(o, v)], li0, ext)
  {
    SiblingsAgree(orig, content, cursor, o);
    PrevAgreesVisit(orig, content, cursor, o, v, PreviousSiblingIsNull(orig, o), NextSiblingIsNull(orig, o),
                    NextCounters(steps, li0), ext);
    TraceGrows(orig, steps, li0, ext, o, v);
  }
}
