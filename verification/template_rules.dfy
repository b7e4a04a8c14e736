/**
 What the template compiler does at one node, as pure functions of the node
 and of the walk's counters (src/lib/html-template.ts:46-158), and the
 numbering facts each rule guarantees.

 The counters are those of `_traverse`: `index` (here always the value after
 the increment for the visited node), `lastPartIndex`, `partIndex`, and the
 global marker's `lastIndex`. A rule's effect on the tree is described by the
 nodes it inserts before the visited node, the token that replaces the node,
 and whether the node is scheduled for removal after the walk.
 */
module TemplateRules {
  import opened Wrappers
  import opened Dom
  import opened Marker

  /** A part descriptor. Inert parts made for markers inside comments are
      `NodePart(-1, None)`. */
  datatype TemplatePart =
    | AttributePart(index: int, name: string, strings: seq<string>)
    | NodePart(index: int, expr: Option<string>)

  /** A node part that refers to a node of the compiled template. */
  predicate IsBound(p: TemplatePart)
  {
    p.NodePart? && p.index >= 0
  }

  /** A node part that carries an expression. */
  predicate IsExprPart(p: TemplatePart)
  {
    p.NodePart? && p.expr.Some?
  }

  /** The names the attribute rule uses but the compiler does not define:
      the template result's literal strings, the attribute-name extractor
      (`None` when it does not match, which makes the non-null assertion on
      its result throw), the suffix of bound attribute names, and the splitter
      applied to bound attribute values. `isSentinel` stands for the test that
      selects the sentinel-comment rule. */
  datatype Externals = Externals(
    resultStrings: seq<string>,
    lastAttributeName: string -> Option<string>,
    boundAttributeSuffix: string,
    splitAttribute: string -> seq<string>,
    isSentinel: string -> bool)

  /** The effect of visiting one node: nodes inserted before it, the token that
      replaces it, whether it is scheduled for removal, the parts appended, the
      new counters, and whether the visit threw a TypeError. */
  datatype Visit = Visit(
    inserted: seq<Token>,
    replacement: Token,
    doomed: bool,
    parts: seq<TemplatePart>,
    index: int,
    lastPartIndex: int,
    partIndex: int,
    lastIndex: nat,
    threw: bool)

  /** The tokens a visit leaves in the final tree in place of the visited node. */
  function Appended(v: Visit): seq<Token>
  {
    v.inserted + (if v.doomed then [] else [v.replacement])
  }

  // ---------------------------------------------------------------------
  // Text nodes (src/lib/html-template.ts:87-125)
  // ---------------------------------------------------------------------

  datatype Rewritten = Rewritten(inserted: seq<Token>, parts: seq<TemplatePart>)

  /** The captures of a list of matches. */
  function Captures(ms: seq<Match>): (cs: seq<string>)
    ensures |cs| == |ms|
    ensures forall k :: 0 <= k < |ms| ==> cs[k] == ms[k].capture
  {
    if ms == [] then [] else Captures(ms[..|ms| - 1]) + [ms[|ms| - 1].capture]
  }

  /** The expressions carried by a list of parts, in order. */
  function Exprs(ps: seq<TemplatePart>): seq<string>
  {
    if ps == [] then []
    else Exprs(ps[..|ps| - 1]) + (if IsExprPart(ps[|ps| - 1]) then [ps[|ps| - 1].expr.value] else [])
  }

  lemma {:induction false} ExprsAppend(a: seq<TemplatePart>, b: seq<TemplatePart>)
    ensures Exprs(a + b) == Exprs(a) + Exprs(b)
    decreases |b|
  {
    if b != [] {
      assert (a + b)[..|a + b| - 1] == a + b[..|b| - 1];
      ExprsAppend(a, b[..|b| - 1]);
    } else {
      assert a + b == a;
    }
  }

  /** The nodes inserted before a text node for one match `m`, and the parts
      made for it, when `b` parts precede it. Because `strIndex` stays 0, the
      text inserted before a match that does not start the string is the whole
      prefix of `data` up to the match. */
  function Chunk(data: string, m: Match, b: int): (c: Rewritten)
    requires m.start <= |data|
    ensures |c.parts| == |c.inserted| && 1 <= |c.parts| <= 2
  {
    if m.start > 0 then
      Rewritten([TextNode(data[..m.start]), CommentNode("")], [NodePart(b + 1, None), NodePart(b + 2, Some(m.capture))])
    else
      Rewritten([CommentNode("")], [NodePart(b + 1, Some(m.capture))])
  }

  /** The nodes inserted before a text node and the parts appended by the
      `exec` loop, for the matches `ms` and the value `base` of `index` before
      the loop: every part is a node part numbered one past the previous. */
  function Rewrite(data: string, ms: seq<Match>, base: int): (r: Rewritten)
    requires forall k :: 0 <= k < |ms| ==> ms[k].start <= |data|
    ensures |r.parts| == |r.inserted|
    ensures |ms| <= |r.parts| <= 2 * |ms|
    ensures forall t :: 0 <= t < |r.parts| ==> r.parts[t].NodePart? && r.parts[t].index == base + 1 + t
    ensures forall t :: 0 <= t < |r.inserted| ==> r.inserted[t].TextNode? || r.inserted[t].CommentNode?
  {
    if ms == [] then Rewritten([], [])
    else
      var r := Rewrite(data, ms[..|ms| - 1], base);
      var c := Chunk(data, ms[|ms| - 1], base + |r.parts|);
      Rewritten(r.inserted + c.inserted, r.parts + c.parts)
  }

  /** One more round of the `exec` loop: the text before the match when the
      match does not start the string, then a marker comment; an
      expression-less part for the former and a part carrying the capture for
      the latter. */
  lemma RewriteRound(data: string, ms: seq<Match>, m: Match, base: int, inserted: seq<Token>, parts: seq<TemplatePart>, b: int)
    requires forall k :: 0 <= k < |ms| ==> ms[k].start <= |data|
    requires m.start <= |data|
    requires Rewritten(inserted, parts) == Rewrite(data, ms, base)
    requires b == base + |parts|
    ensures Rewrite(data, ms + [m], base) == Rewritten(inserted + Chunk(data, m, b).inserted, parts + Chunk(data, m, b).parts)
  {
    assert (ms + [m])[..|ms|] == ms;
  }

  /** What `Rewrite` inserts: a marker comment before each expression part's
      node and a text node before each expression-less part's node. */
  lemma {:induction false} RewriteMarkers(data: string, ms: seq<Match>, base: int)
    requires forall k :: 0 <= k < |ms| ==> ms[k].start <= |data|
    ensures forall t :: 0 <= t < |Rewrite(data, ms, base).parts| ==>
              (Rewrite(data, ms, base).parts[t].expr.Some? <==> Rewrite(data, ms, base).inserted[t] == CommentNode(""))
  {
    if ms != [] {
      var r0 := Rewrite(data, ms[..|ms| - 1], base);
      var c := Chunk(data, ms[|ms| - 1], base + |r0.parts|);
      RewriteMarkers(data, ms[..|ms| - 1], base);
      var r := Rewrite(data, ms, base);
      assert r.parts == r0.parts + c.parts && r.inserted == r0.inserted + c.inserted;
      forall t | 0 <= t < |r.parts|
        ensures r.parts[t].expr.Some? <==> r.inserted[t] == CommentNode("")
      {
        if t < |r0.parts| {
          assert r.parts[t] == r0.parts[t] && r.inserted[t] == r0.inserted[t];
        } else {
          assert r.parts[t] == c.parts[t - |r0.parts|] && r.inserted[t] == c.inserted[t - |r0.parts|];
        }
      }
    }
  }

  /** Each expression-less part is immediately followed by an expression
      part, and the text inserted for it is a non-empty prefix of `data`; the
      last part carries an expression. */
  ghost predicate PrefixesBeforeExprs(data: string, r: Rewritten)
  {
    && |r.parts| == |r.inserted|
    && (forall t :: 0 <= t < |r.parts| ==> r.parts[t].NodePart?)
    && (forall t :: 0 <= t < |r.parts| && r.parts[t].expr.None? ==>
          && t + 1 < |r.parts| && r.parts[t + 1].expr.Some?
          && r.inserted[t].TextNode? && 0 < |r.inserted[t].data| <= |data|
          && r.inserted[t].data == data[..|r.inserted[t].data|])
    && (|r.parts| > 0 ==> r.parts[|r.parts| - 1].expr.Some?)
  }

  /** One more chunk keeps the shape. */
  lemma ChunkPrefixes(data: string, r: Rewritten, m: Match, b: int, r': Rewritten)
    requires m.start <= |data|
    requires PrefixesBeforeExprs(data, r)
    requires r' == Rewritten(r.inserted + Chunk(data, m, b).inserted, r.parts + Chunk(data, m, b).parts)
    ensures PrefixesBeforeExprs(data, r')
  {
    var c := Chunk(data, m, b);
    forall t | 0 <= t < |r'.parts| && r'.parts[t].expr.None?
      ensures && t + 1 < |r'.parts| && r'.parts[t + 1].expr.Some?
              && r'.inserted[t].TextNode? && 0 < |r'.inserted[t].data| <= |data|
              && r'.inserted[t].data == data[..|r'.inserted[t].data|]
    {
      if t < |r.parts| {
        assert r'.parts[t] == r.parts[t] && r'.inserted[t] == r.inserted[t];
        assert r'.parts[t + 1] == r.parts[t + 1];
      } else {
        assert r'.parts[t] == c.parts[t - |r.parts|] && r'.inserted[t] == c.inserted[t - |r.parts|];
        assert r'.parts[t + 1] == c.parts[t + 1 - |r.parts|];
      }
    }
    assert r'.parts[|r'.parts| - 1] == c.parts[|c.parts| - 1];
  }

  /** The parts `Rewrite` makes have that shape. */
  lemma {:induction false} RewritePrefixes(data: string, ms: seq<Match>, base: int)
    requires forall k :: 0 <= k < |ms| ==> ms[k].start <= |data|
    ensures PrefixesBeforeExprs(data, Rewrite(data, ms, base))
  {
    if ms != [] {
      var r0 := Rewrite(data, ms[..|ms| - 1], base);
      RewritePrefixes(data, ms[..|ms| - 1], base);
      ChunkPrefixes(data, r0, ms[|ms| - 1], base + |r0.parts|, Rewrite(data, ms, base));
    }
  }

  /** The expressions of the parts `Rewrite` makes are the captures of the
      matches, in order: one expression part per match. */
  lemma {:induction false} RewriteExprs(data: string, ms: seq<Match>, base: int)
    requires forall k :: 0 <= k < |ms| ==> ms[k].start <= |data|
    ensures Exprs(Rewrite(data, ms, base).parts) == Captures(ms)
  {
    if ms != [] {
      var r0 := Rewrite(data, ms[..|ms| - 1], base);
      var m := ms[|ms| - 1];
      var b := base + |r0.parts|;
      var c := Chunk(data, m, b);
      RewriteExprs(data, ms[..|ms| - 1], base);
      ExprsAppend(r0.parts, c.parts);
      if m.start > 0 {
        assert c.parts == [NodePart(b + 1, None)] + [NodePart(b + 2, Some(m.capture))];
        ExprsAppend([NodePart(b + 1, None)], [NodePart(b + 2, Some(m.capture))]);
        assert [NodePart(b + 1, None)][..0] == [];
        assert [NodePart(b + 2, Some(m.capture))][..0] == [];
      } else {
        assert c.parts[..0] == [];
      }
      assert Captures(ms)[..|ms| - 1] == Captures(ms[..|ms| - 1]);
    }
  }

  /** The number of matches that do not start the data: each of them costs
      one part more, for the text before it. */
  function Prefixed(ms: seq<Match>): (n: nat)
    ensures n <= |ms|
  {
    if ms == [] then 0
    else Prefixed(ms[..|ms| - 1]) + if ms[|ms| - 1].start > 0 then 1 else 0
  }

  /** The position of match `k`'s expression part among the parts the `exec`
      loop makes: one part for each match up to `k`, and one more for each of
      them that does not start the data. */
  function ExprSlot(ms: seq<Match>, k: nat): nat
    requires k < |ms|
  {
    k + Prefixed(ms[..k + 1])
  }

  /** What the `exec` loop made for match `k`, read off `r`: at its slot, a
      marker comment and a part carrying the capture, numbered one past its
      position; directly before them, exactly when the match does not start
      the data, the text before the match and an expression-less part. */
  ghost predicate MatchLaidOut(data: string, ms: seq<Match>, k: nat, base: int, r: Rewritten)
    requires k < |ms|
  {
    var t := ExprSlot(ms, k);
    && t < |r.parts| && t < |r.inserted|
    && r.parts[t] == NodePart(base + 1 + t, Some(ms[k].capture))
    && r.inserted[t] == CommentNode("")
    && (ms[k].start > 0 <==> t > 0 && r.parts[t - 1] == NodePart(base + t, None))
    && (ms[k].start > 0 ==> t > 0 && ms[k].start <= |data| && r.inserted[t - 1] == TextNode(data[..ms[k].start]))
  }

  /** `r` holds exactly the nodes and parts of the matches `ms`, laid out one
      match after the other. */
  ghost predicate LaidOut(data: string, ms: seq<Match>, base: int, r: Rewritten)
  {
    && |r.parts| == |r.inserted| == |ms| + Prefixed(ms)
    && forall k :: 0 <= k < |ms| ==> MatchLaidOut(data, ms, k, base, r)
  }

  /** One more round of the `exec` loop leaves the earlier matches laid out
      where they were. */
  lemma LaidOutKeeps(data: string, init: seq<Match>, m: Match, base: int, r0: Rewritten, r: Rewritten, k: nat)
    requires m.start <= |data|
    requires LaidOut(data, init, base, r0) && k < |init|
    requires r == Rewritten(r0.inserted + Chunk(data, m, base + |r0.parts|).inserted,
                            r0.parts + Chunk(data, m, base + |r0.parts|).parts)
    ensures MatchLaidOut(data, init + [m], k, base, r)
  {
    assert (init + [m])[..k + 1] == init[..k + 1];
    assert MatchLaidOut(data, init, k, base, r0);
    var t := ExprSlot(init, k);
    assert r.parts[t] == r0.parts[t] && r.inserted[t] == r0.inserted[t];
    if t > 0 {
      assert r.parts[t - 1] == r0.parts[t - 1] && r.inserted[t - 1] == r0.inserted[t - 1];
    }
  }

  /** ... and lays out the new match right after them. */
  lemma LaidOutLast(data: string, init: seq<Match>, m: Match, base: int, r0: Rewritten, r: Rewritten)
    requires m.start <= |data|
    requires LaidOut(data, init, base, r0)
    requires r == Rewritten(r0.inserted + Chunk(data, m, base + |r0.parts|).inserted,
                            r0.parts + Chunk(data, m, base + |r0.parts|).parts)
    ensures MatchLaidOut(data, init + [m], |init|, base, r)
  {
    var ms := init + [m];
    var b := base + |r0.parts|;
    var t := ExprSlot(ms, |init|);
    assert t == b - base + (if m.start > 0 then 1 else 0) by {
      assert ms[..|init| + 1] == ms && ms[..|ms| - 1] == init;
    }
    if m.start > 0 {
      assert r.parts[t - 1] == NodePart(b + 1, None) && r.inserted[t - 1] == TextNode(data[..m.start]);
      assert r.parts[t] == NodePart(b + 2, Some(m.capture)) && r.inserted[t] == CommentNode("");
    } else {
      assert r.parts[t] == NodePart(b + 1, Some(m.capture)) && r.inserted[t] == CommentNode("");
      if |init| > 0 {
        assert r.parts[t - 1].expr.Some? by {
          assert init[..|init|] == init;
          assert MatchLaidOut(data, init, |init| - 1, base, r0);
          assert r.parts[t - 1] == r0.parts[t - 1];
        }
      }
    }
  }

  /** One more round of the `exec` loop lays out one more match. */
  lemma LaidOutStep(data: string, init: seq<Match>, m: Match, base: int, r0: Rewritten, r: Rewritten)
    requires m.start <= |data|
    requires LaidOut(data, init, base, r0)
    requires r == Rewritten(r0.inserted + Chunk(data, m, base + |r0.parts|).inserted,
                            r0.parts + Chunk(data, m, base + |r0.parts|).parts)
    ensures LaidOut(data, init + [m], base, r)
  {
    assert (init + [m])[..|init|] == init;
    forall k | 0 <= k < |init| + 1
      ensures MatchLaidOut(data, init + [m], k, base, r)
    {
      if k < |init| {
        LaidOutKeeps(data, init, m, base, r0, r, k);
      } else {
        LaidOutLast(data, init, m, base, r0, r);
      }
    }
  }

  /** The `exec` loop lays out every match: for each one a marker comment and
      a part with its capture, preceded by the text before it and an
      expression-less part exactly when it does not start the data, and
      nothing else. */
  lemma {:induction false} RewriteLaidOut(data: string, ms: seq<Match>, base: int)
    requires forall k :: 0 <= k < |ms| ==> ms[k].start <= |data|
    ensures LaidOut(data, ms, base, Rewrite(data, ms, base))
  {
    if ms != [] {
      var init := ms[..|ms| - 1];
      RewriteLaidOut(data, init, base);
      assert init + [ms[|ms| - 1]] == ms;
      LaidOutStep(data, init, ms[|ms| - 1], base, Rewrite(data, init, base), Rewrite(data, ms, base));
    }
  }

  /** The text rule. `index` is the node's number. */
  function TextVisit(data: string, index: int, lpi: int, pi: int, li: nat): (v: Visit)
  {
    var t := RegExpExec(data, li);
    if t.found.None? then
      Visit([], TextNode(data), false, [], index, lpi, pi, t.lastIndex, false)
    else
      MarkedVisit(data, Split(data, 0), Rewrite(data, Matches(data, 0), index), index, lpi, pi)
  }

  /** A marked text node, given the pieces of `split` and what the `exec`
      loop made: the last piece decides whether the node stays. */
  function MarkedVisit(data: string, strings: seq<string>, rw: Rewritten, index: int, lpi: int, pi: int): (v: Visit)
    requires |strings| > 0
  {
    var tail := strings[|strings| - 1];
    if tail == "" then
      Visit(rw.inserted + [CommentNode("")], TextNode(data), true, rw.parts, index + |rw.parts|, lpi, pi + |strings| - 1, 0, false)
    else
      Visit(rw.inserted, TextNode(tail), false, rw.parts, index + |rw.parts|, lpi, pi + |strings| - 1, 0, false)
  }

  /** The shape of a marked text node's visit: the parts and inserted nodes of
      the `exec` loop, then one more surviving node (the extra marker comment,
      or the node itself with the trailing text). */
  lemma TextVisitShape(data: string, index: int, lpi: int, pi: int, li: nat)
    requires RegExpExec(data, li).found.Some?
    ensures TextVisit(data, index, lpi, pi, li).parts == Rewrite(data, Matches(data, 0), index).parts
    ensures |Appended(TextVisit(data, index, lpi, pi, li))| == |Rewrite(data, Matches(data, 0), index).parts| + 1
    ensures Appended(TextVisit(data, index, lpi, pi, li))[..|Rewrite(data, Matches(data, 0), index).parts|]
              == Rewrite(data, Matches(data, 0), index).inserted
    ensures TextVisit(data, index, lpi, pi, li).index == index + |Rewrite(data, Matches(data, 0), index).parts|
    ensures !TextVisit(data, index, lpi, pi, li).threw
    ensures IsNode(Appended(TextVisit(data, index, lpi, pi, li))[|Rewrite(data, Matches(data, 0), index).parts|])
  {
    TextVisitMarked(data, index, lpi, pi, li);
    MarkedVisitShape(data, Split(data, 0), Rewrite(data, Matches(data, 0), index), index, lpi, pi);
  }

  /** A text node the marker test rejects is left alone and yields no part; the
      failed test resets `lastIndex`. */
  lemma TextVisitUnmarked(data: string, index: int, lpi: int, pi: int, li: nat)
    requires forall i, j :: li <= i ==> !MatchesAt(data, i, j)
    ensures TextVisit(data, index, lpi, pi, li) == Visit([], TextNode(data), false, [], index, lpi, pi, 0, false)
  {
    if li <= |data| {
      FindMarkerLeftmost(data, li);
    }
  }

  /** A marked text node yields one expression part per match, carrying the
      match's capture, numbered consecutively after the node's own number;
      `index` ends at the last of them, `partIndex` grows by the number of
      captures, and `lastIndex` ends at 0 (the final failed `exec`). */
  lemma {:induction false} TextVisitParts(data: string, index: nat, lpi: int, pi: int, li: nat)
    requires RegExpExec(data, li).found.Some?
    ensures 1 <= |Matches(data, 0)| <= |TextVisit(data, index, lpi, pi, li).parts|
    ensures Exprs(TextVisit(data, index, lpi, pi, li).parts) == Captures(Matches(data, 0))
    ensures forall t :: 0 <= t < |TextVisit(data, index, lpi, pi, li).parts| ==>
              && IsBound(TextVisit(data, index, lpi, pi, li).parts[t])
              && TextVisit(data, index, lpi, pi, li).parts[t].index == index + 1 + t
    ensures TextVisit(data, index, lpi, pi, li).index == index + |TextVisit(data, index, lpi, pi, li).parts|
    ensures TextVisit(data, index, lpi, pi, li).partIndex == pi + 2 * |Matches(data, 0)|
    ensures TextVisit(data, index, lpi, pi, li).lastIndex == 0 && !TextVisit(data, index, lpi, pi, li).threw
  {
    var m := RegExpExec(data, li).found.value;
    assert FindMarker(data, li) == Some(m);
    FoundFromStart(data, li);
    var ms := Matches(data, 0);
    RewriteExprs(data, ms, index);
    TextVisitMarked(data, index, lpi, pi, li);
    MarkedVisitParts(data, ms, Split(data, 0), Rewrite(data, ms, index), index, lpi, pi,
                     TextVisit(data, index, lpi, pi, li));
  }

  /** `TextVisitParts` for the marked rule, given what the `exec` loop made
      for the matches `ms` and the `2 * |ms| + 1` pieces of `split`. */
  lemma MarkedVisitParts(data: string, ms: seq<Match>, strings: seq<string>, rw: Rewritten,
                         index: nat, lpi: int, pi: int, v: Visit)
    requires |strings| == 2 * |ms| + 1 && 1 <= |ms| <= |rw.parts|
    requires Exprs(rw.parts) == Captures(ms)
    requires forall t :: 0 <= t < |rw.parts| ==> rw.parts[t].NodePart? && rw.parts[t].index == index + 1 + t
    requires v == MarkedVisit(data, strings, rw, index, lpi, pi)
    ensures 1 <= |ms| <= |v.parts| && Exprs(v.parts) == Captures(ms)
    ensures forall t :: 0 <= t < |v.parts| ==> IsBound(v.parts[t]) && v.parts[t].index == index + 1 + t
    ensures v.index == index + |v.parts| && v.partIndex == pi + 2 * |ms|
    ensures v.lastIndex == 0 && !v.threw
  {
    MarkedVisitShape(data, strings, rw, index, lpi, pi);
  }

  /** Exactly one part per match, and one more per match that does not start
      the data. */
  lemma TextVisitCount(data: string, index: int, lpi: int, pi: int, li: nat)
    requires RegExpExec(data, li).found.Some?
    ensures |TextVisit(data, index, lpi, pi, li).parts| == |Matches(data, 0)| + Prefixed(Matches(data, 0))
  {
    TextVisitLaidOut(data, index, lpi, pi, li);
  }

  /** The nodes a marked text node gets before it and its parts are laid out
      match by match, as `LaidOut` describes. */
  lemma TextVisitLaidOut(data: string, index: int, lpi: int, pi: int, li: nat)
    requires RegExpExec(data, li).found.Some?
    ensures var v := TextVisit(data, index, lpi, pi, li);
            && |v.parts| < |Appended(v)|
            && LaidOut(data, Matches(data, 0), index, Rewritten(Appended(v)[..|v.parts|], v.parts))
  {
    TextVisitShape(data, index, lpi, pi, li);
    RewriteLaidOut(data, Matches(data, 0), index);
  }

  /** A marked text node's visit is the marked rule applied to the pieces of
      `split` and to what the `exec` loop makes. */
  lemma TextVisitMarked(data: string, index: int, lpi: int, pi: int, li: nat)
    requires RegExpExec(data, li).found.Some?
    ensures TextVisit(data, index, lpi, pi, li) == MarkedVisit(data, Split(data, 0), Rewrite(data, Matches(data, 0), index), index, lpi, pi)
  {
  }

  /** The marked rule keeps the parts and the inserted nodes of the `exec`
      loop, follows them with exactly one surviving node, and advances
      `partIndex` by one less than the number of pieces. */
  lemma MarkedVisitShape(data: string, strings: seq<string>, rw: Rewritten, index: int, lpi: int, pi: int)
    requires |strings| > 0
    ensures var v := MarkedVisit(data, strings, rw, index, lpi, pi);
            && v.parts == rw.parts && v.index == index + |rw.parts| && v.lastPartIndex == lpi
            && v.partIndex == pi + |strings| - 1 && v.lastIndex == 0 && !v.threw
            && |Appended(v)| == |rw.inserted| + 1 && Appended(v)[..|rw.inserted|] == rw.inserted
            && IsNode(Appended(v)[|rw.inserted|])
  {
  }

  /** The marked rule schedules the node for removal exactly when the last
      piece is empty; it then inserts a marker comment last, and otherwise the
      node keeps the last piece as its data. */
  lemma MarkedVisitTail(data: string, strings: seq<string>, rw: Rewritten, index: int, lpi: int, pi: int)
    requires |strings| > 0
    ensures MarkedVisit(data, strings, rw, index, lpi, pi).doomed <==> |strings[|strings| - 1]| == 0
    ensures MarkedVisit(data, strings, rw, index, lpi, pi).doomed ==>
              MarkedVisit(data, strings, rw, index, lpi, pi).inserted == rw.inserted + [CommentNode("")]
    ensures !MarkedVisit(data, strings, rw, index, lpi, pi).doomed ==>
              MarkedVisit(data, strings, rw, index, lpi, pi).replacement == TextNode(strings[|strings| - 1])
  {
  }

  /** A marked text node is scheduled for removal exactly when the text after
      its last match is empty, that is when its last match ends the data. */
  lemma TextVisitTail(data: string, index: int, lpi: int, pi: int, li: nat)
    requires RegExpExec(data, li).found.Some?
    ensures TextVisit(data, index, lpi, pi, li).doomed <==> TailStart(data, 0) == |data|
  {
    TextVisitMarked(data, index, lpi, pi, li);
    MarkedVisitTail(data, Split(data, 0), Rewrite(data, Matches(data, 0), index), index, lpi, pi);
  }

  /** When it is removed, a marker comment is inserted last in its place. */
  lemma TextVisitDoomed(data: string, index: int, lpi: int, pi: int, li: nat)
    requires RegExpExec(data, li).found.Some? && TextVisit(data, index, lpi, pi, li).doomed
    ensures TextVisit(data, index, lpi, pi, li).inserted[|TextVisit(data, index, lpi, pi, li).inserted| - 1] == CommentNode("")
  {
    TextVisitMarked(data, index, lpi, pi, li);
    MarkedVisitTail(data, Split(data, 0), Rewrite(data, Matches(data, 0), index), index, lpi, pi);
  }

  /** When it is kept, its data becomes the text after the last match. */
  lemma TextVisitKept(data: string, index: int, lpi: int, pi: int, li: nat)
    requires RegExpExec(data, li).found.Some? && !TextVisit(data, index, lpi, pi, li).doomed
    ensures TextVisit(data, index, lpi, pi, li).replacement == TextNode(data[TailStart(data, 0)..])
  {
    TextVisitMarked(data, index, lpi, pi, li);
    MarkedVisitTail(data, Split(data, 0), Rewrite(data, Matches(data, 0), index), index, lpi, pi);
  }

  // ---------------------------------------------------------------------
  // Comment nodes (src/lib/html-template.ts:126-157)
  // ---------------------------------------------------------------------

  /** `count` inert parts. */
  function InertParts(count: nat): (ps: seq<TemplatePart>)
    ensures |ps| == count
    ensures forall k :: 0 <= k < count ==> ps[k] == NodePart(-1, None)
  {
    if count == 0 then [] else InertParts(count - 1) + [NodePart(-1, None)]
  }

  /** The comment rule. `prevNull` and `nextNull` say whether the node's
      `previousSibling` and `nextSibling` are null; `sentinel` is the outcome
      of the sentinel test. */
  function CommentVisit(data: string, index: int, lpi: int, pi: int, li: nat,
                        prevNull: bool, nextNull: bool, sentinel: bool): (v: Visit)
  {
    if sentinel then
      var insert := prevNull || index == lpi;
      var idx := if insert then index + 1 else index;
      Visit(if insert then [CommentNode("")] else [],
            if nextNull then CommentNode("") else CommentNode(data),
            !nextNull,
            [NodePart(idx, None)],
            if nextNull then idx else idx - 1,
            idx, pi + 1, li, false)
    else
      Visit([], CommentNode(data), false, InertParts(IndexOfLoopCount(data, MarkerSourceText, -1)),
            index, lpi, pi, li, false)
  }

  /** A sentinel comment yields exactly one expression-less node part. A marker
      comment is inserted first exactly when the comment has no previous sibling
      or the previous part was made at the current index, so the part never
      reuses the previous sentinel part's index. The comment is kept, emptied,
      when it has no next sibling and is otherwise scheduled for removal, with
      `index` stepping back over it. `partIndex` grows by one. */
  lemma SentinelVisit(data: string, index: int, lpi: int, pi: int, li: nat, prevNull: bool, nextNull: bool)
    requires lpi <= index
    ensures var v := CommentVisit(data, index, lpi, pi, li, prevNull, nextNull, true);
            && |v.parts| == 1 && v.parts[0].NodePart? && v.parts[0].expr.None?
            && (v.inserted == [CommentNode("")] <==> (prevNull || index == lpi))
            && (v.inserted == [] <==> !(prevNull || index == lpi))
            && v.parts[0].index == index + |v.inserted|
            && v.parts[0].index != lpi
            && v.lastPartIndex == v.parts[0].index
            && (nextNull ==> !v.doomed && v.replacement == CommentNode("") && v.index == v.parts[0].index)
            && (!nextNull ==> v.doomed && v.index == v.parts[0].index - 1)
            && v.partIndex == pi + 1 && v.lastIndex == li
  {
  }

  /** A comment that is not the sentinel is left unchanged and yields one inert
      part per occurrence of the text of the marker's source, overlapping
      occurrences included. */
  lemma PlainCommentVisit(data: string, index: int, lpi: int, pi: int, li: nat, prevNull: bool, nextNull: bool)
    ensures var v := CommentVisit(data, index, lpi, pi, li, prevNull, nextNull, false);
            && v.inserted == [] && v.replacement == CommentNode(data) && !v.doomed
            && |v.parts| == OccurrencesFrom(data, MarkerSourceText, 0)
            && (forall k :: 0 <= k < |v.parts| ==> v.parts[k] == NodePart(-1, None))
            && v.index == index && v.lastPartIndex == lpi && v.partIndex == pi && v.lastIndex == li
  {
    IndexOfLoopCountsOccurrences(data, MarkerSourceText, -1);
  }

  // ---------------------------------------------------------------------
  // Elements (src/lib/html-template.ts:46-86)
  // ---------------------------------------------------------------------

  /** How many attribute values pass `marker.test`, run in attribute order
      with the shared `lastIndex` threaded through, and the final `lastIndex`. */
  datatype Counted = Counted(count: nat, lastIndex: nat)

  function TestAll(attrs: seq<Attr>, li: nat): (c: Counted)
    ensures c.count <= |attrs|
  {
    if attrs == [] then Counted(0, li)
    else
      var c := TestAll(attrs[..|attrs| - 1], li);
      var e := RegExpExec(attrs[|attrs| - 1].value, c.lastIndex);
      Counted(c.count + (if e.found.Some? then 1 else 0), e.lastIndex)
  }

  /** Number of attributes whose value contains a marker. */
  function MarkedCount(attrs: seq<Attr>): (n: nat)
    ensures n <= |attrs|
  {
    if attrs == [] then 0
    else MarkedCount(attrs[..|attrs| - 1]) + (if FindMarker(attrs[|attrs| - 1].value, 0).Some? then 1 else 0)
  }

  /** Every attribute the shared-`lastIndex` tests count does contain a marker,
      so the count never exceeds the number of marked attributes; starting from
      `lastIndex` 0, it is positive exactly when some attribute is marked. */
  lemma {:induction false} TestAllBounds(attrs: seq<Attr>, li: nat)
    ensures TestAll(attrs, li).count <= MarkedCount(attrs)
    ensures li == 0 ==> (TestAll(attrs, li).count > 0 <==> MarkedCount(attrs) > 0)
    ensures TestAll(attrs, li).count == 0 && attrs != [] ==> TestAll(attrs, li).lastIndex == 0
  {
    if attrs != [] {
      var init := attrs[..|attrs| - 1];
      var v := attrs[|attrs| - 1].value;
      TestAllBounds(init, li);
      var c := TestAll(init, li);
      var e := RegExpExec(v, c.lastIndex);
      if e.found.Some? {
        assert FindMarker(v, c.lastIndex).Some?;
        FoundFromStart(v, c.lastIndex);
      }
    }
  }

  /** The shared `lastIndex` makes the count fall short: of two attributes
      `{{a}}` and `{{b}}`, only the first is counted. */
  lemma TestAllUndercounts()
    ensures MarkedCount([Attr("x", "{{a}}"), Attr("y", "{{b}}")]) == 2
    ensures TestAll([Attr("x", "{{a}}"), Attr("y", "{{b}}")], 0).count == 1
  {
    var a := Attr("x", "{{a}}");
    var b := Attr("y", "{{b}}");
    assert LineEnd("{{a}}", 2) == 5;
    assert LastClose("{{a}}", 3, 5) == Some(3);
    assert "{{a}}"[2..3] == "a";
    assert MatchAt("{{a}}", 0) == Some(Match(0, 5, "a"));
    assert FindMarker("{{a}}", 0) == Some(Match(0, 5, "a"));
    assert LineEnd("{{b}}", 2) == 5;
    assert LastClose("{{b}}", 3, 5) == Some(3);
    assert "{{b}}"[2..3] == "b";
    assert MatchAt("{{b}}", 0) == Some(Match(0, 5, "b"));
    assert FindMarker("{{b}}", 0) == Some(Match(0, 5, "b"));
    assert FindMarker("{{b}}", 5) == None;
    assert [a, b][..1] == [a];
    assert [a][..0] == [];
  }

  /** ASCII lower-casing, the part of `String.prototype.toLowerCase` that
      attribute names use. */
  function LowerChar(c: char): char
  {
    if 'A' <= c <= 'Z' then (c as int + 32) as char else c
  }

  function ToLower(s: string): (r: string)
    ensures |r| == |s|
  {
    if s == [] then [] else [LowerChar(s[0])] + ToLower(s[1..])
  }

  /** Every character is lower-cased on its own, and none is left upper-case. */
  lemma {:induction false} ToLowerMeaning(s: string)
    ensures forall i :: 0 <= i < |s| ==> ToLower(s)[i] == LowerChar(s[i])
    ensures forall i :: 0 <= i < |s| ==> !('A' <= ToLower(s)[i] <= 'Z')
    decreases |s|
  {
    if s != [] {
      ToLowerMeaning(s[1..]);
      assert forall i :: 1 <= i < |s| ==> ToLower(s)[i] == ToLower(s[1..])[i - 1];
    }
  }

  lemma ToLowerIdempotent(s: string)
    ensures ToLower(ToLower(s)) == ToLower(s)
  {
    ToLowerMeaning(s);
    ToLowerMeaning(ToLower(s));
    assert forall i :: 0 <= i < |s| ==> LowerChar(LowerChar(s[i])) == LowerChar(s[i]);
  }

  /** `getAttribute(name)` on an HTML element: the argument is ASCII
      lower-cased first, then the value of the first attribute with that name
      is read; `None` for null. */
  function GetAttribute(attrs: seq<Attr>, name: string): Option<string>
  {
    if attrs == [] then None
    else if attrs[0].name == ToLower(name) then Some(attrs[0].value)
    else GetAttribute(attrs[1..], name)
  }

  /** `getAttribute` answers null exactly when no attribute has the
      lower-cased name, and otherwise the value of the first one that has it. */
  lemma {:induction false} GetAttributeMeaning(attrs: seq<Attr>, name: string)
    ensures GetAttribute(attrs, name).None? <==> forall i :: 0 <= i < |attrs| ==> attrs[i].name != ToLower(name)
    ensures GetAttribute(attrs, name).Some? ==>
              exists i :: && 0 <= i < |attrs| && attrs[i] == Attr(ToLower(name), GetAttribute(attrs, name).value)
                          && forall j :: 0 <= j < i ==> attrs[j].name != ToLower(name)
  {
    if attrs != [] && attrs[0].name != ToLower(name) {
      GetAttributeMeaning(attrs[1..], name);
      assert forall i :: 1 <= i < |attrs| ==> attrs[i] == attrs[1..][i - 1];
      if GetAttribute(attrs, name).Some? {
        var i :| && 0 <= i < |attrs[1..]| && attrs[1..][i] == Attr(ToLower(name), GetAttribute(attrs, name).value)
                 && forall j :: 0 <= j < i ==> attrs[1..][j].name != ToLower(name);
        assert attrs[i + 1] == Attr(ToLower(name), GetAttribute(attrs, name).value);
      }
    } else if attrs != [] {
      assert attrs[0] == Attr(ToLower(name), GetAttribute(attrs, name).value);
    }
  }

  /** `removeAttribute(name)` on an HTML element: drops the first attribute
      whose name is the ASCII lower-cased argument. */
  function RemoveAttribute(attrs: seq<Attr>, name: string): seq<Attr>
  {
    if attrs == [] then []
    else if attrs[0].name == ToLower(name) then attrs[1..]
    else [attrs[0]] + RemoveAttribute(attrs[1..], name)
  }

  /** `removeAttribute` of a missing name changes nothing; otherwise it takes
      out exactly the attribute `getAttribute` reads, and nothing else. */
  lemma {:induction false} RemoveAttributeMeaning(attrs: seq<Attr>, name: string)
    ensures GetAttribute(attrs, name).None? ==> RemoveAttribute(attrs, name) == attrs
    ensures GetAttribute(attrs, name).Some? ==>
              multiset(RemoveAttribute(attrs, name)) + multiset{Attr(ToLower(name), GetAttribute(attrs, name).value)} == multiset(attrs)
  {
    if attrs != [] {
      assert attrs == [attrs[0]] + attrs[1..];
      if attrs[0].name != ToLower(name) {
        RemoveAttributeMeaning(attrs[1..], name);
      }
    }
  }

  /** `removeAttribute` of a present name takes out one attribute, and it
      never adds one. */
  lemma {:induction false} RemoveAttributeShrinks(attrs: seq<Attr>, name: string)
    ensures GetAttribute(attrs, name).Some? ==> |RemoveAttribute(attrs, name)| + 1 == |attrs|
    ensures Within(RemoveAttribute(attrs, name), attrs)
  {
    if attrs != [] && attrs[0].name != ToLower(name) {
      RemoveAttributeShrinks(attrs[1..], name);
      assert forall x :: x in attrs[1..] ==> x in attrs;
    }
  }

  /** `result.strings[partIndex]`; an index outside the array reads
      `undefined`, which the name extractor receives as the string
      "undefined". */
  function StringForPart(strings: seq<string>, pi: int): (r: string)
    ensures 0 <= pi < |strings| ==> r == strings[pi]
    ensures !(0 <= pi < |strings|) ==> r == "undefined"
  {
    if 0 <= pi < |strings| then strings[pi] else "undefined"
  }

  /** Outcome of the `while (count-- > 0)` loop: the element's attributes
      afterwards, `partIndex`, the parts made, and whether it threw. */
  datatype Binding = Binding(attributes: seq<Attr>, partIndex: int, parts: seq<TemplatePart>, threw: bool)

  /** Total of `strings.length - 1` over attribute parts. */
  function SplitGrowth(ps: seq<TemplatePart>): int
  {
    if ps == [] then 0
    else SplitGrowth(ps[..|ps| - 1]) + (if ps[|ps| - 1].AttributePart? then |ps[|ps| - 1].strings| - 1 else 0)
  }

  lemma {:induction false} SplitGrowthCons(p: TemplatePart, ps: seq<TemplatePart>)
    ensures SplitGrowth([p] + ps) == (if p.AttributePart? then |p.strings| - 1 else 0) + SplitGrowth(ps)
    decreases |ps|
  {
    if ps == [] {
      assert [p] + ps == [p];
      assert [p][..0] == [];
    } else {
      assert ([p] + ps)[..|[p] + ps| - 1] == [p] + ps[..|ps| - 1];
      SplitGrowthCons(p, ps[..|ps| - 1]);
    }
  }

  /** What one round of the binding loop finds: nothing to bind (the name
      or the attribute is missing, and the round throws), or the attribute
      name, its split value, the attributes left once it is removed, and the
      next `partIndex`. */
  datatype Round = Missing | Found(name: string, strings: seq<string>, remaining: seq<Attr>, partIndex: int)

  /** One round: look up the literal string at `partIndex`, extract the
      attribute name from it, read the attribute `name` (lower-cased) +
      suffix, split its value, remove the attribute, and move `partIndex` on
      by the number of splits. */
  function AttributeRound(attrs: seq<Attr>, pi: int, ext: Externals): (r: Round)
    ensures r.Found? ==> |r.remaining| + 1 == |attrs| && Within(r.remaining, attrs)
    ensures r.Found? ==> r.partIndex == pi + |r.strings| - 1
  {
    match ext.lastAttributeName(StringForPart(ext.resultStrings, pi))
    case None => Missing
    case Some(name) =>
      var lookup := ToLower(name) + ext.boundAttributeSuffix;
      match GetAttribute(attrs, lookup)
      case None => Missing
      case Some(value) =>
        RemoveAttributeShrinks(attrs, lookup);
        var strings := ext.splitAttribute(value);
        Found(name, strings, RemoveAttribute(attrs, lookup), pi + |strings| - 1)
  }

  /** The binding of `count` attributes of the element numbered `index`: each
      round appends an attribute part; a round that finds nothing throws. */
  function BindAttributes(attrs: seq<Attr>, count: nat, pi: int, index: int, ext: Externals): Binding
    decreases count
  {
    if count == 0 then Binding(attrs, pi, [], false)
    else
      match AttributeRound(attrs, pi, ext)
      case Missing => Binding(attrs, pi, [], true)
      case Found(name, strings, remaining, pi') =>
        var rest := BindAttributes(remaining, count - 1, pi', index, ext);
        Binding(rest.attributes, rest.partIndex, [AttributePart(index, name, strings)] + rest.parts, rest.threw)
  }

  /** The binding makes at most `count` parts, exactly `count` unless it
      throws, and each part removes one attribute. */
  lemma {:induction false} BindAttributesCount(attrs: seq<Attr>, count: nat, pi: int, index: int, ext: Externals)
    ensures |BindAttributes(attrs, count, pi, index, ext).parts| <= count
    ensures !BindAttributes(attrs, count, pi, index, ext).threw ==> |BindAttributes(attrs, count, pi, index, ext).parts| == count
    ensures |BindAttributes(attrs, count, pi, index, ext).attributes| + |BindAttributes(attrs, count, pi, index, ext).parts| == |attrs|
    decreases count
  {
    if count > 0 {
      match AttributeRound(attrs, pi, ext)
      case Missing =>
      case Found(name, strings, remaining, pi') =>
        BindAttributesCount(remaining, count - 1, pi', index, ext);
    }
  }

  lemma AttributePartsCons(part: TemplatePart, rest: seq<TemplatePart>, index: int)
    requires part.AttributePart? && part.index == index
    requires forall k :: 0 <= k < |rest| ==> rest[k].AttributePart? && rest[k].index == index
    ensures forall k :: 0 <= k < |[part] + rest| ==> ([part] + rest)[k].AttributePart? && ([part] + rest)[k].index == index
  {
  }

  /** Every part the binding makes is an attribute part of the element
      numbered `index`. */
  lemma {:induction false} BindAttributesParts(attrs: seq<Attr>, count: nat, pi: int, index: int, ext: Externals)
    ensures forall k :: 0 <= k < |BindAttributes(attrs, count, pi, index, ext).parts| ==>
              BindAttributes(attrs, count, pi, index, ext).parts[k].AttributePart? &&
              BindAttributes(attrs, count, pi, index, ext).parts[k].index == index
    decreases count
  {
    if count > 0 {
      match AttributeRound(attrs, pi, ext)
      case Missing =>
      case Found(name, strings, remaining, pi') =>
        BindAttributesParts(remaining, count - 1, pi', index, ext);
        AttributePartsCons(AttributePart(index, name, strings), BindAttributes(remaining, count - 1, pi', index, ext).parts, index);
    }
  }

  /** `partIndex` moves on by the number of splits of the parts made. */
  lemma {:induction false} BindAttributesGrowth(attrs: seq<Attr>, count: nat, pi: int, index: int, ext: Externals)
    ensures BindAttributes(attrs, count, pi, index, ext).partIndex == pi + SplitGrowth(BindAttributes(attrs, count, pi, index, ext).parts)
    decreases count
  {
    if count == 0 {
      assert SplitGrowth([]) == 0;
    } else {
      match AttributeRound(attrs, pi, ext)
      case Missing =>
        assert SplitGrowth([]) == 0;
      case Found(name, strings, remaining, pi') =>
        BindAttributesGrowth(remaining, count - 1, pi', index, ext);
        SplitGrowthCons(AttributePart(index, name, strings), BindAttributes(remaining, count - 1, pi', index, ext).parts);
    }
  }

  /** Every attribute of `a` is one of `b`. */
  ghost predicate Within(a: seq<Attr>, b: seq<Attr>)
  {
    forall x :: x in a ==> x in b
  }

  lemma WithinTrans(a: seq<Attr>, b: seq<Attr>, c: seq<Attr>)
    requires Within(a, b) && Within(b, c)
    ensures Within(a, c)
  {
  }

  /** The binding only ever takes attributes away. */
  lemma {:induction false} BindAttributesRemoves(attrs: seq<Attr>, count: nat, pi: int, index: int, ext: Externals)
    ensures Within(BindAttributes(attrs, count, pi, index, ext).attributes, attrs)
    decreases count
  {
    if count > 0 {
      match AttributeRound(attrs, pi, ext)
      case Missing =>
      case Found(name, strings, remaining, pi') =>
        BindAttributesRemoves(remaining, count - 1, pi', index, ext);
        WithinTrans(BindAttributes(remaining, count - 1, pi', index, ext).attributes, remaining, attrs);
    }
  }

  /** The element rule. An element without attributes skips the counting loop
      and leaves `lastIndex` alone. */
  function ElementVisit(tag: string, attrs: seq<Attr>, index: int, lpi: int, pi: int, li: nat, ext: Externals): (v: Visit)
  {
    if |attrs| == 0 then
      Visit([], Open(tag, attrs), false, [], index, lpi, pi, li, false)
    else
      var c := TestAll(attrs, li);
      var b := BindAttributes(attrs, c.count, pi, index, ext);
      Visit([], Open(tag, b.attributes), false, b.parts, index, lpi, b.partIndex, c.lastIndex, b.threw)
  }

  /** An element is never moved, removed or renamed: it yields only attribute
      parts, all carrying its own number, at most one per marked attribute,
      each removing one attribute; `partIndex` grows by the number of splits. */
  lemma ElementVisitParts(tag: string, attrs: seq<Attr>, index: int, lpi: int, pi: int, li: nat, ext: Externals)
    ensures var v := ElementVisit(tag, attrs, index, lpi, pi, li, ext);
            && v.inserted == [] && !v.doomed && v.replacement.Open? && v.replacement.tagName == tag
            && |v.parts| <= MarkedCount(attrs)
            && |v.replacement.attributes| + |v.parts| == |attrs|
            && Within(v.replacement.attributes, attrs)
            && v.partIndex == pi + SplitGrowth(v.parts)
            && v.index == index && v.lastPartIndex == lpi
    ensures forall k :: 0 <= k < |ElementVisit(tag, attrs, index, lpi, pi, li, ext).parts| ==>
              ElementVisit(tag, attrs, index, lpi, pi, li, ext).parts[k].AttributePart? &&
              ElementVisit(tag, attrs, index, lpi, pi, li, ext).parts[k].index == index
  {
    if |attrs| > 0 {
      TestAllBounds(attrs, li);
      BindAttributesCount(attrs, TestAll(attrs, li).count, pi, index, ext);
      BindAttributesParts(attrs, TestAll(attrs, li).count, pi, index, ext);
      BindAttributesGrowth(attrs, TestAll(attrs, li).count, pi, index, ext);
      BindAttributesRemoves(attrs, TestAll(attrs, li).count, pi, index, ext);
    }
  }

  // ---------------------------------------------------------------------
  // Dispatch on the node type (src/lib/html-template.ts:46, 87, 126)
  // ---------------------------------------------------------------------

  /** The rule applied to the node token `tok`; `index` is its number (after
      the increment at line 44). */
  function VisitSpec(tok: Token, prevNull: bool, nextNull: bool, index: int, lpi: int, pi: int, li: nat,
                     ext: Externals): (v: Visit)
    requires IsNode(tok)
  {
    match tok
    case Open(tag, attrs) => ElementVisit(tag, attrs, index, lpi, pi, li, ext)
    case TextNode(data) => TextVisit(data, index, lpi, pi, li)
    case CommentNode(data) => CommentVisit(data, index, lpi, pi, li, prevNull, nextNull, ext.isSentinel(data))
  }

  /** A JavaScript value as far as the sentinel test needs it: a string, or the
      global RegExp object. */
  datatype JsValue = JsString(s: string) | JsRegExp(source: string, flags: string)

  /** `===` between a string and another value: equal only to the same
      string, never to an object. */
  function StrictEquals(a: JsValue, b: JsValue): bool
    requires a.JsString?
  {
    b.JsString? && a.s == b.s
  }

  /** The sentinel test as written compares the comment's data, a string, with
      the RegExp object itself; it never holds. */
  function SentinelTestAsWritten(data: string): (r: bool)
    ensures !r
  {
    StrictEquals(JsString(data), JsRegExp("{{(.+)}}", "g"))
  }
}
