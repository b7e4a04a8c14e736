/**
 The template compiler `HTMLTemplate` (src/lib/html-template.ts).

 Constructing an `HTMLTemplate` walks the content of a template element once,
 in document order, descending into the content of nested TEMPLATE elements.
 At each element, text and comment node it applies the rule of
 `TemplateRules`, which records part descriptors in `parts` and edits the
 content so that every part's `index` names the right node once the nodes
 scheduled for removal are taken out after the walk. The global `marker`
 RegExp is a `MarkerRegExp` whose `lastIndex` the walk reads and writes.
 */
module HtmlTemplate {
  import opened Wrappers
  import opened Dom
  import opened Marker
  import opened TemplateRules
  import opened Numbering
  import opened Walk
  import opened HtmlTemplateResult

  /** An HTMLTemplateElement: its content fragment, as tokens. */
  class TemplateElement {
    var content: seq<Token>

    /** A template element whose content is the forest `nodes`. */
    constructor (nodes: seq<Node>)
      ensures content == SerializeAll(nodes)
      ensures Balanced(content)
    {
      content := SerializeAll(nodes);
      SerializeAllBalanced(nodes);
    }

    /** The removals after the walk (`n.parentNode.removeChild(n)` for each
        scheduled node): the `j`-th scheduled node sits `j` places before its
        recorded position once the earlier ones are gone, and at the end
        exactly the scheduled positions are gone. */
    method RemoveNodes(r: seq<nat>)
      requires Increasing(r) && forall i :: 0 <= i < |r| ==> r[i] < |content|
      modifies this
      ensures content == Kept(old(content), Elements(r), |old(content)|)
    {
      ghost var last := content;
      assert Elements(r[..0]) == {};
      KeptNone(last, |last|);
      assert last[..|last|] == last;
      for j := 0 to |r|
        invariant content == Kept(last, Elements(r[..j]), |last|)
      {
        RemoveStep(last, r, j);
        var p := r[j] - j;
        content := content[..p] + content[p + 1..];
      }
      assert r[..|r|] == r;
    }
  }

  // ---------------------------------------------------------------------
  // The three node rules, as the source runs them
  // ---------------------------------------------------------------------

  /** The matches the `exec` loop has taken, followed by those still to come,
      are all the matches. */
  lemma MatchesPrefix(data: string, done: seq<Match>, m: Match, from: nat)
    requires done + Matches(data, from) == Matches(data, 0)
    requires Matches(data, from) == [m] + Matches(data, m.end)
    ensures (done + [m]) + Matches(data, m.end) == Matches(data, 0)
  {
    assert (done + [m]) + Matches(data, m.end) == done + ([m] + Matches(data, m.end));
  }

  /** The state of the `exec` loop after the matches `done`, with `from`
      the regular expression's `lastIndex`. */
  ghost predicate ExecLoop(data: string, index: int, done: seq<Match>, from: nat, inserted: seq<Token>, parts: seq<TemplatePart>, idx: int)
  {
    && from <= |data|
    && done + Matches(data, from) == Matches(data, 0)
    && (forall k :: 0 <= k < |done| ==> done[k].start <= |data|)
    && Rewritten(inserted, parts) == Rewrite(data, done, index)
    && idx == index + |parts|
  }

  /** Before the first `exec`, nothing has been inserted. */
  lemma ExecLoopBegins(data: string, index: int)
    ensures ExecLoop(data, index, [], 0, [], [], index)
  {
    assert [] + Matches(data, 0) == Matches(data, 0);
  }

  /** A successful `exec` moves `lastIndex` forward and extends the state by
      one chunk. */
  lemma ExecLoopStep(data: string, index: int, done: seq<Match>, from: nat, inserted: seq<Token>, parts: seq<TemplatePart>, idx: int, m: Match)
    requires ExecLoop(data, index, done, from, inserted, parts, idx)
    requires RegExpExec(data, from).found == Some(m)
    ensures from < m.end
    ensures ExecLoop(data, index, done + [m], m.end, inserted + Chunk(data, m, idx).inserted, parts + Chunk(data, m, idx).parts, idx + |Chunk(data, m, idx).parts|)
  {
    ExecNext(data, from);
    assert m.start <= |data|;
    MatchesPrefix(data, done, m, from);
    RewriteRound(data, done, m, index, inserted, parts, idx);
  }

  /** A failed `exec` means every match has been taken. */
  lemma ExecLoopEnds(data: string, index: int, done: seq<Match>, from: nat, inserted: seq<Token>, parts: seq<TemplatePart>, idx: int)
    requires ExecLoop(data, index, done, from, inserted, parts, idx)
    requires RegExpExec(data, from).found.None?
    ensures Rewritten(inserted, parts) == Rewrite(data, Matches(data, 0), index)
    ensures idx == index + |parts|
  {
    ExecNext(data, from);
    assert done + [] == done;
  }

  /** One round of the `exec` loop (src/lib/html-template.ts:100-112) for the
      match `m`: the text before the match, when there is any, then a marker
      comment, each with a node part. `strIndex` is never reassigned, so it is
      0 on every round and the text is always the prefix of `data` up to the
      match. */
  method InsertForMatch(data: string, m: Match, inserted: seq<Token>, parts: seq<TemplatePart>, idx: int)
    returns (inserted': seq<Token>, parts': seq<TemplatePart>, idx': int)
    requires m.start <= |data|
    ensures inserted' == inserted + Chunk(data, m, idx).inserted
    ensures parts' == parts + Chunk(data, m, idx).parts
    ensures idx' == idx + |Chunk(data, m, idx).parts|
  {
    var strIndex := 0;
    inserted', parts', idx' := inserted, parts, idx;
    if m.start > strIndex {
      var strPart := data[strIndex..m.start];
      inserted' := inserted' + [if strPart == "" then CommentNode("") else TextNode(strPart)];
      idx' := idx' + 1;
      parts' := parts' + [NodePart(idx', None)];
    }
    inserted' := inserted' + [CommentNode("")];
    idx' := idx' + 1;
    parts' := parts' + [NodePart(idx', Some(m.capture))];
  }

  /** The `exec` loop of the text rule (src/lib/html-template.ts:95-113),
      started after `marker.lastIndex = 0`: for each match, in order, the text
      before it (when the match does not start the string) and a marker
      comment are inserted before the node, each with a node part numbered one
      past the previous, the marker comment's part carrying the capture. The
      loop ends when `exec` fails, which resets `lastIndex`. */
  method InsertMarkers(marker: MarkerRegExp, data: string, index: int)
    returns (inserted: seq<Token>, parts: seq<TemplatePart>, idx: int)
    requires marker.lastIndex == 0
    modifies marker
    ensures Rewritten(inserted, parts) == Rewrite(data, Matches(data, 0), index)
    ensures idx == index + |parts|
    ensures marker.lastIndex == 0
  {
    inserted, parts, idx := [], [], index;
    ghost var done: seq<Match> := [];
    ghost var from: nat := 0;
    ExecLoopBegins(data, index);
    while true
      invariant marker.lastIndex == from
      invariant ExecLoop(data, index, done, from, inserted, parts, idx)
      decreases |data| - from
    {
      var res := marker.Exec(data);
      if res.None? {
        ExecLoopEnds(data, index, done, from, inserted, parts, idx);
        break;
      }
      var m := res.value;
      ExecLoopStep(data, index, done, from, inserted, parts, idx, m);
      inserted, parts, idx := InsertForMatch(data, m, inserted, parts, idx);
      done := done + [m];
      from := m.end;
    }
  }

  /** The text rule (src/lib/html-template.ts:87-125): `marker.test`, then
      `split`, then the `exec` loop, then the trailing text decides whether the
      node keeps that text or gives way to one more marker comment and is
      scheduled for removal. */
  method VisitText(marker: MarkerRegExp, data: string, index: int, lastPartIndex: int, partIndex: int)
    returns (v: Visit)
    modifies marker
    ensures v == TextVisit(data, index, lastPartIndex, partIndex, old(marker.lastIndex))
    ensures marker.lastIndex == v.lastIndex
  {
    var found := marker.Test(data);
    if !found {
      v := Visit([], TextNode(data), false, [], index, lastPartIndex, partIndex, marker.lastIndex, false);
      return;
    }
    var strings := Split(data, 0);
    var lastIndex := |strings| - 1;
    marker.lastIndex := 0;
    var inserted, parts, idx := InsertMarkers(marker, data, index);
    TextVisitMarked(data, index, lastPartIndex, partIndex, old(marker.lastIndex));
    if strings[lastIndex] == "" {
      v := Visit(inserted + [CommentNode("")], TextNode(data), true, parts, idx, lastPartIndex,
                 partIndex + lastIndex, marker.lastIndex, false);
    } else {
      v := Visit(inserted, TextNode(strings[lastIndex]), false, parts, idx, lastPartIndex,
                 partIndex + lastIndex, marker.lastIndex, false);
    }
  }

  /** The comment rule (src/lib/html-template.ts:126-157). `prevNull` and
      `nextNull` say whether the comment's siblings are null. */
  method VisitComment(data: string, index: int, lastPartIndex: int, partIndex: int, lastIndex: nat,
                      prevNull: bool, nextNull: bool, ext: Externals)
    returns (v: Visit)
    ensures v == CommentVisit(data, index, lastPartIndex, partIndex, lastIndex, prevNull, nextNull, ext.isSentinel(data))
  {
    if ext.isSentinel(data) {
      var idx := index;
      var inserted: seq<Token> := [];
      if prevNull || idx == lastPartIndex {
        idx := idx + 1;
        inserted := [CommentNode("")];
      }
      var lpi := idx;
      var parts := [NodePart(idx, None)];
      var replacement: Token;
      var doomed: bool;
      if nextNull {
        replacement, doomed := CommentNode(""), false;
      } else {
        replacement, doomed := CommentNode(data), true;
        idx := idx - 1;
      }
      v := Visit(inserted, replacement, doomed, parts, idx, lpi, partIndex + 1, lastIndex, false);
    } else {
      var parts: seq<TemplatePart> := [];
      var i := IndexOf(data, MarkerSourceText, 0);
      while i != -1
        invariant i == -1 || 0 <= i <= |data|
        invariant parts == InertParts(|parts|)
        invariant |parts| + (if i == -1 then 0 else 1 + IndexOfLoopCount(data, MarkerSourceText, i))
                  == IndexOfLoopCount(data, MarkerSourceText, -1)
        decreases if i == -1 then 0 else |data| + 1 - i
      {
        parts := parts + [NodePart(-1, None)];
        i := IndexOf(data, MarkerSourceText, i + 1);
      }
      v := Visit([], CommentNode(data), false, parts, index, lastPartIndex, partIndex, lastIndex, false);
    }
  }

  /** One more attribute value through `marker.test`. */
  lemma TestAllStep(attrs: seq<Attr>, i: nat, li: nat, c: Counted)
    requires i < |attrs|
    requires c == TestAll(attrs[..i], li)
    ensures TestAll(attrs[..i + 1], li)
            == Counted(c.count + (if RegExpExec(attrs[i].value, c.lastIndex).found.Some? then 1 else 0),
                       RegExpExec(attrs[i].value, c.lastIndex).lastIndex)
  {
    assert attrs[..i + 1][..i] == attrs[..i];
  }

  /** The binding `b` with the parts `parts` already made before it. */
  ghost function After(parts: seq<TemplatePart>, b: Binding): Binding
  {
    Binding(b.attributes, b.partIndex, parts + b.parts, b.threw)
  }

  /** A round of the binding loop that finds its name and its attribute makes
      one part and leaves the rest to the remaining rounds. */
  lemma BindRound(attrs: seq<Attr>, count: nat, pi: int, index: int, ext: Externals, parts: seq<TemplatePart>,
                  name: string, lookup: string, value: string, strings: seq<string>,
                  attrs': seq<Attr>, count': nat, pi': int, parts': seq<TemplatePart>)
    requires count > 0
    requires ext.lastAttributeName(StringForPart(ext.resultStrings, pi)) == Some(name)
    requires lookup == ToLower(name) + ext.boundAttributeSuffix
    requires GetAttribute(attrs, lookup) == Some(value)
    requires strings == ext.splitAttribute(value)
    requires attrs' == RemoveAttribute(attrs, lookup) && count' == count - 1 && pi' == pi + |strings| - 1
    requires parts' == parts + [AttributePart(index, name, strings)]
    ensures After(parts, BindAttributes(attrs, count, pi, index, ext)) == After(parts', BindAttributes(attrs', count', pi', index, ext))
  {
    assert AttributeRound(attrs, pi, ext) == Found(name, strings, attrs', pi');
    var rest := BindAttributes(attrs', count', pi', index, ext);
    assert BindAttributes(attrs, count, pi, index, ext)
           == Binding(rest.attributes, rest.partIndex, [AttributePart(index, name, strings)] + rest.parts, rest.threw);
    assert parts + ([AttributePart(index, name, strings)] + rest.parts) == parts' + rest.parts;
  }

  /** A round that finds no name, or no attribute, throws with what was made. */
  lemma BindThrows(attrs: seq<Attr>, count: nat, pi: int, index: int, ext: Externals, parts: seq<TemplatePart>)
    requires count > 0
    requires || ext.lastAttributeName(StringForPart(ext.resultStrings, pi)).None?
             || GetAttribute(attrs, ToLower(ext.lastAttributeName(StringForPart(ext.resultStrings, pi)).value) + ext.boundAttributeSuffix).None?
    ensures After(parts, BindAttributes(attrs, count, pi, index, ext)) == Binding(attrs, pi, parts, true)
  {
    assert parts + [] == parts;
  }

  /** When no rounds are left the binding is what was made. */
  lemma BindEnds(attrs: seq<Attr>, pi: int, index: int, ext: Externals, parts: seq<TemplatePart>)
    ensures After(parts, BindAttributes(attrs, 0, pi, index, ext)) == Binding(attrs, pi, parts, false)
  {
    assert parts + [] == parts;
  }

  /** The element rule (src/lib/html-template.ts:46-82): count the attribute
      values `marker.test` accepts, then bind that many attributes. */
  method VisitElement(marker: MarkerRegExp, tag: string, attrs: seq<Attr>, index: int, lastPartIndex: int,
                      partIndex: int, ext: Externals)
    returns (v: Visit)
    modifies marker
    ensures v == ElementVisit(tag, attrs, index, lastPartIndex, partIndex, old(marker.lastIndex), ext)
    ensures marker.lastIndex == v.lastIndex
  {
    if |attrs| == 0 {
      v := Visit([], Open(tag, attrs), false, [], index, lastPartIndex, partIndex, marker.lastIndex, false);
      return;
    }
    var count: nat := 0;
    for i := 0 to |attrs|
      invariant Counted(count, marker.lastIndex) == TestAll(attrs[..i], old(marker.lastIndex))
    {
      TestAllStep(attrs, i, old(marker.lastIndex), Counted(count, marker.lastIndex));
      var matched := marker.Test(attrs[i].value);
      if matched {
        count := count + 1;
      }
    }
    assert attrs[..|attrs|] == attrs;
    ghost var goal := BindAttributes(attrs, count, partIndex, index, ext);
    assert goal == After([], goal) by {
      assert [] + goal.parts == goal.parts;
    }
    ghost var testedIndex := marker.lastIndex;
    var attributes := attrs;
    var pi := partIndex;
    var parts: seq<TemplatePart> := [];
    var threw := false;
    while count > 0
      invariant !threw ==> goal == After(parts, BindAttributes(attributes, count, pi, index, ext))
      invariant threw ==> goal == Binding(attributes, pi, parts, true)
      invariant marker.lastIndex == testedIndex
      decreases count
    {
      var stringForPart := StringForPart(ext.resultStrings, pi);
      var name := ext.lastAttributeName(stringForPart);
      if name.None? {
        BindThrows(attributes, count, pi, index, ext, parts);
        threw := true;
        break;
      }
      var lookup := ToLower(name.value) + ext.boundAttributeSuffix;
      var attributeValue := GetAttribute(attributes, lookup);
      if attributeValue.None? {
        BindThrows(attributes, count, pi, index, ext, parts);
        threw := true;
        break;
      }
      var strings := ext.splitAttribute(attributeValue.value);
      ghost var attributes0, count0, pi0, parts0 := attributes, count, pi, parts;
      parts := parts + [AttributePart(index, name.value, strings)];
      attributes := RemoveAttribute(attributes, lookup);
      pi := pi + |strings| - 1;
      count := count - 1;
      BindRound(attributes0, count0, pi0, index, ext, parts0, name.value, lookup, attributeValue.value, strings,
                attributes, count, pi, parts);
    }
    if !threw {
      BindEnds(attributes, pi, index, ext, parts);
    }
    assert goal == Binding(attributes, pi, parts, threw);
    v := Visit([], Open(tag, attributes), false, parts, index, lastPartIndex, pi, marker.lastIndex, threw);
  }

  // ---------------------------------------------------------------------
  // The compiler
  // ---------------------------------------------------------------------

  /** The dispatch on the node's type (src/lib/html-template.ts:46, 87, 126):
      the element, text or comment rule for the node under the cursor. */
  method VisitNode(marker: MarkerRegExp, content: seq<Token>, cursor: nat, index: int, lastPartIndex: int,
                   partIndex: int, ext: Externals)
    returns (v: Visit)
    requires cursor < |content| && IsNode(content[cursor])
    modifies marker
    ensures v == VisitSpec(content[cursor], PreviousSiblingIsNull(content, cursor), NextSiblingIsNull(content, cursor),
                           index, lastPartIndex, partIndex, old(marker.lastIndex), ext)
    ensures marker.lastIndex == v.lastIndex
  {
    match content[cursor] {
      case Open(tag, attrs) =>
        v := VisitElement(marker, tag, attrs, index, lastPartIndex, partIndex, ext);
      case TextNode(data) =>
        v := VisitText(marker, data, index, lastPartIndex, partIndex);
      case CommentNode(data) =>
        v := VisitComment(data, index, lastPartIndex, partIndex, marker.lastIndex,
                          PreviousSiblingIsNull(content, cursor), NextSiblingIsNull(content, cursor), ext);
    }
  }

  class HTMLTemplate {
    var parts: seq<TemplatePart>
    const element: TemplateElement

    /** The fields before the walk. */
    constructor (element: TemplateElement)
      ensures this.element == element && parts == []
    {
      this.element := element;
      parts := [];
    }

    /** The walk's step at a node (src/lib/html-template.ts:46-158): the
        node is visited by its rule (`v`), which either throws or moves the
        walk to its next state: the content spliced, the node scheduled for
        removal when the visit dooms it, the visit's parts appended to
        `parts`, the counters taken from the visit and the cursor past the
        node. */
    method VisitStep(marker: MarkerRegExp, ext: Externals, cursor: nat, stack: seq<nat>, index: int,
                     lastPartIndex: int, partIndex: int, nodesToRemove: seq<nat>,
                     ghost orig: seq<Token>, ghost o: nat, ghost walked: seq<Token>, ghost visited: seq<Token>,
                     ghost lastNode: int)
      returns (threw: bool, cursor': nat, stack': seq<nat>, index': int, lastPartIndex': int, partIndex': int,
               nodesToRemove': seq<nat>, ghost o': nat, ghost walked': seq<Token>, ghost visited': seq<Token>,
               ghost lastNode': int, v: Visit)
      requires WalkState(orig, element.content, cursor, o, |stack|, nodesToRemove, walked, visited,
                         index, lastPartIndex, lastNode, parts)
      requires cursor < |element.content| && IsNode(element.content[cursor])
      modifies this, element, marker
      ensures v == VisitSpec(old(element.content)[cursor], PreviousSiblingIsNull(old(element.content), cursor),
                             NextSiblingIsNull(old(element.content), cursor), index + 1, lastPartIndex, partIndex,
                             old(marker.lastIndex), ext)
      ensures threw == v.threw && marker.lastIndex == v.lastIndex
      ensures !threw ==> parts == old(parts) + v.parts
      ensures !threw ==> element.content == Splice(old(element.content), cursor, v)
      ensures !threw ==> nodesToRemove' == Scheduled(nodesToRemove, cursor, v)
      ensures !threw ==> cursor' == cursor + |v.inserted| + 1
      ensures !threw ==> index' == v.index && lastPartIndex' == v.lastPartIndex && partIndex' == v.partIndex
      ensures !threw ==> stack' == if IsTemplate(old(element.content)[cursor]) then stack + [cursor + |v.inserted|] else stack
      ensures !threw ==> walked' == walked + Appended(v) && visited' == visited + [old(element.content)[cursor]]
      ensures !threw ==> o' == o + 1
      ensures !threw ==> WalkState(orig, element.content, cursor', o', |stack'|, nodesToRemove', walked', visited',
                                   index', lastPartIndex', lastNode', parts)
    {
      var node := element.content[cursor];
      ghost var content := element.content;
      ghost var li := marker.lastIndex;
      v := VisitNode(marker, element.content, cursor, index + 1, lastPartIndex, partIndex, ext);
      threw := v.threw;
      if threw {
        cursor', stack', index', lastPartIndex', partIndex', nodesToRemove' :=
          cursor, stack, index, lastPartIndex, partIndex, nodesToRemove;
        o', walked', visited', lastNode' := o, walked, visited, lastNode;
        return;
      }
      VisitKeepsNumbering(node, PreviousSiblingIsNull(content, cursor), NextSiblingIsNull(content, cursor),
                          index + 1, lastPartIndex, partIndex, li, ext, lastNode, v);
      cursor', stack', index', lastPartIndex', partIndex', nodesToRemove', o', walked', visited', lastNode' :=
        ApplyVisit(v, cursor, stack, index, lastPartIndex, nodesToRemove, orig, o, walked, visited, lastNode);
    }

    /** `VisitStep` as the walk's loop sees it: a visit that does not throw
        adds one step to the trace. */
    method TracedStep(marker: MarkerRegExp, ext: Externals, cursor: nat, stack: seq<nat>, index: int,
                      lastPartIndex: int, partIndex: int, nodesToRemove: seq<nat>,
                      ghost orig: seq<Token>, ghost o: nat, ghost walked: seq<Token>, ghost visited: seq<Token>,
                      ghost lastNode: int, ghost steps: seq<Step>, ghost li0: nat)
      returns (threw: bool, cursor': nat, stack': seq<nat>, index': int, lastPartIndex': int, partIndex': int,
               nodesToRemove': seq<nat>, ghost o': nat, ghost walked': seq<Token>, ghost visited': seq<Token>,
               ghost lastNode': int, ghost steps': seq<Step>)
      requires WalkState(orig, element.content, cursor, o, |stack|, nodesToRemove, walked, visited,
                         index, lastPartIndex, lastNode, parts)
      requires Traced(orig, element.content, cursor, o, visited, index, lastPartIndex, partIndex, marker.lastIndex,
                      parts, walked, steps, li0, ext)
      requires cursor < |element.content| && IsNode(element.content[cursor])
      modifies this, element, marker
      ensures !threw ==> o' == o + 1 && |steps'| == |steps| + 1 && steps'[..|steps|] == steps
      ensures !threw ==> WalkState(orig, element.content, cursor', o', |stack'|, nodesToRemove', walked', visited',
                                   index', lastPartIndex', lastNode', parts)
      ensures !threw ==> Traced(orig, element.content, cursor', o', visited', index', lastPartIndex', partIndex',
                                marker.lastIndex, parts, walked', steps', li0, ext)
    {
      ghost var content0, parts0, li := element.content, parts, marker.lastIndex;
      var v;
      threw, cursor', stack', index', lastPartIndex', partIndex', nodesToRemove', o', walked', visited', lastNode', v :=
        VisitStep(marker, ext, cursor, stack, index, lastPartIndex, partIndex, nodesToRemove,
                  orig, o, walked, visited, lastNode);
      steps' := steps + [Step(o, v)];
      if !threw {
        TracedVisits(orig, content0, cursor, o, visited, index, lastPartIndex, partIndex, li,
                     parts0, walked, steps, li0, ext, v);
      }
    }

    /** Passing a token that is not a node. A `Close` is the walker climbing
        out of an element; an `EndContent` is `nextNode()` returning null
        inside a nested template's content, where the stack is not empty and
        the walk resumes at the template popped from it. */
    method PassToken(ext: Externals, cursor: nat, stack: seq<nat>, index: int, lastPartIndex: int, partIndex: int,
                     nodesToRemove: seq<nat>, ghost orig: seq<Token>, ghost o: nat, ghost walked: seq<Token>,
                     ghost visited: seq<Token>, ghost lastNode: int, ghost li: nat, ghost steps: seq<Step>,
                     ghost li0: nat)
      returns (cursor': nat, stack': seq<nat>, ghost o': nat)
      requires WalkState(orig, element.content, cursor, o, |stack|, nodesToRemove, walked, visited,
                         index, lastPartIndex, lastNode, parts)
      requires Traced(orig, element.content, cursor, o, visited, index, lastPartIndex, partIndex, li,
                      parts, walked, steps, li0, ext)
      requires Balanced(orig)
      requires cursor < |element.content| && !IsNode(element.content[cursor])
      ensures cursor' == cursor + 1 && o' == o + 1
      ensures element.content[cursor].EndContent? ==> |stack| >= 1 && stack' == stack[..|stack| - 1]
      ensures !element.content[cursor].EndContent? ==> stack' == stack
      ensures WalkState(orig, element.content, cursor', o', |stack'|, nodesToRemove, walked, visited,
                        index, lastPartIndex, lastNode, parts)
      ensures Traced(orig, element.content, cursor', o', visited, index, lastPartIndex, partIndex, li,
                     parts, walked, steps, li0, ext)
    {
      stack' := stack;
      if element.content[cursor].EndContent? {
        WalkPopSafe(orig, element.content, cursor, o, |stack|, nodesToRemove, walked, visited,
                    index, lastPartIndex, lastNode, parts);
        stack' := stack[..|stack| - 1];
      }
      TracedSkips(orig, element.content, cursor, o, visited, index, lastPartIndex, partIndex, li,
                  parts, walked, steps, li0, ext);
      cursor', o' := cursor + 1, o + 1;
      WalkSkips(orig, element.content, cursor, o, |stack|, nodesToRemove, walked, visited,
                index, lastPartIndex, lastNode, parts, cursor', o', |stack'|);
    }

    /** The walk's state after a visit that did not throw: the visit's nodes
        spliced in before the node, the node rewritten in place and scheduled
        for removal when it must go, the visit's parts appended, the counters
        taken from the visit, a template pushed on the stack, and the cursor
        past the node. */
    method ApplyVisit(v: Visit, cursor: nat, stack: seq<nat>, index: int, lastPartIndex: int, nodesToRemove: seq<nat>,
                      ghost orig: seq<Token>, ghost o: nat, ghost walked: seq<Token>, ghost visited: seq<Token>,
                      ghost lastNode: int)
      returns (cursor': nat, stack': seq<nat>, index': int, lastPartIndex': int, partIndex': int,
               nodesToRemove': seq<nat>, ghost o': nat, ghost walked': seq<Token>, ghost visited': seq<Token>,
               ghost lastNode': int)
      requires WalkState(orig, element.content, cursor, o, |stack|, nodesToRemove, walked, visited,
                         index, lastPartIndex, lastNode, parts)
      requires cursor < |element.content| && IsNode(element.content[cursor])
      requires StepOk(v, index + 1, lastNode, NextSiblingIsNull(element.content, cursor))
      requires forall t :: 0 <= t < |Appended(v)| ==> IsNode(Appended(v)[t])
      modifies this, element
      ensures parts == old(parts) + v.parts
      ensures element.content == Splice(old(element.content), cursor, v)
      ensures nodesToRemove' == Scheduled(nodesToRemove, cursor, v)
      ensures cursor' == cursor + |v.inserted| + 1
      ensures index' == v.index && lastPartIndex' == v.lastPartIndex && partIndex' == v.partIndex
      ensures stack' == if IsTemplate(old(element.content)[cursor]) then stack + [cursor + |v.inserted|] else stack
      ensures walked' == walked + Appended(v) && visited' == visited + [old(element.content)[cursor]]
      ensures o' == o + 1
      ensures WalkState(orig, element.content, cursor', o', |stack'|, nodesToRemove', walked', visited',
                        index', lastPartIndex', lastNode', parts)
    {
      var node := element.content[cursor];
      ghost var content := element.content;
      ghost var parts0 := parts;
      element.content := Splice(element.content, cursor, v);
      nodesToRemove' := Scheduled(nodesToRemove, cursor, v);
      parts := parts + v.parts;
      walked' := walked + Appended(v);
      visited' := visited + [node];
      lastNode' := LastBound(v.parts, lastNode);
      index', lastPartIndex', partIndex' := v.index, v.lastPartIndex, v.partIndex;
      if IsTemplate(node) {
        var top: nat := cursor + |v.inserted|;
        stack' := stack + [top];
      } else {
        stack' := stack;
        assert !node.EndContent?;
      }
      cursor', o' := cursor + |v.inserted| + 1, o + 1;
      WalkAdvances(orig, content, cursor, o, |stack|, nodesToRemove, walked, visited, index, lastPartIndex, lastNode,
                   parts0, v, element.content, cursor', o', |stack'|, nodesToRemove', walked', visited',
                   index', lastPartIndex', lastNode', parts);
    }

    /** `_traverse`. It returns `false` when a visit throws a TypeError. When
        it completes, every node of the original content has been visited in
        document order (`visited`), each by its rule and from the counters the
        visit before it left (`steps`); `parts` is the visits' parts one after
        the other, the nodes that remain are the visits' surviving nodes, and
        the parts resolve against them: attribute parts name an element,
        expression parts the node right after a marker comment, and bound node
        parts distinct nodes in increasing order. */
    method Traverse(marker: MarkerRegExp, ext: Externals)
      returns (completed: bool, ghost visited: seq<Token>, ghost steps: seq<Step>)
      requires parts == []
      requires Balanced(element.content)
      modifies this, element, marker
      ensures completed ==> visited == Nodes(old(element.content))
      ensures completed ==> |steps| == |Nodes(old(element.content))|
      ensures completed ==> Trace(old(element.content), steps, old(marker.lastIndex), ext)
      ensures completed ==> parts == PartsOf(steps)
      ensures completed ==> Nodes(element.content) == AppendedOf(steps)
      ensures completed ==> marker.lastIndex == NextCounters(steps, old(marker.lastIndex)).lastIndex
      ensures completed ==> Resolved(parts, Nodes(element.content))
    {
      ghost var orig := element.content;
      var nodesToRemove: seq<nat> := [];
      var stack: seq<nat> := [];
      var cursor: nat := 0;
      var lastPartIndex := 0;
      var index := -1;
      var partIndex := 0;
      ghost var o: nat := 0;
      ghost var walked: seq<Token> := [];
      ghost var lastNode := 0;
      ghost var li0 := marker.lastIndex;
      visited, steps := [], [];
      WalkBegins(orig);
      TracedBegins(orig, li0, ext);
      while true
        invariant WalkState(orig, element.content, cursor, o, |stack|, nodesToRemove, walked, visited,
                            index, lastPartIndex, lastNode, parts)
        invariant Balanced(orig)
        invariant Traced(orig, element.content, cursor, o, visited, index, lastPartIndex, partIndex, marker.lastIndex,
                         parts, walked, steps, li0, ext)
        decreases |orig| - o
      {
        if cursor == |element.content| {
          // `nextNode()` returned null at the end of the content, where the
          // stack of nested templates is empty again: the walk is done.
          WalkEnds(orig, element.content, cursor, o, |stack|, nodesToRemove, walked, visited,
                   index, lastPartIndex, lastNode, parts);
          assert stack == [];
          break;
        }
        if IsNode(element.content[cursor]) {
          var threw;
          threw, cursor, stack, index, lastPartIndex, partIndex, nodesToRemove, o, walked, visited, lastNode, steps :=
            TracedStep(marker, ext, cursor, stack, index, lastPartIndex, partIndex, nodesToRemove,
                       orig, o, walked, visited, lastNode, steps, li0);
          if threw {
            return false, visited, steps;
          }
        } else {
          cursor, stack, o := PassToken(ext, cursor, stack, index, lastPartIndex, partIndex, nodesToRemove,
                                        orig, o, walked, visited, lastNode, marker.lastIndex, steps, li0);
        }
      }
      // Remove the scheduled nodes after the walk, so as not to disturb it.
      element.RemoveNodes(nodesToRemove);
      completed := true;
    }

    /** `update(data)`: a result holding this very template and the values
        object. */
    function Update(data: ValuesObject): (r: HTMLTemplateResult<HTMLTemplate>)
      ensures r.template == this && r.values == data && r.processor == DefaultTemplateProcessor
    {
      NewHTMLTemplateResult(this, data)
    }
  }

  /** `new HTMLTemplate(element)`: the fields are set, `_traverse` runs once,
      and a TypeError thrown by a visit makes the construction fail (`None`).
      A template's parts are those of the visits of `steps`, one per node of
      the original content, in document order. */
  method NewHTMLTemplate(element: TemplateElement, marker: MarkerRegExp, ext: Externals)
    returns (r: Option<HTMLTemplate>, ghost steps: seq<Step>)
    requires Balanced(element.content)
    modifies element, marker
    ensures r.Some? ==> fresh(r.value) && r.value.element == element
    ensures r.Some? ==> |steps| == |Nodes(old(element.content))|
    ensures r.Some? ==> Trace(old(element.content), steps, old(marker.lastIndex), ext)
    ensures r.Some? ==> r.value.parts == PartsOf(steps)
    ensures r.Some? ==> Nodes(element.content) == AppendedOf(steps)
    ensures r.Some? ==> Resolved(r.value.parts, Nodes(element.content))
  {
    var t := new HTMLTemplate(element);
    var completed;
    ghost var visited;
    completed, visited, steps := t.Traverse(marker, ext);
    if completed {
      r := Some(t);
    } else {
      r := None;
    }
  }
}
