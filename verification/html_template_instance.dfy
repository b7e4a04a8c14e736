/**
 The instance of a compiled template (src/lib/html-template-instance.ts):
 it holds the parts the processor created for the template's bindings and,
 on `update`, hands each part its new value and then lets every part commit.

 The parts themselves (`setValue`, `commit`) live in code outside this model,
 so what `update` does is recorded as the sequence of calls it makes on them.
 */
module HtmlTemplateInstance {
  import opened Wrappers
  import opened HtmlTemplateResult
  import HtmlTemplate

  /** A part created by the processor. Only its `expr`, the name of the value
      it is bound to, matters to `update`; `None` is `undefined`. */
  class Part {
    const expr: Option<string>

    constructor (expr: Option<string>)
      ensures this.expr == expr
    {
      this.expr := expr;
    }
  }

  /** JavaScript truthiness of `part.expr`: `undefined` and `""` are falsy. */
  predicate Truthy(expr: Option<string>)
  {
    expr.Some? && |expr.value| > 0
  }

  /** One call `update` makes on a part. */
  datatype Call = SetValue(part: Part, value: Value) | Commit(part: Part)

  /** The calls of the first loop, in `_parts` order: every defined part with
      a truthy `expr` is given `values[part.expr]`. */
  function SetPhase(parts: seq<Option<Part>>, values: ValuesObject): (calls: seq<Call>)
    ensures |calls| <= |parts|
    ensures forall k :: 0 <= k < |calls| ==> calls[k].SetValue?
  {
    if |parts| == 0 then []
    else
      var last := parts[|parts| - 1];
      SetPhase(parts[..|parts| - 1], values) +
        if last.Some? && Truthy(last.value.expr)
        then [SetValue(last.value, Lookup(values, last.value.expr.value))]
        else []
  }

  /** The calls of the second loop, in `_parts` order: every defined part
      commits. */
  function CommitPhase(parts: seq<Option<Part>>): (calls: seq<Call>)
    ensures |calls| <= |parts|
    ensures forall k :: 0 <= k < |calls| ==> calls[k].Commit?
  {
    if |parts| == 0 then []
    else
      var last := parts[|parts| - 1];
      CommitPhase(parts[..|parts| - 1]) + if last.Some? then [Commit(last.value)] else []
  }

  /** `setValue` is called once per `_parts` entry holding `p`, with the value
      `values[p.expr]`, exactly when `p.expr` is truthy; never otherwise. */
  lemma {:induction false} SetPhaseCounts(parts: seq<Option<Part>>, values: ValuesObject, p: Part, x: Value)
    ensures multiset(SetPhase(parts, values))[SetValue(p, x)] ==
              if Truthy(p.expr) && x == Lookup(values, p.expr.value) then multiset(parts)[Some(p)] else 0
  {
    if |parts| > 0 {
      SetPhaseCounts(parts[..|parts| - 1], values, p, x);
      SetPhaseLast(parts, values, p, x);
    }
  }

  /** The first loop's step at the last entry. */
  lemma SetPhaseLast(parts: seq<Option<Part>>, values: ValuesObject, p: Part, x: Value)
    requires |parts| > 0
    ensures multiset(parts)[Some(p)] ==
              multiset(parts[..|parts| - 1])[Some(p)] + (if parts[|parts| - 1] == Some(p) then 1 else 0)
    ensures multiset(SetPhase(parts, values))[SetValue(p, x)] ==
              multiset(SetPhase(parts[..|parts| - 1], values))[SetValue(p, x)] +
              if parts[|parts| - 1] == Some(p) && Truthy(p.expr) && x == Lookup(values, p.expr.value) then 1 else 0
  {
    assert parts == parts[..|parts| - 1] + [parts[|parts| - 1]];
  }

  /** `commit` is called exactly once per `_parts` entry holding `p`, and
      never on a part the instance does not hold. */
  lemma {:induction false} CommitPhaseCounts(parts: seq<Option<Part>>, p: Part)
    ensures multiset(CommitPhase(parts))[Commit(p)] == multiset(parts)[Some(p)]
  {
    if |parts| > 0 {
      var init, last := parts[..|parts| - 1], parts[|parts| - 1];
      CommitPhaseCounts(init, p);
      assert multiset(parts) == multiset(init) + multiset([last]) by {
        assert parts == init + [last];
      }
    }
  }

  /** Every `setValue` of an `update` comes before every `commit`. */
  lemma SetBeforeCommit(parts: seq<Option<Part>>, values: ValuesObject, calls: seq<Call>)
    requires calls == SetPhase(parts, values) + CommitPhase(parts)
    ensures forall i, j :: 0 <= i < j < |calls| && calls[i].Commit? ==> calls[j].Commit?
  {
    var sets, commits := SetPhase(parts, values), CommitPhase(parts);
    assert forall k :: 0 <= k < |sets| ==> calls[k] == sets[k];
    assert forall k :: |sets| <= k < |calls| ==> calls[k] == commits[k - |sets|];
  }

  /** A held part whose `expr` is falsy is committed but never set. */
  lemma ExprlessCommittedNeverSet(parts: seq<Option<Part>>, values: ValuesObject, p: Part)
    requires Some(p) in parts && !Truthy(p.expr)
    ensures Commit(p) in SetPhase(parts, values) + CommitPhase(parts)
    ensures forall x :: SetValue(p, x) !in SetPhase(parts, values) + CommitPhase(parts)
  {
    CommitPhaseCounts(parts, p);
    assert Commit(p) in multiset(CommitPhase(parts));
    forall x
      ensures SetValue(p, x) !in SetPhase(parts, values) + CommitPhase(parts)
    {
      SetPhaseCounts(parts, values, p, x);
      assert SetValue(p, x) !in multiset(SetPhase(parts, values));
    }
  }

  class HTMLTemplateInstance {
    var parts: seq<Option<Part>>
    var processor: TemplateProcessor
    var template: HtmlTemplate.HTMLTemplate

    /** A new instance holds no parts yet. */
    constructor (template: HtmlTemplate.HTMLTemplate, processor: TemplateProcessor)
      ensures this.template == template && this.processor == processor && parts == []
    {
      this.template := template;
      this.processor := processor;
      parts := [];
    }

    /** `update(values)`: the calls it makes, first loop then second loop; an
        instance holding no parts makes none. The instance's own fields are
        not changed. */
    method Update(values: ValuesObject) returns (calls: seq<Call>)
      ensures calls == SetPhase(parts, values) + CommitPhase(parts)
      ensures parts == [] ==> calls == []
    {
      calls := [];
      for i := 0 to |parts|
        invariant calls == SetPhase(parts[..i], values)
      {
        assert parts[..i + 1][..i] == parts[..i];
        var part := parts[i];
        if part.Some? && Truthy(part.value.expr) {
          calls := calls + [SetValue(part.value, Lookup(values, part.value.expr.value))];
        }
      }
      assert parts[..|parts|] == parts;
      var sets := calls;
      for i := 0 to |parts|
        invariant calls == sets + CommitPhase(parts[..i])
      {
        assert parts[..i + 1][..i] == parts[..i];
        var part := parts[i];
        if part.Some? {
          calls := calls + [Commit(part.value)];
        }
      }
    }
  }
}
