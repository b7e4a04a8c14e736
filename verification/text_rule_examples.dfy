/**
 The text rule (src/lib/html-template.ts:87-125) on two small inputs, worked
 out in full. Kept apart from `TemplateRules` so that the concrete strings do
 not weigh on the general proofs there.
 */
module TextRuleExamples {
  import opened Wrappers
  import opened Dom
  import opened Marker
  import opened TemplateRules

  /** `{{x}}` alone yields exactly one part, carrying `x`, and the node is
      replaced by a marker comment; `a{{x}}` yields an expression-less part
      for `a` first. */
  lemma TextVisitExamples(index: int, lpi: int, pi: int)
    ensures TextVisit("{{x}}", index, lpi, pi, 0).parts == [NodePart(index + 1, Some("x"))]
    ensures TextVisit("{{x}}", index, lpi, pi, 0).inserted == [CommentNode(""), CommentNode("")]
    ensures TextVisit("{{x}}", index, lpi, pi, 0).doomed
    ensures TextVisit("a{{x}}", index, lpi, pi, 0).parts == [NodePart(index + 1, None), NodePart(index + 2, Some("x"))]
  {
    assert LineEnd("{{x}}", 2) == 5;
    assert LastClose("{{x}}", 3, 5) == Some(3);
    assert "{{x}}"[2..3] == "x";
    assert MatchAt("{{x}}", 0) == Some(Match(0, 5, "x"));
    assert FindMarker("{{x}}", 0) == Some(Match(0, 5, "x"));
    assert FindMarker("{{x}}", 5) == None;
    assert Matches("{{x}}", 0) == [Match(0, 5, "x")];
    assert [Match(0, 5, "x")][..0] == [];
    assert Split("{{x}}", 0)[|Split("{{x}}", 0)| - 1] == "";
    assert LineEnd("a{{x}}", 3) == 6;
    assert LastClose("a{{x}}", 4, 6) == Some(4);
    assert "a{{x}}"[3..4] == "x";
    assert MatchAt("a{{x}}", 0) == None;
    assert MatchAt("a{{x}}", 1) == Some(Match(1, 6, "x"));
    assert FindMarker("a{{x}}", 0) == Some(Match(1, 6, "x"));
    assert FindMarker("a{{x}}", 6) == None;
    assert Matches("a{{x}}", 0) == [Match(1, 6, "x")];
    assert [Match(1, 6, "x")][..0] == [];
  }
}
