/**
 * Condition groups: the menu's templates, the per-word copy of a template that
 * `query_field` builds, and the text `get_conditions_pretty` shows for the
 * accumulated groups.
 */
module Conditions {
  import opened Strings
  import opened Numbers
  import opened Catalog

  /** Option 1: `{"Authors": ""}, {"Title": ""}, {"OPERATOR": "or"}`. */
  const AnyFieldTemplate: Group := [Cond(Authors, StrV("")), Cond(Title, StrV("")), Operator(StrV("or"))]

  /** Options 2 to 5: `{F: ""}, {"OPERATOR": "or"}` for F = `Text#`, `Authors`, `Title`, `Language`. */
  function FieldTemplate(f: Field): Group {
    [Cond(f, StrV("")), Operator(StrV("or"))]
  }

  /** One dictionary of the copy with its value replaced; the key is kept. */
  function WithValue(e: Entry, v: Value): Entry {
    match e
    case Cond(f, _) => Cond(f, v)
    case Operator(_) => Operator(v)
  }

  /**
   * The group `query_field` builds for one word: the template with the same keys
   * in the same order, and the word in every slot, the `OPERATOR` slot included.
   */
  function Instantiate(template: Group, v: Value): (g: Group)
    ensures |g| == |template|
    ensures forall i :: 0 <= i < |g| ==> g[i].value == v
    ensures forall i :: 0 <= i < |g| ==> g[i].Cond? == template[i].Cond?
    ensures forall i :: 0 <= i < |g| && g[i].Cond? ==> g[i].field == template[i].field
  {
    seq(|template|, i requires 0 <= i < |template| => WithValue(template[i], v))
  }

  /** `deepcopy(conditions)` followed by the loop that writes the word into every dictionary. */
  method BuildGroup(template: Group, v: Value) returns (g: Group)
    ensures g == Instantiate(template, v)
  {
    g := template;
    for i := 0 to |g|
      invariant |g| == |template|
      invariant g[..i] == Instantiate(template, v)[..i]
      invariant g[i..] == template[i..]
    {
      assert g[i] == template[i];
      g := g[i := WithValue(g[i], v)];
    }
  }

  /** `str(value)` inside the f-string. */
  function ValueText(v: Value): string {
    match v
    case StrV(s) => s
    case IntV(n) => IntToString(n)
  }

  /** `f'{fname}="{fval}"'`. */
  function CondText(f: Field, v: Value): string {
    FieldName(f) + "=\"" + ValueText(v) + "\""
  }

  /** The loop variables of the inner loop of `get_conditions_pretty`: text so far, `srt_operator`, `cant_cond`. */
  datatype Render = Render(text: string, op: string, count: nat)

  function RenderStep(st: Render, e: Entry): Render {
    match e
    case Operator(v) => st.(op := if v == AndMarker then "and" else "or")
    case Cond(f, v) =>
      Render(st.text + (if st.count + 1 > 1 then " " + st.op + " " else "") + CondText(f, v), st.op, st.count + 1)
  }

  function RenderEntries(g: Group): Render
    decreases |g|
  {
    if |g| == 0 then Render("", "or", 0) else RenderStep(RenderEntries(g[..|g| - 1]), g[|g| - 1])
  }

  function GroupText(g: Group): string {
    "(" + RenderEntries(g).text + ")"
  }

  function RenderGroups(conds: seq<Group>): string
    decreases |conds|
  {
    if |conds| == 0 then ""
    else RenderGroups(conds[..|conds| - 1]) + (if |conds| > 1 then " and " else "") + GroupText(conds[|conds| - 1])
  }

  /** The value `get_conditions_pretty` returns. */
  function Pretty(conds: seq<Group>): string {
    if |conds| == 0 then "No defined condition" else RenderGroups(conds)
  }

  lemma RenderGroupsPrefix(conds: seq<Group>, i: nat)
    requires i < |conds|
    ensures RenderGroups(conds[..i + 1]) == RenderGroups(conds[..i]) + (if i > 0 then " and " else "") + GroupText(conds[i])
  {
    assert conds[..i + 1][..i] == conds[..i];
  }

  /** The inner loop of `get_conditions_pretty`: the text of one group between its parentheses. */
  method GroupConditionsText(items: Group) returns (text: string)
    ensures text == RenderEntries(items).text
  {
    text := "";
    var cantCond := 0;
    var srtOperator := "or";
    for j := 0 to |items|
      invariant text == RenderEntries(items[..j]).text
      invariant srtOperator == RenderEntries(items[..j]).op
      invariant cantCond == RenderEntries(items[..j]).count
    {
      assert items[..j + 1][..j] == items[..j];
      match items[j]
      case Operator(v) =>
        srtOperator := if v == AndMarker then "and" else "or";
      case Cond(f, v) =>
        cantCond := cantCond + 1;
        var joiner := if cantCond > 1 then " " + srtOperator + " " else "";
        text := text + joiner + CondText(f, v);
    }
    assert items[..|items|] == items;
  }

  /** `get_conditions_pretty`: the groups in parentheses, joined by " and ". */
  method ConditionsPretty(conditions: seq<Group>) returns (strConditions: string)
    ensures strConditions == Pretty(conditions)
  {
    if |conditions| == 0 {
      return "No defined condition";
    }
    strConditions := "";
    var cantItems := 0;
    for i := 0 to |conditions|
      invariant cantItems == i
      invariant strConditions == RenderGroups(conditions[..i])
    {
      var items := conditions[i];
      cantItems := cantItems + 1;
      var joiner := if cantItems > 1 then " and " else "";
      var body := GroupConditionsText(items);
      strConditions := strConditions + joiner + ("(" + body + ")");
      RenderGroupsPrefix(conditions, i);
    }
    assert conditions[..|conditions|] == conditions;
  }

  /** Every `OPERATOR` entry comes after every field entry, as in each template of the menu. */
  predicate OperatorTrails(g: Group) {
    forall i, j :: 0 <= i < j < |g| && g[i].Operator? ==> g[j].Operator?
  }

  /** The rendered field conditions of a group, in order; `OPERATOR` entries are not among them. */
  function FieldTexts(g: Group): seq<string>
    decreases |g|
  {
    if |g| == 0 then []
    else match g[|g| - 1]
      case Cond(f, v) => FieldTexts(g[..|g| - 1]) + [CondText(f, v)]
      case Operator(_) => FieldTexts(g[..|g| - 1])
  }

  predicate NoOperator(g: Group) {
    forall i :: 0 <= i < |g| ==> g[i].Cond?
  }

  lemma RenderStepCond(st: Render, f: Field, v: Value)
    requires st.op == "or"
    ensures RenderStep(st, Cond(f, v))
         == Render(st.text + (if st.count > 0 then " or " else "") + CondText(f, v), "or", st.count + 1)
  {
    assert " " + "or" + " " == " or ";
  }

  lemma JoinSnoc(sep: string, parts: seq<string>, x: string)
    ensures Join(sep, parts + [x]) == if |parts| == 0 then x else Join(sep, parts) + sep + x
  {
    assert (parts + [x])[..|parts|] == parts;
  }

  /**
   * When the operator follows the fields, the in-group joiner stays "or" and the
   * group renders as its field conditions joined by " or ".
   */
  lemma {:induction false} RenderTrailing(g: Group)
    requires OperatorTrails(g)
    ensures RenderEntries(g).text == Join(" or ", FieldTexts(g))
    ensures RenderEntries(g).count == |FieldTexts(g)|
    ensures NoOperator(g) ==> RenderEntries(g).op == "or"
    decreases |g|
  {
    if |g| > 0 {
      var init := g[..|g| - 1];
      assert OperatorTrails(init) by {
        forall i, j | 0 <= i < j < |init| && init[i].Operator? ensures init[j].Operator? {
          assert g[i] == init[i] && g[j] == init[j];
        }
      }
      RenderTrailing(init);
      var st := RenderEntries(init);
      var ft := FieldTexts(init);
      match g[|g| - 1]
      case Cond(f, v) =>
        assert NoOperator(init) by {
          forall i | 0 <= i < |init| ensures init[i].Cond? {
            assert g[i] == init[i] && g[|g| - 1].Cond?;
          }
        }
        assert st.op == "or";
        var ct := CondText(f, v);
        RenderStepCond(st, f, v);
        assert FieldTexts(g) == ft + [ct];
        JoinSnoc(" or ", ft, ct);
        assert NoOperator(g) ==> NoOperator(init);
      case Operator(_) =>
        assert FieldTexts(g) == ft;
        assert !NoOperator(g);
    }
  }

  /** The reference rendering: each group's field conditions joined by " or ", in parentheses. */
  function ShownGroups(conds: seq<Group>): seq<string>
    decreases |conds|
  {
    if |conds| == 0 then []
    else ShownGroups(conds[..|conds| - 1]) + ["(" + Join(" or ", FieldTexts(conds[|conds| - 1])) + ")"]
  }

  /**
   * For groups built from the menu's templates the rendering is the groups'
   * field conditions, " or " inside a group and " and " between groups; an
   * empty list renders as "No defined condition".
   */
  lemma {:induction false} PrettyOfTrailingGroups(conds: seq<Group>)
    requires forall i :: 0 <= i < |conds| ==> OperatorTrails(conds[i])
    ensures |conds| == 0 ==> Pretty(conds) == "No defined condition"
    ensures |conds| > 0 ==> Pretty(conds) == Join(" and ", ShownGroups(conds))
    ensures |ShownGroups(conds)| == |conds|
    decreases |conds|
  {
    if |conds| > 0 {
      var init := conds[..|conds| - 1];
      var last := conds[|conds| - 1];
      assert forall i :: 0 <= i < |init| ==> init[i] == conds[i];
      PrettyOfTrailingGroups(init);
      RenderTrailing(last);
      var x := "(" + Join(" or ", FieldTexts(last)) + ")";
      assert GroupText(last) == x;
      assert ShownGroups(conds) == ShownGroups(init) + [x];
      JoinSnoc(" and ", ShownGroups(init), x);
      if |init| == 0 {
        assert RenderGroups(conds) == "" + "" + x;
      } else {
        assert RenderGroups(conds) == RenderGroups(init) + " and " + x;
      }
    }
  }

  lemma InstantiateKeepsShape(template: Group, v: Value)
    requires OperatorTrails(template)
    ensures OperatorTrails(Instantiate(template, v))
  {
  }

  lemma TemplatesHaveTrailingOperator(f: Field)
    ensures OperatorTrails(AnyFieldTemplate) && OperatorTrails(FieldTemplate(f))
  {
  }
}
