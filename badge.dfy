/**
  How a Badge picks its colour variant and its text. Four optional semantic
  props (status, userRole, priority, paymentStatus) are examined in that order;
  each one that holds a known value overwrites the variant, but only offers its
  label when no text has been chosen yet. So the LAST semantic prop decides the
  variant while the FIRST one (or non-empty children) decides the text.
  An absent prop, and JavaScript's `undefined`, are written "" here.
*/
module Badge {
  import opened Js

  datatype BadgeVariant = Primary | Secondary | Success | Danger | Warning | Info

  /** What one semantic prop asks for: a variant and a default label. */
  datatype Rule = Rule(variant: BadgeVariant, text: string)

  function StatusRule(status: string): (r: Option<Rule>)
    ensures r.Some? <==> status in ["published", "draft", "archived", "pending", "rejected"]
    ensures r.Some? ==> r.value.text != ""
  {
    if status == "published" then Some(Rule(Success, "게시됨"))
    else if status == "draft" then Some(Rule(Warning, "임시저장"))
    else if status == "archived" then Some(Rule(Secondary, "보관됨"))
    else if status == "pending" then Some(Rule(Info, "대기중"))
    else if status == "rejected" then Some(Rule(Danger, "거부됨"))
    else None
  }

  function RoleRule(userRole: string): (r: Option<Rule>)
    ensures r.Some? <==> userRole in ["admin", "moderator", "user", "guest"]
    ensures r.Some? ==> r.value.text != ""
  {
    if userRole == "admin" then Some(Rule(Danger, "관리자"))
    else if userRole == "moderator" then Some(Rule(Warning, "운영자"))
    else if userRole == "user" then Some(Rule(Primary, "사용자"))
    else if userRole == "guest" then Some(Rule(Secondary, "게스트"))
    else None
  }

  function PriorityRule(priority: string): (r: Option<Rule>)
    ensures r.Some? <==> priority in ["high", "medium", "low"]
    ensures r.Some? ==> r.value.text != ""
  {
    if priority == "high" then Some(Rule(Danger, "높음"))
    else if priority == "medium" then Some(Rule(Warning, "보통"))
    else if priority == "low" then Some(Rule(Info, "낮음"))
    else None
  }

  function PaymentRule(paymentStatus: string): (r: Option<Rule>)
    ensures r.Some? <==> paymentStatus in ["paid", "pending", "failed", "refunded"]
    ensures r.Some? ==> r.value.text != ""
  {
    if paymentStatus == "paid" then Some(Rule(Success, "결제완료"))
    else if paymentStatus == "pending" then Some(Rule(Warning, "결제대기"))
    else if paymentStatus == "failed" then Some(Rule(Danger, "결제실패"))
    else if paymentStatus == "refunded" then Some(Rule(Secondary, "환불됨"))
    else None
  }

  /** The four semantic props' rules, in the order the component examines them. */
  function Rules(status: string, userRole: string, priority: string, paymentStatus: string): seq<Option<Rule>> {
    [StatusRule(status), RoleRule(userRole), PriorityRule(priority), PaymentRule(paymentStatus)]
  }

  /** The variant of the last rule that applies, or `default` when none does. */
  function LastVariant(rules: seq<Option<Rule>>, default: Option<BadgeVariant>): Option<BadgeVariant>
    decreases |rules|
  {
    if rules == [] then default
    else if rules[|rules| - 1].Some? then Some(rules[|rules| - 1].value.variant)
    else LastVariant(rules[..|rules| - 1], default)
  }

  /** The label of the first rule that applies. */
  function FirstLabel(rules: seq<Option<Rule>>): Option<string>
    decreases |rules|
  {
    if rules == [] then None
    else if rules[0].Some? then Some(rules[0].value.text)
    else FirstLabel(rules[1..])
  }

  /** Text shown: non-empty children, otherwise the first applicable label, otherwise the children as given. */
  function ContentOf(children: Node, rules: seq<Option<Rule>>): Node {
    if Truthy(children) then children
    else match FirstLabel(rules)
      case Some(l) => Text(l)
      case None => children
  }

  /** The variant that is finally rendered: an unresolved variant falls back to "primary". */
  function RenderedVariant(actualType: Option<BadgeVariant>): (v: BadgeVariant)
    ensures actualType.Some? ==> v == actualType.value
    ensures actualType.None? ==> v == Primary
  {
    actualType.GetOr(Primary)
  }

  /** The variant after one prop's `switch`: a matching case sets it. */
  function TypeAfter(actualType: Option<BadgeVariant>, rule: Option<Rule>): Option<BadgeVariant> {
    if rule.Some? then Some(rule.value.variant) else actualType
  }

  /** The content after one prop's `switch`: a matching case offers its label to `||`. */
  function ContentAfter(actualContent: Node, rule: Option<Rule>): Node {
    if rule.Some? then Or(actualContent, Text(rule.value.text)) else actualContent
  }

  /** One prop's `switch`, given the case it matched, if any. */
  method ApplyRule(rule: Option<Rule>, actualType: Option<BadgeVariant>, actualContent: Node)
    returns (newType: Option<BadgeVariant>, newContent: Node)
    ensures newType == TypeAfter(actualType, rule) && newContent == ContentAfter(actualContent, rule)
    ensures rule.None? ==> newType == actualType && newContent == actualContent
  {
    newType, newContent := actualType, actualContent;
    if rule.Some? {
      newType := Some(rule.value.variant);
      newContent := Or(actualContent, Text(rule.value.text));
    }
  }

  /** An absent prop (`undefined`, written "") matches no case. */
  lemma AbsentPropsHaveNoRule()
    ensures StatusRule("").None? && RoleRule("").None? && PriorityRule("").None? && PaymentRule("").None?
  {
  }

  /** The props are read in sequence; `showIcon` is accepted and ignored. */
  method ResolveBadge(variant: Option<BadgeVariant>, children: Node,
                      status: string, userRole: string, priority: string, paymentStatus: string,
                      showIcon: bool)
    returns (actualType: Option<BadgeVariant>, actualContent: Node)
    ensures actualType == LastVariant(Rules(status, userRole, priority, paymentStatus), variant)
    ensures actualContent == ContentOf(children, Rules(status, userRole, priority, paymentStatus))
  {
    AbsentPropsHaveNoRule();
    actualType := variant;
    actualContent := children;
    if status != "" {
      actualType, actualContent := ApplyRule(StatusRule(status), actualType, actualContent);
    }
    if userRole != "" {
      actualType, actualContent := ApplyRule(RoleRule(userRole), actualType, actualContent);
    }
    if priority != "" {
      actualType, actualContent := ApplyRule(PriorityRule(priority), actualType, actualContent);
    }
    if paymentStatus != "" {
      actualType, actualContent := ApplyRule(PaymentRule(paymentStatus), actualType, actualContent);
    }
    RulesInOrder(StatusRule(status), RoleRule(userRole), PriorityRule(priority), PaymentRule(paymentStatus),
                 variant, children);
  }

  /** Every rule offers a non-empty label. */
  ghost predicate LabelsNonEmpty(rules: seq<Option<Rule>>) {
    forall j :: 0 <= j < |rules| && rules[j].Some? ==> rules[j].value.text != ""
  }

  lemma {:induction false} FirstLabelSnoc(rules: seq<Option<Rule>>, r: Option<Rule>)
    ensures FirstLabel(rules + [r]) ==
      if FirstLabel(rules).Some? then FirstLabel(rules)
      else if r.Some? then Some(r.value.text) else None
    decreases |rules|
  {
    if rules == [] {
      assert rules + [r] == [r];
    } else {
      assert (rules + [r])[1..] == rules[1..] + [r];
      FirstLabelSnoc(rules[1..], r);
    }
  }

  lemma {:induction false} FirstLabelNonEmpty(rules: seq<Option<Rule>>)
    requires LabelsNonEmpty(rules)
    ensures FirstLabel(rules).Some? ==> FirstLabel(rules).value != ""
    decreases |rules|
  {
    if rules != [] && rules[0].None? {
      assert LabelsNonEmpty(rules[1..]) by {
        forall j | 0 <= j < |rules[1..]| && rules[1..][j].Some? ensures rules[1..][j].value.text != "" {
          assert rules[1..][j] == rules[j + 1];
        }
      }
      FirstLabelNonEmpty(rules[1..]);
    }
  }

  /** Examining one more prop: its rule, when it applies, overwrites the variant and
      offers its label to `||`, which is what LastVariant and ContentOf say of the longer list. */
  lemma ApplyRuleStep(seen: seq<Option<Rule>>, r: Option<Rule>, variant: Option<BadgeVariant>, children: Node)
    requires LabelsNonEmpty(seen)
    requires r.Some? ==> r.value.text != ""
    ensures LabelsNonEmpty(seen + [r])
    ensures LastVariant(seen + [r], variant) ==
      if r.Some? then Some(r.value.variant) else LastVariant(seen, variant)
    ensures ContentOf(children, seen + [r]) ==
      if r.Some? then Or(ContentOf(children, seen), Text(r.value.text)) else ContentOf(children, seen)
  {
    assert (seen + [r])[..|seen|] == seen;
    FirstLabelSnoc(seen, r);
    FirstLabelNonEmpty(seen);
  }

  /** Applying four rules one after the other, as the four `switch`es do, gives the last
      variant and the first label of the rules in that order, provided every rule has a label. */
  lemma RulesInOrder(r1: Option<Rule>, r2: Option<Rule>, r3: Option<Rule>, r4: Option<Rule>,
                     variant: Option<BadgeVariant>, children: Node)
    requires LabelsNonEmpty([r1, r2, r3, r4])
    ensures LastVariant([r1, r2, r3, r4], variant) ==
      TypeAfter(TypeAfter(TypeAfter(TypeAfter(variant, r1), r2), r3), r4)
    ensures ContentOf(children, [r1, r2, r3, r4]) ==
      ContentAfter(ContentAfter(ContentAfter(ContentAfter(children, r1), r2), r3), r4)
  {
    var rules := [r1, r2, r3, r4];
    assert rules[0] == r1 && rules[1] == r2 && rules[2] == r3 && rules[3] == r4;
    assert [] + [r1] == rules[..1] && rules[..1] + [r2] == rules[..2];
    assert rules[..2] + [r3] == rules[..3] && rules[..3] + [r4] == rules;
    ApplyRuleStep([], r1, variant, children);
    ApplyRuleStep(rules[..1], r2, variant, children);
    ApplyRuleStep(rules[..2], r3, variant, children);
    ApplyRuleStep(rules[..3], r4, variant, children);
  }

  lemma {:induction false} FirstLabelNone(rules: seq<Option<Rule>>)
    requires forall j :: 0 <= j < |rules| ==> rules[j].None?
    ensures FirstLabel(rules) == None
    decreases |rules|
  {
    if rules != [] {
      FirstLabelNone(rules[1..]);
    }
  }

  // ---------------------------------------------------------------------
  // Properties of the resolution
  // ---------------------------------------------------------------------

  /** The variant comes from the applicable rule with the highest position. */
  lemma {:induction false} LastVariantIsLastApplicable(rules: seq<Option<Rule>>, default: Option<BadgeVariant>, k: int)
    requires 0 <= k < |rules| && rules[k].Some?
    requires forall j :: k < j < |rules| ==> rules[j].None?
    ensures LastVariant(rules, default) == Some(rules[k].value.variant)
    decreases |rules|
  {
    if k < |rules| - 1 {
      LastVariantIsLastApplicable(rules[..|rules| - 1], default, k);
    }
  }

  /** With no applicable rule the variant is the one passed in. */
  lemma {:induction false} LastVariantDefault(rules: seq<Option<Rule>>, default: Option<BadgeVariant>)
    requires forall j :: 0 <= j < |rules| ==> rules[j].None?
    ensures LastVariant(rules, default) == default
    decreases |rules|
  {
    if rules != [] {
      LastVariantDefault(rules[..|rules| - 1], default);
    }
  }

  /** The label comes from the applicable rule with the lowest position. */
  lemma {:induction false} FirstLabelIsFirstApplicable(rules: seq<Option<Rule>>, k: int)
    requires 0 <= k < |rules| && rules[k].Some?
    requires forall j :: 0 <= j < k ==> rules[j].None?
    ensures FirstLabel(rules) == Some(rules[k].value.text)
    decreases |rules|
  {
    if k > 0 {
      FirstLabelIsFirstApplicable(rules[1..], k - 1);
    }
  }

  /** A recognised paymentStatus always decides the variant, whatever the other props say. */
  lemma PaymentStatusDecidesVariant(variant: Option<BadgeVariant>,
                                    status: string, userRole: string, priority: string, paymentStatus: string)
    requires PaymentRule(paymentStatus).Some?
    ensures LastVariant(Rules(status, userRole, priority, paymentStatus), variant) ==
            Some(PaymentRule(paymentStatus).value.variant)
  {
  }

  /** A recognised status always supplies the text when the children are empty. */
  lemma StatusDecidesLabel(children: Node, status: string, userRole: string, priority: string, paymentStatus: string)
    requires !Truthy(children) && StatusRule(status).Some?
    ensures ContentOf(children, Rules(status, userRole, priority, paymentStatus)) ==
            Text(StatusRule(status).value.text)
  {
  }

  /** Non-empty children are always shown as they are. */
  lemma ChildrenWin(children: Node, rules: seq<Option<Rule>>)
    requires Truthy(children)
    ensures ContentOf(children, rules) == children
  {
  }

  /** Values outside the listed cases (and absent props) leave both the variant and the text alone. */
  lemma UnknownValuesChangeNothing(variant: Option<BadgeVariant>, children: Node,
                                   status: string, userRole: string, priority: string, paymentStatus: string)
    requires StatusRule(status).None? && RoleRule(userRole).None?
    requires PriorityRule(priority).None? && PaymentRule(paymentStatus).None?
    ensures LastVariant(Rules(status, userRole, priority, paymentStatus), variant) == variant
    ensures ContentOf(children, Rules(status, userRole, priority, paymentStatus)) == children
  {
    var rules := Rules(status, userRole, priority, paymentStatus);
    LastVariantDefault(rules, variant);
    FirstLabelNone(rules);
  }

  /** Variant and text follow opposite priorities: a published, failed-payment badge is red but reads "게시됨". */
  lemma VariantAndLabelDisagree()
    ensures LastVariant(Rules("published", "", "", "failed"), None) == Some(Danger)
    ensures ContentOf(Nothing, Rules("published", "", "", "failed")) == Text("게시됨")
  {
  }
}
