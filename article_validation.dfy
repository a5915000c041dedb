/**
 * `ValidationArticle` of models/article.go: the rules an article field bag
 * must pass, for the action "create" or any other action. Every rule that
 * fails adds its error; nothing stops at the first one. The function only
 * reads the bag, and reads the tag table only through the `ExistTagByID`
 * probe on the coerced tag id.
 */
module ArticleValidation {
  import opened Coercion
  import opened Validation
  import Tables
  import Tags

  /** The rules `ValidationArticle` runs, in the order it runs them. */
  datatype Rule =
    | TagIdMin | TagIdExists
    | TitleRequired | TitleMaxSize
    | DescRequired | DescMaxSize
    | ContentRequired | ContentMaxSize
    | StateRange
    | ModifiedByRequired

  const TitleMax := 100
  const DescMax := 255
  const ContentMax := 65535

  /** The error a failed rule adds: its field and the text given by `.Message(...)` or `SetError`. */
  function ErrorOf(r: Rule): FieldError {
    match r
    case TagIdMin => FieldError("tag_id", "标签ID必须大于0")
    case TagIdExists => FieldError("tag_id", "关联标签必须存在")
    case TitleRequired => FieldError("title", "文章标题不能为空")
    case TitleMaxSize => FieldError("title", "标题最长为100字符")
    case DescRequired => FieldError("desc", "文章简述不能为空")
    case DescMaxSize => FieldError("desc", "简述最长为255字符")
    case ContentRequired => FieldError("content", "文章内容不能为空")
    case ContentMaxSize => FieldError("content", "内容最长为65535字符")
    case StateRange => FieldError("state", "状态只能是0或1")
    case ModifiedByRequired => FieldError("modified_by", "文章修改人不能为空")
  }

  /** The position of a rule in the validator's sequence of checks. */
  function Position(r: Rule): nat {
    match r
    case TagIdMin => 0
    case TagIdExists => 1
    case TitleRequired => 2
    case TitleMaxSize => 3
    case DescRequired => 4
    case DescMaxSize => 5
    case ContentRequired => 6
    case ContentMaxSize => 7
    case StateRange => 8
    case ModifiedByRequired => 9
  }

  /** A field's rules run when the field is in the bag, or always for "create". */
  predicate Checked(params: map<string, Value>, key: string, action: string) {
    key in params || action == "create"
  }

  /** The coerced tag id; -1 when the value has none of the handled types. */
  function TagIdOf(params: map<string, Value>): int {
    CoerceInt(Param(params, "tag_id"), -1)
  }

  /** The coerced state; -1 when it is absent or has none of the handled types. */
  function StateOf(params: map<string, Value>): int {
    CoerceInt(Param(params, "state"), -1)
  }

  /** When each rule fails, stated rule by rule. */
  predicate Fails(r: Rule, params: map<string, Value>, action: string, tags: map<int, Tags.Tag>) {
    match r
    case TagIdMin => "tag_id" in params && TagIdOf(params) < 1
    case TagIdExists => "tag_id" in params && !Tables.HasRow(tags, TagIdOf(params))
    case TitleRequired => Checked(params, "title", action) && !Required(Param(params, "title"))
    case TitleMaxSize => Checked(params, "title", action) && !MaxSize(Param(params, "title"), TitleMax)
    case DescRequired => Checked(params, "desc", action) && !Required(Param(params, "desc"))
    case DescMaxSize => Checked(params, "desc", action) && !MaxSize(Param(params, "desc"), DescMax)
    case ContentRequired => Checked(params, "content", action) && !Required(Param(params, "content"))
    case ContentMaxSize => Checked(params, "content", action) && !MaxSize(Param(params, "content"), ContentMax)
    case StateRange => Checked(params, "state", action) && !(0 <= StateOf(params) <= 1)
    case ModifiedByRequired => "modified_by" in params && !Required(params["modified_by"])
  }

  predicate InOrder(rs: seq<Rule>) {
    forall i, j :: 0 <= i < j < |rs| ==> Position(rs[i]) < Position(rs[j])
  }

  /** Every rule, in the order the checks run. */
  const AllRules := [TagIdMin, TagIdExists, TitleRequired, TitleMaxSize, DescRequired, DescMaxSize,
                     ContentRequired, ContentMaxSize, StateRange, ModifiedByRequired]

  lemma AllRulesInOrder()
    ensures InOrder(AllRules)
    ensures forall r :: r in AllRules
  {
    assert forall i :: 0 <= i < |AllRules| ==> Position(AllRules[i]) == i;
    forall r ensures r in AllRules {
      assert AllRules[Position(r)] == r;
    }
  }

  /** Whether each rule fails on this bag, action and tag table. */
  function FailsOn(params: map<string, Value>, action: string, tags: map<int, Tags.Tag>): Rule -> bool {
    (r: Rule) => Fails(r, params, action, tags)
  }

  /**
   * The rules that fail, as the validator meets them: exactly the failing
   * rules, each once, in the order the checks run.
   */
  function FailedRules(params: map<string, Value>, action: string, tags: map<int, Tags.Tag>): (rs: seq<Rule>)
    ensures InOrder(rs)
    ensures forall r :: r in rs <==> Fails(r, params, action, tags)
  {
    AllRulesInOrder();
    FailedAmong(AllRules, FailsOn(params, action, tags))
  }

  /** The rules among `rules` for which `fails` holds, kept in their order: one check after another. */
  function FailedAmong(rules: seq<Rule>, fails: Rule -> bool): (rs: seq<Rule>)
    requires InOrder(rules)
    ensures InOrder(rs)
    ensures forall r :: r in rs <==> r in rules && fails(r)
    decreases |rules|
  {
    if rules == [] then []
    else
      InOrderSplit(rules);
      var rest := FailedAmong(rules[1..], fails);
      if fails(rules[0]) then
        InOrderCons(rules[0], rest);
        [rules[0]] + rest
      else rest
  }

  /** The tail of an ordered run is ordered, and comes after its head. */
  lemma InOrderSplit(rules: seq<Rule>)
    requires InOrder(rules) && rules != []
    ensures InOrder(rules[1..])
    ensures forall r :: r in rules[1..] ==> Position(rules[0]) < Position(r)
  {
    forall r | r in rules[1..] ensures Position(rules[0]) < Position(r) {
      var j :| 0 <= j < |rules[1..]| && rules[1..][j] == r;
      assert rules[j + 1] == r;
    }
  }

  /** A rule placed before an ordered run of later rules keeps the run ordered. */
  lemma InOrderCons(r: Rule, rest: seq<Rule>)
    requires InOrder(rest)
    requires forall x :: x in rest ==> Position(r) < Position(x)
    ensures InOrder([r] + rest)
  {
    var rs := [r] + rest;
    forall i, j | 0 <= i < j < |rs| ensures Position(rs[i]) < Position(rs[j]) {
      if i == 0 {
        assert rs[j] == rest[j - 1];
        assert rs[j] in rest;
      } else {
        assert rs[i] == rest[i - 1] && rs[j] == rest[j - 1];
      }
    }
  }

  /** Distinct rules add distinct errors. */
  lemma ErrorOfInjective(r1: Rule, r2: Rule)
    requires ErrorOf(r1) == ErrorOf(r2)
    ensures r1 == r2
  {
    assert |ErrorOf(r1).field| == |ErrorOf(r2).field|;
    assert |ErrorOf(r1).message| == |ErrorOf(r2).message|;
  }

  /** The errors of a sequence of rules. */
  function ErrorsOf(rs: seq<Rule>): (errs: seq<FieldError>)
    ensures |errs| == |rs|
    ensures forall i :: 0 <= i < |rs| ==> errs[i] == ErrorOf(rs[i])
  {
    seq(|rs|, i requires 0 <= i < |rs| => ErrorOf(rs[i]))
  }

  /** A rule's error is among the errors of `rs` exactly when the rule is in `rs`. */
  lemma ErrorsOfMembership(rs: seq<Rule>)
    ensures forall r :: ErrorOf(r) in ErrorsOf(rs) <==> r in rs
  {
    var errs := ErrorsOf(rs);
    forall r | ErrorOf(r) in errs ensures r in rs {
      var i :| 0 <= i < |errs| && errs[i] == ErrorOf(r);
      ErrorOfInjective(r, rs[i]);
    }
  }

  /** The errors come from the rules, each at most once, in the order the checks run. */
  ghost predicate InRuleOrder(errs: seq<FieldError>) {
    exists rs :: InOrder(rs) && errs == ErrorsOf(rs)
  }

  /**
   * `ValidationArticle(params, action)` against the tag rows `tags`: the
   * error of every failing rule and of no other, in the order the checks run.
   */
  function ValidationArticle(params: map<string, Value>, action: string, tags: map<int, Tags.Tag>): (errs: seq<FieldError>)
    ensures forall r :: ErrorOf(r) in errs <==> Fails(r, params, action, tags)
    ensures InRuleOrder(errs)
  {
    var rs := FailedRules(params, action, tags);
    var errs := ErrorsOf(rs);
    ErrorsOfMembership(rs);
    assert InOrder(rs) && errs == ErrorsOf(rs);
    errs
  }

  /** The validation passes (no error) exactly when no rule fails. */
  lemma ValidationPassesIffNoRuleFails(params: map<string, Value>, action: string, tags: map<int, Tags.Tag>)
    ensures ValidationArticle(params, action, tags) == [] <==> forall r :: !Fails(r, params, action, tags)
  {
    var errs := ValidationArticle(params, action, tags);
    if errs != [] {
      var rs :| InOrder(rs) && errs == ErrorsOf(rs);
      assert errs[0] == ErrorOf(rs[0]);
      assert Fails(rs[0], params, action, tags);
    }
  }

  /** A present tag id below 1 fails its range rule and, stored ids being positive, the existence probe too. */
  lemma NonPositiveTagIdGivesBothErrors(params: map<string, Value>, action: string, tags: map<int, Tags.Tag>)
    requires "tag_id" in params && TagIdOf(params) < 1
    ensures ErrorOf(TagIdMin) in ValidationArticle(params, action, tags)
    ensures ErrorOf(TagIdExists) in ValidationArticle(params, action, tags)
  {
  }

  /** The bag key whose rules add an error with this field name. */
  function KeyOf(r: Rule): string {
    match r
    case TagIdMin | TagIdExists => "tag_id"
    case TitleRequired | TitleMaxSize => "title"
    case DescRequired | DescMaxSize => "desc"
    case ContentRequired | ContentMaxSize => "content"
    case StateRange => "state"
    case ModifiedByRequired => "modified_by"
  }

  /**
   * For "create", a title, desc, content or state that is absent from the
   * bag fails every rule on it: the required and maximum-length rules of a
   * text field, and the range rule of the state (which keeps -1).
   */
  lemma CreateChecksAbsentFields(params: map<string, Value>, tags: map<int, Tags.Tag>, r: Rule)
    requires r != TagIdMin && r != TagIdExists && r != ModifiedByRequired
    requires KeyOf(r) !in params
    ensures ErrorOf(r) in ValidationArticle(params, "create", tags)
  {
    assert Param(params, KeyOf(r)) == NullV;
    assert Fails(r, params, "create", tags);
  }

  /** Outside "create", only the keys present in the bag are checked: every error names a present key. */
  lemma NonCreateReportsOnlyPresentKeys(params: map<string, Value>, action: string, tags: map<int, Tags.Tag>)
    requires action != "create"
    ensures forall e :: e in ValidationArticle(params, action, tags) ==> e.field in params
  {
    var errs := ValidationArticle(params, action, tags);
    var rs := FailedRules(params, action, tags);
    assert errs == ErrorsOf(rs);
    forall e | e in errs ensures e.field in params {
      var i :| 0 <= i < |errs| && errs[i] == e;
      var r := rs[i];
      assert r in rs;
      assert Fails(r, params, action, tags);
      assert ErrorOf(r).field == KeyOf(r);
    }
  }

  /** The checks depend on the failure test only through its value on each rule. */
  lemma {:induction false} FailedAmongFollowsFails(rules: seq<Rule>, fails1: Rule -> bool, fails2: Rule -> bool)
    requires InOrder(rules)
    requires forall r :: fails1(r) == fails2(r)
    ensures FailedAmong(rules, fails1) == FailedAmong(rules, fails2)
    decreases |rules|
  {
    if rules != [] {
      assert InOrder(rules[1..]);
      FailedAmongFollowsFails(rules[1..], fails1, fails2);
    }
  }

  /**
   * The tag table is read only through the `ExistTagByID` probe on the
   * coerced tag id: two tables that agree on that probe give the same errors.
   */
  lemma ValidationReadsTagsOnlyThroughProbe(params: map<string, Value>, action: string,
                                            tags1: map<int, Tags.Tag>, tags2: map<int, Tags.Tag>)
    requires Tables.HasRow(tags1, TagIdOf(params)) == Tables.HasRow(tags2, TagIdOf(params))
    ensures ValidationArticle(params, action, tags1) == ValidationArticle(params, action, tags2)
  {
    AllRulesInOrder();
    forall r ensures FailsOn(params, action, tags1)(r) == FailsOn(params, action, tags2)(r) {
    }
    FailedAmongFollowsFails(AllRules, FailsOn(params, action, tags1), FailsOn(params, action, tags2));
  }
}
