/**
 * The per-name minimum-count rule: every changed model must have, for each
 * required column name, at least the required number of columns of that
 * name. One violation is reported per model and unmet requirement.
 */
module ModelColumnsByName {
  import opened Grouping

  /** A changed model as the graph walk hands it over: its name and its children. */
  datatype ModelNode = ModelNode(model_name: string, childs: seq<Entity>)

  /**
   * One diagnostic line: "<model>: has only <found> <name> columns, but
   * <required> are required."
   */
  datatype Violation = Violation(model_name: string, found: nat, required_name: string, required_cnt: int)

  /** The rule as the hook states it on the raw children: the name is absent, or occurs too rarely. */
  predicate Unmet(childs: seq<Entity>, name: string, cnt: int)
  {
    var n := Count(childs, name);
    n == 0 || cnt > n
  }

  /** The branch test on a group dictionary: `not col or required_cnt > len(col)`. */
  predicate Fails(columnDict: map<string, seq<Column>>, name: string, cnt: int)
  {
    var col := if name in columnDict then columnDict[name] else [];
    col == [] || cnt > |col|
  }

  /** The violations the rule demands for one model, in requirement order. */
  function Expected(model: ModelNode, reqs: seq<(string, int)>): seq<Violation>
  {
    if reqs == [] then []
    else
      var (name, cnt) := reqs[|reqs| - 1];
      Expected(model, reqs[..|reqs| - 1]) +
        if Unmet(model.childs, name, cnt)
        then [Violation(model.model_name, Count(model.childs, name), name, cnt)]
        else []
  }

  /** The violations the rule demands, in model order and then requirement order. */
  function RuleViolations(models: seq<ModelNode>, reqs: seq<(string, int)>): seq<Violation>
  {
    if models == [] then []
    else RuleViolations(models[..|models| - 1], reqs) + Expected(models[|models| - 1], reqs)
  }

  /** The branch test on the grouped columns is the rule stated on the raw children. */
  lemma {:induction false} FailsIffUnmet(childs: seq<Entity>, name: string, cnt: int)
    ensures Fails(GroupByName(Columns(childs)), name, cnt) <==> Unmet(childs, name, cnt)
    ensures GroupSize(GroupByName(Columns(childs)), name) == Count(childs, name)
  {
    GroupSizeOfChildren(childs, name);
  }

  /** A required name that is absent is reported even when its required count is 0 or below. */
  lemma AbsentNameAlwaysFails(childs: seq<Entity>, name: string, cnt: int)
    requires Col(name) !in childs
    ensures Fails(GroupByName(Columns(childs)), name, cnt)
  {
    FailsIffUnmet(childs, name, cnt);
  }

  /**
   * A model's violations are exactly its unmet requirements, each carrying
   * the model name, the number found, the required name and the required count.
   */
  lemma {:induction false} ExpectedExact(model: ModelNode, reqs: seq<(string, int)>)
    ensures forall v :: v in Expected(model, reqs) <==>
      exists j :: 0 <= j < |reqs| && Unmet(model.childs, reqs[j].0, reqs[j].1) &&
        v == Violation(model.model_name, Count(model.childs, reqs[j].0), reqs[j].0, reqs[j].1)
  {
    if reqs != [] {
      ExpectedExact(model, reqs[..|reqs| - 1]);
      assert forall j :: 0 <= j < |reqs| - 1 ==> reqs[..|reqs| - 1][j] == reqs[j];
    }
  }

  /** Taking one more requirement into account appends at most its own violation. */
  lemma ExpectedStep(model: ModelNode, reqs: seq<(string, int)>, j: int)
    requires 0 <= j < |reqs|
    ensures Expected(model, reqs[..j + 1]) == Expected(model, reqs[..j]) +
      if Unmet(model.childs, reqs[j].0, reqs[j].1)
      then [Violation(model.model_name, Count(model.childs, reqs[j].0), reqs[j].0, reqs[j].1)]
      else []
  {
    assert reqs[..j + 1][..j] == reqs[..j];
  }

  /** A model reports at most one violation per requirement. */
  lemma {:induction false} ExpectedAtMostOnePerRequirement(model: ModelNode, reqs: seq<(string, int)>)
    ensures |Expected(model, reqs)| <= |reqs|
  {
    if reqs != [] {
      ExpectedAtMostOnePerRequirement(model, reqs[..|reqs| - 1]);
    }
  }

  /** The positions of the requirements a model does not meet. */
  function UnmetPositions(model: ModelNode, reqs: seq<(string, int)>): set<int>
  {
    set j | 0 <= j < |reqs| && Unmet(model.childs, reqs[j].0, reqs[j].1)
  }

  /** One more requirement adds its own position exactly when it is unmet. */
  lemma UnmetPositionsSnoc(model: ModelNode, reqs: seq<(string, int)>)
    requires reqs != []
    ensures |UnmetPositions(model, reqs)| == |UnmetPositions(model, reqs[..|reqs| - 1])| +
      if Unmet(model.childs, reqs[|reqs| - 1].0, reqs[|reqs| - 1].1) then 1 else 0
  {
    var init := reqs[..|reqs| - 1];
    var before, after := UnmetPositions(model, init), UnmetPositions(model, reqs);
    assert forall j :: 0 <= j < |init| ==> init[j] == reqs[j];
    if Unmet(model.childs, reqs[|reqs| - 1].0, reqs[|reqs| - 1].1) {
      assert after == before + {|reqs| - 1};
    } else {
      assert after == before;
    }
  }

  /** A model gets exactly one message per unmet requirement: as many messages as unmet positions. */
  lemma {:induction false} ExpectedCount(model: ModelNode, reqs: seq<(string, int)>)
    ensures |Expected(model, reqs)| == |UnmetPositions(model, reqs)|
  {
    if reqs != [] {
      ExpectedCount(model, reqs[..|reqs| - 1]);
      UnmetPositionsSnoc(model, reqs);
    }
  }

  /** Models are reported in order: the violations of a concatenation are concatenated. */
  lemma {:induction false} RuleViolationsAppend(a: seq<ModelNode>, b: seq<ModelNode>, reqs: seq<(string, int)>)
    ensures RuleViolations(a + b, reqs) == RuleViolations(a, reqs) + RuleViolations(b, reqs)
    decreases |b|
  {
    if b != [] {
      var b' := b[..|b| - 1];
      assert (a + b)[..|a + b| - 1] == a + b';
      RuleViolationsAppend(a, b', reqs);
    } else {
      assert a + b == a;
    }
  }

  /** With no models, or no requirements, nothing is reported. */
  lemma {:induction false} NothingToCheckNoViolations(models: seq<ModelNode>, reqs: seq<(string, int)>)
    requires models == [] || reqs == []
    ensures RuleViolations(models, reqs) == []
  {
    if models != [] {
      NothingToCheckNoViolations(models[..|models| - 1], reqs);
    }
  }

  /** No violation at all iff every requirement is met by every model. */
  lemma {:induction false} RuleViolationsEmptyIff(models: seq<ModelNode>, reqs: seq<(string, int)>)
    ensures RuleViolations(models, reqs) == [] <==>
      forall i, j :: 0 <= i < |models| && 0 <= j < |reqs| ==> !Unmet(models[i].childs, reqs[j].0, reqs[j].1)
  {
    if models != [] {
      var init, last := models[..|models| - 1], models[|models| - 1];
      RuleViolationsEmptyIff(init, reqs);
      ExpectedExact(last, reqs);
      assert forall i :: 0 <= i < |init| ==> init[i] == models[i];
      if Expected(last, reqs) != [] {
        assert Expected(last, reqs)[0] in Expected(last, reqs);
      }
      forall j | 0 <= j < |reqs| && Unmet(last.childs, reqs[j].0, reqs[j].1)
        ensures Expected(last, reqs) != []
      {
        assert Violation(last.model_name, Count(last.childs, reqs[j].0), reqs[j].0, reqs[j].1) in Expected(last, reqs);
      }
    }
  }

  /**
   * A model with columns id, id, name against the requirements id >= 2,
   * name >= 2 and email >= 0: name is short by one and email is absent, so
   * both are reported, email although it requires no column.
   */
  lemma RuleViolationsExample()
    ensures var m := ModelNode("model_x", [Col("id"), Other, Col("id"), Col("name")]);
      RuleViolations([m], [("id", 2), ("name", 2), ("email", 0)]) ==
        [Violation("model_x", 1, "name", 2), Violation("model_x", 0, "email", 0)]
  {
    var m := ModelNode("model_x", [Col("id"), Other, Col("id"), Col("name")]);
    var reqs := [("id", 2), ("name", 2), ("email", 0)];
    assert Count(m.childs, "id") == 2 by {
      assert multiset(m.childs) == multiset{Col("id"), Other, Col("id"), Col("name")};
    }
    assert Count(m.childs, "name") == 1 by {
      assert multiset(m.childs) == multiset{Col("id"), Other, Col("id"), Col("name")};
    }
    assert Count(m.childs, "email") == 0 by {
      assert multiset(m.childs) == multiset{Col("id"), Other, Col("id"), Col("name")};
    }
    assert reqs[..2][..1] == [("id", 2)] && reqs[..2] == [("id", 2), ("name", 2)];
    assert [("id", 2)][..0] == [];
    assert Expected(m, [("id", 2)]) == [];
    assert Expected(m, reqs[..2]) == [Violation("model_x", 1, "name", 2)];
    assert Expected(m, reqs) == [Violation("model_x", 1, "name", 2), Violation("model_x", 0, "email", 0)];
    assert [m][..0] == [];
  }

  /**
   * The `for required_col` loop over one model's group dictionary: walks the
   * requirements in order, setting the status to 1 and appending one
   * violation for each requirement whose group is missing or too small.
   * The dictionary is any one whose group sizes are the model's name counts,
   * as the grouping of its columns is (FailsIffUnmet).
   */
  method CheckRequirements(model: ModelNode, columnDict: map<string, seq<Column>>,
                           requiredCols: seq<(string, int)>, statusIn: int, messagesIn: seq<Violation>)
    returns (statusCode: int, messages: seq<Violation>)
    requires forall name :: GroupSize(columnDict, name) == Count(model.childs, name)
    ensures messages == messagesIn + Expected(model, requiredCols)
    ensures statusCode == if Expected(model, requiredCols) == [] then statusIn else 1
  {
    statusCode, messages := statusIn, messagesIn;
    for j := 0 to |requiredCols|
      invariant messages == messagesIn + Expected(model, requiredCols[..j])
      invariant statusCode == if Expected(model, requiredCols[..j]) == [] then statusIn else 1
    {
      var requiredCol, requiredCnt := requiredCols[j].0, requiredCols[j].1;
      var col := if requiredCol in columnDict then columnDict[requiredCol] else [];
      var colCnt := |col|;
      ExpectedStep(model, requiredCols, j);
      assert colCnt == GroupSize(columnDict, requiredCol) == Count(model.childs, requiredCol);
      if col == [] || requiredCnt > colCnt {
        statusCode := 1;
        messages := messages + [Violation(model.model_name, colCnt, requiredCol, requiredCnt)];
      }
    }
    assert requiredCols[..|requiredCols|] == requiredCols;
  }

  /**
   * The body of the `for model` loop: groups the model's columns by name and
   * checks every requirement against the groups.
   */
  method CheckModel(model: ModelNode, requiredCols: seq<(string, int)>, statusIn: int, messagesIn: seq<Violation>)
    returns (statusCode: int, messages: seq<Violation>)
    ensures messages == messagesIn + Expected(model, requiredCols)
    ensures statusCode == if Expected(model, requiredCols) == [] then statusIn else 1
  {
    var columns := Columns(model.childs);
    var columnDict := GroupByName(columns);
    forall name
      ensures GroupSize(columnDict, name) == Count(model.childs, name)
    {
      FailsIffUnmet(model.childs, name, 0);
    }
    statusCode, messages := CheckRequirements(model, columnDict, requiredCols, statusIn, messagesIn);
  }

  /**
   * check_column_cnt for changed models: walks the models in order and
   * reports one violation per unmet requirement. The status starts at 0,
   * once 1 stays 1, and ends 0 exactly when every requirement is met by
   * every model.
   */
  method CheckColumnCnt(models: seq<ModelNode>, requiredCols: seq<(string, int)>)
    returns (statusCode: int, messages: seq<Violation>)
    ensures messages == RuleViolations(models, requiredCols)
    ensures statusCode == 0 <==>
      forall i, j :: 0 <= i < |models| && 0 <= j < |requiredCols| ==>
        !Unmet(models[i].childs, requiredCols[j].0, requiredCols[j].1)
    ensures statusCode == 0 || statusCode == 1
  {
    statusCode := 0;
    messages := [];
    for i := 0 to |models|
      invariant messages == RuleViolations(models[..i], requiredCols)
      invariant statusCode == if messages == [] then 0 else 1
    {
      statusCode, messages := CheckModel(models[i], requiredCols, statusCode, messages);
      assert models[..i + 1][..i] == models[..i];
    }
    assert models[..|models|] == models;
    RuleViolationsEmptyIff(models, requiredCols);
  }
}
