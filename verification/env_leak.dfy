/**
 * `eval_expr` exactly as written, with the environment shared by reference. A quantifier
 * assigns its variable in the environment it was handed before each iteration (only the body
 * gets a copy), and `!`, `&` and `|` hand that same environment on, so the binding a
 * quantifier leaves behind is visible to the later sibling of an enclosing `&` or `|`.
 *
 * `EvalShared` returns the result together with the environment as the caller sees it
 * afterwards. The rest of the model uses the pure `Evaluator.Eval`, in which every operand
 * sees the caller's environment; the lemmas here show where the two differ and that they
 * agree whenever no quantified variable is read freely by a later sibling.
 */
module EnvironmentLeak {
  import opened Wrappers
  import opened Tree
  import opened Evaluator
  import opened Rewrite = Nnf
  import opened Printers
  import opened PrefixParser

  // ----- The evaluator with a shared environment -----

  /** The result of `eval_expr` and the caller's environment after the call. Atoms and
      equations only read the environment; a failure ends the whole evaluation, so the
      environment returned with `None` is never looked at. */
  function EvalShared(m: Model, e: Node, env: Env): (Option<bool>, Env)
    decreases e, 0
  {
    var v := e.value;
    if v == Negation then
      if |e.children| < 1 then (None, env)
      else
        var (r, after) := EvalShared(m, e.children[0], env);
        (Not(r), after)
    else if v == Conjunction || v == Disjunction then
      if |e.children| < 1 then (None, env)
      else
        var (l, after) := EvalShared(m, e.children[0], env);
        if l.None? then (None, after)
        else if l.value == (v == Disjunction) then (l, after)
        else if |e.children| < 2 then (None, after)
        else EvalShared(m, e.children[1], after)
    else if IsForallLabel(v) then
      LoopShared(m, e.children, v[1..], m.domain, env, true)
    else if IsExistsLabel(v) then
      LoopShared(m, e.children, v[1..], m.domain, env, false)
    else
      (Eval(m, e, env), env)
  }

  /** The quantifier loop over the remaining domain: `env[x] = val` in the shared
      environment, then the body on a copy. A universal (`all`) stops at the first false
      body, an existential at the first true one. */
  function LoopShared(m: Model, cs: seq<Node>, x: string, dom: seq<string>, env: Env, all: bool)
    : (Option<bool>, Env)
    decreases cs, |dom|
  {
    if dom == [] then (Some(all), env)
    else
      var bound := env[x := dom[0]];
      if cs == [] then (None, bound)
      else
        var r := EvalShared(m, cs[0], bound).0;
        if r.None? then (None, bound)
        else if r.value != all then (r, bound)
        else LoopShared(m, cs, x, dom[1..], bound, all)
  }

  /** `evaluate_expression` as written: the caller's assignment is copied once, so only the
      result leaves the call. */
  function EvaluateShared(m: Model, e: Node, assignment: Env): Option<bool> {
    EvalShared(m, e, assignment).0
  }

  /** One line of `main` as written: parse, rewrite, then evaluate with the shared
      environment. */
  function EvaluateLineShared(m: Model, line: string): (r: Option<bool>)
    ensures r.Some? ==> ParsePrefixString(line).Some? && Nnf(ParsePrefixString(line).value).Some?
  {
    var parsed := ParsePrefixString(line);
    if parsed.None? then None
    else
      var simplified := Nnf(parsed.value);
      if simplified.None? then None else EvaluateShared(m, simplified.value, map[])
  }

  // ----- Where the two evaluators differ -----

  function LeakModel(): Model {
    Model(["0", "1"], map["P" := Tuples(["0", "1"]), "Q" := Tuples(["1"])])
  }

  /** `&(@x(P(x)),Q(x))`: the `x` of `Q(x)` is outside the quantifier. */
  function LeakFormula(): Node {
    AndExpr(ForallExpr("x", Node("P", [Node("x", [])])), Node("Q", [Node("x", [])]))
  }

  lemma LeakForallValue()
    ensures EvalShared(LeakModel(), ForallExpr("x", Node("P", [Node("x", [])])), map[])
            == (Some(true), map["x" := "1"])
  {
    var m := LeakModel();
    var px := Node("P", [Node("x", [])]);
    var q := ForallExpr("x", px);
    assert q.value == [Forall] + "x" && q.value[1..] == "x";
    var e0, e1: Env := map["x" := "0"], map["x" := "1"];
    assert map[]["x" := "0"] == e0 && e0["x" := "1"] == e1;
    LeafLookup(m, "x", "0", map[]);
    LeafLookup(m, "x", "1", map[]);
    PredicateSemantics(m, "P", [Node("x", [])], ["0"], e0);
    PredicateSemantics(m, "P", [Node("x", [])], ["1"], e1);
    assert EvalShared(m, px, e0).0 == Some(true);
    assert EvalShared(m, px, e1).0 == Some(true);
    assert m.domain[1..] == ["1"] && m.domain[1..][1..] == [];
    assert LoopShared(m, [px], "x", ["1"], e0, true) == (Some(true), e1);
  }

  lemma LeakQValues()
    ensures Eval(LeakModel(), Node("Q", [Node("x", [])]), map["x" := "1"]) == Some(true)
    ensures Eval(LeakModel(), Node("Q", [Node("x", [])]), map[]) == Some(false)
  {
    var m := LeakModel();
    LeafLookup(m, "x", "1", map[]);
    PredicateSemantics(m, "Q", [Node("x", [])], ["1"], map["x" := "1"]);
    assert "x" !in m.interpretations;
    PredicateSemantics(m, "Q", [Node("x", [])], ["x"], map[]);
  }

  /** With the environment shared, `Q(x)` reads the `x` the quantifier left behind and the
      formula is true; evaluated with `Q(x)` outside the quantifier's scope it is false. */
  lemma LeakExample()
    ensures EvaluateShared(LeakModel(), LeakFormula(), map[]) == Some(true)
    ensures Evaluate(LeakModel(), LeakFormula(), map[]) == Some(false)
  {
    var m := LeakModel();
    var px, qx := Node("P", [Node("x", [])]), Node("Q", [Node("x", [])]);
    LeakForallValue();
    LeakQValues();
    assert EvalShared(m, qx, map["x" := "1"]).0 == Some(true);
    LeakForallPure();
    JunctionSemantics(m, Conjunction, ForallExpr("x", px), qx, map[]);
  }

  /** In the leak model `@x(P(x))` is true under the pure evaluator as well. */
  lemma LeakForallPure()
    ensures Eval(LeakModel(), ForallExpr("x", Node("P", [Node("x", [])])), map[]) == Some(true)
  {
    var m := LeakModel();
    var px := Node("P", [Node("x", [])]);
    LeafLookup(m, "x", "0", map[]);
    LeafLookup(m, "x", "1", map[]);
    PredicateSemantics(m, "P", [Node("x", [])], ["0"], map["x" := "0"]);
    PredicateSemantics(m, "P", [Node("x", [])], ["1"], map["x" := "1"]);
    QuantifierSemantics(m, [Forall] + "x", px, map[]);
    assert ([Forall] + "x")[1..] == "x";
    assert map[]["x" := "0"] == map["x" := "0"];
    assert map[]["x" := "1"] == map["x" := "1"];
    assert m.domain[1..] == ["1"];
  }

  // ----- Names in a tree and environments that agree on them -----

  /** Every label in the tree. */
  function Labels(n: Node): set<string>
    decreases n
  {
    {n.value} + set k, l | 0 <= k < |n.children| && l in Labels(n.children[k]) :: l
  }

  /** The variables of all quantifiers in the tree. */
  function Bound(n: Node): set<string>
    decreases n
  {
    (if IsForallLabel(n.value) || IsExistsLabel(n.value) then {n.value[1..]} else {})
    + set k, l | 0 <= k < |n.children| && l in Bound(n.children[k]) :: l
  }

  lemma ChildSets(n: Node, k: nat)
    requires k < |n.children|
    ensures Labels(n.children[k]) <= Labels(n) && Bound(n.children[k]) <= Bound(n)
  {
    forall l | l in Labels(n.children[k]) ensures l in Labels(n) { }
    forall l | l in Bound(n.children[k]) ensures l in Bound(n) { }
  }

  /** Two environments that bind every name of `names` alike. */
  predicate Agree(a: Env, b: Env, names: set<string>) {
    forall l :: l in names ==> (l in a <==> l in b) && (l in a ==> a[l] == b[l])
  }

  /** `b` binds every name outside `changed` as `a` does. */
  predicate SameOutside(a: Env, b: Env, changed: set<string>) {
    && (forall l :: l in a && l !in changed ==> l in b && a[l] == b[l])
    && (forall l :: l in b && l !in changed ==> l in a)
  }

  lemma SameOutsideTrans(a: Env, b: Env, c: Env, s: set<string>, t: set<string>, u: set<string>)
    requires SameOutside(a, b, s) && SameOutside(b, c, t) && s + t <= u
    ensures SameOutside(a, c, u)
  {
  }

  lemma SameOutsideWeaken(a: Env, b: Env, s: set<string>, u: set<string>)
    requires SameOutside(a, b, s) && s <= u
    ensures SameOutside(a, b, u)
  {
  }

  lemma AgreeAwayFromChanges(a: Env, b: Env, changed: set<string>, names: set<string>)
    requires SameOutside(a, b, changed) && changed !! names
    ensures Agree(b, a, names)
  {
  }

  // ----- The pure evaluator reads only the names in the tree -----

  lemma {:induction false} TermReadsLabels(m: Model, t: Node, a: Env, b: Env)
    requires Agree(a, b, Labels(t))
    decreases t, 1
    ensures EvalTerm(m, t, a) == EvalTerm(m, t, b)
  {
    if t.children != [] {
      forall k | 0 <= k < |t.children| ensures Agree(a, b, Labels(t.children[k])) {
        ChildSets(t, k);
      }
      ArgsReadLabels(m, t.children, a, b);
    }
  }

  lemma {:induction false} ArgsReadLabels(m: Model, cs: seq<Node>, a: Env, b: Env)
    requires forall k :: 0 <= k < |cs| ==> Agree(a, b, Labels(cs[k]))
    decreases cs, 0
    ensures EvalArgs(m, cs, a) == EvalArgs(m, cs, b)
  {
    forall k | 0 <= k < |cs| ensures EvalTerm(m, cs[k], a) == EvalTerm(m, cs[k], b) {
      TermReadsLabels(m, cs[k], a, b);
    }
    if EvalArgs(m, cs, a).Some? {
      assert EvalArgs(m, cs, a).value == EvalArgs(m, cs, b).value;
    }
  }

  /** The names a formula can read from the environment: every label of the terms it
      evaluates, except the variable of each quantifier above them. */
  function Free(e: Node): set<string>
    decreases e
  {
    var v := e.value;
    if v == Negation || v == Conjunction || v == Disjunction then
      set k, l | 0 <= k < |e.children| && l in Free(e.children[k]) :: l
    else if IsForallLabel(v) || IsExistsLabel(v) then
      (set k, l | 0 <= k < |e.children| && l in Free(e.children[k]) :: l) - {v[1..]}
    else
      Labels(e)
  }

  lemma FreeChild(e: Node, k: nat)
    requires k < |e.children|
    ensures e.value == Negation || e.value == Conjunction || e.value == Disjunction ==>
              Free(e.children[k]) <= Free(e)
    ensures IsForallLabel(e.value) || IsExistsLabel(e.value) ==>
              Free(e.children[k]) - {e.value[1..]} <= Free(e)
  {
    var v := e.value;
    if v == Negation || v == Conjunction || v == Disjunction {
      forall n | n in Free(e.children[k]) ensures n in Free(e) { }
    } else if IsForallLabel(v) || IsExistsLabel(v) {
      forall n | n in Free(e.children[k]) && n != v[1..] ensures n in Free(e) { }
    }
  }

  /** Environments that agree on the free names of a formula give it the same value; in
      particular a closed formula is evaluated alike under every environment that binds
      its predicate and function names alike. */
  lemma {:induction false} EvalReadsFree(m: Model, e: Node, a: Env, b: Env)
    requires Agree(a, b, Free(e))
    decreases e, 1
    ensures Eval(m, e, a) == Eval(m, e, b)
  {
    var v := e.value;
    if v == Negation || v == Conjunction || v == Disjunction {
      forall k | 0 <= k < |e.children| ensures Eval(m, e.children[k], a) == Eval(m, e.children[k], b) {
        FreeChild(e, k);
        EvalReadsFree(m, e.children[k], a, b);
      }
    } else if IsForallLabel(v) || IsExistsLabel(v) {
      forall k | 0 <= k < |e.children| ensures Agree(a, b, Free(e.children[k]) - {v[1..]}) {
        FreeChild(e, k);
      }
      LoopReadsFree(m, e.children, v[1..], m.domain, a, b);
    } else {
      forall k | 0 <= k < |e.children| ensures Agree(a, b, Labels(e.children[k])) {
        ChildSets(e, k);
      }
      if v == Equality {
        if |e.children| >= 2 {
          TermReadsLabels(m, e.children[0], a, b);
          TermReadsLabels(m, e.children[1], a, b);
        }
      } else {
        ArgsReadLabels(m, e.children, a, b);
      }
    }
  }

  lemma {:induction false} LoopReadsFree(m: Model, cs: seq<Node>, x: string, dom: seq<string>, a: Env, b: Env)
    requires forall k :: 0 <= k < |cs| ==> Agree(a, b, Free(cs[k]) - {x})
    decreases cs, |dom|
    ensures ForallOver(m, cs, x, dom, a) == ForallOver(m, cs, x, dom, b)
    ensures ExistsOver(m, cs, x, dom, a) == ExistsOver(m, cs, x, dom, b)
  {
    if dom != [] && cs != [] {
      assert Agree(a[x := dom[0]], b[x := dom[0]], Free(cs[0]));
      EvalReadsFree(m, cs[0], a[x := dom[0]], b[x := dom[0]]);
      LoopReadsFree(m, cs, x, dom[1..], a, b);
    }
  }

  /** The loops see the environment only with `x` rebound, so an earlier binding of `x`
      makes no difference. */
  lemma {:induction false} LoopRebind(m: Model, cs: seq<Node>, x: string, dom: seq<string>, env: Env, d: string)
    decreases |dom|
    ensures ForallOver(m, cs, x, dom, env[x := d]) == ForallOver(m, cs, x, dom, env)
    ensures ExistsOver(m, cs, x, dom, env[x := d]) == ExistsOver(m, cs, x, dom, env)
  {
    if dom != [] && cs != [] {
      assert env[x := d][x := dom[0]] == env[x := dom[0]];
      LoopRebind(m, cs, x, dom[1..], env, d);
    }
  }

  // ----- When the shared environment makes no difference -----

  /** No variable of a quantifier in the left operand of `&` or `|` is a free name of the
      right operand, at any depth. Sibling quantifiers may reuse a variable. */
  predicate Hygienic(e: Node) {
    && ((e.value == Conjunction || e.value == Disjunction) && |e.children| >= 2
        ==> Bound(e.children[0]) !! Free(e.children[1]))
    && forall k :: 0 <= k < |e.children| ==> Hygienic(e.children[k])
  }

  /** On hygienic formulas the evaluator as written computes what the pure one does, and
      changes the caller's environment only at the variables of the formula's quantifiers. */
  lemma {:induction false} SharedAgrees(m: Model, e: Node, env: Env)
    requires Hygienic(e)
    decreases e, 2
    ensures EvalShared(m, e, env).0 == Eval(m, e, env)
    ensures SameOutside(env, EvalShared(m, e, env).1, Bound(e))
  {
    var v := e.value;
    if v == Negation && |e.children| >= 1 {
      ChildSets(e, 0);
      SharedAgrees(m, e.children[0], env);
    } else if (v == Conjunction || v == Disjunction) && |e.children| >= 1 {
      JunctionAgrees(m, e, env);
    } else if IsForallLabel(v) || IsExistsLabel(v) {
      assert v[1..] in Bound(e);
      LoopAgrees(m, e.children, v[1..], m.domain, env, IsForallLabel(v));
    }
  }

  lemma {:induction false} JunctionAgrees(m: Model, e: Node, env: Env)
    requires Hygienic(e)
    requires (e.value == Conjunction || e.value == Disjunction) && |e.children| >= 1
    decreases e, 1
    ensures EvalShared(m, e, env).0 == Eval(m, e, env)
    ensures SameOutside(env, EvalShared(m, e, env).1, Bound(e))
  {
    var a := e.children[0];
    ChildSets(e, 0);
    SharedAgrees(m, a, env);
    var after := EvalShared(m, a, env).1;
    var l := Eval(m, a, env);
    if l.None? || l.value == (e.value == Disjunction) || |e.children| < 2 {
      assert EvalShared(m, e, env).1 == after;
      assert EvalShared(m, e, env).0 == Eval(m, e, env);
      SameOutsideWeaken(env, after, Bound(a), Bound(e));
    } else {
      var b := e.children[1];
      assert EvalShared(m, e, env) == EvalShared(m, b, after);
      assert Eval(m, e, env) == Eval(m, b, env);
      ChildSets(e, 1);
      RightOperandAgrees(m, e, after, env);
      SameOutsideTrans(env, after, EvalShared(m, b, after).1, Bound(a), Bound(b), Bound(e));
      assert EvalShared(m, e, env).0 == Eval(m, e, env);
    }
  }

  /** The right operand of a hygienic `&` or `|`, run in the environment its left sibling
      left behind, computes its pure value. */
  lemma RightOperandAgrees(m: Model, e: Node, after: Env, env: Env)
    requires Hygienic(e)
    requires (e.value == Conjunction || e.value == Disjunction) && |e.children| >= 2
    requires SameOutside(env, after, Bound(e.children[0]))
    decreases e, 0
    ensures EvalShared(m, e.children[1], after).0 == Eval(m, e.children[1], env)
    ensures SameOutside(after, EvalShared(m, e.children[1], after).1, Bound(e.children[1]))
  {
    var b := e.children[1];
    SharedAgrees(m, b, after);
    AgreeAwayFromChanges(env, after, Bound(e.children[0]), Free(b));
    EvalReadsFree(m, b, after, env);
  }

  lemma {:induction false} LoopAgrees(m: Model, cs: seq<Node>, x: string, dom: seq<string>, env: Env, all: bool)
    requires forall k :: 0 <= k < |cs| ==> Hygienic(cs[k])
    decreases cs, |dom|
    ensures LoopShared(m, cs, x, dom, env, all).0 ==
              if all then ForallOver(m, cs, x, dom, env) else ExistsOver(m, cs, x, dom, env)
    ensures SameOutside(env, LoopShared(m, cs, x, dom, env, all).1, {x})
  {
    if dom != [] {
      var bound := env[x := dom[0]];
      if cs != [] {
        SharedAgrees(m, cs[0], bound);
        LoopAgrees(m, cs, x, dom[1..], bound, all);
        LoopRebind(m, cs, x, dom[1..], env, dom[0]);
        SameOutsideTrans(env, bound, LoopShared(m, cs, x, dom[1..], bound, all).1, {x}, {x}, {x});
      }
    }
  }

  /** At the top level: the result of `evaluate_expression` as written is the pure value on
      every hygienic formula. */
  lemma EvaluateSharedAgrees(m: Model, e: Node, assignment: Env)
    requires Hygienic(e)
    ensures EvaluateShared(m, e, assignment) == Evaluate(m, e, assignment)
  {
    SharedAgrees(m, e, assignment);
  }

  /** `&(@x(P(x)),#x(Q(x)))`: both quantifiers use `x`, but the right operand reads no `x`
      of its own, so the evaluator as written gives the pure value. */
  function SiblingFormula(): Node {
    AndExpr(ForallExpr("x", Node("P", [Node("x", [])])), ExistsExpr("x", Node("Q", [Node("x", [])])))
  }

  lemma SiblingQuantifiersAgree(m: Model, assignment: Env)
    ensures Hygienic(SiblingFormula())
    ensures EvaluateShared(m, SiblingFormula(), assignment) == Evaluate(m, SiblingFormula(), assignment)
  {
    var qx := Node("Q", [Node("x", [])]);
    var right := ExistsExpr("x", qx);
    assert right.value == [Exists] + "x" && right.value[1..] == "x";
    var left := ForallExpr("x", Node("P", [Node("x", [])]));
    assert left.value[1..] == "x";
    assert "x" !in Free(right);
    assert Bound(Node("P", [Node("x", [])])) == {};
    assert Bound(left) == {"x"};
    EvaluateSharedAgrees(m, SiblingFormula(), assignment);
  }

  /** A line whose rewritten formula is hygienic gets the same answer from `main` as
      written as from the pure evaluator; a line that does not parse or rewrite gets none
      from either. */
  lemma LineSharedAgrees(m: Model, line: string)
    ensures ParsePrefixString(line).None? ==> EvaluateLineShared(m, line).None? && EvaluateLine(m, line).None?
    ensures ParsePrefixString(line).Some? && Nnf(ParsePrefixString(line).value).Some?
            && Hygienic(Nnf(ParsePrefixString(line).value).value)
            ==> EvaluateLineShared(m, line) == EvaluateLine(m, line)
  {
    var parsed := ParsePrefixString(line);
    if parsed.Some? && Nnf(parsed.value).Some? && Hygienic(Nnf(parsed.value).value) {
      EvaluateSharedAgrees(m, Nnf(parsed.value).value, map[]);
    }
  }

  lemma ParseLeakLine()
    ensures ParsePrefixString("&(@x(P(x)),Q(x))") == Some(LeakFormula())
  {
    var x := Node("x", []);
    var px, qx := Node("P", [x]), Node("Q", [x]);
    var q := ForallExpr("x", px);
    var n := LeakFormula();
    assert Prefix(x) == "x" && PrefixList([x]) == "x";
    assert Prefix(px) == "P(x)" && PrefixList([px]) == "P(x)";
    assert Prefix(qx) == "Q(x)" && PrefixList([qx]) == "Q(x)";
    assert Prefix(q) == "@x(P(x))";
    assert [q, qx][1..] == [qx];
    assert PrefixList([q, qx]) == "@x(P(x)),Q(x)";
    assert Prefix(n) == "&(@x(P(x)),Q(x))";
    assert PrefixSafe(n) by {
      assert PrefixSafe(x);
      assert PrefixSafe(px) && PrefixSafe(qx);
      assert PrefixSafe(q);
    }
    ParsePrintedTree(n);
  }

  /** The leak formula is already in negation normal form, so the rewrite keeps it. */
  lemma LeakFormulaIsNnf()
    ensures Nnf(LeakFormula()) == Some(LeakFormula())
  {
    var x := Node("x", []);
    assert IsNnf(LeakFormula()) by {
      assert IsNnf(x);
      assert IsNnf(Node("P", [x])) && IsNnf(Node("Q", [x]));
      assert IsNnf(ForallExpr("x", Node("P", [x])));
    }
    NnfKeepsNormalForm(LeakFormula());
  }

  /** The leak reaches the program's output: for the line `&(@x(P(x)),Q(x))` in the leak
      model, `main` as written answers true and the pure evaluator false. */
  lemma LeakLineExample()
    ensures EvaluateLineShared(LeakModel(), "&(@x(P(x)),Q(x))") == Some(true)
    ensures EvaluateLine(LeakModel(), "&(@x(P(x)),Q(x))") == Some(false)
  {
    ParseLeakLine();
    LeakFormulaIsNnf();
    LeakExample();
  }
}
