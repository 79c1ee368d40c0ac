/**
 * The finite-model evaluator (`evaluate_expression` with its local `eval_expr` and
 * `eval_term`). A formula is evaluated against a domain of strings and a table of
 * string-keyed interpretations; quantifiers enumerate the domain in order.
 *
 * Every exception the source can raise (a missing child, a missing key, joining a
 * non-string, indexing a list or a string with a string) is the `None` result.
 *
 * The environment here is an immutable map, so a quantifier's binding is visible only
 * inside its body. The source instead writes the binding into its caller's environment and
 * lets `&`/`|` hand that environment on to the right operand; module EnvironmentLeak models
 * that behaviour, exhibits a formula on which the two differ, and proves that they agree
 * on every formula where no quantified variable of a left operand is read freely by its
 * right sibling.
 */
module Evaluator {
  import opened Wrappers
  import opened Tree
  import opened Rewrite = Nnf
  import opened Printers
  import opened PrefixParser

  /** What an interpretation or a term can be: a string (constants, domain elements), a
      function table from comma-joined argument strings to results, or a predicate's list
      of comma-joined tuples. */
  datatype Value = Text(s: string) | Table(entries: map<string, string>) | Tuples(items: seq<string>)

  /** The `Model` shape: a domain and the interpretations. */
  datatype Model = Model(domain: seq<string>, interpretations: map<string, Value>)

  /** Variable bindings, name to domain element. */
  type Env = map<string, string>

  // ----- Argument keys -----

  /** The strings joined with `,` between consecutive ones. */
  function Join(ss: seq<string>): string {
    if ss == [] then "" else if |ss| == 1 then ss[0] else ss[0] + "," + Join(ss[1..])
  }

  predicate AllText(vs: seq<Value>) {
    forall i :: 0 <= i < |vs| ==> vs[i].Text?
  }

  function Texts(vs: seq<Value>): (ss: seq<string>)
    requires AllText(vs)
    ensures |ss| == |vs| && forall i :: 0 <= i < |vs| ==> ss[i] == vs[i].s
  {
    if vs == [] then [] else [vs[0].s] + Texts(vs[1..])
  }

  /** `",".join(values)`: the joined strings, or a failure when some value is not a string. */
  function JoinArgs(vs: seq<Value>): (r: Option<string>)
    ensures r.Some? <==> AllText(vs)
  {
    if AllText(vs) then Some(Join(Texts(vs))) else None
  }

  /** Splits a string at every comma. */
  function Split(s: string): (parts: seq<string>)
    ensures |parts| >= 1
  {
    if s == [] then [""]
    else if s[0] == ',' then [""] + Split(s[1..])
    else
      var r := Split(s[1..]);
      [[s[0]] + r[0]] + r[1..]
  }

  predicate CommaFree(s: string) {
    forall i :: 0 <= i < |s| ==> s[i] != ','
  }

  lemma {:induction false} SplitCommaFree(a: string, rest: string)
    requires CommaFree(a)
    ensures Split(a) == [a]
    ensures Split(a + "," + rest) == [a] + Split(rest)
  {
    if a != [] {
      assert CommaFree(a[1..]) by {
        forall i | 0 <= i < |a[1..]| ensures a[1..][i] != ',' { assert a[1..][i] == a[i + 1]; }
      }
      SplitCommaFree(a[1..], rest);
      assert (a + "," + rest)[1..] == a[1..] + "," + rest;
      assert [a[0]] + a[1..] == a;
    } else {
      assert a + "," + rest == [','] + rest;
      assert ([','] + rest)[1..] == rest;
    }
  }

  /** Joining a non-empty list of comma-free strings loses nothing: splitting the key gives
      the list back, so distinct argument lists give distinct keys. */
  lemma {:induction false} JoinSplitRoundTrip(ss: seq<string>)
    requires ss != []
    requires forall i :: 0 <= i < |ss| ==> CommaFree(ss[i])
    ensures Split(Join(ss)) == ss
  {
    SplitCommaFree(ss[0], "");
    if |ss| > 1 {
      JoinSplitRoundTrip(ss[1..]);
      SplitCommaFree(ss[0], Join(ss[1..]));
      assert [ss[0]] + ss[1..] == ss;
    }
  }

  // ----- Terms -----

  /** `f(key)` for a function symbol: the table entry, or a failure when the symbol is not
      interpreted, the entry is missing, or the interpretation is not a table. */
  function Apply(m: Model, f: string, key: string): (r: Option<Value>)
    ensures r.Some? <==>
              f in m.interpretations && m.interpretations[f].Table? && key in m.interpretations[f].entries
    ensures r.Some? ==> r.value == Text(m.interpretations[f].entries[key])
  {
    if f !in m.interpretations then None
    else
      match m.interpretations[f]
      case Table(entries) => if key in entries then Some(Text(entries[key])) else None
      case _ => None
  }

  /** `eval_term`: a leaf is its binding, else its interpretation, else its own label; an
      application evaluates its arguments left to right and looks the joined key up. */
  function EvalTerm(m: Model, t: Node, env: Env): Option<Value>
    decreases t, 1
  {
    if t.children == [] then
      if t.value in env then Some(Text(env[t.value]))
      else if t.value in m.interpretations then Some(m.interpretations[t.value])
      else Some(Text(t.value))
    else
      var args := EvalArgs(m, t.children, env);
      if args.None? then None
      else
        var key := JoinArgs(args.value);
        if key.None? then None else Apply(m, t.value, key.value)
  }

  /** The argument values in order; fails as soon as one argument fails. */
  function EvalArgs(m: Model, cs: seq<Node>, env: Env): (r: Option<seq<Value>>)
    decreases cs, 0
    ensures r.Some? ==> |r.value| == |cs|
    ensures r.Some? <==> forall k :: 0 <= k < |cs| ==> EvalTerm(m, cs[k], env).Some?
    ensures r.Some? ==> forall k :: 0 <= k < |cs| ==> r.value[k] == EvalTerm(m, cs[k], env).value
  {
    if cs == [] then Some([])
    else
      var first := EvalTerm(m, cs[0], env);
      if first.None? then None
      else
        var rest := EvalArgs(m, cs[1..], env);
        if rest.None? then None else Some([first.value] + rest.value)
  }

  // ----- Atoms -----

  /** `key in s` on strings is a substring test. */
  predicate Occurs(key: string, s: string) {
    exists i, j :: 0 <= i <= j <= |s| && s[i..j] == key
  }

  /** Truth of an atom once its argument key is known. A nullary predicate is true when it is
      interpreted and its interpretation equals that of the empty name (or the empty string
      when the empty name has none); otherwise the key must be a member of the predicate's
      interpretation, a missing predicate being false. */
  predicate Holds(m: Model, p: string, key: string, nullary: bool) {
    var interps := m.interpretations;
    if nullary then
      p in interps && interps[p] == (if "" in interps then interps[""] else Text(""))
    else if p !in interps then false
    else
      match interps[p]
      case Tuples(items) => key in items
      case Table(entries) => key in entries
      case Text(s) => Occurs(key, s)
  }

  // ----- Formulas -----

  function Not(b: Option<bool>): (r: Option<bool>)
    ensures r.Some? <==> b.Some?
    ensures r.Some? ==> r.value == !b.value
  {
    if b.None? then None else Some(!b.value)
  }

  /** `eval_expr`. The tests run in the source's order: `=`, `!`, `&`, `|`, a label starting
      with `@`, a label starting with `#`, and everything else (including `>`) as an atom. */
  function Eval(m: Model, e: Node, env: Env): Option<bool>
    decreases e, 0
  {
    var v := e.value;
    if v == Equality then
      if |e.children| < 2 then None
      else
        var l := EvalTerm(m, e.children[0], env);
        var r := EvalTerm(m, e.children[1], env);
        if l.None? || r.None? then None else Some(l.value == r.value)
    else if v == Negation then
      if |e.children| < 1 then None else Not(Eval(m, e.children[0], env))
    else if v == Conjunction then
      if |e.children| < 1 then None
      else
        var l := Eval(m, e.children[0], env);
        if l.None? then None
        else if !l.value then Some(false)
        else if |e.children| < 2 then None
        else Eval(m, e.children[1], env)
    else if v == Disjunction then
      if |e.children| < 1 then None
      else
        var l := Eval(m, e.children[0], env);
        if l.None? then None
        else if l.value then Some(true)
        else if |e.children| < 2 then None
        else Eval(m, e.children[1], env)
    else if IsForallLabel(v) then
      ForallOver(m, e.children, v[1..], m.domain, env)
    else if IsExistsLabel(v) then
      ExistsOver(m, e.children, v[1..], m.domain, env)
    else
      var args := EvalArgs(m, e.children, env);
      if args.None? then None
      else
        var key := JoinArgs(args.value);
        if key.None? then None else Some(Holds(m, v, key.value, e.children == []))
  }

  /** The universal loop: binds `x` to each remaining element in order and stops at the first
      body that is false. The body is only read inside the loop, so a body-less quantifier
      fails only over a non-empty domain. */
  function ForallOver(m: Model, cs: seq<Node>, x: string, dom: seq<string>, env: Env): Option<bool>
    decreases cs, |dom|
  {
    if dom == [] then Some(true)
    else if cs == [] then None
    else
      var r := Eval(m, cs[0], env[x := dom[0]]);
      if r.None? then None
      else if !r.value then Some(false)
      else ForallOver(m, cs, x, dom[1..], env)
  }

  /** The existential loop: stops at the first body that is true. */
  function ExistsOver(m: Model, cs: seq<Node>, x: string, dom: seq<string>, env: Env): Option<bool>
    decreases cs, |dom|
  {
    if dom == [] then Some(false)
    else if cs == [] then None
    else
      var r := Eval(m, cs[0], env[x := dom[0]]);
      if r.None? then None
      else if r.value then Some(true)
      else ExistsOver(m, cs, x, dom[1..], env)
  }

  /** `evaluate_expression`: evaluation under the caller's assignment. */
  function Evaluate(m: Model, e: Node, assignment: Env): Option<bool> {
    Eval(m, e, assignment)
  }

  /** One line of `main`: parse the prefix string, rewrite it to negation normal form, and
      evaluate it with no variables bound. */
  function EvaluateLine(m: Model, line: string): (r: Option<bool>)
    ensures r.Some? ==> ParsePrefixString(line).Some? && Nnf(ParsePrefixString(line).value).Some?
  {
    var parsed := ParsePrefixString(line);
    if parsed.None? then None
    else
      var simplified := Nnf(parsed.value);
      if simplified.None? then None else Evaluate(m, simplified.value, map[])
  }

  // ----- Connective and quantifier semantics -----

  /** Short-circuit conjunction: the right operand counts only when the left is true. */
  function AndThen(l: Option<bool>, r: Option<bool>): Option<bool> {
    if l.None? then None else if !l.value then Some(false) else r
  }

  /** Short-circuit disjunction: the right operand counts only when the left is false. */
  function OrElse(l: Option<bool>, r: Option<bool>): Option<bool> {
    if l.None? then None else if l.value then Some(true) else r
  }

  /** De Morgan's laws hold for the short-circuit connectives, failures included. */
  lemma OptionDeMorgan(l: Option<bool>, r: Option<bool>)
    ensures Not(AndThen(l, r)) == OrElse(Not(l), Not(r))
    ensures Not(OrElse(l, r)) == AndThen(Not(l), Not(r))
  {
  }

  /** The binary connectives evaluate the left operand first and skip the right one when the
      left decides the result; on defined operands they are Boolean `and` and `or`. */
  lemma JunctionSemantics(m: Model, v: string, a: Node, b: Node, env: Env)
    requires v == Conjunction || v == Disjunction
    ensures Eval(m, Node(v, [a, b]), env) ==
              if v == Conjunction then AndThen(Eval(m, a, env), Eval(m, b, env))
              else OrElse(Eval(m, a, env), Eval(m, b, env))
  {
  }

  /** A quantifier node runs the loop of its kind over the whole domain with the variable
      named after the first character. */
  lemma QuantifierSemantics(m: Model, q: string, a: Node, env: Env)
    requires IsForallLabel(q) || IsExistsLabel(q)
    ensures Eval(m, Node(q, [a]), env) ==
              if IsForallLabel(q) then ForallOver(m, [a], q[1..], m.domain, env)
              else ExistsOver(m, [a], q[1..], m.domain, env)
  {
  }

  /** On operands that evaluate, `!`, `&` and `|` are Boolean not, and, or; a left operand
      that decides the result makes the right one irrelevant, even one that would fail. */
  lemma ConnectiveSemantics(m: Model, a: Node, b: Node, env: Env)
    ensures Eval(m, a, env) == Some(false) ==> Eval(m, AndExpr(a, b), env) == Some(false)
    ensures Eval(m, a, env) == Some(true) ==> Eval(m, OrExpr(a, b), env) == Some(true)
    ensures Eval(m, a, env).None? ==>
              Eval(m, AndExpr(a, b), env).None? && Eval(m, OrExpr(a, b), env).None?
    ensures Eval(m, a, env).Some? && Eval(m, b, env).Some? ==>
              && Eval(m, NotExpr(a), env) == Some(!Eval(m, a, env).value)
              && Eval(m, AndExpr(a, b), env) == Some(Eval(m, a, env).value && Eval(m, b, env).value)
              && Eval(m, OrExpr(a, b), env) == Some(Eval(m, a, env).value || Eval(m, b, env).value)
  {
  }

  /** The universal loop is true exactly when the body is true for every element. */
  lemma {:induction false} ForallTrue(m: Model, a: Node, x: string, dom: seq<string>, env: Env)
    ensures ForallOver(m, [a], x, dom, env) == Some(true) <==>
              forall i :: 0 <= i < |dom| ==> Eval(m, a, env[x := dom[i]]) == Some(true)
  {
    if dom != [] {
      ForallTrue(m, a, x, dom[1..], env);
      if Eval(m, a, env[x := dom[0]]) == Some(true) {
        assert ForallOver(m, [a], x, dom, env) == ForallOver(m, [a], x, dom[1..], env);
        if ForallOver(m, [a], x, dom[1..], env) == Some(true) {
          forall i | 0 <= i < |dom| ensures Eval(m, a, env[x := dom[i]]) == Some(true) {
            if i > 0 { assert dom[i] == dom[1..][i - 1]; }
          }
        } else {
          var j :| 0 <= j < |dom[1..]| && Eval(m, a, env[x := dom[1..][j]]) != Some(true);
          assert dom[1..][j] == dom[j + 1];
        }
      }
    }
  }

  /** The universal loop is false exactly when some element makes the body false after all
      earlier elements made it true. */
  lemma {:induction false} ForallFalse(m: Model, a: Node, x: string, dom: seq<string>, env: Env)
    ensures ForallOver(m, [a], x, dom, env) == Some(false) <==>
              exists k :: 0 <= k < |dom| && Eval(m, a, env[x := dom[k]]) == Some(false)
                && forall i :: 0 <= i < k ==> Eval(m, a, env[x := dom[i]]) == Some(true)
  {
    if dom != [] {
      ForallFalse(m, a, x, dom[1..], env);
      var tail := ForallOver(m, [a], x, dom[1..], env);
      if Eval(m, a, env[x := dom[0]]) == Some(true) {
        assert ForallOver(m, [a], x, dom, env) == tail;
        if tail == Some(false) {
          var k :| 0 <= k < |dom[1..]| && Eval(m, a, env[x := dom[1..][k]]) == Some(false)
                   && forall i :: 0 <= i < k ==> Eval(m, a, env[x := dom[1..][i]]) == Some(true);
          assert dom[1..][k] == dom[k + 1];
          forall i | 0 <= i < k + 1 ensures Eval(m, a, env[x := dom[i]]) == Some(true) {
            if i > 0 { assert dom[i] == dom[1..][i - 1]; }
          }
        } else {
          forall k | 0 <= k < |dom| && Eval(m, a, env[x := dom[k]]) == Some(false)
            ensures exists i :: 0 <= i < k && Eval(m, a, env[x := dom[i]]) != Some(true)
          {
            assert dom[1..][k - 1] == dom[k];
            var i :| 0 <= i < k - 1 && Eval(m, a, env[x := dom[1..][i]]) != Some(true);
            assert dom[1..][i] == dom[i + 1];
          }
        }
      }
    }
  }

  /** The existential loop is false exactly when every element makes the body false. */
  lemma {:induction false} ExistsFalse(m: Model, a: Node, x: string, dom: seq<string>, env: Env)
    ensures ExistsOver(m, [a], x, dom, env) == Some(false) <==>
              forall i :: 0 <= i < |dom| ==> Eval(m, a, env[x := dom[i]]) == Some(false)
  {
    if dom != [] {
      ExistsFalse(m, a, x, dom[1..], env);
      if Eval(m, a, env[x := dom[0]]) == Some(false) {
        assert ExistsOver(m, [a], x, dom, env) == ExistsOver(m, [a], x, dom[1..], env);
        if ExistsOver(m, [a], x, dom[1..], env) == Some(false) {
          forall i | 0 <= i < |dom| ensures Eval(m, a, env[x := dom[i]]) == Some(false) {
            if i > 0 { assert dom[i] == dom[1..][i - 1]; }
          }
        } else {
          var j :| 0 <= j < |dom[1..]| && Eval(m, a, env[x := dom[1..][j]]) != Some(false);
          assert dom[1..][j] == dom[j + 1];
        }
      }
    }
  }

  /** The existential loop is true exactly when some element makes the body true after all
      earlier elements made it false. */
  lemma {:induction false} ExistsTrue(m: Model, a: Node, x: string, dom: seq<string>, env: Env)
    ensures ExistsOver(m, [a], x, dom, env) == Some(true) <==>
              exists k :: 0 <= k < |dom| && Eval(m, a, env[x := dom[k]]) == Some(true)
                && forall i :: 0 <= i < k ==> Eval(m, a, env[x := dom[i]]) == Some(false)
  {
    if dom != [] {
      ExistsTrue(m, a, x, dom[1..], env);
      var tail := ExistsOver(m, [a], x, dom[1..], env);
      if Eval(m, a, env[x := dom[0]]) == Some(false) {
        assert ExistsOver(m, [a], x, dom, env) == tail;
        if tail == Some(true) {
          var k :| 0 <= k < |dom[1..]| && Eval(m, a, env[x := dom[1..][k]]) == Some(true)
                   && forall i :: 0 <= i < k ==> Eval(m, a, env[x := dom[1..][i]]) == Some(false);
          assert dom[1..][k] == dom[k + 1];
          forall i | 0 <= i < k + 1 ensures Eval(m, a, env[x := dom[i]]) == Some(false) {
            if i > 0 { assert dom[i] == dom[1..][i - 1]; }
          }
        } else {
          forall k | 0 <= k < |dom| && Eval(m, a, env[x := dom[k]]) == Some(true)
            ensures exists i :: 0 <= i < k && Eval(m, a, env[x := dom[i]]) != Some(false)
          {
            assert dom[1..][k - 1] == dom[k];
            var i :| 0 <= i < k - 1 && Eval(m, a, env[x := dom[1..][i]]) != Some(false);
            assert dom[1..][i] == dom[i + 1];
          }
        }
      }
    }
  }

  /** Over an empty domain a universal is true and an existential false, whatever the body,
      even a missing one. */
  lemma EmptyDomain(m: Model, v: string, cs: seq<Node>, env: Env)
    requires m.domain == []
    ensures Eval(m, Node([Forall] + v, cs), env) == Some(true)
    ensures Eval(m, Node([Exists] + v, cs), env) == Some(false)
  {
    assert ([Forall] + v)[0] == Forall && ([Exists] + v)[0] == Exists;
  }

  // ----- Well-sorted formulas -----

  /** Labels the evaluator or the rewrite treats as logical structure. */
  predicate IsLogical(v: string) {
    v == Equality || v == Negation || v == Conjunction || v == Disjunction || v == Implication
    || IsForallLabel(v) || IsExistsLabel(v)
  }

  /** A term: no logical label anywhere in it. */
  predicate IsTerm(t: Node) {
    !IsLogical(t.value) && forall k :: 0 <= k < |t.children| ==> IsTerm(t.children[k])
  }

  /** A formula without implications, every connective with the children its constructor
      gives, and terms exactly below `=` and the predicates. */
  predicate IsFormula(f: Node) {
    if f.value == Equality then
      |f.children| == 2 && IsTerm(f.children[0]) && IsTerm(f.children[1])
    else if f.value == Negation || IsForallLabel(f.value) || IsExistsLabel(f.value) then
      |f.children| == 1 && IsFormula(f.children[0])
    else if f.value == Conjunction || f.value == Disjunction then
      |f.children| == 2 && IsFormula(f.children[0]) && IsFormula(f.children[1])
    else
      f.value != Implication && forall k :: 0 <= k < |f.children| ==> IsTerm(f.children[k])
  }

  /** An atom: an equation or a predicate application. */
  predicate IsAtom(f: Node) {
    IsFormula(f) && !Pushable(f.value)
  }

  lemma {:induction false} TermIsNormal(t: Node)
    requires IsTerm(t)
    ensures IsNnf(t) && Canonical(t)
  {
    forall k | 0 <= k < |t.children| ensures IsNnf(t.children[k]) && Canonical(t.children[k]) {
      TermIsNormal(t.children[k]);
    }
  }

  lemma {:induction false} FormulaIsCanonical(f: Node)
    requires IsFormula(f)
    ensures Canonical(f)
  {
    forall k | 0 <= k < |f.children| ensures Canonical(f.children[k]) {
      if f.value == Equality || !(Pushable(f.value) || f.value == Implication) {
        TermIsNormal(f.children[k]);
      } else {
        FormulaIsCanonical(f.children[k]);
      }
    }
  }

  /** Atoms and negated atoms are already in negation normal form. */
  lemma AtomIsNormal(f: Node)
    requires IsAtom(f)
    ensures IsNnf(f) && IsNnf(NotExpr(f))
  {
    forall k | 0 <= k < |f.children| ensures IsNnf(f.children[k]) {
      TermIsNormal(f.children[k]);
    }
  }

  // ----- Quantifier loops under equivalent bodies -----

  /** Bodies that agree under every environment give loops that agree. */
  lemma {:induction false} LoopCongruence(m: Model, a: Node, b: Node, x: string, dom: seq<string>, env: Env)
    requires forall e :: Eval(m, b, e) == Eval(m, a, e)
    ensures ForallOver(m, [b], x, dom, env) == ForallOver(m, [a], x, dom, env)
    ensures ExistsOver(m, [b], x, dom, env) == ExistsOver(m, [a], x, dom, env)
  {
    if dom != [] {
      assert Eval(m, b, env[x := dom[0]]) == Eval(m, a, env[x := dom[0]]);
      LoopCongruence(m, a, b, x, dom[1..], env);
    }
  }

  /** With a body that is the negation of another, the existential loop is the negation of
      the universal one and the other way round. */
  lemma {:induction false} LoopDuality(m: Model, a: Node, b: Node, x: string, dom: seq<string>, env: Env)
    requires forall e :: Eval(m, b, e) == Not(Eval(m, a, e))
    ensures ExistsOver(m, [b], x, dom, env) == Not(ForallOver(m, [a], x, dom, env))
    ensures ForallOver(m, [b], x, dom, env) == Not(ExistsOver(m, [a], x, dom, env))
  {
    if dom != [] {
      assert Eval(m, b, env[x := dom[0]]) == Not(Eval(m, a, env[x := dom[0]]));
      LoopDuality(m, a, b, x, dom[1..], env);
    }
  }

  // ----- The rewrite preserves truth -----

  /** Rewriting a formula to negation normal form never fails and does not change its value
      in any model under any assignment, failures included. */
  lemma {:induction false} NnfPreservesTruth(m: Model, f: Node, env: Env)
    requires IsFormula(f)
    decreases W(f), 2
    ensures Nnf(f).Some?
    ensures Eval(m, Nnf(f).value, env) == Eval(m, f, env)
  {
    if IsAtom(f) {
      AtomIsNormal(f);
      NnfKeepsNormalForm(f);
    } else if f.value == Conjunction || f.value == Disjunction {
      var a, b := f.children[0], f.children[1];
      assert f == Node(f.value, [a, b]);
      WPair(f.value, a, b);
      NnfPreservesTruth(m, a, env);
      NnfPreservesTruth(m, b, env);
      NnfPair(a, b);
      JunctionSemantics(m, f.value, a, b, env);
      JunctionSemantics(m, f.value, Nnf(a).value, Nnf(b).value, env);
    } else if IsForallLabel(f.value) || IsExistsLabel(f.value) {
      var a := f.children[0];
      assert f == Node(f.value, [a]);
      WSingle(f.value, a);
      forall e ensures Nnf(a).Some? && Eval(m, Nnf(a).value, e) == Eval(m, a, e) {
        NnfPreservesTruth(m, a, e);
      }
      NnfPreservesTruth(m, a, env);
      NnfSingle(a);
      LoopCongruence(m, a, Nnf(a).value, f.value[1..], m.domain, env);
      QuantifierSemantics(m, f.value, a, env);
      QuantifierSemantics(m, f.value, Nnf(a).value, env);
    } else {
      assert f == NotExpr(f.children[0]);
      NegationPreservesTruth(m, f.children[0], env);
    }
  }

  /** The negation case: the rules push the negation inward without changing the value. */
  lemma {:induction false} NegationPreservesTruth(m: Model, g: Node, env: Env)
    requires IsFormula(g)
    decreases W(NotExpr(g)), 1
    ensures Nnf(NotExpr(g)).Some?
    ensures Eval(m, Nnf(NotExpr(g)).value, env) == Not(Eval(m, g, env))
  {
    if IsAtom(g) {
      AtomIsNormal(g);
      NnfKeepsNormalForm(NotExpr(g));
    } else if g.value == Negation {
      DoubleNegationPreservesTruth(m, g, env);
    } else if g.value == Conjunction || g.value == Disjunction {
      DeMorganPreservesTruth(m, g, env);
    } else {
      QuantifierNegationPreservesTruth(m, g, env);
    }
  }

  lemma {:induction false} DoubleNegationPreservesTruth(m: Model, g: Node, env: Env)
    requires IsFormula(g) && g.value == Negation
    decreases W(NotExpr(g)), 0
    ensures Nnf(NotExpr(g)).Some?
    ensures Eval(m, Nnf(NotExpr(g)).value, env) == Not(Eval(m, g, env))
  {
    var h := g.children[0];
    assert g == NotExpr(h);
    WNot(g);
    WNot(h);
    FormulaIsCanonical(h);
    DoubleNegationRule(h);
    NnfPreservesTruth(m, h, env);
  }

  lemma {:induction false} DeMorganPreservesTruth(m: Model, g: Node, env: Env)
    requires IsFormula(g) && (g.value == Conjunction || g.value == Disjunction)
    decreases W(NotExpr(g)), 0
    ensures Nnf(NotExpr(g)).Some?
    ensures Eval(m, Nnf(NotExpr(g)).value, env) == Not(Eval(m, g, env))
  {
    var a, b := g.children[0], g.children[1];
    assert g == Node(g.value, [a, b]);
    WNot(g);
    WPair(g.value, a, b);
    WNot(a);
    WNot(b);
    JunctionRule(g.value, a, b);
    NegationPreservesTruth(m, a, env);
    NegationPreservesTruth(m, b, env);
    var v' := if g.value == Disjunction then Conjunction else Disjunction;
    var na, nb := Nnf(NotExpr(a)).value, Nnf(NotExpr(b)).value;
    assert Nnf(NotExpr(g)) == Some(Node(v', [na, nb]));
    var ea, eb := Eval(m, a, env), Eval(m, b, env);
    assert Eval(m, na, env) == Not(ea);
    assert Eval(m, nb, env) == Not(eb);
    JunctionSemantics(m, g.value, a, b, env);
    assert Eval(m, g, env) == (if g.value == Conjunction then AndThen(ea, eb) else OrElse(ea, eb));
    JunctionSemantics(m, v', na, nb, env);
    assert Eval(m, Node(v', [na, nb]), env) ==
             (if v' == Conjunction then AndThen(Not(ea), Not(eb)) else OrElse(Not(ea), Not(eb)));
    OptionDeMorgan(ea, eb);
  }

  lemma {:induction false} QuantifierNegationPreservesTruth(m: Model, g: Node, env: Env)
    requires IsFormula(g) && (IsForallLabel(g.value) || IsExistsLabel(g.value))
    decreases W(NotExpr(g)), 0
    ensures Nnf(NotExpr(g)).Some?
    ensures Eval(m, Nnf(NotExpr(g)).value, env) == Not(Eval(m, g, env))
  {
    var a := g.children[0];
    assert g == Node(g.value, [a]);
    WNot(g);
    WSingle(g.value, a);
    WNot(a);
    NegationPreservesTruth(m, a, env);
    forall e ensures Nnf(NotExpr(a)).Some? && Eval(m, Nnf(NotExpr(a)).value, e) == Not(Eval(m, a, e)) {
      NegationPreservesTruth(m, a, e);
    }
    QuantifierRule(g.value, a);
    var q := [if IsForallLabel(g.value) then Exists else Forall] + g.value[1..];
    assert q[1..] == g.value[1..];
    LoopDuality(m, a, Nnf(NotExpr(a)).value, g.value[1..], m.domain, env);
    QuantifierSemantics(m, g.value, a, env);
    QuantifierSemantics(m, q, Nnf(NotExpr(a)).value, env);
  }

  // ----- Terms and atoms -----

  /** The labels that reach the atom case of `eval_expr`; `>` is one of them. */
  predicate EvaluatedAsAtom(v: string) {
    v != Equality && v != Negation && v != Conjunction && v != Disjunction
    && !IsForallLabel(v) && !IsExistsLabel(v)
  }

  /** A bound name evaluates to its binding whatever it is interpreted as; an unbound name
      evaluates to its interpretation, and an unbound, uninterpreted name to itself. */
  lemma LeafLookup(m: Model, x: string, d: string, env: Env)
    ensures EvalTerm(m, Node(x, []), env[x := d]) == Some(Text(d))
    ensures x !in env && x in m.interpretations ==>
              EvalTerm(m, Node(x, []), env) == Some(m.interpretations[x])
    ensures x !in env && x !in m.interpretations ==> EvalTerm(m, Node(x, []), env) == Some(Text(x))
  {
  }

  /** Arguments that evaluate to the strings `vals` give exactly the key `Join(vals)`. */
  lemma {:induction false} ArgumentKey(m: Model, args: seq<Node>, vals: seq<string>, env: Env)
    requires |vals| == |args|
    requires forall k :: 0 <= k < |args| ==> EvalTerm(m, args[k], env) == Some(Text(vals[k]))
    ensures EvalArgs(m, args, env).Some?
    ensures JoinArgs(EvalArgs(m, args, env).value) == Some(Join(vals))
  {
    var vs := EvalArgs(m, args, env).value;
    assert AllText(vs);
    assert Texts(vs) == vals;
  }

  /** A function application on string arguments is the table entry at the joined key, and
      fails when the symbol has no table or the table has no such entry. */
  lemma ApplicationSemantics(m: Model, f: string, args: seq<Node>, vals: seq<string>, env: Env)
    requires args != [] && |vals| == |args|
    requires forall k :: 0 <= k < |args| ==> EvalTerm(m, args[k], env) == Some(Text(vals[k]))
    ensures EvalTerm(m, Node(f, args), env).Some? <==>
              f in m.interpretations && m.interpretations[f].Table?
              && Join(vals) in m.interpretations[f].entries
    ensures EvalTerm(m, Node(f, args), env).Some? ==>
              EvalTerm(m, Node(f, args), env) == Some(Text(m.interpretations[f].entries[Join(vals)]))
  {
    ArgumentKey(m, args, vals, env);
  }

  /** An equation is true exactly when both sides evaluate to the same value, and fails when
      either side fails. */
  lemma EqualitySemantics(m: Model, a: Node, b: Node, env: Env)
    ensures Eval(m, EqualsExpr(a, b), env).Some? <==>
              EvalTerm(m, a, env).Some? && EvalTerm(m, b, env).Some?
    ensures Eval(m, EqualsExpr(a, b), env) == Some(true) <==>
              EvalTerm(m, a, env).Some? && EvalTerm(m, a, env) == EvalTerm(m, b, env)
  {
  }

  /** An applied predicate on string arguments: false when it is not interpreted, membership
      of the joined key in its list of tuples when it is; a nullary predicate compares its
      interpretation with that of the empty name. */
  lemma PredicateSemantics(m: Model, p: string, args: seq<Node>, vals: seq<string>, env: Env)
    requires EvaluatedAsAtom(p)
    requires |vals| == |args|
    requires forall k :: 0 <= k < |args| ==> EvalTerm(m, args[k], env) == Some(Text(vals[k]))
    ensures args != [] && p !in m.interpretations ==> Eval(m, Node(p, args), env) == Some(false)
    ensures args != [] && p in m.interpretations && m.interpretations[p].Tuples? ==>
              Eval(m, Node(p, args), env) == Some(Join(vals) in m.interpretations[p].items)
    ensures args == [] ==>
              Eval(m, Node(p, args), env) ==
                Some(p in m.interpretations
                     && m.interpretations[p] == if "" in m.interpretations then m.interpretations[""] else Text(""))
  {
    ArgumentKey(m, args, vals, env);
  }

  // ----- The evaluation program -----

  /** A line that reads as a formula evaluates, after the rewrite, to that formula's value
      with no variables bound: the rewrite `main` applies first changes nothing. */
  lemma EvaluateParsedFormula(m: Model, line: string, f: Node)
    requires ParsePrefixString(line) == Some(f) && IsFormula(f)
    ensures EvaluateLine(m, line) == Evaluate(m, f, map[])
  {
    NnfPreservesTruth(m, f, map[]);
  }

  /** Printing a formula and handing the line to the program gives the formula's value. */
  lemma EvaluatePrintedFormula(m: Model, f: Node)
    requires IsFormula(f) && PrefixSafe(f)
    ensures EvaluateLine(m, Prefix(f)) == Evaluate(m, f, map[])
  {
    ParsePrintedTree(f);
    EvaluateParsedFormula(m, Prefix(f), f);
  }

  // ----- Worked examples -----

  /** The domain `["0", "1"]` with `P` holding of `"0"` only. */
  function SmallModel(): Model {
    Model(["0", "1"], map["P" := Tuples(["0"])])
  }

  function Px(): Node {
    Node("P", [Node("x", [])])
  }

  lemma PxValues()
    ensures Eval(SmallModel(), Px(), map["x" := "0"]) == Some(true)
    ensures Eval(SmallModel(), Px(), map["x" := "1"]) == Some(false)
  {
    var m := SmallModel();
    LeafLookup(m, "x", "0", map[]);
    LeafLookup(m, "x", "1", map[]);
    PredicateSemantics(m, "P", [Node("x", [])], ["0"], map["x" := "0"]);
    PredicateSemantics(m, "P", [Node("x", [])], ["1"], map["x" := "1"]);
  }

  /** `@x(P(x))` is false and `#x(P(x))` is true in the small model. */
  lemma QuantifierExample()
    ensures Evaluate(SmallModel(), ForallExpr("x", Px()), map[]) == Some(false)
    ensures Evaluate(SmallModel(), ExistsExpr("x", Px()), map[]) == Some(true)
  {
    var m := SmallModel();
    PxValues();
    QuantifierSemantics(m, [Forall] + "x", Px(), map[]);
    QuantifierSemantics(m, [Exists] + "x", Px(), map[]);
    assert ([Forall] + "x")[1..] == "x" && ([Exists] + "x")[1..] == "x";
    assert map[]["x" := "0"] == map["x" := "0"];
    assert map[]["x" := "1"] == map["x" := "1"];
    assert m.domain[1..] == ["1"];
  }

  lemma NegatedForallParses()
    ensures ParsePrefixString("!(@x(P(x)))") == Some(NotExpr(ForallExpr("x", Px())))
  {
    ParseNegatedForall();
  }

  lemma NegatedForallIsFormula()
    ensures IsFormula(NotExpr(ForallExpr("x", Px())))
  {
    assert IsFormula(Px());
  }

  lemma NegatedForallValue()
    ensures Evaluate(SmallModel(), NotExpr(ForallExpr("x", Px())), map[]) == Some(true)
  {
    QuantifierExample();
  }

  /** The line `!(@x(P(x)))` evaluates to true in the small model. */
  lemma NegatedForallLineExample()
    ensures EvaluateLine(SmallModel(), "!(@x(P(x)))") == Some(true)
  {
    NegatedForallParses();
    NegatedForallIsFormula();
    NegatedForallValue();
    EvaluateParsedFormula(SmallModel(), "!(@x(P(x)))", NotExpr(ForallExpr("x", Px())));
  }

  /** An implication reaching the evaluator is read as an atom named `>`: with nothing
      interpreted, `>(P,Q)` is false ... */
  lemma ImplicationAsAtom()
    ensures Evaluate(Model([], map[]), ImplyExpr(Node("P", []), Node("Q", [])), map[]) == Some(false)
  {
    var m: Model := Model([], map[]);
    PredicateSemantics(m, Implication, [Node("P", []), Node("Q", [])], ["P", "Q"], map[]);
  }

  lemma RewrittenImplicationValue()
    ensures Evaluate(Model([], map[]), OrExpr(NotExpr(Node("P", [])), Node("Q", [])), map[]) == Some(true)
  {
    var m: Model := Model([], map[]);
    PredicateSemantics(m, "P", [], [], map[]);
  }

  /** ... while the program, which rewrites it to `|(!(P),Q)` first, answers true. */
  lemma ImplicationNeedsRewrite()
    ensures Evaluate(Model([], map[]), ImplyExpr(Node("P", []), Node("Q", [])), map[]) == Some(false)
    ensures EvaluateLine(Model([], map[]), ">(P,Q)") == Some(true)
  {
    ImplicationAsAtom();
    ParseImplication();
    RewriteImplication();
    RewrittenImplicationValue();
  }
}
