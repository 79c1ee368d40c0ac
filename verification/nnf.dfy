/**
 * `nnf_simplify`: rewrites a formula tree into negation normal form. The children are
 * rewritten first; then an implication becomes a disjunction, and a negation is pushed
 * through a double negation, a disjunction, a conjunction or a quantifier.
 *
 * The source reads fixed child slots (`left`, `right`, `child`) and raises `IndexError`
 * when a node has fewer children than the slot needs; that outcome is `None` here.
 */
module Nnf {
  import opened Wrappers
  import opened Tree
  import opened Printers
  import opened PrefixParser

  // ----- Termination measure -----

  /** A weight that every rewrite step strictly decreases: a negation or an implication
      counts its children twice, because the rewrite pushes a new `!` onto each of them. */
  function W(n: Node): (w: nat)
    decreases n, 1
    ensures w >= 1 + SumW(n.children)
  {
    if n.value == Negation then 1 + 2 * SumW(n.children)
    else if n.value == Implication then 3 + 2 * SumW(n.children)
    else 1 + SumW(n.children)
  }

  function SumW(cs: seq<Node>): nat
    decreases cs, 0
  {
    if cs == [] then 0 else W(cs[0]) + SumW(cs[1..])
  }

  lemma SumWFirstTwo(cs: seq<Node>)
    requires |cs| >= 2
    ensures W(cs[0]) + W(cs[1]) <= SumW(cs)
  {
    assert cs[1..][0] == cs[1];
  }

  lemma WNot(x: Node)
    ensures W(NotExpr(x)) == 1 + 2 * W(x)
  {
    SumWSingle(x);
  }

  lemma SumWSingle(x: Node)
    ensures SumW([x]) == W(x)
  {
    assert [x][0] == x && [x][1..] == [];
    assert SumW([x][1..]) == 0;
  }

  lemma WPair(v: string, a: Node, b: Node)
    requires v != Negation && v != Implication
    ensures W(Node(v, [a, b])) == 1 + W(a) + W(b)
  {
    assert [a, b][0] == a && [a, b][1..] == [b];
    SumWSingle(b);
  }

  lemma WSingle(v: string, a: Node)
    requires v != Negation && v != Implication
    ensures W(Node(v, [a])) == 1 + W(a)
  {
    SumWSingle(a);
  }

  // ----- Shapes -----

  /** Labels a negation must not sit directly above in negation normal form. */
  predicate Pushable(v: string) {
    v == Negation || v == Conjunction || v == Disjunction || IsForallLabel(v) || IsExistsLabel(v)
  }

  /** Negation normal form: no implication anywhere, and every negation has a child that is
      not a negation, a conjunction, a disjunction or a quantifier. */
  predicate IsNnf(n: Node) {
    && n.value != Implication
    && (n.value == Negation ==> |n.children| >= 1 && !Pushable(n.children[0].value))
    && forall k :: 0 <= k < |n.children| ==> IsNnf(n.children[k])
  }

  predicate AllNnf(cs: seq<Node>) {
    forall k :: 0 <= k < |cs| ==> IsNnf(cs[k])
  }

  /** Enough children in every slot the rewrite may read: two for `>`, `&`, `|`; one for
      `!` and the quantifiers. */
  predicate Shaped(n: Node) {
    && (n.value == Implication || n.value == Conjunction || n.value == Disjunction ==> |n.children| >= 2)
    && (n.value == Negation || IsForallLabel(n.value) || IsExistsLabel(n.value) ==> |n.children| >= 1)
    && forall k :: 0 <= k < |n.children| ==> Shaped(n.children[k])
  }

  predicate AllShaped(cs: seq<Node>) {
    forall k :: 0 <= k < |cs| ==> Shaped(cs[k])
  }

  /** Exactly the children the constructors give: two for `>`, `&`, `|`; one for `!` and
      the quantifiers. The rewrite drops any extra child, so only these trees keep all
      their content through a double negation. */
  predicate Canonical(n: Node) {
    && (n.value == Implication || n.value == Conjunction || n.value == Disjunction ==> |n.children| == 2)
    && (n.value == Negation || IsForallLabel(n.value) || IsExistsLabel(n.value) ==> |n.children| == 1)
    && forall k :: 0 <= k < |n.children| ==> Canonical(n.children[k])
  }

  predicate AllCanonical(cs: seq<Node>) {
    forall k :: 0 <= k < |cs| ==> Canonical(cs[k])
  }

  // ----- The rewrite -----

  function Nnf(t: Node): (r: Option<Node>)
    decreases W(t), 2
    ensures r.Some? ==> W(r.value) <= W(t)
  {
    var rewritten := NnfList(t.children);
    if rewritten.None? then None
    else
      var cs := rewritten.value;
      if t.value == Implication then ImplicationStep(cs)
      else if t.value == Negation then NegationStep(cs)
      else Some(Node(t.value, cs))
  }

  /** `A > B` becomes `!A | B`, which is rewritten again; `cs` are the rewritten children. */
  function ImplicationStep(cs: seq<Node>): (r: Option<Node>)
    decreases 3 + 2 * SumW(cs), 1
    ensures r.Some? ==> W(r.value) <= 3 + 2 * SumW(cs)
  {
    if |cs| < 2 then None
    else
      SumWFirstTwo(cs);
      WNot(cs[0]);
      WPair(Disjunction, NotExpr(cs[0]), cs[1]);
      Nnf(OrExpr(NotExpr(cs[0]), cs[1]))
  }

  /** The negation rules, applied once the operand has been rewritten to `cs[0]`. */
  function NegationStep(cs: seq<Node>): (r: Option<Node>)
    decreases 1 + 2 * SumW(cs), 1
    ensures r.Some? ==> W(r.value) <= 1 + 2 * SumW(cs)
  {
    if |cs| < 1 then None
    else
      var inner := cs[0];
      assert W(inner) <= SumW(cs);
      if inner.value == Negation then DoubleNegation(inner)
      else if inner.value == Disjunction || inner.value == Conjunction then DeMorgan(inner)
      else if IsForallLabel(inner.value) || IsExistsLabel(inner.value) then QuantifierNegation(inner)
      else Some(Node(Negation, cs))
  }

  /** `!(!(A))` becomes the rewrite of `A`. */
  function DoubleNegation(inner: Node): (r: Option<Node>)
    requires inner.value == Negation
    decreases 1 + 2 * W(inner), 0
    ensures r.Some? ==> W(r.value) <= 1 + 2 * W(inner)
  {
    if |inner.children| < 1 then None
    else Nnf(inner.children[0])
  }

  /** `!(A | B)` becomes `!A & !B`, and `!(A & B)` becomes `!A | !B`. */
  function DeMorgan(inner: Node): (r: Option<Node>)
    requires inner.value == Disjunction || inner.value == Conjunction
    decreases 1 + 2 * W(inner), 0
    ensures r.Some? ==> W(r.value) <= 1 + 2 * W(inner)
  {
    if |inner.children| < 2 then None
    else
      SumWFirstTwo(inner.children);
      WNot(inner.children[0]);
      WNot(inner.children[1]);
      var left := Nnf(NotExpr(inner.children[0]));
      var right := Nnf(NotExpr(inner.children[1]));
      if left.None? || right.None? then None
      else
        WPair(Conjunction, left.value, right.value);
        WPair(Disjunction, left.value, right.value);
        if inner.value == Disjunction then Some(AndExpr(left.value, right.value))
        else Some(OrExpr(left.value, right.value))
  }

  /** `!(@v(A))` becomes `#v(!A)`, and `!(#v(A))` becomes `@v(!A)`. */
  function QuantifierNegation(inner: Node): (r: Option<Node>)
    requires IsForallLabel(inner.value) || IsExistsLabel(inner.value)
    decreases 1 + 2 * W(inner), 0
    ensures r.Some? ==> W(r.value) <= 1 + 2 * W(inner)
  {
    if |inner.children| < 1 then None
    else
      WNot(inner.children[0]);
      var body := Nnf(NotExpr(inner.children[0]));
      if body.None? then None
      else
        WSingle([Exists] + inner.value[1..], body.value);
        WSingle([Forall] + inner.value[1..], body.value);
        if IsForallLabel(inner.value) then Some(ExistsExpr(inner.value[1..], body.value))
        else Some(ForallExpr(inner.value[1..], body.value))
  }

  /** The children, rewritten from left to right; the first failure stops the walk. */
  function NnfList(cs: seq<Node>): (r: Option<seq<Node>>)
    decreases SumW(cs), 3
    ensures r.Some? ==> |r.value| == |cs| && SumW(r.value) <= SumW(cs)
  {
    if cs == [] then Some([])
    else
      var head := Nnf(cs[0]);
      if head.None? then None
      else
        var tail := NnfList(cs[1..]);
        if tail.None? then None
        else
          var r := [head.value] + tail.value;
          assert r[1..] == tail.value;
          Some(r)
  }

  // ----- What the rewrite produces -----

  /** The rewrite yields negation normal form; it cannot fail on a shaped tree, and it keeps
      shaped and canonical trees so. */
  lemma {:induction false} NnfFacts(t: Node)
    decreases W(t), 2
    ensures Nnf(t).Some? ==> IsNnf(Nnf(t).value)
    ensures Shaped(t) ==> Nnf(t).Some? && Shaped(Nnf(t).value)
    ensures Nnf(t).Some? && Canonical(t) ==> Canonical(Nnf(t).value)
  {
    NnfListFacts(t.children);
    var rewritten := NnfList(t.children);
    if rewritten.Some? {
      var cs := rewritten.value;
      if t.value == Implication {
        ImplicationFacts(cs);
      } else if t.value == Negation {
        NegationFacts(cs);
      }
    }
  }

  lemma {:induction false} ImplicationFacts(cs: seq<Node>)
    decreases 3 + 2 * SumW(cs), 1
    ensures ImplicationStep(cs).Some? ==> IsNnf(ImplicationStep(cs).value)
    ensures AllShaped(cs) && |cs| >= 2 ==> ImplicationStep(cs).Some? && Shaped(ImplicationStep(cs).value)
    ensures ImplicationStep(cs).Some? && AllCanonical(cs) ==> Canonical(ImplicationStep(cs).value)
  {
    if |cs| >= 2 {
      SumWFirstTwo(cs);
      WNot(cs[0]);
      WPair(Disjunction, NotExpr(cs[0]), cs[1]);
      var d := OrExpr(NotExpr(cs[0]), cs[1]);
      NnfFacts(d);
      if AllShaped(cs) {
        assert Shaped(cs[0]) && Shaped(cs[1]);
        assert Shaped(NotExpr(cs[0]));
        assert Shaped(d);
      }
      if AllCanonical(cs) {
        assert Canonical(cs[0]) && Canonical(cs[1]);
        assert Canonical(NotExpr(cs[0]));
        assert Canonical(d);
      }
    }
  }

  lemma {:induction false} NegationFacts(cs: seq<Node>)
    decreases 1 + 2 * SumW(cs), 1
    ensures NegationStep(cs).Some? && AllNnf(cs) ==> IsNnf(NegationStep(cs).value)
    ensures AllShaped(cs) && |cs| >= 1 ==> NegationStep(cs).Some? && Shaped(NegationStep(cs).value)
    ensures NegationStep(cs).Some? && AllCanonical(cs) && |cs| == 1 ==> Canonical(NegationStep(cs).value)
  {
    if |cs| >= 1 {
      var inner := cs[0];
      assert W(inner) <= SumW(cs);
      if inner.value == Negation {
        DoubleNegationFacts(inner);
      } else if inner.value == Disjunction || inner.value == Conjunction {
        DeMorganFacts(inner);
      } else if IsForallLabel(inner.value) || IsExistsLabel(inner.value) {
        QuantifierNegationFacts(inner);
      }
    }
  }

  lemma {:induction false} DoubleNegationFacts(inner: Node)
    requires inner.value == Negation
    decreases 1 + 2 * W(inner), 0
    ensures DoubleNegation(inner).Some? ==> IsNnf(DoubleNegation(inner).value)
    ensures Shaped(inner) ==> DoubleNegation(inner).Some? && Shaped(DoubleNegation(inner).value)
    ensures DoubleNegation(inner).Some? && Canonical(inner) ==> Canonical(DoubleNegation(inner).value)
  {
    if |inner.children| >= 1 {
      NnfFacts(inner.children[0]);
    }
  }

  lemma {:induction false} DeMorganFacts(inner: Node)
    requires inner.value == Disjunction || inner.value == Conjunction
    decreases 1 + 2 * W(inner), 0
    ensures DeMorgan(inner).Some? ==> IsNnf(DeMorgan(inner).value)
    ensures Shaped(inner) ==> DeMorgan(inner).Some? && Shaped(DeMorgan(inner).value)
    ensures DeMorgan(inner).Some? && Canonical(inner) ==> Canonical(DeMorgan(inner).value)
  {
    if |inner.children| >= 2 {
      SumWFirstTwo(inner.children);
      WNot(inner.children[0]);
      WNot(inner.children[1]);
      var a, b := NotExpr(inner.children[0]), NotExpr(inner.children[1]);
      NnfFacts(a);
      NnfFacts(b);
      if Shaped(inner) {
        assert Shaped(a) && Shaped(b);
      }
      if Canonical(inner) {
        assert Canonical(a) && Canonical(b);
      }
    }
  }

  lemma {:induction false} QuantifierNegationFacts(inner: Node)
    requires IsForallLabel(inner.value) || IsExistsLabel(inner.value)
    decreases 1 + 2 * W(inner), 0
    ensures QuantifierNegation(inner).Some? ==> IsNnf(QuantifierNegation(inner).value)
    ensures Shaped(inner) ==> QuantifierNegation(inner).Some? && Shaped(QuantifierNegation(inner).value)
    ensures QuantifierNegation(inner).Some? && Canonical(inner) ==> Canonical(QuantifierNegation(inner).value)
  {
    if |inner.children| >= 1 {
      WNot(inner.children[0]);
      var a := NotExpr(inner.children[0]);
      NnfFacts(a);
      if Shaped(inner) {
        assert Shaped(a);
      }
      if Canonical(inner) {
        assert Canonical(a);
      }
    }
  }

  lemma {:induction false} NnfListFacts(cs: seq<Node>)
    decreases SumW(cs), 3
    ensures NnfList(cs).Some? ==> AllNnf(NnfList(cs).value)
    ensures AllShaped(cs) ==> NnfList(cs).Some? && AllShaped(NnfList(cs).value)
    ensures NnfList(cs).Some? && AllCanonical(cs) ==> AllCanonical(NnfList(cs).value)
  {
    if cs != [] {
      NnfFacts(cs[0]);
      NnfListFacts(cs[1..]);
      SplitAll(cs);
      var head, tail := Nnf(cs[0]), NnfList(cs[1..]);
      if head.Some? && tail.Some? {
        assert NnfList(cs) == Some([head.value] + tail.value);
        JoinAll(head.value, tail.value);
      }
    }
  }

  /** The list rewrite succeeds exactly when every child's rewrite does, and then holds
      those rewrites, in order. */
  lemma {:induction false} NnfListElementwise(cs: seq<Node>)
    ensures NnfList(cs).Some? <==> forall k :: 0 <= k < |cs| ==> Nnf(cs[k]).Some?
    ensures NnfList(cs).Some? ==>
              forall k :: 0 <= k < |cs| ==> NnfList(cs).value[k] == Nnf(cs[k]).value
  {
    if cs != [] {
      NnfListElementwise(cs[1..]);
      forall k | 1 <= k < |cs| ensures cs[1..][k - 1] == cs[k] { }
      if Nnf(cs[0]).Some? && NnfList(cs[1..]).Some? {
        var r := [Nnf(cs[0]).value] + NnfList(cs[1..]).value;
        assert NnfList(cs) == Some(r);
        forall k | 1 <= k < |cs| ensures r[k] == Nnf(cs[k]).value {
          assert r[k] == NnfList(cs[1..]).value[k - 1];
        }
      } else if Nnf(cs[0]).Some? {
        var k :| 0 <= k < |cs[1..]| && Nnf(cs[1..][k]).None?;
        assert Nnf(cs[k + 1]).None?;
      }
    }
  }

  /** Any other node keeps its label and has each child replaced by that child's rewrite;
      it fails exactly when one of the children does. */
  lemma NnfKeepsOtherNodes(v: string, cs: seq<Node>)
    requires v != Implication && v != Negation
    ensures Nnf(Node(v, cs)).Some? <==> forall k :: 0 <= k < |cs| ==> Nnf(cs[k]).Some?
    ensures Nnf(Node(v, cs)).Some? ==>
              && Nnf(Node(v, cs)).value.value == v
              && |Nnf(Node(v, cs)).value.children| == |cs|
              && forall k :: 0 <= k < |cs| ==> Nnf(Node(v, cs)).value.children[k] == Nnf(cs[k]).value
  {
    NnfListElementwise(cs);
  }

  /** The head and the tail of a list keep the list's properties. */
  lemma SplitAll(cs: seq<Node>)
    requires cs != []
    ensures AllShaped(cs) ==> Shaped(cs[0]) && AllShaped(cs[1..])
    ensures AllCanonical(cs) ==> Canonical(cs[0]) && AllCanonical(cs[1..])
  {
    forall k | 0 <= k < |cs[1..]| ensures cs[1..][k] == cs[k + 1] { }
  }

  /** A head and a tail with a property make a list with it. */
  lemma JoinAll(h: Node, t: seq<Node>)
    ensures IsNnf(h) && AllNnf(t) ==> AllNnf([h] + t)
    ensures Shaped(h) && AllShaped(t) ==> AllShaped([h] + t)
    ensures Canonical(h) && AllCanonical(t) ==> AllCanonical([h] + t)
  {
    forall k | 1 <= k < |[h] + t| ensures ([h] + t)[k] == t[k - 1] { }
  }

  /** `main` of the rewriting program: parse a prefix line, rewrite it, print it. */
  function SimplifyLine(line: string): (r: Option<string>)
    ensures r.Some? ==> ParsePrefixString(line).Some? && Nnf(ParsePrefixString(line).value).Some?
  {
    var parsed := ParsePrefixString(line);
    if parsed.None? then None
    else
      var simplified := Nnf(parsed.value);
      if simplified.None? then None else Some(Prefix(simplified.value))
  }

  // ----- Negation normal form is a fixed point -----

  /** A tree already in negation normal form comes back unchanged ... */
  lemma {:induction false} NnfKeepsNormalForm(t: Node)
    requires IsNnf(t)
    decreases t, 1
    ensures Nnf(t) == Some(t)
  {
    NnfListKeepsNormalForm(t.children);
  }

  lemma {:induction false} NnfListKeepsNormalForm(cs: seq<Node>)
    requires AllNnf(cs)
    decreases cs, 0
    ensures NnfList(cs) == Some(cs)
  {
    if cs != [] {
      NnfKeepsNormalForm(cs[0]);
      NnfListKeepsNormalForm(cs[1..]);
      assert [cs[0]] + cs[1..] == cs;
    }
  }

  /** ... so rewriting twice is rewriting once. */
  lemma NnfIdempotent(t: Node)
    requires Nnf(t).Some?
    ensures Nnf(Nnf(t).value) == Nnf(t)
  {
    NnfFacts(t);
    NnfKeepsNormalForm(Nnf(t).value);
  }

  /** The rewrite of a node sees its children only through their rewrites. */
  lemma NnfCongruence(v: string, cs: seq<Node>, ds: seq<Node>)
    requires NnfList(cs) == NnfList(ds)
    ensures Nnf(Node(v, cs)) == Nnf(Node(v, ds))
  {
  }

  lemma NnfSingle(a: Node)
    ensures NnfList([a]) == if Nnf(a).Some? then Some([Nnf(a).value]) else None
  {
    assert [a][0] == a && [a][1..] == [];
    assert NnfList([a][1..]) == Some([]);
    if Nnf(a).Some? {
      assert [Nnf(a).value] + [] == [Nnf(a).value];
    }
  }

  lemma NnfPair(a: Node, b: Node)
    ensures NnfList([a, b]) ==
              if Nnf(a).Some? && Nnf(b).Some? then Some([Nnf(a).value, Nnf(b).value]) else None
  {
    assert [a, b][0] == a && [a, b][1..] == [b];
    NnfSingle(b);
    if Nnf(a).Some? && Nnf(b).Some? {
      assert [Nnf(a).value] + [Nnf(b).value] == [Nnf(a).value, Nnf(b).value];
    }
  }

  /** A negation is rewritten by rewriting its operand, then applying the negation rules. */
  lemma NotUnfold(a: Node)
    ensures Nnf(NotExpr(a)) == if Nnf(a).Some? then NegationStep([Nnf(a).value]) else None
  {
    NnfSingle(a);
  }

  /** A negation sees its operand only through the operand's rewrite. */
  lemma NotOfRewritten(a: Node)
    requires Nnf(a).Some?
    ensures Nnf(NotExpr(Nnf(a).value)) == Nnf(NotExpr(a))
  {
    NnfIdempotent(a);
    NotUnfold(a);
    NotUnfold(Nnf(a).value);
  }

  // ----- The rewrite rules, one per case of the source -----

  /** Rule (d): an implication is rewritten as the disjunction `!A | B`. */
  lemma ImplicationRule(a: Node, b: Node)
    ensures Nnf(ImplyExpr(a, b)) == Nnf(OrExpr(NotExpr(a), b))
  {
    NnfPair(a, b);
    NnfPair(NotExpr(a), b);
    NotUnfold(a);
    if Nnf(a).Some? && Nnf(b).Some? {
      var a', b' := Nnf(a).value, Nnf(b).value;
      NotOfRewritten(a);
      NnfIdempotent(b);
      NnfPair(NotExpr(a'), b');
      NnfCongruence(Disjunction, [NotExpr(a'), b'], [NotExpr(a), b]);
    }
  }

  lemma JunctionRule(v: string, a: Node, b: Node)
    requires v == Disjunction || v == Conjunction
    ensures Nnf(NotExpr(Node(v, [a, b]))) ==
              if Nnf(NotExpr(a)).Some? && Nnf(NotExpr(b)).Some?
              then Some(Node(if v == Disjunction then Conjunction else Disjunction,
                             [Nnf(NotExpr(a)).value, Nnf(NotExpr(b)).value]))
              else None
  {
    var j := Node(v, [a, b]);
    NotUnfold(j);
    NnfPair(a, b);
    NotUnfold(a);
    NotUnfold(b);
    if Nnf(a).Some? && Nnf(b).Some? {
      NotOfRewritten(a);
      NotOfRewritten(b);
      assert Nnf(j) == Some(Node(v, [Nnf(a).value, Nnf(b).value]));
    }
  }

  /** Rule (b): `!(A | B)` becomes `!A & !B`. */
  lemma DisjunctionRule(a: Node, b: Node)
    ensures Nnf(NotExpr(OrExpr(a, b))) ==
              if Nnf(NotExpr(a)).Some? && Nnf(NotExpr(b)).Some?
              then Some(AndExpr(Nnf(NotExpr(a)).value, Nnf(NotExpr(b)).value)) else None
  {
    JunctionRule(Disjunction, a, b);
  }

  /** Rule (c): `!(A & B)` becomes `!A | !B`. */
  lemma ConjunctionRule(a: Node, b: Node)
    ensures Nnf(NotExpr(AndExpr(a, b))) ==
              if Nnf(NotExpr(a)).Some? && Nnf(NotExpr(b)).Some?
              then Some(OrExpr(Nnf(NotExpr(a)).value, Nnf(NotExpr(b)).value)) else None
  {
    JunctionRule(Conjunction, a, b);
  }

  lemma QuantifierRule(q: string, a: Node)
    requires IsForallLabel(q) || IsExistsLabel(q)
    ensures Nnf(NotExpr(Node(q, [a]))) ==
              if Nnf(NotExpr(a)).Some?
              then Some(Node([if IsForallLabel(q) then Exists else Forall] + q[1..], [Nnf(NotExpr(a)).value]))
              else None
  {
    var n := Node(q, [a]);
    NotUnfold(n);
    NnfSingle(a);
    NotUnfold(a);
    if Nnf(a).Some? {
      NotOfRewritten(a);
      assert Nnf(n) == Some(Node(q, [Nnf(a).value]));
    }
  }

  /** Rule (e): `!(@v(A))` becomes `#v(!A)`. */
  lemma ForallNegationRule(v: string, a: Node)
    ensures Nnf(NotExpr(ForallExpr(v, a))) ==
              if Nnf(NotExpr(a)).Some? then Some(ExistsExpr(v, Nnf(NotExpr(a)).value)) else None
  {
    QuantifierRule([Forall] + v, a);
    assert ([Forall] + v)[1..] == v;
  }

  /** Rule (f): `!(#v(A))` becomes `@v(!A)`. */
  lemma ExistsNegationRule(v: string, a: Node)
    ensures Nnf(NotExpr(ExistsExpr(v, a))) ==
              if Nnf(NotExpr(a)).Some? then Some(ForallExpr(v, Nnf(NotExpr(a)).value)) else None
  {
    QuantifierRule([Exists] + v, a);
    assert ([Exists] + v)[1..] == v;
  }

  // ----- Double negation -----

  lemma {:induction false} CanonicalIsShaped(n: Node)
    requires Canonical(n)
    ensures Shaped(n)
  {
    forall k | 0 <= k < |n.children| ensures Shaped(n.children[k]) {
      CanonicalIsShaped(n.children[k]);
    }
  }

  /** Negating a normal, canonical tree twice, rewriting after each negation, gives the
      tree back. */
  lemma {:induction false} NegateTwice(c: Node)
    requires IsNnf(c) && Canonical(c)
    decreases c, 1
    ensures Nnf(NotExpr(c)).Some?
    ensures Nnf(NotExpr(Nnf(NotExpr(c)).value)) == Some(c)
  {
    CanonicalIsShaped(c);
    assert Shaped(NotExpr(c));
    NnfFacts(NotExpr(c));
    if c.value == Negation {
      var d := c.children[0];
      NnfKeepsNormalForm(c);
      NotUnfold(c);
      NnfKeepsNormalForm(d);
      assert c == NotExpr(d);
      NotUnfold(d);
    } else if c.value == Disjunction || c.value == Conjunction {
      NegateTwiceJunction(c);
    } else if IsForallLabel(c.value) || IsExistsLabel(c.value) {
      NegateTwiceQuantifier(c);
    } else {
      NnfKeepsNormalForm(c);
      NotUnfold(c);
      var n1 := Nnf(NotExpr(c)).value;
      assert n1 == NotExpr(c);
      NnfKeepsNormalForm(NotExpr(c));
      NotUnfold(NotExpr(c));
    }
  }

  lemma {:induction false} NegateTwiceJunction(c: Node)
    requires IsNnf(c) && Canonical(c) && (c.value == Disjunction || c.value == Conjunction)
    decreases c, 0
    ensures Nnf(NotExpr(c)).Some?
    ensures Nnf(NotExpr(Nnf(NotExpr(c)).value)) == Some(c)
  {
    var a, b := c.children[0], c.children[1];
    assert c == Node(c.value, [a, b]);
    JunctionRule(c.value, a, b);
    NegateTwice(a);
    NegateTwice(b);
    var n1 := Nnf(NotExpr(c)).value;
    var p, q := Nnf(NotExpr(a)).value, Nnf(NotExpr(b)).value;
    JunctionRule(n1.value, p, q);
  }

  lemma {:induction false} NegateTwiceQuantifier(c: Node)
    requires IsNnf(c) && Canonical(c) && (IsForallLabel(c.value) || IsExistsLabel(c.value))
    decreases c, 0
    ensures Nnf(NotExpr(c)).Some?
    ensures Nnf(NotExpr(Nnf(NotExpr(c)).value)) == Some(c)
  {
    var a := c.children[0];
    assert c == Node(c.value, [a]);
    QuantifierRule(c.value, a);
    NegateTwice(a);
    var n1 := Nnf(NotExpr(c)).value;
    var p := Nnf(NotExpr(a)).value;
    QuantifierRule(n1.value, p);
    assert [c.value[0]] + c.value[1..] == c.value;
  }

  /** Rule (a): `!(!(A))` rewrites to what `A` rewrites to, for canonical `A`. */
  lemma DoubleNegationRule(a: Node)
    requires Canonical(a)
    ensures Nnf(NotExpr(NotExpr(a))) == Nnf(a)
  {
    CanonicalIsShaped(a);
    NnfFacts(a);
    var a' := Nnf(a).value;
    NegateTwice(a');
    NotOfRewritten(a);
    NotOfRewritten(NotExpr(a));
  }

  // ----- Worked examples of the whole program -----

  lemma ImplicationExample()
    ensures SimplifyLine(">(P,Q)") == Some("|(!(P),Q)")
  {
    var p, q := Node("P", []), Node("Q", []);
    var n, r := ImplyExpr(p, q), OrExpr(NotExpr(p), q);
    ParseImplication();
    RewriteImplication();
    PrintDisjunction();
    assert SimplifyLine(">(P,Q)") == Some(Prefix(r));
  }

  lemma RewriteImplication()
    ensures Nnf(ImplyExpr(Node("P", []), Node("Q", []))) == Some(OrExpr(NotExpr(Node("P", [])), Node("Q", [])))
  {
    RewriteAtomImplication(Node("P", []), Node("Q", []));
  }

  /** An implication between two atoms becomes the disjunction of the negated premise and
      the conclusion, with nothing further to rewrite. */
  lemma RewriteAtomImplication(p: Node, q: Node)
    requires p.children == [] && q.children == []
    requires !Pushable(p.value) && p.value != Implication
    requires q.value != Negation && q.value != Implication
    ensures Nnf(ImplyExpr(p, q)) == Some(OrExpr(NotExpr(p), q))
  {
    ImplicationRule(p, q);
    var r := OrExpr(NotExpr(p), q);
    assert IsNnf(r) by { assert IsNnf(NotExpr(p)) && IsNnf(q); }
    NnfKeepsNormalForm(r);
  }

  lemma ParseImplication()
    ensures ParsePrefixString(">(P,Q)") == Some(ImplyExpr(Node("P", []), Node("Q", [])))
  {
    var p, q := Node("P", []), Node("Q", []);
    var n := ImplyExpr(p, q);
    assert Prefix(p) == "P" && Prefix(q) == "Q";
    assert [p, q][1..] == [q];
    assert PrefixList([p, q]) == "P,Q";
    assert Prefix(n) == ">(P,Q)";
    assert PrefixSafe(n) by { assert PrefixSafe(p) && PrefixSafe(q); }
    ParsePrintedTree(n);
  }

  lemma PrintDisjunction()
    ensures Prefix(OrExpr(NotExpr(Node("P", [])), Node("Q", []))) == "|(!(P),Q)"
  {
    var p, q := Node("P", []), Node("Q", []);
    assert Prefix(p) == "P" && Prefix(q) == "Q";
    assert PrefixList([p]) == "P";
    assert Prefix(NotExpr(p)) == "!(P)";
    assert [NotExpr(p), q][1..] == [q];
    assert PrefixList([NotExpr(p), q]) == "!(P),Q";
  }

  lemma DoubleNegationExample()
    ensures SimplifyLine("!(!(P))") == Some("P")
  {
    var p := Node("P", []);
    var n := NotExpr(NotExpr(p));
    assert Prefix(p) == "P" && PrefixList([p]) == "P";
    assert Prefix(NotExpr(p)) == "!(P)" && PrefixList([NotExpr(p)]) == "!(P)";
    assert Prefix(n) == "!(!(P))";
    assert PrefixSafe(n) by { assert PrefixSafe(NotExpr(p)) by { assert PrefixSafe(p); } }
    ParsePrintedTree(n);
    DoubleNegationRule(p);
    NnfKeepsNormalForm(p);
  }

  lemma QuantifierNegationExample()
    ensures SimplifyLine("!(@x(P(x)))") == Some("#x(!(P(x)))")
  {
    ParseNegatedForall();
    RewriteNegatedForall();
    PrintExists();
  }

  lemma RewriteNegatedForall()
    ensures Nnf(NotExpr(ForallExpr("x", Node("P", [Node("x", [])]))))
         == Some(ExistsExpr("x", NotExpr(Node("P", [Node("x", [])]))))
  {
    RewriteNegatedQuantifiedAtom("x", Node("P", [Node("x", [])]));
  }

  /** A negated universal over an atom becomes an existential over the negated atom. */
  lemma RewriteNegatedQuantifiedAtom(v: string, p: Node)
    requires !Pushable(p.value) && p.value != Implication && AllNnf(p.children)
    ensures Nnf(NotExpr(ForallExpr(v, p))) == Some(ExistsExpr(v, NotExpr(p)))
  {
    ForallNegationRule(v, p);
    assert IsNnf(NotExpr(p)) by { assert IsNnf(p); }
    NnfKeepsNormalForm(NotExpr(p));
  }

  lemma ParseNegatedForall()
    ensures ParsePrefixString("!(@x(P(x)))") == Some(NotExpr(ForallExpr("x", Node("P", [Node("x", [])]))))
  {
    var x := Node("x", []);
    var px := Node("P", [x]);
    var n := NotExpr(ForallExpr("x", px));
    assert Prefix(x) == "x" && PrefixList([x]) == "x";
    assert Prefix(px) == "P(x)" && PrefixList([px]) == "P(x)";
    assert Prefix(ForallExpr("x", px)) == "@x(P(x))" && PrefixList([ForallExpr("x", px)]) == "@x(P(x))";
    assert Prefix(n) == "!(@x(P(x)))";
    assert PrefixSafe(n) by {
      assert PrefixSafe(x);
      assert PrefixSafe(px);
      assert PrefixSafe(ForallExpr("x", px));
    }
    ParsePrintedTree(n);
  }

  lemma PrintExists()
    ensures Prefix(ExistsExpr("x", NotExpr(Node("P", [Node("x", [])])))) == "#x(!(P(x)))"
  {
    var x := Node("x", []);
    var px := Node("P", [x]);
    assert Prefix(x) == "x" && PrefixList([x]) == "x";
    assert Prefix(px) == "P(x)" && PrefixList([px]) == "P(x)";
    assert Prefix(NotExpr(px)) == "!(P(x))" && PrefixList([NotExpr(px)]) == "!(P(x))";
  }
}
