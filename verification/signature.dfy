/**
 * `get_expression_signature_and_variables`: a pre-order walk that sorts every label of a
 * tree into variables, function symbols, constants and predicate symbols by its shape
 * and arity, adding it to sets the caller supplies.
 */
module Signature {
  import opened Tree

  // ----- Label shapes -----

  predicate IsLowerChar(c: char) { 'a' <= c <= 'z' }
  predicate IsUpperChar(c: char) { 'A' <= c <= 'Z' }
  predicate IsDigitChar(c: char) { '0' <= c <= '9' }

  /** Length of the leading run of characters satisfying `lower` (lowercase) or uppercase. */
  function HeadRun(s: string, lower: bool): (k: nat)
    ensures k <= |s|
    ensures forall i :: 0 <= i < k ==> if lower then IsLowerChar(s[i]) else IsUpperChar(s[i])
    ensures k == |s| || !(if lower then IsLowerChar(s[k]) else IsUpperChar(s[k]))
  {
    if s == [] || !(if lower then IsLowerChar(s[0]) else IsUpperChar(s[0])) then 0
    else 1 + HeadRun(s[1..], lower)
  }

  /** `\[\d+\]`: an index in square brackets. */
  predicate IsIndex(s: string) {
    |s| >= 3 && s[0] == '[' && s[|s| - 1] == ']' && forall i :: 1 <= i < |s| - 1 ==> IsDigitChar(s[i])
  }

  /** A non-empty run of one letter case, optionally followed by an index. */
  predicate IsIndexedName(v: string, lower: bool) {
    var k := HeadRun(v, lower);
    k >= 1 && (k == |v| || IsIndex(v[k..]))
  }

  /** `[a-z]+(\[\d+\])?` */
  predicate IsVariableShape(v: string) { IsIndexedName(v, true) }

  /** `[0-9]+`; the look-around assertions of the source's pattern sit at the ends of the
      string and never fail. */
  predicate IsConstantShape(v: string) {
    |v| >= 1 && forall i :: 0 <= i < |v| ==> IsDigitChar(v[i])
  }

  /** `[A-Z]+(\[\d+\])?` */
  predicate IsPredicateShape(v: string) { IsIndexedName(v, false) }

  // ----- Classifying one label -----

  datatype SymbolKind = Variable | Function | Constant | Predicate | Ignored

  /** The branch the source takes for one node: the lowercase shape is tested first, and
      its arity decides between variable and function symbol. */
  function KindOf(v: string, arity: nat): (k: SymbolKind)
    ensures k == Variable <==> IsVariableShape(v) && arity == 0
    ensures k == Function <==> IsVariableShape(v) && arity > 0
    ensures k == Constant <==> IsConstantShape(v)
    ensures k == Predicate <==> IsPredicateShape(v)
  {
    ShapesDisjoint(v);
    if IsVariableShape(v) then (if arity == 0 then Variable else Function)
    else if IsConstantShape(v) then Constant
    else if IsPredicateShape(v) then Predicate
    else Ignored
  }

  /** A label has at most one of the three shapes: the first character decides. */
  lemma ShapesDisjoint(v: string)
    ensures !(IsVariableShape(v) && IsConstantShape(v))
    ensures !(IsVariableShape(v) && IsPredicateShape(v))
    ensures !(IsConstantShape(v) && IsPredicateShape(v))
  {
    if |v| > 0 {
      if IsVariableShape(v) { assert IsLowerChar(v[0]); }
      if IsPredicateShape(v) { assert IsUpperChar(v[0]); }
      if IsConstantShape(v) { assert IsDigitChar(v[0]); }
    }
  }

  // ----- The signature -----

  /** The four sets of the source's dictionary. */
  datatype Sig = Sig(variables: set<string>, functions: set<string>,
                     constants: set<string>, predicates: set<string>)

  const EmptySig := Sig({}, {}, {}, {})

  function Union(a: Sig, b: Sig): Sig {
    Sig(a.variables + b.variables, a.functions + b.functions,
        a.constants + b.constants, a.predicates + b.predicates)
  }

  /** Adds one label to the set its kind selects; an unrecognised label changes nothing. */
  function Record(s: Sig, v: string, arity: nat): Sig {
    match KindOf(v, arity)
    case Variable => s.(variables := s.variables + {v})
    case Function => s.(functions := s.functions + {v})
    case Constant => s.(constants := s.constants + {v})
    case Predicate => s.(predicates := s.predicates + {v})
    case Ignored => s
  }

  /** The walk itself: the node first, then each child from left to right. */
  function Collect(n: Node, acc: Sig): Sig
    decreases n, 1
  {
    CollectList(n.children, Record(acc, n.value, |n.children|))
  }

  function CollectList(cs: seq<Node>, acc: Sig): Sig
    decreases cs, 0
  {
    if cs == [] then acc else CollectList(cs[1..], Collect(cs[0], acc))
  }

  // ----- Reference definition: a set of (label, arity) occurrences -----

  /** Every (label, arity) pair occurring anywhere in the tree. */
  function Occurrences(n: Node): set<(string, nat)>
    decreases n, 1
  {
    {(n.value, |n.children|)} + OccurrencesList(n.children)
  }

  function OccurrencesList(cs: seq<Node>): set<(string, nat)>
    decreases cs, 0
  {
    if cs == [] then {} else Occurrences(cs[0]) + OccurrencesList(cs[1..])
  }

  /** The signature a set of occurrences determines, independent of any visiting order. */
  function SigOf(occ: set<(string, nat)>): Sig {
    Sig(set o | o in occ && KindOf(o.0, o.1) == Variable :: o.0,
        set o | o in occ && KindOf(o.0, o.1) == Function :: o.0,
        set o | o in occ && KindOf(o.0, o.1) == Constant :: o.0,
        set o | o in occ && KindOf(o.0, o.1) == Predicate :: o.0)
  }

  lemma SigOfUnion(a: set<(string, nat)>, b: set<(string, nat)>)
    ensures SigOf(a + b) == Union(SigOf(a), SigOf(b))
  {
  }

  /** Recording one label adds the signature of that single occurrence. */
  lemma RecordIsUnion(s: Sig, v: string, arity: nat)
    ensures Record(s, v, arity) == Union(s, SigOf({(v, arity)}))
  {
    var one: set<(string, nat)> := {(v, arity)};
    assert forall o :: o in one ==> o == (v, arity);
  }

  lemma UnionAssoc(a: Sig, b: Sig, c: Sig)
    ensures Union(Union(a, b), c) == Union(a, Union(b, c))
  {
  }

  /** The walk adds exactly the signature of the tree's occurrences to what it was given. */
  lemma {:induction false} CollectIsUnion(n: Node, acc: Sig)
    decreases n, 1
    ensures Collect(n, acc) == Union(acc, SigOf(Occurrences(n)))
  {
    var start := Record(acc, n.value, |n.children|);
    RecordIsUnion(acc, n.value, |n.children|);
    CollectListIsUnion(n.children, start);
    UnionAssoc(acc, SigOf({(n.value, |n.children|)}), SigOf(OccurrencesList(n.children)));
    SigOfUnion({(n.value, |n.children|)}, OccurrencesList(n.children));
  }

  lemma {:induction false} CollectListIsUnion(cs: seq<Node>, acc: Sig)
    decreases cs, 0
    ensures CollectList(cs, acc) == Union(acc, SigOf(OccurrencesList(cs)))
  {
    if cs == [] {
      assert SigOf({}) == EmptySig;
    } else {
      CollectIsUnion(cs[0], acc);
      CollectListIsUnion(cs[1..], Collect(cs[0], acc));
      UnionAssoc(acc, SigOf(Occurrences(cs[0])), SigOf(OccurrencesList(cs[1..])));
      SigOfUnion(Occurrences(cs[0]), OccurrencesList(cs[1..]));
    }
  }

  /** Starting from empty sets, a label is recorded as a variable exactly when it labels a
      leaf of variable shape somewhere in the tree, and likewise for the other kinds. */
  lemma SignatureMembership(n: Node, v: string)
    ensures v in Collect(n, EmptySig).variables <==>
              (v, 0) in Occurrences(n) && IsVariableShape(v)
    ensures v in Collect(n, EmptySig).functions <==>
              (exists k: nat :: k > 0 && (v, k) in Occurrences(n)) && IsVariableShape(v)
    ensures v in Collect(n, EmptySig).constants <==>
              (exists k: nat :: (v, k) in Occurrences(n)) && IsConstantShape(v)
    ensures v in Collect(n, EmptySig).predicates <==>
              (exists k: nat :: (v, k) in Occurrences(n)) && IsPredicateShape(v)
  {
    CollectIsUnion(n, EmptySig);
    var occ := Occurrences(n);
    if v in Collect(n, EmptySig).variables {
      var o :| o in occ && KindOf(o.0, o.1) == Variable && o.0 == v;
    }
    if (v, 0) in occ && IsVariableShape(v) {
      assert KindOf(v, 0) == Variable;
    }
    if v in Collect(n, EmptySig).functions {
      var o :| o in occ && KindOf(o.0, o.1) == Function && o.0 == v;
      assert o.1 > 0 && (v, o.1) in occ;
    }
    if (exists k: nat :: k > 0 && (v, k) in occ) && IsVariableShape(v) {
      var k: nat :| k > 0 && (v, k) in occ;
      assert KindOf(v, k) == Function;
    }
    if v in Collect(n, EmptySig).constants {
      var o :| o in occ && KindOf(o.0, o.1) == Constant && o.0 == v;
      assert (v, o.1) in occ;
    }
    if (exists k: nat :: (v, k) in occ) && IsConstantShape(v) {
      var k: nat :| (v, k) in occ;
      assert KindOf(v, k) == Constant;
    }
    if v in Collect(n, EmptySig).predicates {
      var o :| o in occ && KindOf(o.0, o.1) == Predicate && o.0 == v;
      assert (v, o.1) in occ;
    }
    if (exists k: nat :: (v, k) in occ) && IsPredicateShape(v) {
      var k: nat :| (v, k) in occ;
      assert KindOf(v, k) == Predicate;
    }
  }

  /** The order of the children does not matter: any rearrangement collects the same sets. */
  lemma {:induction false} CollectOrderIndependent(v: string, cs: seq<Node>, ds: seq<Node>, acc: Sig)
    requires multiset(cs) == multiset(ds)
    ensures Collect(Node(v, cs), acc) == Collect(Node(v, ds), acc)
  {
    OccurrencesListOfMultiset(cs, ds);
    CollectIsUnion(Node(v, cs), acc);
    CollectIsUnion(Node(v, ds), acc);
  }

  lemma {:induction false} OccurrencesListMembers(cs: seq<Node>)
    ensures forall o :: o in OccurrencesList(cs) <==> exists i :: 0 <= i < |cs| && o in Occurrences(cs[i])
  {
    if cs != [] {
      OccurrencesListMembers(cs[1..]);
      forall o | o in OccurrencesList(cs)
        ensures exists i :: 0 <= i < |cs| && o in Occurrences(cs[i])
      {
        if o !in Occurrences(cs[0]) {
          assert o in OccurrencesList(cs[1..]);
          var i :| 0 <= i < |cs[1..]| && o in Occurrences(cs[1..][i]);
          assert o in Occurrences(cs[i + 1]);
        }
      }
      forall o, i | 0 <= i < |cs| && o in Occurrences(cs[i])
        ensures o in OccurrencesList(cs)
      {
        if i > 0 {
          assert cs[1..][i - 1] == cs[i];
        }
      }
    }
  }

  lemma OccurrencesListOfMultiset(cs: seq<Node>, ds: seq<Node>)
    requires multiset(cs) == multiset(ds)
    ensures OccurrencesList(cs) == OccurrencesList(ds)
  {
    OccurrencesListMembers(cs);
    OccurrencesListMembers(ds);
    forall o | o in OccurrencesList(cs) ensures o in OccurrencesList(ds) {
      var i :| 0 <= i < |cs| && o in Occurrences(cs[i]);
      assert cs[i] in multiset(ds);
      var j :| 0 <= j < |ds| && ds[j] == cs[i];
    }
    forall o | o in OccurrencesList(ds) ensures o in OccurrencesList(cs) {
      var i :| 0 <= i < |ds| && o in Occurrences(ds[i]);
      assert ds[i] in multiset(cs);
      var j :| 0 <= j < |cs| && cs[j] == ds[i];
    }
  }

  /** Walking a tree into sets that already hold its signature changes nothing. */
  lemma CollectIdempotent(n: Node)
    ensures Collect(n, Collect(n, EmptySig)) == Collect(n, EmptySig)
  {
    CollectIsUnion(n, EmptySig);
    CollectIsUnion(n, Collect(n, EmptySig));
  }

  /** How the labels of `P(x, f(x), 3)` are sorted: P is a predicate, x a variable, f a
      function, 3 a constant. */
  lemma ExampleKinds()
    ensures KindOf("P", 3) == Predicate && KindOf("x", 0) == Variable
    ensures KindOf("f", 1) == Function && KindOf("3", 0) == Constant
  {
    assert HeadRun("P", false) == 1;
    assert HeadRun("x", true) == 1;
    assert HeadRun("f", true) == 1;
  }

  /** The walk over `P(x, f(x), 3)`. */
  lemma SignatureExample()
    ensures Collect(Node("P", [Node("x", []), Node("f", [Node("x", [])]), Node("3", [])]), EmptySig)
            == Sig({"x"}, {"f"}, {"3"}, {"P"})
  {
    ExampleKinds();
    var x, fx, three := Node("x", []), Node("f", [Node("x", [])]), Node("3", []);
    var s1 := Sig({}, {}, {}, {"P"});
    var s2 := Sig({"x"}, {}, {}, {"P"});
    var s3 := Sig({"x"}, {"f"}, {}, {"P"});
    var s4 := Sig({"x"}, {"f"}, {"3"}, {"P"});
    assert Record(EmptySig, "P", 3) == s1;
    assert Collect(x, s1) == s2 by { assert Record(s1, "x", 0) == s2; }
    assert Collect(fx, s2) == s3 by {
      assert Record(s2, "f", 1) == s3;
      assert Collect(x, s3) == s3 by { assert Record(s3, "x", 0) == s3; }
      assert CollectList([x], s3) == s3 by { assert [x][1..] == []; }
    }
    assert Collect(three, s3) == s4 by { assert Record(s3, "3", 0) == s4; }
    var cs := [x, fx, three];
    assert cs[1..] == [fx, three] && cs[1..][1..] == [three] && [three][1..] == [];
    assert CollectList([three], s3) == s4;
    assert CollectList([fx, three], s2) == CollectList([three], s3);
    assert CollectList(cs, s1) == CollectList([fx, three], s2);
    assert Collect(Node("P", cs), EmptySig) == CollectList(cs, s1);
  }
}
