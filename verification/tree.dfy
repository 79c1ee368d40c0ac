/**
 * The expression tree shared by every component: a rose tree of string labels.
 * The source's mutable `parent` back-pointer is not modelled; trees are immutable values.
 */
module Tree {

  /** The fixed logical alphabet (class `Alphabet` of the source). */
  const Equality: string := "="
  const Negation: string := "!"
  const Conjunction: string := "&"
  const Disjunction: string := "|"
  const Implication: string := ">"
  const Forall: char := '@'
  const Exists: char := '#'

  datatype Node = Node(value: string, children: seq<Node>)

  function Arity(n: Node): nat {
    |n.children|
  }

  /** Number of nodes in the tree. */
  function Size(n: Node): (r: nat)
    ensures r >= 1
  {
    1 + SizeList(n.children)
  }

  function SizeList(cs: seq<Node>): nat {
    if cs == [] then 0 else Size(cs[0]) + SizeList(cs[1..])
  }

  /** True when the value names a universal quantifier, `@v`. */
  predicate IsForallLabel(l: string) {
    |l| > 0 && l[0] == Forall
  }

  /** True when the value names an existential quantifier, `#v`. */
  predicate IsExistsLabel(l: string) {
    |l| > 0 && l[0] == Exists
  }

  /** The bound variable of a quantifier value: everything after the first character. */
  function BoundVariable(l: string): string
    requires |l| > 0
  {
    l[1..]
  }

  // Shape constructors. The source creates the nodes with `None` placeholders and fills
  // the slots afterwards; here the children are passed directly.

  function EqualsExpr(left: Node, right: Node): Node {
    Node(Equality, [left, right])
  }

  function NotExpr(child: Node): Node {
    Node(Negation, [child])
  }

  function AndExpr(left: Node, right: Node): Node {
    Node(Conjunction, [left, right])
  }

  function OrExpr(left: Node, right: Node): Node {
    Node(Disjunction, [left, right])
  }

  function ImplyExpr(left: Node, right: Node): Node {
    Node(Implication, [left, right])
  }

  function ForallExpr(v: string, body: Node): Node {
    Node([Forall] + v, [body])
  }

  function ExistsExpr(v: string, body: Node): Node {
    Node([Exists] + v, [body])
  }

  /** Binary constructors build two-child nodes with the connective as value. */
  lemma {:induction false} BinaryConstructorShape(l: Node, r: Node)
    ensures Arity(EqualsExpr(l, r)) == 2 && EqualsExpr(l, r).value == Equality
    ensures Arity(AndExpr(l, r)) == 2 && AndExpr(l, r).value == Conjunction
    ensures Arity(OrExpr(l, r)) == 2 && OrExpr(l, r).value == Disjunction
    ensures Arity(ImplyExpr(l, r)) == 2 && ImplyExpr(l, r).value == Implication
    ensures Left(AndExpr(l, r)) == l && Right(AndExpr(l, r)) == r
  {
  }

  /** Quantifier constructors: the bound variable read back from the value is the one given. */
  lemma QuantifierConstructorRoundTrip(v: string, body: Node)
    ensures IsForallLabel(ForallExpr(v, body).value) && !IsExistsLabel(ForallExpr(v, body).value)
    ensures IsExistsLabel(ExistsExpr(v, body).value) && !IsForallLabel(ExistsExpr(v, body).value)
    ensures BoundVariable(ForallExpr(v, body).value) == v
    ensures BoundVariable(ExistsExpr(v, body).value) == v
    ensures Arity(ForallExpr(v, body)) == 1 && Child(ForallExpr(v, body)) == body
    ensures Arity(ExistsExpr(v, body)) == 1 && Child(ExistsExpr(v, body)) == body
  {
    assert ([Forall] + v)[1..] == v;
    assert ([Exists] + v)[1..] == v;
  }

  // Slot accessors. The source raises IndexError when the slot does not exist; that is a
  // precondition here.

  function Left(n: Node): Node
    requires |n.children| >= 1
  {
    n.children[0]
  }

  function Right(n: Node): Node
    requires |n.children| >= 2
  {
    n.children[1]
  }

  function Child(n: Node): Node
    requires |n.children| >= 1
  {
    n.children[0]
  }

  /** `add_child`: appends at the end, every existing child stays in place. */
  function AddChild(n: Node, c: Node): (r: Node)
    ensures r.value == n.value
    ensures |r.children| == |n.children| + 1
    ensures r.children[|n.children|] == c
    ensures forall i :: 0 <= i < |n.children| ==> r.children[i] == n.children[i]
  {
    Node(n.value, n.children + [c])
  }

  /** Overwrites slot `i` only. */
  function SetSlot(n: Node, i: nat, c: Node): (r: Node)
    requires i < |n.children|
    ensures r.value == n.value && |r.children| == |n.children|
    ensures r.children[i] == c
    ensures forall j :: 0 <= j < |n.children| && j != i ==> r.children[j] == n.children[j]
  {
    Node(n.value, n.children[i := c])
  }

  function SetLeft(n: Node, c: Node): Node
    requires |n.children| >= 1
  {
    SetSlot(n, 0, c)
  }

  function SetRight(n: Node, c: Node): Node
    requires |n.children| >= 2
  {
    SetSlot(n, 1, c)
  }

  function SetChild(n: Node, c: Node): Node
    requires |n.children| >= 1
  {
    SetSlot(n, 0, c)
  }

  /** The laws of the first slot need only that slot: they hold for the one-child `!`,
      `@v` and `#v` nodes that `child` serves, as well as for `left`. */
  lemma FirstSlotLaws(n: Node, c: Node)
    requires |n.children| >= 1
    ensures Child(SetChild(n, c)) == c && SetChild(n, Child(n)) == n
    ensures Left(SetLeft(n, c)) == c && SetLeft(n, Left(n)) == n
  {
    assert n.children[0 := n.children[0]] == n.children;
  }

  /** Getter/setter laws: what is set is read back, setting what is read changes nothing,
      and setting one slot leaves the other slot readable unchanged. */
  lemma SlotLaws(n: Node, c: Node)
    requires |n.children| >= 2
    ensures Left(SetLeft(n, c)) == c && Right(SetRight(n, c)) == c && Child(SetChild(n, c)) == c
    ensures SetLeft(n, Left(n)) == n && SetRight(n, Right(n)) == n
    ensures Right(SetLeft(n, c)) == Right(n) && Left(SetRight(n, c)) == Left(n)
  {
    assert n.children[0 := n.children[0]] == n.children;
    assert n.children[1 := n.children[1]] == n.children;
  }
}
