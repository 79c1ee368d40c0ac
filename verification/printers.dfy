/**
 * The four serialisations of an expression tree (`as_prefix_str`, `as_postfix_str`,
 * `as_standard_str`, `as_tree_str`) and the traversal orders they follow.
 */
module Printers {
  import opened Tree

  // ----- Small string utilities -----

  /** Concatenation of a sequence of strings without separators. */
  function Concat(ss: seq<string>): string {
    if ss == [] then "" else ss[0] + Concat(ss[1..])
  }

  lemma ConcatSingleton(x: string)
    ensures Concat([x]) == x
  {
    assert [x][1..] == [];
  }

  lemma {:induction false} ConcatAppend(a: seq<string>, b: seq<string>)
    ensures Concat(a + b) == Concat(a) + Concat(b)
  {
    if a == [] {
      assert a + b == b;
    } else {
      assert (a + b)[1..] == a[1..] + b;
      ConcatAppend(a[1..], b);
    }
  }

  /** The characters the bracketed notations use as structure rather than as label text. */
  predicate IsDelimiter(c: char) {
    c == '(' || c == ')' || c == ',' || c == ' '
  }

  /** Drops every delimiter character, keeping the label text in order. */
  function Strip(s: string): string {
    if s == [] then "" else (if IsDelimiter(s[0]) then "" else [s[0]]) + Strip(s[1..])
  }

  lemma {:induction false} StripAppend(a: string, b: string)
    ensures Strip(a + b) == Strip(a) + Strip(b)
  {
    if a == [] {
      assert a + b == b;
    } else {
      assert (a + b)[1..] == a[1..] + b;
      StripAppend(a[1..], b);
    }
  }

  lemma StripNoDelimiters(s: string)
    requires forall i :: 0 <= i < |s| ==> !IsDelimiter(s[i])
    ensures Strip(s) == s
  {
    if s != [] {
      StripNoDelimiters(s[1..]);
    }
  }

  /** Number of occurrences of `c` in `s`. */
  function Count(c: char, s: string): nat {
    if s == [] then 0 else (if s[0] == c then 1 else 0) + Count(c, s[1..])
  }

  lemma {:induction false} CountAppend(c: char, a: string, b: string)
    ensures Count(c, a + b) == Count(c, a) + Count(c, b)
  {
    if a == [] {
      assert a + b == b;
    } else {
      assert (a + b)[1..] == a[1..] + b;
      CountAppend(c, a[1..], b);
    }
  }

  lemma CountAbsent(c: char, s: string)
    requires forall i :: 0 <= i < |s| ==> s[i] != c
    ensures Count(c, s) == 0
  {
    if s != [] {
      CountAbsent(c, s[1..]);
    }
  }

  /** True when no label of the tree contains a delimiter character. */
  predicate PlainLabels(n: Node) {
    (forall i :: 0 <= i < |n.value| ==> !IsDelimiter(n.value[i]))
    && forall k :: 0 <= k < |n.children| ==> PlainLabels(n.children[k])
  }

  // ----- Traversal orders (the reference the printers are checked against) -----

  function PreOrder(n: Node): seq<string> {
    [n.value] + PreOrderList(n.children)
  }

  function PreOrderList(cs: seq<Node>): seq<string> {
    if cs == [] then [] else PreOrder(cs[0]) + PreOrderList(cs[1..])
  }

  function PostOrder(n: Node): seq<string> {
    PostOrderList(n.children) + [n.value]
  }

  function PostOrderList(cs: seq<Node>): seq<string> {
    if cs == [] then [] else PostOrder(cs[0]) + PostOrderList(cs[1..])
  }

  // ----- Prefix notation: value(child,child,...) -----

  /** `as_prefix_str`: a leaf is its value; otherwise value, `(`, the children joined by `,`, `)`. */
  function Prefix(n: Node): string {
    n.value + (if n.children == [] then "" else "(" + PrefixList(n.children) + ")")
  }

  function PrefixList(cs: seq<Node>): string
    requires cs != []
  {
    if |cs| == 1 then Prefix(cs[0]) else Prefix(cs[0]) + "," + PrefixList(cs[1..])
  }

  /** The prefix string lists the labels in pre-order with only delimiters between them. */
  lemma {:induction false} PrefixFollowsPreOrder(n: Node)
    requires PlainLabels(n)
    ensures Strip(Prefix(n)) == Concat(PreOrder(n))
  {
    StripNoDelimiters(n.value);
    ConcatSingleton(n.value);
    if n.children == [] {
      assert Prefix(n) == n.value;
      assert PreOrder(n) == [n.value];
    } else {
      PrefixListFollowsPreOrder(n.children);
      StripAppend(n.value, "(" + PrefixList(n.children) + ")");
      StripAppend("(" + PrefixList(n.children), ")");
      StripAppend("(", PrefixList(n.children));
      ConcatAppend([n.value], PreOrderList(n.children));
    }
  }

  lemma {:induction false} PrefixListFollowsPreOrder(cs: seq<Node>)
    requires cs != []
    requires forall k :: 0 <= k < |cs| ==> PlainLabels(cs[k])
    ensures Strip(PrefixList(cs)) == Concat(PreOrderList(cs))
  {
    PrefixFollowsPreOrder(cs[0]);
    ConcatAppend(PreOrder(cs[0]), PreOrderList(cs[1..]));
    if |cs| == 1 {
      assert PreOrderList(cs[1..]) == [];
    } else {
      PrefixListFollowsPreOrder(cs[1..]);
      StripAppend(Prefix(cs[0]) + ",", PrefixList(cs[1..]));
      StripAppend(Prefix(cs[0]), ",");
    }
  }

  // ----- Postfix notation: (child, child, ...)value -----

  /** `as_postfix_str`: the children joined by `", "` inside parentheses, then the value. */
  function Postfix(n: Node): string {
    (if n.children == [] then "" else "(" + PostfixList(n.children) + ")") + n.value
  }

  function PostfixList(cs: seq<Node>): string
    requires cs != []
  {
    if |cs| == 1 then Postfix(cs[0]) else Postfix(cs[0]) + ", " + PostfixList(cs[1..])
  }

  /** The postfix string lists the labels in post-order: every child before its parent. */
  lemma {:induction false} PostfixFollowsPostOrder(n: Node)
    requires PlainLabels(n)
    ensures Strip(Postfix(n)) == Concat(PostOrder(n))
  {
    StripNoDelimiters(n.value);
    ConcatSingleton(n.value);
    if n.children == [] {
      assert Postfix(n) == n.value;
      assert PostOrder(n) == [n.value];
    } else {
      PostfixListFollowsPostOrder(n.children);
      StripAppend("(" + PostfixList(n.children) + ")", n.value);
      StripAppend("(" + PostfixList(n.children), ")");
      StripAppend("(", PostfixList(n.children));
      ConcatAppend(PostOrderList(n.children), [n.value]);
    }
  }

  lemma {:induction false} PostfixListFollowsPostOrder(cs: seq<Node>)
    requires cs != []
    requires forall k :: 0 <= k < |cs| ==> PlainLabels(cs[k])
    ensures Strip(PostfixList(cs)) == Concat(PostOrderList(cs))
  {
    PostfixFollowsPostOrder(cs[0]);
    ConcatAppend(PostOrder(cs[0]), PostOrderList(cs[1..]));
    if |cs| == 1 {
      assert PostOrderList(cs[1..]) == [];
    } else {
      PostfixListFollowsPostOrder(cs[1..]);
      StripAppend(Postfix(cs[0]) + ", ", PostfixList(cs[1..]));
      StripAppend(Postfix(cs[0]), ", ");
      assert Strip(", ") == "";
    }
  }

  // ----- Standard (infix) notation -----

  predicate IsInfix(v: string) {
    v == Equality || v == Conjunction || v == Disjunction || v == Implication
  }

  /** The shape `as_standard_str` needs: every infix node it reaches has a left and a right
      child (the source raises IndexError otherwise). Children beyond the second of an infix
      node are never visited. */
  predicate InfixShaped(n: Node) {
    if IsInfix(n.value) then
      |n.children| >= 2 && InfixShaped(n.children[0]) && InfixShaped(n.children[1])
    else
      forall k :: 0 <= k < |n.children| ==> InfixShaped(n.children[k])
  }

  /** Symmetric order: left subtree, connective, right subtree for infix nodes;
      the node before its children otherwise. */
  function InOrder(n: Node): seq<string>
    requires InfixShaped(n)
  {
    if IsInfix(n.value) then InOrder(n.children[0]) + [n.value] + InOrder(n.children[1])
    else [n.value] + InOrderList(n.children)
  }

  function InOrderList(cs: seq<Node>): seq<string>
    requires forall k :: 0 <= k < |cs| ==> InfixShaped(cs[k])
  {
    if cs == [] then [] else InOrder(cs[0]) + InOrderList(cs[1..])
  }

  /** `as_standard_str`: `=`, `&`, `|`, `>` as `(left op right)`, anything else like the
      prefix form but with `", "` between children. */
  function Standard(n: Node): string
    requires InfixShaped(n)
  {
    if IsInfix(n.value) then
      "(" + Standard(n.children[0]) + " " + n.value + " " + Standard(n.children[1]) + ")"
    else
      n.value + (if n.children == [] then "" else "(" + StandardList(n.children) + ")")
  }

  function StandardList(cs: seq<Node>): string
    requires cs != []
    requires forall k :: 0 <= k < |cs| ==> InfixShaped(cs[k])
  {
    if |cs| == 1 then Standard(cs[0]) else Standard(cs[0]) + ", " + StandardList(cs[1..])
  }

  lemma StripInfix(sl: string, v: string, sr: string)
    requires forall i :: 0 <= i < |v| ==> !IsDelimiter(v[i])
    ensures Strip("(" + sl + " " + v + " " + sr + ")") == Strip(sl) + v + Strip(sr)
  {
    StripNoDelimiters(v);
    assert Strip("(") == "" && Strip(" ") == "" && Strip(")") == "";
    var t1 := "(" + sl;
    StripAppend("(", sl);
    assert Strip(t1) == Strip(sl);
    var t2 := t1 + " ";
    StripAppend(t1, " ");
    assert Strip(t2) == Strip(sl);
    var t3 := t2 + v;
    StripAppend(t2, v);
    assert Strip(t3) == Strip(sl) + v;
    var t4 := t3 + " ";
    StripAppend(t3, " ");
    assert Strip(t4) == Strip(sl) + v;
    var t5 := t4 + sr;
    StripAppend(t4, sr);
    assert Strip(t5) == Strip(sl) + v + Strip(sr);
    StripAppend(t5, ")");
    assert Strip(t5 + ")") == Strip(t5);
  }

  /** The infix string lists the labels in symmetric order. */
  lemma {:induction false} StandardFollowsInOrder(n: Node)
    requires InfixShaped(n) && PlainLabels(n)
    ensures Strip(Standard(n)) == Concat(InOrder(n))
  {
    StripNoDelimiters(n.value);
    ConcatSingleton(n.value);
    if IsInfix(n.value) {
      var l, r := n.children[0], n.children[1];
      StandardFollowsInOrder(l);
      StandardFollowsInOrder(r);
      StripInfix(Standard(l), n.value, Standard(r));
      ConcatAppend(InOrder(l) + [n.value], InOrder(r));
      ConcatAppend(InOrder(l), [n.value]);
    } else if n.children == [] {
      assert Standard(n) == n.value;
      assert InOrder(n) == [n.value];
    } else {
      StandardListFollowsInOrder(n.children);
      StripAppend(n.value, "(" + StandardList(n.children) + ")");
      StripAppend("(" + StandardList(n.children), ")");
      StripAppend("(", StandardList(n.children));
      ConcatAppend([n.value], InOrderList(n.children));
    }
  }

  lemma {:induction false} StandardListFollowsInOrder(cs: seq<Node>)
    requires cs != []
    requires forall k :: 0 <= k < |cs| ==> InfixShaped(cs[k]) && PlainLabels(cs[k])
    ensures Strip(StandardList(cs)) == Concat(InOrderList(cs))
  {
    StandardFollowsInOrder(cs[0]);
    ConcatAppend(InOrder(cs[0]), InOrderList(cs[1..]));
    if |cs| == 1 {
      assert InOrderList(cs[1..]) == [];
    } else {
      StandardListFollowsInOrder(cs[1..]);
      StripAppend(Standard(cs[0]) + ", ", StandardList(cs[1..]));
      StripAppend(Standard(cs[0]), ", ");
      assert Strip(", ") == "";
    }
  }

  // ----- Indented tree dump -----

  /** Four spaces per level of depth. */
  function Indent(depth: nat): (r: string)
    ensures |r| == 4 * depth
    ensures forall i :: 0 <= i < |r| ==> r[i] == ' '
  {
    if depth == 0 then "" else "    " + Indent(depth - 1)
  }

  /** `as_tree_str`: one line per node, indented by its depth, children after their parent. */
  function TreeStr(n: Node, depth: nat): string {
    Indent(depth) + n.value + "\n" + TreeStrList(n.children, depth + 1)
  }

  function TreeStrList(cs: seq<Node>, depth: nat): string {
    if cs == [] then "" else TreeStr(cs[0], depth) + TreeStrList(cs[1..], depth)
  }

  /** Every node in pre-order paired with its depth below the root. */
  function PreOrderDepths(n: Node, depth: nat): seq<(nat, string)> {
    [(depth, n.value)] + PreOrderDepthsList(n.children, depth + 1)
  }

  function PreOrderDepthsList(cs: seq<Node>, depth: nat): seq<(nat, string)> {
    if cs == [] then [] else PreOrderDepths(cs[0], depth) + PreOrderDepthsList(cs[1..], depth)
  }

  /** One indented, newline-terminated line per (depth, label) entry. */
  function RenderLines(ls: seq<(nat, string)>): string {
    if ls == [] then "" else Indent(ls[0].0) + ls[0].1 + "\n" + RenderLines(ls[1..])
  }

  lemma {:induction false} RenderLinesAppend(a: seq<(nat, string)>, b: seq<(nat, string)>)
    ensures RenderLines(a + b) == RenderLines(a) + RenderLines(b)
  {
    if a == [] {
      assert a + b == b;
    } else {
      assert (a + b)[1..] == a[1..] + b;
      RenderLinesAppend(a[1..], b);
    }
  }

  function Labels(ls: seq<(nat, string)>): seq<string> {
    if ls == [] then [] else [ls[0].1] + Labels(ls[1..])
  }

  lemma {:induction false} LabelsAppend(a: seq<(nat, string)>, b: seq<(nat, string)>)
    ensures Labels(a + b) == Labels(a) + Labels(b)
  {
    if a == [] {
      assert a + b == b;
    } else {
      assert (a + b)[1..] == a[1..] + b;
      LabelsAppend(a[1..], b);
    }
  }

  /** The tree dump is exactly the pre-order listing, a node at depth d indented by 4*d
      spaces; the listing has one entry per node and its labels are the prefix order. */
  lemma {:induction false} TreeStrIsPreOrderListing(n: Node, depth: nat)
    ensures TreeStr(n, depth) == RenderLines(PreOrderDepths(n, depth))
    ensures |PreOrderDepths(n, depth)| == Size(n)
    ensures Labels(PreOrderDepths(n, depth)) == PreOrder(n)
  {
    TreeStrListIsPreOrderListing(n.children, depth + 1);
    var head := [(depth, n.value)];
    RenderLinesAppend(head, PreOrderDepthsList(n.children, depth + 1));
    LabelsAppend(head, PreOrderDepthsList(n.children, depth + 1));
    assert RenderLines(head) == Indent(depth) + n.value + "\n" + RenderLines([]);
    assert Labels(head) == [n.value] + Labels([]);
  }

  lemma {:induction false} TreeStrListIsPreOrderListing(cs: seq<Node>, depth: nat)
    ensures TreeStrList(cs, depth) == RenderLines(PreOrderDepthsList(cs, depth))
    ensures |PreOrderDepthsList(cs, depth)| == SizeList(cs)
    ensures Labels(PreOrderDepthsList(cs, depth)) == PreOrderList(cs)
  {
    if cs != [] {
      TreeStrIsPreOrderListing(cs[0], depth);
      TreeStrListIsPreOrderListing(cs[1..], depth);
      RenderLinesAppend(PreOrderDepths(cs[0], depth), PreOrderDepthsList(cs[1..], depth));
      LabelsAppend(PreOrderDepths(cs[0], depth), PreOrderDepthsList(cs[1..], depth));
    }
  }

  /** True when no label contains a line break. */
  predicate SingleLineLabels(n: Node) {
    (forall i :: 0 <= i < |n.value| ==> n.value[i] != '\n')
    && forall k :: 0 <= k < |n.children| ==> SingleLineLabels(n.children[k])
  }

  /** Exactly one newline per node. */
  lemma {:induction false} TreeStrLineCount(n: Node, depth: nat)
    requires SingleLineLabels(n)
    ensures Count('\n', TreeStr(n, depth)) == Size(n)
  {
    TreeStrListLineCount(n.children, depth + 1);
    CountAbsent('\n', Indent(depth));
    CountAbsent('\n', n.value);
    CountAppend('\n', Indent(depth) + n.value + "\n", TreeStrList(n.children, depth + 1));
    CountAppend('\n', Indent(depth) + n.value, "\n");
    CountAppend('\n', Indent(depth), n.value);
    assert Count('\n', "\n") == 1 + Count('\n', "");
  }

  lemma {:induction false} TreeStrListLineCount(cs: seq<Node>, depth: nat)
    requires forall k :: 0 <= k < |cs| ==> SingleLineLabels(cs[k])
    ensures Count('\n', TreeStrList(cs, depth)) == SizeList(cs)
  {
    if cs != [] {
      TreeStrLineCount(cs[0], depth);
      TreeStrListLineCount(cs[1..], depth);
      CountAppend('\n', TreeStr(cs[0], depth), TreeStrList(cs[1..], depth));
    }
  }

  /** Regrouping a concatenation of three sequences. */
  lemma AppendAssoc<T>(a: seq<T>, b: seq<T>, c: seq<T>)
    ensures (a + b) + c == a + (b + c)
  {
  }
}
