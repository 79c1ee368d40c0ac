/**
 * `parse_prefix_string`: reads `value(child,child,...)` back into a tree.
 * The source keeps a shared cursor; here every parser takes the remaining input and
 * returns the node together with what is left.
 */
module PrefixParser {
  import opened Wrappers
  import opened Tree
  import opened Printers

  /** The characters that end a label. */
  predicate IsStructural(c: char) {
    c == '(' || c == ')' || c == ','
  }

  /** Drops leading spaces. */
  function SkipSpaces(s: string): (r: string)
    ensures |r| <= |s|
    ensures r == [] || r[0] != ' '
    ensures s == [] || s[0] != ' ' ==> r == s
  {
    if s != [] && s[0] == ' ' then SkipSpaces(s[1..]) else s
  }

  /** Length of the maximal leading run of characters other than `(`, `)` and `,`. */
  function LabelLen(s: string): (k: nat)
    ensures k <= |s|
    ensures forall i :: 0 <= i < k ==> !IsStructural(s[i])
    ensures k == |s| || IsStructural(s[k])
  {
    if s != [] && !IsStructural(s[0]) then 1 + LabelLen(s[1..]) else 0
  }

  /** One node: skip spaces, read the label, skip spaces, then read the children if a `(`
      follows. On success either input was consumed or the input is empty or starts with
      `,` or `)` (where the label is empty and nothing is read). */
  function ParseNode(s: string): (r: Option<(Node, string)>)
    decreases |s|, 0
    ensures r.Some? ==> |r.value.1| < |s| || (r.value.1 == s && (s == [] || s[0] == ',' || s[0] == ')'))
  {
    var s1 := SkipSpaces(s);
    var k := LabelLen(s1);
    var node := Node(s1[..k], []);
    var s2 := SkipSpaces(s1[k..]);
    if s2 != [] && s2[0] == '(' then ParseChildren(s2[1..], node) else Some((node, s2))
  }

  /** The child loop after `(`: parse a child, append it, then `,` continues and `)` ends.
      Any other character starts the next child without a separator. At the end of the
      input the source's loop makes no progress and never returns; that is `None` here. */
  function ParseChildren(s: string, node: Node): (r: Option<(Node, string)>)
    decreases |s|, 1
    ensures r.Some? ==> |r.value.1| < |s|
  {
    if s == [] then None
    else
      var p := ParseNode(s);
      if p.None? then None
      else
        var node' := AddChild(node, p.value.0);
        var s2 := SkipSpaces(p.value.1);
        if s2 != [] && s2[0] == ',' then ParseChildren(s2[1..], node')
        else if s2 != [] && s2[0] == ')' then Some((node', s2[1..]))
        else ParseChildren(s2, node')
  }

  /** `parse_prefix_string`: the root node; anything after it is ignored. */
  function ParsePrefixString(s: string): Option<Node> {
    match ParseNode(s)
    case None => None
    case Some((n, _)) => Some(n)
  }

  // ----- Round trip -----

  /** One step of `ParseNode`, named so that proofs need not unfold it themselves. */
  lemma ParseNodeStep(s: string)
    ensures var s1 := SkipSpaces(s);
            var k := LabelLen(s1);
            var s2 := SkipSpaces(s1[k..]);
            ParseNode(s) == if s2 != [] && s2[0] == '(' then ParseChildren(s2[1..], Node(s1[..k], []))
                            else Some((Node(s1[..k], []), s2))
  {
  }

  /** One step of `ParseChildren` after a child that parsed. */
  lemma ParseChildrenStep(s: string, node: Node, child: Node, after: string)
    requires s != [] && ParseNode(s) == Some((child, after))
    ensures var s2 := SkipSpaces(after);
            ParseChildren(s, node) ==
              if s2 != [] && s2[0] == ',' then ParseChildren(s2[1..], AddChild(node, child))
              else if s2 != [] && s2[0] == ')' then Some((AddChild(node, child), s2[1..]))
              else ParseChildren(s2, AddChild(node, child))
  {
  }

  /** Labels the prefix notation can carry unambiguously: no `(`, `)` or `,` inside, and
      no leading space (the parser skips leading spaces). */
  predicate PrefixSafe(n: Node) {
    (forall i :: 0 <= i < |n.value| ==> !IsStructural(n.value[i]))
    && (n.value == [] || n.value[0] != ' ')
    && forall k :: 0 <= k < |n.children| ==> PrefixSafe(n.children[k])
  }

  lemma {:induction false} LabelLenAppend(a: string, b: string)
    requires forall i :: 0 <= i < |a| ==> !IsStructural(a[i])
    requires b == [] || IsStructural(b[0])
    ensures LabelLen(a + b) == |a|
  {
    if a != [] {
      assert (a + b)[1..] == a[1..] + b;
      LabelLenAppend(a[1..], b);
    } else {
      assert a + b == b;
    }
  }

  /** Parsing the prefix string of a tree gives back the tree and leaves whatever follows,
      provided what follows could follow a node (end of input, `,` or `)`). */
  /** A safe label followed by a structural character (or nothing) is read as exactly that
      label, and the character decides whether a child list follows. */
  lemma ParseLabelThen(v: string, t: string)
    requires forall i :: 0 <= i < |v| ==> !IsStructural(v[i])
    requires v == [] || v[0] != ' '
    requires t == [] || IsStructural(t[0])
    ensures ParseNode(v + t) ==
              if t != [] && t[0] == '(' then ParseChildren(t[1..], Node(v, []))
              else Some((Node(v, []), t))
  {
    var s := v + t;
    ParseNodeStep(s);
    assert SkipSpaces(s) == s;
    LabelLenAppend(v, t);
    assert s[..|v|] == v;
    assert s[|v|..] == t;
    assert SkipSpaces(t) == t;
  }

  lemma PrefixSplit(n: Node, rest: string)
    requires n.children != []
    ensures Prefix(n) + rest == n.value + ("(" + (PrefixList(n.children) + ")" + rest))
  {
    var pl := PrefixList(n.children);
    assert Prefix(n) == n.value + ("(" + pl + ")");
    assert "(" + pl + ")" + rest == "(" + (pl + ")" + rest);
  }

  lemma {:induction false} PrefixRoundTrip(n: Node, rest: string)
    requires PrefixSafe(n)
    requires rest == [] || rest[0] == ',' || rest[0] == ')'
    decreases n
    ensures ParseNode(Prefix(n) + rest) == Some((n, rest))
  {
    if n.children == [] {
      assert Prefix(n) == n.value && n == Node(n.value, []);
      ParseLabelThen(n.value, rest);
    } else {
      var inner := PrefixList(n.children) + ")" + rest;
      PrefixSplit(n, rest);
      ParseLabelThen(n.value, "(" + inner);
      assert ("(" + inner)[1..] == inner;
      PrefixListRoundTrip(n.children, Node(n.value, []), rest);
      assert [] + n.children == n.children;
    }
  }

  lemma PrefixListSplit(cs: seq<Node>, rest: string)
    requires cs != []
    ensures |cs| == 1 ==> PrefixList(cs) + ")" + rest == Prefix(cs[0]) + (")" + rest)
    ensures |cs| > 1 ==>
              PrefixList(cs) + ")" + rest == Prefix(cs[0]) + ("," + (PrefixList(cs[1..]) + ")" + rest))
  {
    if |cs| > 1 {
      var a, b := Prefix(cs[0]), PrefixList(cs[1..]);
      assert PrefixList(cs) == a + "," + b;
      AppendAssoc(a + "," + b, ")", rest);
      AppendAssoc(a + ",", b, ")" + rest);
      AppendAssoc(a, ",", b + (")" + rest));
      AppendAssoc(b, ")", rest);
    } else {
      AppendAssoc(Prefix(cs[0]), ")", rest);
    }
  }

  /** After a child, `)` closes the list and `,` continues it. */
  lemma ChildThen(s: string, node: Node, c: Node, sep: char, t: string)
    requires s != [] && ParseNode(s) == Some((c, [sep] + t))
    requires sep == ',' || sep == ')'
    ensures ParseChildren(s, node) ==
              if sep == ',' then ParseChildren(t, AddChild(node, c)) else Some((AddChild(node, c), t))
  {
    ParseChildrenStep(s, node, c, [sep] + t);
    assert SkipSpaces([sep] + t) == [sep] + t;
    assert ([sep] + t)[1..] == t;
  }

  lemma {:induction false} PrefixListRoundTrip(cs: seq<Node>, node: Node, rest: string)
    requires cs != []
    requires forall k :: 0 <= k < |cs| ==> PrefixSafe(cs[k])
    decreases cs
    ensures ParseChildren(PrefixList(cs) + ")" + rest, node)
         == Some((Node(node.value, node.children + cs), rest))
  {
    var s := PrefixList(cs) + ")" + rest;
    var c := cs[0];
    var node' := AddChild(node, c);
    assert PrefixSafe(c);
    PrefixListSplit(cs, rest);
    if |cs| == 1 {
      PrefixRoundTrip(c, [')'] + rest);
      ChildThen(s, node, c, ')', rest);
      assert node' == Node(node.value, node.children + [c]);
      assert cs == [c];
    } else {
      var tail := PrefixList(cs[1..]) + ")" + rest;
      PrefixRoundTrip(c, [','] + tail);
      ChildThen(s, node, c, ',', tail);
      assert forall k :: 0 <= k < |cs[1..]| ==> PrefixSafe(cs[1..][k]);
      PrefixListRoundTrip(cs[1..], node', rest);
      assert node' == Node(node.value, node.children + [c]);
      AppendAssoc(node.children, [c], cs[1..]);
      assert [c] + cs[1..] == cs;
    }
  }

  /** The top-level round trip: `parse_prefix_string(t.as_prefix_str())` rebuilds `t`. */
  lemma ParsePrintedTree(n: Node)
    requires PrefixSafe(n)
    ensures ParsePrefixString(Prefix(n)) == Some(n)
  {
    PrefixRoundTrip(n, "");
    assert Prefix(n) + "" == Prefix(n);
  }

  // ----- Suffix bookkeeping -----

  predicate IsSuffix(t: string, s: string) {
    |t| <= |s| && s[|s| - |t|..] == t
  }

  lemma SuffixTransitive(u: string, t: string, s: string)
    requires IsSuffix(u, t) && IsSuffix(t, s)
    ensures IsSuffix(u, s)
  {
    assert s[|s| - |u|..] == s[|s| - |t|..][|t| - |u|..];
  }

  lemma {:induction false} SkipSpacesSuffix(s: string)
    ensures IsSuffix(SkipSpaces(s), s)
  {
    if s != [] && s[0] == ' ' {
      SkipSpacesSuffix(s[1..]);
      assert s[1..][|s[1..]| - |SkipSpaces(s)|..] == s[|s| - |SkipSpaces(s)|..];
    }
  }

  lemma SuffixDrop(t: string, j: nat)
    requires j <= |t|
    ensures IsSuffix(t[j..], t)
  {
  }

  lemma {:induction false} CountSuffix(c: char, t: string, s: string)
    requires IsSuffix(t, s)
    ensures Count(c, t) <= Count(c, s)
  {
    if |t| < |s| {
      assert s[1..][|s[1..]| - |t|..] == s[|s| - |t|..];
      CountSuffix(c, t, s[1..]);
    }
  }

  /** A string without `(`, `)` or `,` is one leaf: leading spaces are dropped, interior
      and trailing spaces stay part of the label. */
  lemma LeafLabel(s: string)
    requires forall i :: 0 <= i < |s| ==> !IsStructural(s[i])
    ensures ParsePrefixString(s) == Some(Node(SkipSpaces(s), []))
  {
    var s1 := SkipSpaces(s);
    SkipSpacesSuffix(s);
    forall i | 0 <= i < |s1| ensures !IsStructural(s1[i]) {
      assert s1[i] == s[|s| - |s1| + i];
    }
    ParseNodeStep(s);
    ParseNodeStep(s1);
    assert ParseNode(s) == ParseNode(s1);
    assert s1 + "" == s1;
    ParseLabelThen(s1, "");
  }

  lemma CountZeroHead(c: char, s: string)
    requires Count(c, s) == 0
    ensures s == [] || s[0] != c
  {
  }

  /** Without any `)` left, the child loop can never end. */
  lemma {:induction false} ChildrenNeedClosing(s: string, node: Node)
    requires Count(')', s) == 0
    decreases |s|, 1
    ensures ParseChildren(s, node) == None
  {
    if s != [] {
      NodeWithoutClosing(s);
      var p := ParseNode(s);
      if p.Some? {
        var c, s1 := p.value.0, p.value.1;
        var s2 := SkipSpaces(s1);
        ParseChildrenStep(s, node, c, s1);
        SkipSpacesSuffix(s1);
        SuffixTransitive(s2, s1, s);
        CountSuffix(')', s2, s);
        CountZeroHead(')', s2);
        CountZeroHead(')', s);
        if s2 != [] && s2[0] == ',' {
          var t := s2[1..];
          SuffixDrop(s2, 1);
          CountSuffix(')', t, s2);
          assert |t| < |s| && Count(')', t) == 0;
          ChildrenNeedClosing(t, AddChild(node, c));
        } else {
          assert |s2| <= |s1| < |s|;
          ChildrenNeedClosing(s2, AddChild(node, c));
        }
      }
    }
  }

  lemma {:induction false} NodeWithoutClosing(s: string)
    requires Count(')', s) == 0
    decreases |s|, 0
    ensures ParseNode(s).Some? ==> IsSuffix(ParseNode(s).value.1, s)
  {
    var s1 := SkipSpaces(s);
    SkipSpacesSuffix(s);
    var k := LabelLen(s1);
    SuffixDrop(s1, k);
    SuffixTransitive(s1[k..], s1, s);
    var s2 := SkipSpaces(s1[k..]);
    SkipSpacesSuffix(s1[k..]);
    SuffixTransitive(s2, s1[k..], s);
    ParseNodeStep(s);
    if s2 != [] && s2[0] == '(' {
      SuffixDrop(s2, 1);
      SuffixTransitive(s2[1..], s2, s);
      CountSuffix(')', s2[1..], s);
      var t := s2[1..];
      assert |t| < |s| && Count(')', t) == 0;
      ChildrenNeedClosing(t, Node(s1[..k], []));
    } else {
      assert ParseNode(s) == Some((Node(s1[..k], []), s2));
    }
  }

  /** A `(` opened after the root label with no `)` anywhere later is never closed: the
      source loops forever, the model fails. */
  lemma UnclosedParenthesisFails(v: string, t: string)
    requires forall i :: 0 <= i < |v| ==> !IsStructural(v[i])
    requires v == [] || v[0] != ' '
    requires Count(')', t) == 0
    ensures ParsePrefixString(v + "(" + t) == None
  {
    var s := v + ("(" + t);
    assert s == v + "(" + t;
    assert SkipSpaces(s) == s;
    LabelLenAppend(v, "(" + t);
    assert s[|v|..] == "(" + t;
    assert ("(" + t)[1..] == t;
    ChildrenNeedClosing(t, Node(v, []));
  }
}
