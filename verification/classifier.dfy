/**
 * `Parser.parse` and its productions: a backtracking recursive-descent parser deciding
 * whether a token list is a Formula, a Term or neither. Each production takes the
 * remaining tokens and returns the tree it built with the tokens left over; a failed
 * production leaves nothing behind, so backtracking is just trying the next production
 * on the same input.
 */
module Classifier {
  import opened Wrappers
  import opened Tree
  import opened Printers
  import opened Tokenizer

  type Tokens = seq<string>

  // ----- Name shapes used by the grammar -----

  /** `[A-Z][A-Z0-9]*` */
  predicate IsPredicateName(t: string) {
    |t| >= 1 && IsUpper(t[0]) && forall i :: 1 <= i < |t| ==> IsUpper(t[i]) || IsDigit(t[i])
  }

  /** `[a-z][a-z0-9]*` */
  predicate IsLowerName(t: string) {
    |t| >= 1 && IsLower(t[0]) && forall i :: 1 <= i < |t| ==> IsLower(t[i]) || IsDigit(t[i])
  }

  /** `[a-z]`: the only variable a quantifier may bind. */
  predicate IsBindable(t: string) {
    |t| == 1 && IsLower(t[0])
  }

  predicate IsConnective(t: string) {
    t == "&" || t == "|" || t == ">" || t == "="
  }

  /** Number of `[` and `]` tokens: no production consumes one. */
  function Brackets(ts: Tokens): nat {
    if ts == [] then 0 else (if ts[0] == "[" || ts[0] == "]" then 1 else 0) + Brackets(ts[1..])
  }

  /** Dropping tokens that are not brackets keeps the bracket count. */
  lemma {:induction false} BracketsSkip(ts: Tokens, k: nat)
    requires k <= |ts|
    requires forall i :: 0 <= i < k ==> ts[i] != "[" && ts[i] != "]"
    ensures Brackets(ts[k..]) == Brackets(ts)
  {
    if k > 0 {
      assert ts[1..][k - 1..] == ts[k..];
      BracketsSkip(ts[1..], k - 1);
    }
  }

  /** Nesting depth change across a token list: `(` opens, `)` closes. */
  function Depth(ts: Tokens): int {
    if ts == [] then 0
    else (if ts[0] == "(" then 1 else if ts[0] == ")" then -1 else 0) + Depth(ts[1..])
  }

  /** The three tokens opening a quantifier hold no bracket and open one parenthesis. */
  lemma QuantifierHead(ts: Tokens)
    requires |ts| >= 3 && (ts[0] == "@" || ts[0] == "#") && IsBindable(ts[1]) && ts[2] == "("
    ensures Brackets(ts[3..]) == Brackets(ts) && Depth(ts[3..]) == Depth(ts) - 1
  {
    BracketsSkip(ts, 3);
    assert ts[1..][1..] == ts[2..] && ts[2..][1..] == ts[3..];
    assert ts[1] != "(" && ts[1] != ")" by { assert IsLower(ts[1][0]); }
    assert Depth(ts) == Depth(ts[1..]);
    assert Depth(ts[1..]) == Depth(ts[2..]);
  }

  // ----- The trees the grammar accepts -----

  /** A quantifier label as the grammar builds it: `@` or `#` and one lowercase letter. */
  predicate IsQuantifierLabel(v: string) {
    |v| == 2 && (v[0] == Forall || v[0] == Exists) && IsLower(v[1])
  }

  predicate FormulaTree(n: Node)
    decreases n, 0
  {
    || (IsQuantifierLabel(n.value) && |n.children| == 1 && FormulaTree(n.children[0]))
    || (n.value == Negation && |n.children| == 1 && FormulaTree(n.children[0]))
    || (IsConnective(n.value) && |n.children| == 2
        && FormulaOrTermTree(n.children[0]) && FormulaOrTermTree(n.children[1]))
    || (IsPredicateName(n.value) && forall k :: 0 <= k < |n.children| ==> FormulaOrTermTree(n.children[k]))
  }

  predicate TermTree(n: Node)
    decreases n, 0
  {
    || (IsNumeral(n.value) && n.children == [])
    || (IsLowerName(n.value) && forall k :: 0 <= k < |n.children| ==> FormulaOrTermTree(n.children[k]))
  }

  predicate FormulaOrTermTree(n: Node)
    decreases n, 1
  {
    FormulaTree(n) || TermTree(n)
  }

  predicate AllFormulaOrTerm(cs: seq<Node>) {
    forall k :: 0 <= k < |cs| ==> FormulaOrTermTree(cs[k])
  }

  // ----- The productions -----

  /** `parse_formula`: the first token selects the production. */
  function ParseFormula(ts: Tokens): (r: Option<(Node, Tokens)>)
    decreases |ts|, 1
    ensures r.Some? ==> FormulaTree(r.value.0)
    ensures r.Some? ==> |r.value.1| < |ts| && Brackets(r.value.1) == Brackets(ts)
    ensures r.Some? ==> Depth(r.value.1) == Depth(ts)
  {
    if ts == [] then None
    else if ts[0] == "@" || ts[0] == "#" then ParseQuantified(ts)
    else if ts[0] == "!" then ParseNegated(ts)
    else if IsConnective(ts[0]) then ParseBinary(ts)
    else if ts[0] == "(" then ParseParenthesized(ts)
    else if IsPredicateName(ts[0]) then ParsePredicate(ts)
    else None
  }

  /** Dropping a closing parenthesis: no bracket is lost and the depth goes back up. */
  lemma CloseDrop(u: Tokens)
    requires u != [] && u[0] == ")"
    ensures Brackets(u[1..]) == Brackets(u) && Depth(u[1..]) == Depth(u) + 1
  {
  }

  /** `@x(` or `#x(`, a Formula, `)`. The quantifier node records its bound variable in
      its label. */
  function ParseQuantified(ts: Tokens): (r: Option<(Node, Tokens)>)
    requires ts != [] && (ts[0] == "@" || ts[0] == "#")
    decreases |ts|, 0
    ensures r.Some? ==> FormulaTree(r.value.0)
    ensures r.Some? ==> |r.value.1| < |ts| && Brackets(r.value.1) == Brackets(ts)
    ensures r.Some? ==> Depth(r.value.1) == Depth(ts)
  {
    if |ts| >= 3 && IsBindable(ts[1]) && ts[2] == "(" then
      var sub := ParseFormula(ts[3..]);
      if sub.Some? && sub.value.1 != [] && sub.value.1[0] == ")" then
        QuantifierHead(ts);
        CloseDrop(sub.value.1);
        assert IsQuantifierLabel(ts[0] + ts[1]);
        Some((Node(ts[0] + ts[1], [sub.value.0]), sub.value.1[1..]))
      else None
    else None
  }

  /** `!(`, a Formula, `)`. */
  function ParseNegated(ts: Tokens): (r: Option<(Node, Tokens)>)
    requires ts != [] && ts[0] == "!"
    decreases |ts|, 0
    ensures r.Some? ==> FormulaTree(r.value.0)
    ensures r.Some? ==> |r.value.1| < |ts| && Brackets(r.value.1) == Brackets(ts)
    ensures r.Some? ==> Depth(r.value.1) == Depth(ts)
  {
    if |ts| >= 2 && ts[1] == "(" then
      var sub := ParseFormula(ts[2..]);
      if sub.Some? && sub.value.1 != [] && sub.value.1[0] == ")" then
        BracketsSkip(ts, 2);
        assert ts[1..][1..] == ts[2..];
        CloseDrop(sub.value.1);
        Some((Node(ts[0], [sub.value.0]), sub.value.1[1..]))
      else None
    else None
  }

  /** A connective, `(`, two Formulas or Terms separated by `,`, `)`. */
  function ParseBinary(ts: Tokens): (r: Option<(Node, Tokens)>)
    requires ts != [] && IsConnective(ts[0])
    decreases |ts|, 0
    ensures r.Some? ==> FormulaTree(r.value.0)
    ensures r.Some? ==> |r.value.1| < |ts| && Brackets(r.value.1) == Brackets(ts)
    ensures r.Some? ==> Depth(r.value.1) == Depth(ts)
  {
    if |ts| >= 2 && ts[1] == "(" then
      var left := ParseFormulaOrTerm(ts[2..]);
      if left.Some? && left.value.1 != [] && left.value.1[0] == "," then
        var right := ParseFormulaOrTerm(left.value.1[1..]);
        if right.Some? && right.value.1 != [] && right.value.1[0] == ")" then
          BracketsSkip(ts, 2);
          assert ts[1..][1..] == ts[2..];
          BracketsSkip(left.value.1, 1);
          CloseDrop(right.value.1);
          Some((Node(ts[0], [left.value.0, right.value.0]), right.value.1[1..]))
        else None
      else None
    else None
  }

  /** `(`, a Formula, `)`: the parentheses leave no node of their own. */
  function ParseParenthesized(ts: Tokens): (r: Option<(Node, Tokens)>)
    requires ts != [] && ts[0] == "("
    decreases |ts|, 0
    ensures r.Some? ==> FormulaTree(r.value.0)
    ensures r.Some? ==> |r.value.1| < |ts| && Brackets(r.value.1) == Brackets(ts)
    ensures r.Some? ==> Depth(r.value.1) == Depth(ts)
  {
    var sub := ParseFormula(ts[1..]);
    if sub.Some? && sub.value.1 != [] && sub.value.1[0] == ")" then
      CloseDrop(sub.value.1);
      Some((sub.value.0, sub.value.1[1..]))
    else None
  }

  /** A predicate name with an optional argument list. */
  function ParsePredicate(ts: Tokens): (r: Option<(Node, Tokens)>)
    requires ts != [] && IsPredicateName(ts[0])
    decreases |ts|, 0
    ensures r.Some? ==> FormulaTree(r.value.0)
    ensures r.Some? ==> |r.value.1| < |ts| && Brackets(r.value.1) == Brackets(ts)
    ensures r.Some? ==> Depth(r.value.1) == Depth(ts)
  {
    assert ts[0] != "[" && ts[0] != "]" && ts[0] != "(" && ts[0] != ")" by {
      assert IsUpper(ts[0][0]);
    }
    if |ts| >= 2 && ts[1] == "(" then
      var args := ParseArgs(ts[1..]);
      if args.Some? then Some((Node(ts[0], args.value.0), args.value.1)) else None
    else Some((Node(ts[0], []), ts[1..]))
  }

  /** `parse_term`: a numeral, or a lowercase name with an optional argument list. */
  function ParseTerm(ts: Tokens): (r: Option<(Node, Tokens)>)
    decreases |ts|, 1
    ensures r.Some? ==> TermTree(r.value.0)
    ensures r.Some? ==> |r.value.1| < |ts| && Brackets(r.value.1) == Brackets(ts)
    ensures r.Some? ==> Depth(r.value.1) == Depth(ts)
  {
    if ts == [] then None
    else
      var t := ts[0];
      if IsNumeral(t) then
        assert t != "[" && t != "]" by { assert IsDigit(t[0]); }
        Some((Node(t, []), ts[1..]))
      else if IsLowerName(t) then
        if |ts| >= 2 && ts[1] == "(" then
          var args := ParseArgs(ts[1..]);
          if args.Some? then Some((Node(t, args.value.0), args.value.1)) else None
        else Some((Node(t, []), ts[1..]))
      else None
  }

  /** `parse_formula_or_term`: a Formula if one parses here, otherwise a Term from the
      same position. */
  function ParseFormulaOrTerm(ts: Tokens): (r: Option<(Node, Tokens)>)
    decreases |ts|, 2
    ensures r.Some? ==> FormulaOrTermTree(r.value.0)
    ensures r.Some? ==> |r.value.1| < |ts| && Brackets(r.value.1) == Brackets(ts)
    ensures r.Some? ==> Depth(r.value.1) == Depth(ts)
  {
    var f := ParseFormula(ts);
    if f.Some? then f else ParseTerm(ts)
  }

  /** `parse_args`: `(`, then `)` for an empty list, or arguments separated by `,` and
      closed by `)`. */
  function ParseArgs(ts: Tokens): (r: Option<(seq<Node>, Tokens)>)
    decreases |ts|, 0
    ensures r.Some? ==> AllFormulaOrTerm(r.value.0)
    ensures r.Some? ==> |r.value.1| < |ts| && Brackets(r.value.1) == Brackets(ts)
    ensures r.Some? ==> Depth(r.value.1) == Depth(ts)
  {
    if ts == [] || ts[0] != "(" then None
    else if |ts| >= 2 && ts[1] == ")" then Some(([], ts[2..]))
    else ArgList(ts[1..], [])
  }

  /** The argument loop: one argument, then `,` to continue or `)` to stop. */
  function ArgList(ts: Tokens, acc: seq<Node>): (r: Option<(seq<Node>, Tokens)>)
    requires AllFormulaOrTerm(acc)
    decreases |ts|, 3
    ensures r.Some? ==> AllFormulaOrTerm(r.value.0)
    ensures r.Some? ==> |r.value.1| < |ts| && Brackets(r.value.1) == Brackets(ts)
    ensures r.Some? ==> Depth(r.value.1) == Depth(ts) + 1
  {
    if ts == [] then None
    else
      var arg := ParseFormulaOrTerm(ts);
      if arg.None? then None
      else
        var rest := arg.value.1;
        if rest != [] && rest[0] == "," then ArgList(rest[1..], acc + [arg.value.0])
        else if rest != [] && rest[0] == ")" then Some((acc + [arg.value.0], rest[1..]))
        else None
  }

  // ----- Classification -----

  datatype Kind = Formula | Term | Neither

  /** The three answers, as the source prints them. */
  function KindName(k: Kind): string {
    match k
    case Formula => "Formula"
    case Term => "Term"
    case Neither => "None"
  }

  /** True when the production succeeded and used up every token. */
  predicate Complete(r: Option<(Node, Tokens)>) {
    r.Some? && r.value.1 == []
  }

  /** `parse`: Formula from the start; failing that, Term from the start again. */
  function Classify(ts: Tokens): (k: Kind)
    ensures ts == [] ==> k == Neither
    ensures k == Formula <==> ts != [] && Complete(ParseFormula(ts))
    ensures k == Term <==> ts != [] && !Complete(ParseFormula(ts)) && Complete(ParseTerm(ts))
    ensures k == Neither <==> ts == [] || (!Complete(ParseFormula(ts)) && !Complete(ParseTerm(ts)))
  {
    if ts == [] then Neither
    else if Complete(ParseFormula(ts)) then Formula
    else if Complete(ParseTerm(ts)) then Term
    else Neither
  }

  /** `input_str.replace(" ", "")` */
  function RemoveSpaces(s: string): (r: string)
    ensures forall i :: 0 <= i < |r| ==> r[i] != ' '
    ensures |r| <= |s|
  {
    if s == [] then "" else (if s[0] == ' ' then "" else [s[0]]) + RemoveSpaces(s[1..])
  }

  /** `check_well_formed`: exactly one of "Formula", "Term", "None". */
  function CheckWellFormed(input: string): (r: string)
    ensures r == "Formula" || r == "Term" || r == "None"
  {
    KindName(Classify(Tokenize(RemoveSpaces(input))))
  }

  // ----- Printing trees as tokens, and parsing them back -----

  /** The tokens of a label: a quantifier label splits into its symbol and its variable. */
  function LabelTokens(v: string): Tokens {
    if |v| >= 2 && (v[0] == Forall || v[0] == Exists) then [v[..1], v[1..]] else [v]
  }

  /** The token list of the prefix notation of a tree. */
  function TokensOf(n: Node): Tokens {
    LabelTokens(n.value) + (if n.children == [] then [] else ["("] + ArgTokens(n.children) + [")"])
  }

  function ArgTokens(cs: seq<Node>): Tokens
    requires cs != []
  {
    if |cs| == 1 then TokensOf(cs[0]) else TokensOf(cs[0]) + [","] + ArgTokens(cs[1..])
  }

  /** What may follow a complete argument in the token stream. */
  predicate CanFollow(rest: Tokens) {
    rest == [] || rest[0] == "," || rest[0] == ")"
  }

  /** A Term's first token is a numeral or a lowercase name, which no Formula production
      accepts. */
  lemma TermIsNoFormula(n: Node, rest: Tokens)
    requires TermTree(n)
    ensures ParseFormula(TokensOf(n) + rest) == None
  {
    var ts := TokensOf(n) + rest;
    var t := n.value;
    assert LabelTokens(t) == [t] by {
      assert IsDigit(t[0]) || IsLower(t[0]);
    }
    assert ts[0] == t;
    assert IsDigit(t[0]) || IsLower(t[0]);
    assert t != "@" && t != "#" && t != "!" && t != "(" && !IsConnective(t) && !IsPredicateName(t);
  }

  lemma {:induction false} FormulaRoundTrip(n: Node, rest: Tokens)
    requires FormulaTree(n) && CanFollow(rest)
    decreases n, 1
    ensures ParseFormula(TokensOf(n) + rest) == Some((n, rest))
  {
    if IsQuantifierLabel(n.value) {
      QuantifierRoundTrip(n, rest);
    } else if n.value == Negation {
      NegationRoundTrip(n, rest);
    } else if IsConnective(n.value) {
      ConnectiveRoundTrip(n, rest);
    } else {
      PredicateRoundTrip(n, rest);
    }
  }

  /** The tokens of a node with children: its label tokens, `(`, the argument tokens, `)`. */
  lemma WrappedTokens(n: Node, rest: Tokens)
    requires n.children != []
    ensures var ts := TokensOf(n) + rest; var k := |LabelTokens(n.value)|;
      |ts| > k + 1 && ts[..k] == LabelTokens(n.value) && ts[k] == "("
      && ts[k + 1..] == ArgTokens(n.children) + ([")"] + rest)
  {
    var head, inner := LabelTokens(n.value), ArgTokens(n.children);
    var ts := TokensOf(n) + rest;
    assert TokensOf(n) == head + (["("] + inner + [")"]);
    assert ts == head + (["("] + (inner + ([")"] + rest)));
  }

  /** Regrouping the tokens of a two-argument list followed by more tokens. */
  lemma PairTokens(x: Tokens, y: Tokens, tail: Tokens)
    ensures (x + [","] + y) + tail == x + ([","] + (y + tail))
  {
  }

  lemma {:induction false} QuantifierRoundTrip(n: Node, rest: Tokens)
    requires IsQuantifierLabel(n.value) && |n.children| == 1 && FormulaTree(n.children[0])
    requires CanFollow(rest)
    decreases n, 0
    ensures ParseFormula(TokensOf(n) + rest) == Some((n, rest))
  {
    var ts := TokensOf(n) + rest;
    var v := n.value;
    var c := n.children[0];
    var after := [")"] + rest;
    assert ArgTokens(n.children) == TokensOf(c);
    assert LabelTokens(v) == [v[..1], v[1..]];
    WrappedTokens(n, rest);
    assert ts[..2] == [v[..1], v[1..]];
    assert ts[0] == v[..1] && ts[1] == v[1..];
    assert v[..1] == [v[0]];
    assert ts[0] == "@" || ts[0] == "#";
    assert IsBindable(ts[1]) && ts[2] == "(";
    assert ts[3..] == TokensOf(c) + after;
    FormulaRoundTrip(c, after);
    assert v[..1] + v[1..] == v;
    assert n == Node(ts[0] + ts[1], [c]);
    assert after[1..] == rest;
    assert ParseQuantified(ts) == Some((n, rest));
  }

  lemma {:induction false} NegationRoundTrip(n: Node, rest: Tokens)
    requires n.value == Negation && |n.children| == 1 && FormulaTree(n.children[0])
    requires CanFollow(rest)
    decreases n, 0
    ensures ParseFormula(TokensOf(n) + rest) == Some((n, rest))
  {
    var ts := TokensOf(n) + rest;
    var v := n.value;
    var c := n.children[0];
    var after := [")"] + rest;
    assert LabelTokens(v) == [v];
    assert ArgTokens(n.children) == TokensOf(c);
    WrappedTokens(n, rest);
    assert ts[..1] == [v];
    assert ts[0] == "!" && ts[1] == "(";
    assert n == Node(v, [c]);
    assert ts[2..] == TokensOf(c) + after;
    FormulaRoundTrip(c, after);
    assert after[1..] == rest;
    assert ParseNegated(ts) == Some((n, rest));
  }

  lemma {:induction false} ConnectiveRoundTrip(n: Node, rest: Tokens)
    requires IsConnective(n.value) && |n.children| == 2
    requires FormulaOrTermTree(n.children[0]) && FormulaOrTermTree(n.children[1])
    requires CanFollow(rest)
    decreases n, 0
    ensures ParseFormula(TokensOf(n) + rest) == Some((n, rest))
  {
    var ts := TokensOf(n) + rest;
    var v := n.value;
    var a, b := n.children[0], n.children[1];
    assert n == Node(v, [a, b]);
    assert LabelTokens(v) == [v];
    assert n.children[1..] == [b];
    assert ArgTokens(n.children) == TokensOf(a) + [","] + TokensOf(b);
    var afterB := [")"] + rest;
    var afterA := [","] + (TokensOf(b) + afterB);
    WrappedTokens(n, rest);
    assert ts[..1] == [v];
    assert ts[0] == v && ts[1] == "(";
    PairTokens(TokensOf(a), TokensOf(b), afterB);
    assert ts[2..] == TokensOf(a) + afterA;
    FormulaOrTermRoundTrip(a, afterA);
    assert afterA[1..] == TokensOf(b) + afterB;
    FormulaOrTermRoundTrip(b, afterB);
    assert afterB[1..] == rest;
    ParseConnective(ts, a, afterA, b, afterB);
  }

  /** One step of the connective production, with the two argument parses given. */
  lemma ParseConnective(ts: Tokens, a: Node, afterA: Tokens, b: Node, afterB: Tokens)
    requires |ts| >= 2 && IsConnective(ts[0]) && ts[1] == "("
    requires ParseFormulaOrTerm(ts[2..]) == Some((a, afterA)) && afterA != [] && afterA[0] == ","
    requires ParseFormulaOrTerm(afterA[1..]) == Some((b, afterB)) && afterB != [] && afterB[0] == ")"
    ensures ParseFormula(ts) == Some((Node(ts[0], [a, b]), afterB[1..]))
  {
    assert ParseFormula(ts) == ParseBinary(ts);
  }

  /** An opening parenthesis not followed by `)` starts the argument loop. */
  lemma ParseArgsOpen(inner: Tokens)
    requires inner != [] && inner[0] != ")"
    ensures ParseArgs(["("] + inner) == ArgList(inner, [])
  {
    assert (["("] + inner)[1..] == inner;
  }

  lemma {:induction false} PredicateRoundTrip(n: Node, rest: Tokens)
    requires IsPredicateName(n.value) && AllFormulaOrTerm(n.children)
    requires CanFollow(rest)
    decreases n, 0
    ensures ParseFormula(TokensOf(n) + rest) == Some((n, rest))
  {
    var ts := TokensOf(n) + rest;
    var v := n.value;
    assert LabelTokens(v) == [v] by {
      assert IsUpper(v[0]);
    }
    assert v != "@" && v != "#" && v != "!" && v != "(" && !IsConnective(v) by {
      assert IsUpper(v[0]);
    }
    assert ts[0] == v;
    assert ParseFormula(ts) == ParsePredicate(ts);
    if n.children == [] {
      assert ts == [v] + rest;
      assert ts[1..] == rest;
      assert rest == [] || rest[0] != "(";
    } else {
      var inner := ArgTokens(n.children) + [")"] + rest;
      assert ts == [v] + (["("] + inner);
      assert ts[1..] == ["("] + inner;
      ArgTokensHead(n.children);
      ParseArgsOpen(inner);
      ArgListRoundTrip(n.children, [], rest);
      assert [] + n.children == n.children;
      assert ParseArgs(ts[1..]) == Some((n.children, rest));
    }
  }

  lemma {:induction false} TermRoundTrip(n: Node, rest: Tokens)
    requires TermTree(n) && CanFollow(rest)
    decreases n, 0
    ensures ParseTerm(TokensOf(n) + rest) == Some((n, rest))
  {
    var ts := TokensOf(n) + rest;
    var v := n.value;
    assert LabelTokens(v) == [v] by {
      assert IsDigit(v[0]) || IsLower(v[0]);
    }
    assert ts[0] == v;
    if n.children == [] {
      assert ts == [v] + rest;
      assert ts[1..] == rest;
      assert rest == [] || rest[0] != "(";
    } else {
      assert !IsNumeral(v);
      var inner := ArgTokens(n.children) + [")"] + rest;
      assert ts == [v] + (["("] + inner);
      assert ts[1..] == ["("] + inner;
      ArgTokensHead(n.children);
      ParseArgsOpen(inner);
      ArgListRoundTrip(n.children, [], rest);
      assert [] + n.children == n.children;
      assert ParseArgs(ts[1..]) == Some((n.children, rest));
    }
  }

  lemma {:induction false} FormulaOrTermRoundTrip(n: Node, rest: Tokens)
    requires FormulaOrTermTree(n) && CanFollow(rest)
    decreases n, 2
    ensures ParseFormulaOrTerm(TokensOf(n) + rest) == Some((n, rest))
  {
    if FormulaTree(n) {
      FormulaRoundTrip(n, rest);
    } else {
      TermIsNoFormula(n, rest);
      TermRoundTrip(n, rest);
    }
  }

  /** One step of the argument loop, with the argument's parse given. */
  lemma ArgListStep(ts: Tokens, acc: seq<Node>, c: Node, after: Tokens)
    requires ts != [] && AllFormulaOrTerm(acc)
    requires ParseFormulaOrTerm(ts) == Some((c, after)) && after != []
    ensures after[0] == "," ==> ArgList(ts, acc) == ArgList(after[1..], acc + [c])
    ensures after[0] == ")" ==> ArgList(ts, acc) == Some((acc + [c], after[1..]))
  {
  }

  /** The last argument of a list, followed by `)`. */
  lemma LastArgRoundTrip(c: Node, acc: seq<Node>, rest: Tokens)
    requires FormulaOrTermTree(c) && AllFormulaOrTerm(acc)
    decreases c, 3
    ensures ArgList(ArgTokens([c]) + [")"] + rest, acc) == Some((acc + [c], rest))
  {
    var after := [")"] + rest;
    var ts := ArgTokens([c]) + [")"] + rest;
    assert ArgTokens([c]) == TokensOf(c);
    AppendAssoc(TokensOf(c), [")"], rest);
    FormulaOrTermRoundTrip(c, after);
    ArgListStep(ts, acc, c, after);
    assert after[1..] == rest;
  }

  lemma {:induction false} ArgListRoundTrip(cs: seq<Node>, acc: seq<Node>, rest: Tokens)
    requires cs != [] && AllFormulaOrTerm(cs) && AllFormulaOrTerm(acc)
    decreases cs
    ensures ArgList(ArgTokens(cs) + [")"] + rest, acc) == Some((acc + cs, rest))
  {
    var ts := ArgTokens(cs) + [")"] + rest;
    var c := cs[0];
    assert FormulaOrTermTree(c);
    if |cs| == 1 {
      assert cs == [c];
      LastArgRoundTrip(c, acc, rest);
    } else {
      var tail := ArgTokens(cs[1..]) + [")"] + rest;
      var after := [","] + tail;
      assert ArgTokens(cs) == TokensOf(c) + [","] + ArgTokens(cs[1..]);
      AppendAssoc(ArgTokens(cs), [")"], rest);
      AppendAssoc(TokensOf(c) + [","], ArgTokens(cs[1..]), [")"] + rest);
      AppendAssoc(TokensOf(c), [","], ArgTokens(cs[1..]) + ([")"] + rest));
      AppendAssoc(ArgTokens(cs[1..]), [")"], rest);
      assert ts == TokensOf(c) + after;
      FormulaOrTermRoundTrip(c, after);
      ArgListStep(ts, acc, c, after);
      assert after[1..] == tail;
      assert AllFormulaOrTerm(acc + [c]);
      assert AllFormulaOrTerm(cs[1..]);
      ArgListRoundTrip(cs[1..], acc + [c], rest);
      AppendAssoc(acc, [c], cs[1..]);
      assert [c] + cs[1..] == cs;
    }
  }

  /** An argument list starts with the first token of its first argument, never `)`. */
  lemma ArgTokensHead(cs: seq<Node>)
    requires cs != [] && AllFormulaOrTerm(cs)
    ensures ArgTokens(cs) != [] && ArgTokens(cs)[0] == LabelTokens(cs[0].value)[0]
    ensures ArgTokens(cs)[0] != ")"
  {
    var v := cs[0].value;
    assert FormulaOrTermTree(cs[0]);
    assert FormulaTree(cs[0]) || TermTree(cs[0]);
    assert |v| >= 1 && v[0] != ')' by {
      if IsPredicateName(v) {
        assert IsUpper(v[0]);
      } else if IsNumeral(v) {
        assert IsDigit(v[0]);
      } else if IsLowerName(v) {
        assert IsLower(v[0]);
      }
    }
    if |v| >= 2 && (v[0] == Forall || v[0] == Exists) {
      assert v[..1] == [v[0]];
    } else {
      assert LabelTokens(v)[0] == v;
    }
  }

  // ----- The printed tokens spell the prefix string and are what the tokenizer returns -----

  lemma ConcatLabel(v: string)
    ensures Concat(LabelTokens(v)) == v
  {
    if |v| >= 2 && (v[0] == Forall || v[0] == Exists) {
      ConcatCons(v[..1], [v[1..]]);
      ConcatSingleton(v[1..]);
      assert v[..1] + v[1..] == v;
    } else {
      ConcatSingleton(v);
    }
  }

  lemma {:induction false} TokensSpellPrefix(n: Node)
    decreases n, 1
    ensures Concat(TokensOf(n)) == Prefix(n)
  {
    ConcatLabel(n.value);
    if n.children != [] {
      var inner := ["("] + ArgTokens(n.children) + [")"];
      ConcatAppend(LabelTokens(n.value), inner);
      ConcatAppend(["("] + ArgTokens(n.children), [")"]);
      ConcatAppend(["("], ArgTokens(n.children));
      ConcatSingleton("(");
      ConcatSingleton(")");
      ArgTokensSpell(n.children);
    } else {
      assert TokensOf(n) == LabelTokens(n.value);
    }
  }

  lemma {:induction false} ArgTokensSpell(cs: seq<Node>)
    requires cs != []
    decreases cs, 0
    ensures Concat(ArgTokens(cs)) == PrefixList(cs)
  {
    TokensSpellPrefix(cs[0]);
    if |cs| > 1 {
      ConcatAppend(TokensOf(cs[0]) + [","], ArgTokens(cs[1..]));
      ConcatAppend(TokensOf(cs[0]), [","]);
      ConcatSingleton(",");
      ArgTokensSpell(cs[1..]);
    }
  }

  /** Token lists the tokenizer could have produced: well-shaped and maximal. */
  predicate Lexable(ts: Tokens) {
    AllWellShaped(ts) && Maximal(ts)
  }

  /** Two lexable lists stay lexable when a symbol sits on one side of the seam. */
  lemma LexableJoin(xs: Tokens, ys: Tokens)
    requires Lexable(xs) && Lexable(ys)
    requires xs != [] && ys != [] ==> IsSymbolToken(xs[|xs| - 1]) || IsSymbolToken(ys[0])
    ensures Lexable(xs + ys)
  {
    var us := xs + ys;
    forall i | 0 <= i < |us| ensures WellShaped(us[i]) {
      if i >= |xs| {
        assert us[i] == ys[i - |xs|];
      }
    }
    forall i | 0 <= i < |us| - 1 ensures Separated(us[i], us[i + 1]) {
      if i + 1 < |xs| {
      } else if i >= |xs| {
        assert us[i] == ys[i - |xs|] && us[i + 1] == ys[i + 1 - |xs|];
      } else {
        assert us[i] == xs[|xs| - 1] && us[i + 1] == ys[0];
        var a, b := us[i], us[i + 1];
        if IsSymbolToken(a) {
          assert !IsAlpha(a[0]) && !IsDigit(a[0]);
        } else {
          assert !IsIdentChar(b[0]);
        }
      }
    }
  }

  lemma SymbolLexable(t: string)
    requires IsSymbolToken(t)
    ensures Lexable([t])
  {
  }

  lemma LabelLexable(n: Node)
    requires FormulaOrTermTree(n)
    ensures Lexable(LabelTokens(n.value))
  {
    var v := n.value;
    assert FormulaTree(n) || TermTree(n);
    if IsQuantifierLabel(v) {
      assert v[..1] == [v[0]];
      assert IsSymbolToken(v[..1]);
      assert IsIdentifier(v[1..]);
      assert LabelTokens(v) == [v[..1], v[1..]];
    } else if IsPredicateName(v) || IsLowerName(v) {
      assert IsIdentifier(v);
      assert LabelTokens(v) == [v] by { assert IsAlpha(v[0]); }
    } else if IsNumeral(v) {
      assert LabelTokens(v) == [v] by { assert IsDigit(v[0]); }
    } else {
      assert IsSymbolToken(v);
      assert LabelTokens(v) == [v];
    }
  }

  lemma {:induction false} TokensLexable(n: Node)
    requires FormulaOrTermTree(n)
    decreases n, 1
    ensures Lexable(TokensOf(n)) && TokensOf(n) != []
  {
    LabelLexable(n);
    assert LabelTokens(n.value) != [];
    if n.children != [] {
      assert FormulaTree(n) || TermTree(n);
      assert AllFormulaOrTerm(n.children);
      ArgTokensLexable(n.children);
      LexableJoin(["("], ArgTokens(n.children));
      LexableJoin(["("] + ArgTokens(n.children), [")"]);
      LexableJoin(LabelTokens(n.value), ["("] + ArgTokens(n.children) + [")"]);
    } else {
      assert TokensOf(n) == LabelTokens(n.value);
    }
  }

  lemma {:induction false} ArgTokensLexable(cs: seq<Node>)
    requires cs != [] && AllFormulaOrTerm(cs)
    decreases cs, 0
    ensures Lexable(ArgTokens(cs))
  {
    TokensLexable(cs[0]);
    if |cs| > 1 {
      ArgTokensLexable(cs[1..]);
      LexableJoin(TokensOf(cs[0]), [","]);
      LexableJoin(TokensOf(cs[0]) + [","], ArgTokens(cs[1..]));
    }
  }

  lemma {:induction false} RemoveSpacesKeeps(s: string)
    requires forall i :: 0 <= i < |s| ==> s[i] != ' '
    ensures RemoveSpaces(s) == s
  {
    if s != [] {
      RemoveSpacesKeeps(s[1..]);
      assert [s[0]] + s[1..] == s;
    }
  }

  /** The tokenizer splits the printed prefix string of a grammar tree into its tokens. */
  lemma PrintedTokens(n: Node)
    requires FormulaOrTermTree(n)
    ensures Tokenize(RemoveSpaces(Prefix(n))) == TokensOf(n)
  {
    TokensLexable(n);
    TokensSpellPrefix(n);
    LexUnique(TokensOf(n));
    var s := Prefix(n);
    assert Lex(s) == Some(TokensOf(n));
    assert forall i :: 0 <= i < |s| ==> IsTokenChar(s[i]);
    RemoveSpacesKeeps(s);
  }

  /** `check_well_formed` calls the printed form of every Formula tree a Formula ... */
  lemma PrintedFormulaIsFormula(n: Node)
    requires FormulaTree(n)
    ensures CheckWellFormed(Prefix(n)) == "Formula"
  {
    PrintedTokens(n);
    FormulaRoundTrip(n, []);
    assert TokensOf(n) + [] == TokensOf(n);
    TokensLexable(n);
  }

  /** ... and the printed form of every Term tree a Term. */
  lemma PrintedTermIsTerm(n: Node)
    requires TermTree(n)
    ensures CheckWellFormed(Prefix(n)) == "Term"
  {
    PrintedTokens(n);
    TermIsNoFormula(n, []);
    TermRoundTrip(n, []);
    assert TokensOf(n) + [] == TokensOf(n);
    TokensLexable(n);
  }

  // ----- What an accepted input looks like -----

  /** A production that used up every token leaves the brackets and parentheses balanced,
      and builds a tree of its own grammar. */
  lemma ClassifySound(ts: Tokens)
    requires Classify(ts) != Neither
    ensures Brackets(ts) == 0 && Depth(ts) == 0
    ensures Classify(ts) == Formula ==> FormulaTree(ParseFormula(ts).value.0)
    ensures Classify(ts) == Term ==> TermTree(ParseTerm(ts).value.0)
  {
    assert Brackets([]) == 0 && Depth([]) == 0;
  }

  /** A token holds a symbol character only if it is that symbol. */
  lemma TokenCharCount(t: string, c: char)
    requires WellShaped(t) && IsSymbolChar(c)
    ensures Count(c, t) == (if t == [c] then 1 else 0)
  {
    if IsSymbolToken(t) {
      assert t[1..] == [];
    } else {
      forall i | 0 <= i < |t| ensures t[i] != c {
        if IsNumeral(t) {
          assert IsDigit(t[i]);
        } else if i > 0 {
          assert IsIdentChar(t[i]);
        } else {
          assert IsAlpha(t[0]);
        }
      }
      CountAbsent(c, t);
    }
  }

  /** The parenthesis and bracket counts of a token list agree with those of its text. */
  lemma {:induction false} TokensCount(ts: Tokens)
    requires AllWellShaped(ts)
    ensures Count('(', Concat(ts)) - Count(')', Concat(ts)) == Depth(ts)
    ensures Count('[', Concat(ts)) + Count(']', Concat(ts)) == Brackets(ts)
  {
    if ts != [] {
      var t, tail := ts[0], Concat(ts[1..]);
      assert AllWellShaped(ts[1..]) by {
        forall i | 0 <= i < |ts[1..]| ensures WellShaped(ts[1..][i]) {
          assert ts[1..][i] == ts[i + 1];
        }
      }
      TokensCount(ts[1..]);
      assert WellShaped(t);
      CountAppend('(', t, tail);
      CountAppend(')', t, tail);
      CountAppend('[', t, tail);
      CountAppend(']', t, tail);
      TokenCharCount(t, '(');
      TokenCharCount(t, ')');
      TokenCharCount(t, '[');
      TokenCharCount(t, ']');
    }
  }

  lemma {:induction false} RemoveSpacesCount(c: char, s: string)
    requires c != ' '
    ensures Count(c, RemoveSpaces(s)) == Count(c, s)
  {
    if s != [] {
      RemoveSpacesCount(c, s[1..]);
      var head := if s[0] == ' ' then "" else [s[0]];
      CountAppend(c, head, RemoveSpaces(s[1..]));
      if s[0] != ' ' {
        assert [s[0]][1..] == [];
      }
    }
  }

  /** An input classified as a Formula or a Term has as many `(` as `)` and no `[` or `]`. */
  lemma AcceptedIsBalanced(input: string)
    requires CheckWellFormed(input) != "None"
    ensures Count('(', input) == Count(')', input)
    ensures Count('[', input) == 0 && Count(']', input) == 0
  {
    var u := RemoveSpaces(input);
    var ts := Tokenize(u);
    assert Classify(ts) != Neither;
    assert ts != [];
    assert Lex(u) == Some(ts);
    TokensCount(ts);
    ClassifySound(ts);
    RemoveSpacesCount('(', input);
    RemoveSpacesCount(')', input);
    RemoveSpacesCount('[', input);
    RemoveSpacesCount(']', input);
  }

  // ----- Worked examples -----

  lemma QuantifiedPredicateIsFormula()
    ensures CheckWellFormed("@x(P(x))") == "Formula"
  {
    var x := Node("x", []);
    var p := Node("P", [x]);
    var n := Node("@x", [p]);
    assert TermTree(x) by { assert IsLowerName("x"); }
    assert FormulaTree(p) by { assert IsPredicateName("P"); }
    assert FormulaTree(n) by { assert IsQuantifierLabel("@x"); }
    assert Prefix(x) == "x";
    assert PrefixList([x]) == "x";
    assert Prefix(p) == "P(x)";
    assert PrefixList([p]) == "P(x)";
    assert Prefix(n) == "@x(P(x))";
    PrintedFormulaIsFormula(n);
  }

  lemma FunctionApplicationIsTerm()
    ensures CheckWellFormed("f(x,y)") == "Term"
  {
    var x, y := Node("x", []), Node("y", []);
    var n := Node("f", [x, y]);
    assert TermTree(x) by { assert IsLowerName("x"); }
    assert TermTree(y) by { assert IsLowerName("y"); }
    assert TermTree(n) by { assert IsLowerName("f"); }
    assert Prefix(x) == "x" && Prefix(y) == "y";
    assert [x, y][1..] == [y];
    assert PrefixList([y]) == "y";
    assert PrefixList([x, y]) == "x,y";
    assert Prefix(n) == "f(x,y)";
    PrintedTermIsTerm(n);
  }

  lemma UnclosedQuantifierIsNone()
    ensures CheckWellFormed("@x(P(x)") == "None"
  {
    var s := "@x(P(x)";
    assert Count('(', s) == 2 && Count(')', s) == 1;
    if CheckWellFormed(s) != "None" {
      AcceptedIsBalanced(s);
    }
  }

  /** Input made of one-character tokens, no spaces among them, is tokenized character by
      character. */
  lemma SingleCharInput(s: string)
    requires SingleCharTokens(s)
    ensures Tokenize(RemoveSpaces(s)) == seq(|s|, i requires 0 <= i < |s| => [s[i]])
  {
    forall i | 0 <= i < |s| ensures s[i] != ' ' {
      assert StandsAlone(s, i);
    }
    RemoveSpacesKeeps(s);
    LexSingleCharTokens(s);
  }

  /** A predicate name with `()` is a Formula ... */
  lemma PredicateWithEmptyArguments(p: string)
    requires IsPredicateName(p)
    ensures Classify([p, "(", ")"]) == Formula
  {
    var ts := [p, "(", ")"];
    assert ts[1..] == ["(", ")"] && ["(", ")"][2..] == [];
    assert p != "@" && p != "#" && p != "!" && p != "(" && !IsConnective(p) by {
      assert IsUpper(p[0]);
    }
    assert ParsePredicate(ts) == Some((Node(p, []), []));
  }

  /** ... and a lowercase name with `()` a Term. */
  lemma FunctionWithEmptyArguments(f: string)
    requires IsLowerName(f)
    ensures Classify([f, "(", ")"]) == Term
  {
    var ts := [f, "(", ")"];
    assert !IsPredicateName(f) && !IsConnective(f) && !IsNumeral(f) by { assert IsLower(f[0]); }
    assert ParseFormula(ts) == None;
    assert ts[1..] == ["(", ")"] && ["(", ")"][2..] == [];
    assert ParseTerm(ts) == Some((Node(f, []), []));
  }

  /** A lone variable is read as a Term and consumes only itself. */
  lemma VariableOperand(v: string, rest: Tokens)
    requires IsBindable(v) && (rest == [] || rest[0] != "(")
    ensures ParseFormulaOrTerm([v] + rest) == Some((Node(v, []), rest))
  {
    var ts := [v] + rest;
    assert ts[0] == v && ts[1..] == rest;
    assert IsLower(v[0]) && IsLowerName(v);
    assert !IsNumeral(v) && !IsPredicateName(v);
  }

  /** A connective or `=` applied to the variables `x` and `y` is a Formula. */
  lemma VariablePairIsFormula(c: string)
    requires IsConnective(c)
    ensures Classify([c, "(", "x", ",", "y", ")"]) == Formula
  {
    var ts := [c, "(", "x", ",", "y", ")"];
    assert ts[2..] == ["x"] + [",", "y", ")"];
    VariableOperand("x", [",", "y", ")"]);
    assert [",", "y", ")"][1..] == ["y"] + [")"];
    VariableOperand("y", [")"]);
    assert ParseBinary(ts) == Some((Node(c, [Node("x", []), Node("y", [])]), []));
  }

  /** An empty argument list is accepted: `P()` is an atom ... */
  lemma EmptyPredicateArgumentsIsFormula()
    ensures CheckWellFormed("P()") == "Formula"
  {
    var s := "P()";
    assert StandsAlone(s, 0) && StandsAlone(s, 1) && StandsAlone(s, 2);
    SingleCharInput(s);
    assert seq(|s|, i requires 0 <= i < |s| => [s[i]]) == ["P", "(", ")"];
    assert IsPredicateName("P");
    PredicateWithEmptyArguments("P");
  }

  /** ... and `f()` a term. */
  lemma EmptyFunctionArgumentsIsTerm()
    ensures CheckWellFormed("f()") == "Term"
  {
    var s := "f()";
    assert StandsAlone(s, 0) && StandsAlone(s, 1) && StandsAlone(s, 2);
    SingleCharInput(s);
    assert seq(|s|, i requires 0 <= i < |s| => [s[i]]) == ["f", "(", ")"];
    assert IsLowerName("f");
    FunctionWithEmptyArguments("f");
  }

  /** A connective applied to two variables is a formula ... */
  lemma ConjunctionOfVariablesIsFormula()
    ensures CheckWellFormed("&(x,y)") == "Formula"
  {
    var s := "&(x,y)";
    assert StandsAlone(s, 0) && StandsAlone(s, 1) && StandsAlone(s, 2) && StandsAlone(s, 3) && StandsAlone(s, 4) && StandsAlone(s, 5);
    SingleCharInput(s);
    assert seq(|s|, i requires 0 <= i < |s| => [s[i]]) == ["&", "(", "x", ",", "y", ")"];
    VariablePairIsFormula("&");
  }

  /** ... and so is an equation between two variables. */
  lemma EquationOfVariablesIsFormula()
    ensures CheckWellFormed("=(x,y)") == "Formula"
  {
    var s := "=(x,y)";
    assert StandsAlone(s, 0) && StandsAlone(s, 1) && StandsAlone(s, 2) && StandsAlone(s, 3) && StandsAlone(s, 4) && StandsAlone(s, 5);
    SingleCharInput(s);
    assert seq(|s|, i requires 0 <= i < |s| => [s[i]]) == ["=", "(", "x", ",", "y", ")"];
    VariablePairIsFormula("=");
  }

  /** A quantifier binds one lower-case letter only. */
  lemma LongBoundVariableIsNone()
    ensures Classify(["@", "xy", "(", "P", "(", "x", ")", ")"]) == Neither
  {
    assert !IsBindable("xy");
  }

  /** The tokens of `@xy(P(x))` spell it ... */
  lemma LongBoundVariableConcat()
    ensures Concat(["@", "xy", "(", "P", "(", "x", ")", ")"]) == "@xy(P(x))"
  {
    var ts := ["@", "xy", "(", "P", "(", "x", ")", ")"];
    assert Concat(ts[7..]) == ")" by { assert ts[7..] == [")"]; }
    assert Concat(ts[6..]) == "))" by { assert ts[6..][1..] == ts[7..]; }
    assert Concat(ts[5..]) == "x))" by { assert ts[5..][1..] == ts[6..]; }
    assert Concat(ts[4..]) == "(x))" by { assert ts[4..][1..] == ts[5..]; }
    assert Concat(ts[3..]) == "P(x))" by { assert ts[3..][1..] == ts[4..]; }
    assert Concat(ts[2..]) == "(P(x))" by { assert ts[2..][1..] == ts[3..]; }
    assert Concat(ts[1..]) == "xy(P(x))" by { assert ts[1..][1..] == ts[2..]; }
  }

  /** ... are each well-shaped, `xy` being one identifier ... */
  lemma LongBoundVariableShapes()
    ensures AllWellShaped(["@", "xy", "(", "P", "(", "x", ")", ")"])
  {
    assert IsIdentifier("xy") && IsIdentifier("P") && IsIdentifier("x");
    assert IsSymbolToken("@") && IsSymbolToken("(") && IsSymbolToken(")");
  }

  /** ... and no two neighbours could have been one token. */
  lemma LongBoundVariableSeparated()
    ensures Maximal(["@", "xy", "(", "P", "(", "x", ")", ")"])
  {
    assert !IsIdentifier("@") && !IsNumeral("@") by { assert !IsAlpha('@') && !IsDigit('@'); }
    assert !IsNumeral("xy") by { assert !IsDigit("xy"[0]); }
    assert !IsNumeral("P") by { assert !IsDigit("P"[0]); }
    assert !IsNumeral("x") by { assert !IsDigit("x"[0]); }
    assert !IsIdentifier("(") && !IsNumeral("(") by { assert !IsAlpha('(') && !IsDigit('('); }
    assert !IsIdentifier(")") && !IsNumeral(")") by { assert !IsAlpha(')') && !IsDigit(')'); }
    assert !IsIdentChar('(') && !IsIdentChar(')');
    var ts := ["@", "xy", "(", "P", "(", "x", ")", ")"];
    assert Separated(ts[0], ts[1]) && Separated(ts[1], ts[2]) && Separated(ts[2], ts[3]);
    assert Separated(ts[3], ts[4]) && Separated(ts[4], ts[5]) && Separated(ts[5], ts[6]);
    assert Separated(ts[6], ts[7]);
  }

  /** So lexing `@xy(P(x))` gives exactly those tokens ... */
  lemma LongBoundVariableLexed()
    ensures Lex("@xy(P(x))") == Some(["@", "xy", "(", "P", "(", "x", ")", ")"])
  {
    LongBoundVariableConcat();
    LongBoundVariableShapes();
    LongBoundVariableSeparated();
    LexUnique(["@", "xy", "(", "P", "(", "x", ")", ")"]);
  }

  /** ... and, there being no spaces to remove, so does tokenizing it. */
  lemma LongBoundVariableTokenized()
    ensures Tokenize(RemoveSpaces("@xy(P(x))")) == ["@", "xy", "(", "P", "(", "x", ")", ")"]
  {
    var s := "@xy(P(x))";
    assert s[0] != ' ' && s[1] != ' ' && s[2] != ' ' && s[3] != ' ' && s[4] != ' ';
    assert s[5] != ' ' && s[6] != ' ' && s[7] != ' ' && s[8] != ' ';
    RemoveSpacesKeeps(s);
    LongBoundVariableLexed();
  }

  /** `@xy(P(x))` is None: `xy` is read as one token, and a quantifier binds one letter. */
  lemma LongBoundVariableStringIsNone()
    ensures CheckWellFormed("@xy(P(x))") == "None"
  {
    LongBoundVariableTokenized();
    LongBoundVariableIsNone();
  }
}
