# First-order logic expression engine — Dafny model

This project models the core of a small first-order-logic toolkit. Expressions are
trees (`ExpressionTree`) with a string label and a list of children. The labels are:

- `=` equality, `!` negation, `&` conjunction, `|` disjunction, `>` implication;
- `@x` "for all x" and `#x` "there exists x";
- predicate, function, variable and constant names.

The toolkit consists of:

- **tree constructors and printers** (`student_template.py`): the `*_expr` constructors,
  `add_child`, the `left` / `right` / `child` accessors, and the tree, prefix, postfix and
  standard (infix) printers;
- **the well-formedness classifier** (`A/q1.py`): a tokenizer and a backtracking
  recursive-descent parser. It decides whether a string is a `Formula`, a `Term` or `None`;
- **the prefix parser, the signature extractor and the NNF rewriter** (`A/q3.py`):
  - `parse_prefix_string` reads the prefix notation the printer writes;
  - `get_expression_signature_and_variables` sorts the names of a tree into variables,
    functions, constants and predicates;
  - `nnf_simplify` rewrites a formula into negation normal form with the implication,
    double-negation, De Morgan and quantifier-negation rules;
- **the evaluator** (`A/q4.py`): `evaluate_expression` evaluates a formula in a finite
  model. A model has a domain of strings and a table of interpretations. A constant maps
  to a string, a function to a map from comma-joined arguments, and a predicate to a list
  of comma-joined tuples.

Modelling choices:

- Trees are the immutable datatype `Node(value, children)`. Mutation through parent
  pointers becomes functions that return the updated tree.
- In the tokenizer, the parsers, the rewriter and the evaluator, every Python exception
  the code can raise becomes a `None` result (`Option`). These include an `IndexError`
  on a missing child, a `KeyError` on a missing interpretation, and a `TypeError` when
  joining a non-string. The tree accessors and the standard printer are the exception:
  there the `IndexError` on a missing child is a precondition (see Left out).
- Parsers take the remaining input and return what is left, instead of moving a shared
  cursor.
- The pure evaluator `Evaluator.Eval` gives every sub-formula the environment of its
  caller. The source shares one mutable environment. Module `EnvironmentLeak` models that
  as written, shows a formula on which the two differ, and proves a sufficient condition
  for them to agree (see Findings).

Files:

- `wrappers.dfy`: the `Option` type.
- `tree.dfy`: the tree datatype, the alphabet, the constructors and the accessors.
- `printers.dfy`: the four printers, and the traversal orders they are checked against.
- `tokenizer.dfy`: `Parser.tokenize`.
- `classifier.dfy`: `Parser.parse` and its productions, and `check_well_formed`.
- `prefix_parser.dfy`: `parse_prefix_string`.
- `signature.dfy`: `get_expression_signature_and_variables`.
- `nnf.dfy`: `nnf_simplify` and the rewriting `main`.
- `evaluator.dfy`: `evaluate_expression` and the evaluating `main`, with the proof that
  the rewrite preserves truth.
- `env_leak.dfy`: the evaluator with its shared environment, as written.

All source paths below are relative to the repository root.

## Model

| member | source | states |
|---|---|---|
| Tree.BinaryConstructorShape | Submissions/student_template.py:94-103 | the binary constructors build a node labelled with their connective, with exactly two children; `left` and `right` return the two operands |
| Tree.QuantifierConstructorRoundTrip | Submissions/student_template.py:104-107 | `forall_expr(v)` and `exists_expr(v)` carry a label of exactly one quantifier kind, the bound variable is recovered from that label, and the node has the body as its only child |
| Tree.AddChild | Submissions/student_template.py:112-114 | `add_child` keeps the label and the existing children and appends the new child at the end |
| Tree.SetSlot | Submissions/student_template.py:127-129 | setting one child slot changes that slot and no other, and keeps the label and the arity |
| Tree.FirstSlotLaws | Submissions/student_template.py:125-150 | on every node with a first child, including the one-child `!`, `@v` and `#v` nodes, reading `child` or `left` after setting it returns the value set, and setting it to its own value changes nothing |
| Tree.SlotLaws | Submissions/student_template.py:125-150 | on nodes with two children, reading `left`, `right` or `child` after setting it returns the value set; setting `left` or `right` to its own value changes nothing; setting `left` leaves `right` alone and vice versa |
| Printers.PrefixFollowsPreOrder | Submissions/student_template.py:159-166 | deleting the separators from `as_prefix_str` leaves the labels in pre-order |
| Printers.PostfixFollowsPostOrder | Submissions/student_template.py:168-176 | deleting the separators from `as_postfix_str` leaves the labels in post-order |
| Printers.StandardFollowsInOrder | Submissions/student_template.py:178-191 | deleting the separators from `as_standard_str` leaves the labels in symmetric order: left operand, connective, right operand for `=`, `&`, `\|`, `>`, and label before arguments otherwise |
| Printers.Indent | Submissions/student_template.py:153 | the indentation is exactly four spaces per level of depth |
| Printers.TreeStrIsPreOrderListing | Submissions/student_template.py:152-157 | `as_tree_str` prints one line per node, in pre-order, each label indented by its depth; the number of lines is the number of nodes |
| Printers.TreeStrLineCount | Submissions/student_template.py:152-157 | for labels without newlines, the output holds exactly one newline per node |
| Tokenizer.IdentRun | Submissions/A/q1.py:16-18 | the identifier scan stops at the first character that is not a letter, digit or `_`, and everything before it is one |
| Tokenizer.DigitRun | Submissions/A/q1.py:22-24 | the numeral scan stops at the first non-digit |
| Tokenizer.Lex | Submissions/A/q1.py:8-29 | when tokenizing succeeds, the tokens concatenate to the input, each is a symbol, identifier or numeral, and no two neighbours could be one longer token; it succeeds whenever every character is a symbol, letter or digit |
| Tokenizer.LexUnique | Submissions/A/q1.py:8-29 | any list of well-shaped, maximally separated tokens is exactly what tokenizing their concatenation returns |
| Tokenizer.BadCharacterFails | Submissions/A/q1.py:27-28 | a character that can occur in no token anywhere in the input makes the tokenizer return the empty list |
| Tokenizer.LeadingUnderscoreFails | Submissions/A/q1.py:12-28 | `_` can continue an identifier but cannot start a token |
| Tokenizer.TokenizeConcat | Submissions/A/q1.py:8-29 | a non-empty token list spells the input |
| Tokenizer.TokenizeLoop | Submissions/A/q1.py:8-29 | the while loop with its inner scans returns the token list of the recursive definition |
| Tokenizer.ScanIdentifier | Submissions/A/q1.py:16-18 | the inner loop ends after the maximal identifier run |
| Tokenizer.ScanNumeral | Submissions/A/q1.py:22-24 | the inner loop ends after the maximal digit run |
| Tokenizer.LexSymbolFirst | Submissions/A/q1.py:12-14 | a leading symbol character is a token of its own, followed by the tokens of the rest |
| Tokenizer.LexLetterFirst | Submissions/A/q1.py:15-19 | a leading letter not followed by a letter, digit or `_` is a one-letter token |
| Tokenizer.LexSingleCharTokens | Submissions/A/q1.py:8-29 | a string of symbols and letters, no letter followed by a letter, digit or `_`, is split into its characters |
| Classifier.ParseFormula | Submissions/A/q1.py:51-108 | a successful formula parse builds a tree of the formula grammar, consumes at least one token, and consumes balanced parentheses and no brackets |
| Classifier.ParseQuantified | Submissions/A/q1.py:57-66 | `@`/`#`, one lowercase letter, and a parenthesised formula give a quantifier tree; parentheses stay balanced |
| Classifier.ParseNegated | Submissions/A/q1.py:68-73 | `!` with a parenthesised formula gives a negation tree; parentheses stay balanced |
| Classifier.ParseBinary | Submissions/A/q1.py:75-84 | a connective with two comma-separated formulas-or-terms in parentheses gives a binary tree; parentheses stay balanced |
| Classifier.ParseParenthesized | Submissions/A/q1.py:86-91 | a formula in redundant parentheses gives a tree of the formula grammar; parentheses stay balanced |
| Classifier.ParsePredicate | Submissions/A/q1.py:93-102 | an uppercase name, with an optional argument list of formulas or terms, gives a tree of the formula grammar; parentheses stay balanced |
| Classifier.ParseTerm | Submissions/A/q1.py:118-139 | a successful term parse builds a tree of the term grammar and consumes balanced parentheses |
| Classifier.ParseFormulaOrTerm | Submissions/A/q1.py:110-116 | the backtracking choice yields a formula-or-term tree and consumes balanced parentheses |
| Classifier.ParseArgs | Submissions/A/q1.py:141-146 | an argument list in parentheses yields formula-or-term trees and consumes balanced parentheses |
| Classifier.ArgList | Submissions/A/q1.py:147-160 | the argument loop, started inside an open parenthesis, consumes exactly one more `)` than `(` |
| Classifier.Classify | Submissions/A/q1.py:31-49 | an empty token list is `None`; otherwise the verdict is `Formula` exactly when the formula parse consumes every token, `Term` exactly when it does not but the term parse does, and `None` exactly when neither does |
| Classifier.RemoveSpaces | Submissions/A/q1.py:5 | no space survives and the string does not grow |
| Classifier.RemoveSpacesCount | Submissions/A/q1.py:5 | removing spaces keeps the number of every other character |
| Classifier.CheckWellFormed | Submissions/A/q1.py:178-180 | the verdict is one of `Formula`, `Term`, `None` |
| Classifier.FormulaRoundTrip | Submissions/A/q1.py:51-108 | the formula parse of a formula tree's tokens, followed by end of input, `,` or `)`, returns that tree and the rest |
| Classifier.TermRoundTrip | Submissions/A/q1.py:118-139 | the term parse of a term tree's tokens returns that tree and the rest |
| Classifier.FormulaOrTermRoundTrip | Submissions/A/q1.py:110-116 | the backtracking choice returns the tree whose tokens it reads, formula or term |
| Classifier.ArgListRoundTrip | Submissions/A/q1.py:147-160 | the argument loop reads back every argument of a printed argument list, in order |
| Classifier.TermIsNoFormula | Submissions/A/q1.py:51-108 | the tokens of a term never parse as a formula, so a term is classified `Term` and not `Formula` |
| Classifier.PrintedTokens | Submissions/A/q1.py:5-29 | tokenizing the prefix print of a grammar tree gives exactly that tree's token list |
| Classifier.PrintedFormulaIsFormula | Submissions/A/q1.py:178-180 | the prefix print of every formula tree is classified `Formula` |
| Classifier.PrintedTermIsTerm | Submissions/A/q1.py:178-180 | the prefix print of every term tree is classified `Term` |
| Classifier.ClassifySound | Submissions/A/q1.py:31-49 | an accepted token list has balanced parentheses and no brackets, and its parse tree belongs to the grammar of its verdict |
| Classifier.AcceptedIsBalanced | Submissions/A/q1.py:178-180 | an accepted string has as many `(` as `)` and no `[` or `]` |
| Classifier.QuantifiedPredicateIsFormula | Submissions/A/q1.py:178-180 | `@x(P(x))` is a Formula |
| Classifier.FunctionApplicationIsTerm | Submissions/A/q1.py:178-180 | `f(x,y)` is a Term |
| Classifier.UnclosedQuantifierIsNone | Submissions/A/q1.py:178-180 | `@x(P(x)` is None |
| Classifier.SingleCharInput | Submissions/A/q1.py:5-29 | a string of symbols and lone letters, without spaces, is tokenized one character per token |
| Classifier.PredicateWithEmptyArguments | Submissions/A/q1.py:93-102 | an uppercase name followed by `()` is a Formula |
| Classifier.FunctionWithEmptyArguments | Submissions/A/q1.py:118-146 | a lowercase name followed by `()` is a Term |
| Classifier.VariableOperand | Submissions/A/q1.py:110-139 | a lone variable not followed by `(` is read as a Term, consuming only itself |
| Classifier.VariablePairIsFormula | Submissions/A/q1.py:75-84 | each of `&`, `\|`, `>`, `=` applied to `(x,y)` is a Formula |
| Classifier.EmptyPredicateArgumentsIsFormula | Submissions/A/q1.py:178-180 | `P()` is a Formula |
| Classifier.EmptyFunctionArgumentsIsTerm | Submissions/A/q1.py:178-180 | `f()` is a Term |
| Classifier.ConjunctionOfVariablesIsFormula | Submissions/A/q1.py:178-180 | `&(x,y)` is a Formula |
| Classifier.EquationOfVariablesIsFormula | Submissions/A/q1.py:178-180 | `=(x,y)` is a Formula |
| Classifier.LongBoundVariableIsNone | Submissions/A/q1.py:168-172 | the tokens of `@xy(P(x))`, a quantifier over the two-letter name `xy`, are classified None |
| Classifier.LongBoundVariableConcat | Submissions/A/q1.py:8-29 | the tokens `@`, `xy`, `(`, `P`, `(`, `x`, `)`, `)` spell `@xy(P(x))` |
| Classifier.LongBoundVariableShapes | Submissions/A/q1.py:12-24 | each of those tokens is a symbol or an identifier |
| Classifier.LongBoundVariableSeparated | Submissions/A/q1.py:15-19 | no two neighbouring tokens among them could be one longer token |
| Classifier.LongBoundVariableLexed | Submissions/A/q1.py:8-29 | tokenizing `@xy(P(x))` gives exactly those tokens, `xy` as one |
| Classifier.LongBoundVariableTokenized | Submissions/A/q1.py:4-6 | the classifier's input step, removing spaces then tokenizing, gives those tokens for `@xy(P(x))` |
| Classifier.LongBoundVariableStringIsNone | Submissions/A/q1.py:178-180 | `@xy(P(x))` is None |
| PrefixParser.SkipSpaces | Submissions/A/q3.py:129-130 | skipping leaves no leading space, never lengthens the input, and changes nothing when there is no leading space |
| PrefixParser.SkipSpacesSuffix | Submissions/A/q3.py:129-130 | skipping spaces only drops characters from the front |
| PrefixParser.LabelLen | Submissions/A/q3.py:133-136 | the label runs up to the first `(`, `)` or `,`, or to the end |
| PrefixParser.ParseNode | Submissions/A/q3.py:127-155 | a successful node parse consumes input, or stops at a `,` or `)` that ends an empty label |
| PrefixParser.PrefixRoundTrip | Submissions/A/q3.py:127-155 | parsing the prefix print of a tree whose labels hold no separator and start with no space, followed by end of input, `,` or `)`, gives the tree back and stops at that rest |
| PrefixParser.PrefixListRoundTrip | Submissions/A/q3.py:143-154 | the children loop reads back every printed child, in order, and consumes the closing `)` |
| PrefixParser.ParsePrintedTree | Submissions/A/q3.py:124-157 | `parse_prefix_string(as_prefix_str(t))` gives back `t` |
| PrefixParser.LeafLabel | Submissions/A/q3.py:133-138 | a string without `(`, `)`, `,` is one leaf, labelled with the string minus its leading spaces |
| PrefixParser.ChildrenNeedClosing | Submissions/A/q3.py:143-154 | a children list with no `)` after it never completes |
| PrefixParser.UnclosedParenthesisFails | Submissions/A/q3.py:143-154 | a label followed by `(` and no `)` anywhere after it yields no tree |
| Signature.KindOf | Submissions/A/q3.py:162-173 | a name is a variable exactly when it has the variable shape and no arguments; a function when it has the same shape and arguments; a constant or predicate exactly when it has that shape |
| Signature.ShapesDisjoint | Submissions/A/q3.py:162-173 | the three name patterns exclude one another, so the order of the tests does not matter |
| Signature.CollectIsUnion | Submissions/A/q3.py:159-176 | collecting a tree into a signature adds exactly the classified names of its nodes |
| Signature.SignatureMembership | Submissions/A/q3.py:159-176 | a name is in each of the four sets exactly when it occurs in the tree with the matching shape and arity |
| Signature.CollectOrderIndependent | Submissions/A/q3.py:175-176 | reordering a node's children does not change the collected signature |
| Signature.CollectIdempotent | Submissions/A/q3.py:159-176 | collecting the same tree a second time adds nothing |
| Signature.SignatureExample | Submissions/A/q3.py:159-176 | `P(x, f(x), 3)` yields variable `x`, function `f`, constant `3`, predicate `P` |
| Nnf.NnfList | Submissions/A/q3.py:180-182 | the children are rewritten one for one, keeping their number (contents: `Nnf.NnfListElementwise`) |
| Nnf.NnfListElementwise | Submissions/A/q3.py:180-182 | rewriting the children succeeds exactly when every child's rewrite does, and then the k-th result is the rewrite of the k-th child |
| Nnf.NnfKeepsOtherNodes | Submissions/A/q3.py:180-239 | a node other than `>` and `!` keeps its label and arity and has each child replaced by its rewrite; it fails exactly when some child does |
| Nnf.NnfFacts | Submissions/A/q3.py:178-239 | a successful rewrite is in negation normal form; a tree with enough children at every connective is always rewritten, into such a tree; binary connectives with two children and unary ones with one stay that way |
| Nnf.ImplicationRule | Submissions/A/q3.py:185-191 | `>(A,B)` is rewritten as `\|(!(A),B)` |
| Nnf.DoubleNegationRule | Submissions/A/q3.py:194-197 | for constructor-shaped `A`, `!(!(A))` is rewritten as the rewrite of `A` |
| Nnf.DisjunctionRule | Submissions/A/q3.py:201-209 | `!(\|(A,B))` becomes the conjunction of the rewritten `!(A)` and `!(B)` |
| Nnf.ConjunctionRule | Submissions/A/q3.py:212-220 | `!(&(A,B))` becomes the disjunction of the rewritten `!(A)` and `!(B)` |
| Nnf.ForallNegationRule | Submissions/A/q3.py:223-229 | `!(@x(A))` becomes `#x` over the rewritten `!(A)` |
| Nnf.ExistsNegationRule | Submissions/A/q3.py:231-237 | `!(#x(A))` becomes `@x` over the rewritten `!(A)` |
| Nnf.NnfKeepsNormalForm | Submissions/A/q3.py:178-239 | a tree already in negation normal form is returned unchanged |
| Nnf.NnfIdempotent | Submissions/A/q3.py:178-239 | rewriting a rewritten tree changes nothing |
| Nnf.NnfCongruence | Submissions/A/q3.py:180-182 | the result depends on the children only through their rewritten forms |
| Nnf.NegateTwice | Submissions/A/q3.py:193-237 | negating a normal-form formula and rewriting, twice over, gives the formula back |
| Nnf.SimplifyLine | Submissions/A/q3.py:240-246 | the rewriting program prints only when parsing and rewriting both succeed |
| Nnf.ImplicationExample | Submissions/A/q3.py:240-246 | the line `>(P,Q)` prints `\|(!(P),Q)` |
| Nnf.DoubleNegationExample | Submissions/A/q3.py:240-246 | the line `!(!(P))` prints `P` |
| Nnf.QuantifierNegationExample | Submissions/A/q3.py:240-246 | the line `!(@x(P(x)))` prints `#x(!(P(x)))` |
| Evaluator.JoinArgs | Submissions/A/q4.py:329-330 | joining the argument values succeeds exactly when every value is a string |
| Evaluator.JoinSplitRoundTrip | Submissions/A/q4.py:330 | comma-free argument strings are recovered from their comma-joined key, so distinct argument tuples give distinct keys |
| Evaluator.Apply | Submissions/A/q4.py:347 | a function application succeeds exactly when the name is interpreted by a table holding the key, and returns the table's entry |
| Evaluator.EvalArgs | Submissions/A/q4.py:329 | the argument list evaluates exactly when every argument does, to their values in order |
| Evaluator.Not | Submissions/A/q4.py:303-304 | negation fails exactly when its operand fails, and flips the value otherwise |
| Evaluator.OptionDeMorgan | Submissions/A/q4.py:306-310 | De Morgan's laws hold for the short-circuit `and`/`or`, failures included |
| Evaluator.JunctionSemantics | Submissions/A/q4.py:306-310 | both operands of `&` and `\|` are evaluated in the caller's environment, the right one only when the left does not decide |
| Evaluator.ConnectiveSemantics | Submissions/A/q4.py:303-310 | a false left operand makes `&` false and a true one makes `\|` true, whatever the right operand does; a failing left operand fails both; on defined operands the connectives are Boolean not, and, or |
| Evaluator.ForallTrue | Submissions/A/q4.py:312-318 | a universal is true exactly when its body is true for every domain element |
| Evaluator.ForallFalse | Submissions/A/q4.py:312-318 | a universal is false exactly when some element makes the body false and every earlier element made it true |
| Evaluator.ExistsTrue | Submissions/A/q4.py:320-326 | an existential is true exactly when some element makes the body true and every earlier element made it false |
| Evaluator.ExistsFalse | Submissions/A/q4.py:320-326 | an existential is false exactly when its body is false for every domain element |
| Evaluator.EmptyDomain | Submissions/A/q4.py:312-326 | over an empty domain every universal is true and every existential false |
| Evaluator.LoopDuality | Submissions/A/q4.py:312-326 | an existential over a body that always evaluates to the negation of another is the negated universal over that other, and vice versa |
| Evaluator.LeafLookup | Submissions/A/q4.py:336-343 | a leaf evaluates to its binding if bound, else to its interpretation if interpreted, else to its own name |
| Evaluator.ApplicationSemantics | Submissions/A/q4.py:344-347 | an application evaluates exactly when the function's table holds the comma-joined argument values, and returns that entry |
| Evaluator.EqualitySemantics | Submissions/A/q4.py:298-301 | an equation is defined exactly when both sides are, and true exactly when they evaluate to the same value |
| Evaluator.PredicateSemantics | Submissions/A/q4.py:328-334 | an uninterpreted predicate with arguments is false; an interpreted one holds exactly when the joined argument tuple is listed; a nullary atom compares its interpretation with that of the empty key |
| Evaluator.NnfPreservesTruth | Submissions/A/q4.py:383-385 | for every implication-free, constructor-shaped formula (`Evaluator.IsFormula`), rewriting to negation normal form succeeds and never changes its value in any model and environment |
| Evaluator.NegationPreservesTruth | Submissions/A/q3.py:193-237 | the rewritten negation of a formula evaluates to the negation of the formula's value |
| Evaluator.EvaluateLine | Submissions/A/q4.py:380-386 | with the corrected evaluator, a line has a value only if it parses and its rewrite succeeds |
| Evaluator.EvaluateParsedFormula | Submissions/A/q4.py:383-385 | for a line that parses to a formula, the corrected program's answer is the formula's own value, as if no rewrite happened |
| Evaluator.EvaluatePrintedFormula | Submissions/A/q4.py:383-385 | the corrected program's answer on the prefix print of a formula is that formula's value |
| Evaluator.QuantifierExample | Submissions/A/q4.py:312-326 | with `P` true only of `0` in the domain `0,1`, `@x(P(x))` is false and `#x(P(x))` true |
| Evaluator.NegatedForallLineExample | Submissions/A/q4.py:380-386 | in that model the line `!(@x(P(x)))` evaluates to true |
| Evaluator.ImplicationNeedsRewrite | Submissions/A/q4.py:328-334 | `>` has no branch of its own and is evaluated as an uninterpreted atom, false; the program rewrites `>(P,Q)` first and answers true |
| EnvironmentLeak.LeakForallValue | Submissions/A/q4.py:312-318 | as written, a true universal leaves its variable bound to the last domain element in the caller's environment |
| EnvironmentLeak.LeakExample | Submissions/A/q4.py:306-318 | as written, `&(@x(P(x)),Q(x))` is true in a model where the pure semantics makes it false |
| EnvironmentLeak.TermReadsLabels | Submissions/A/q4.py:336-347 | a term has the same value under two environments that agree on the names in it |
| EnvironmentLeak.FreeChild | Submissions/A/q4.py:303-326 | a child of `!`, `&`, `\|` reads only names its parent reads; the body of a quantifier reads only those and the quantifier's variable |
| EnvironmentLeak.EvalReadsFree | Submissions/A/q4.py:295-334 | a formula has the same value under two environments that agree on its free names: the labels of its terms, minus the variables of the quantifiers above them |
| EnvironmentLeak.LoopRebind | Submissions/A/q4.py:312-326 | the quantifier loops do not depend on an earlier binding of their own variable |
| EnvironmentLeak.SharedAgrees | Submissions/A/q4.py:295-334 | when no left operand of `&`/`\|` binds a variable that its right operand reads freely, the evaluator as written computes the pure value and changes the caller's environment only at quantified variables |
| EnvironmentLeak.EvaluateSharedAgrees | Submissions/A/q4.py:294-349 | on such formulas `evaluate_expression` as written returns the pure value |
| EnvironmentLeak.SiblingQuantifiersAgree | Submissions/A/q4.py:306-326 | `&(@x(P(x)),#x(Q(x)))`, whose sibling quantifiers reuse `x`, is covered, and as written gets the pure value in every model and assignment |
| EnvironmentLeak.EvaluateLineShared | Submissions/A/q4.py:380-386 | one line of the evaluating `main` as written has a value only if it parses and its rewrite succeeds |
| EnvironmentLeak.LineSharedAgrees | Submissions/A/q4.py:380-386 | a line that does not parse gets no answer from either program; a line whose rewritten formula is covered gets the same answer from the program as written and the corrected one |
| EnvironmentLeak.ParseLeakLine | Submissions/A/q3.py:124-157 | the line `&(@x(P(x)),Q(x))` parses to the leak formula |
| EnvironmentLeak.LeakFormulaIsNnf | Submissions/A/q3.py:178-239 | the rewrite leaves the leak formula unchanged |
| EnvironmentLeak.LeakLineExample | Submissions/A/q4.py:380-386 | for the line `&(@x(P(x)),Q(x))` in the leak model, `main` as written answers true and the corrected program false |

## Left out

- The JSON input of `Model.from_json` and `load_model`, the `input()`/`print` loops of
  the `main` functions, and `str.strip` on input lines. The models are parameters, and a
  line is a string already stripped.
- `TuringMachine`, `expression_examples`, and the Part B `construct_*_formula` stubs.
  They are not part of the expression engine.
- Parent pointers and `replace`: trees are immutable values, so there is no parent to
  keep in step.
- `q4.py` repeats the tree class, the prefix parser and `nnf_simplify` of `q3.py`. They
  are modelled once, and `q4.py` is modelled as calling them.
- The second `eval_term` and `return` at `q4.py:350-365` sit after the function's `return`
  and never run.
- The `^[A-Z]$` branch at `q1.py:104-106` can never be taken. Every single uppercase
  letter already matches `is_predicate` two branches earlier.
- `str.isalpha`, `isalnum` and `isdigit`, and the `\d` in the variable and predicate
  patterns of the signature extractor (`q3.py:163`, `q3.py:171`), accept Unicode letters
  and digits. The model accepts ASCII only.
- Interpretation values other than a string, a string-to-string map or a list of strings.
  Numbers, booleans, nesting and other JSON values are left out.
- Python's recursion limit. Very deep inputs raise `RecursionError` in the source and
  succeed in the model.
- PrefixParser.ParseNode: the source loops forever when the input ends inside an open
  `(`. The model returns `None` there instead, so "does not terminate" and "fails" are
  not told apart.
- Nnf.Nnf: its own contract is only the weight bound used for termination. The rewriting
  properties are stated by `Nnf.NnfFacts` and the rule lemmas.
- Nnf.NnfList: its own contract gives the length and the weight bound used for
  termination. What the rewritten children are is stated by `Nnf.NnfListElementwise`.
- Evaluator.EvaluateLine: it evaluates with the corrected evaluator `Evaluator.Eval`, not
  with the shared environment of the source. On a formula whose quantifier leaks into a
  later sibling the two answers differ (`EnvironmentLeak.LeakLineExample`). The line as
  written is `EnvironmentLeak.EvaluateLineShared`.
- EnvironmentLeak.SharedAgrees: the hygiene condition is sufficient, not necessary. A
  formula whose right operand reads a variable bound on its left is not covered, even
  where the leaked binding happens not to change the answer.
- EnvironmentLeak.EvaluateSharedAgrees: covers the same formulas as
  `EnvironmentLeak.SharedAgrees` and no others; on the rest the source can answer
  differently (`EnvironmentLeak.LeakExample`).
- Printers.Standard: requires every `=`, `&`, `|`, `>` node to have two children. The
  source raises `IndexError` on such a node with fewer; the model has no result there.
- Tree.Left: requires a first child; the source raises `IndexError` without one.
- Tree.Right: requires a second child; the source raises `IndexError` without one.
- Tree.Child: requires a first child; the source raises `IndexError` without one.
- Tree.SetSlot: requires the slot to exist; the source raises `IndexError` otherwise.
- Tree.SetLeft: requires a first child; the source raises `IndexError` without one.
- Tree.SetRight: requires a second child; the source raises `IndexError` without one.
- Tree.SetChild: requires a first child; the source raises `IndexError` without one.
- The `*_expr` constructors take their operands. The source builds `[None, None]` or
  `[None]` placeholders and fills them through `left`, `right` and `child`. A tree with a
  `None` slot left unfilled is not modelled.
- Classifier.CheckWellFormed: its own contract states only the range of verdicts. What
  each verdict means is stated by `Classifier.ClassifySound`,
  `Classifier.PrintedFormulaIsFormula` and `Classifier.PrintedTermIsTerm`. The converse
  (every accepted string is the print of a tree) is not proved.

Behaviour kept exactly as written, where a reader might expect otherwise:

- `_` is accepted inside identifiers (`q1.py:17`) but cannot start a token.
- A nullary atom whose interpretation is a string is evaluated by the equality test at
  `q4.py:332`. It compares the interpretation of the name with the interpretation of the
  empty key, or with the empty string when that key is absent.
- A predicate whose interpretation is a string is evaluated by the substring test `in` at
  `q4.py:334`, exactly as written.

## Findings

| source | as written | input that shows it | evidently intended | confidence | as-written member | corrected member |
|---|---|---|---|---|---|---|
| Submissions/A/q4.py:312-326 | a quantifier assigns `env[var] = val` in the environment it was given, and `&`/`\|` (lines 306-310) pass that same dictionary on, so the last value tried stays bound for the right operand | domain `0,1`, `P` = {`0`,`1`}, `Q` = {`1`}, formula `&(@x(P(x)),Q(x))`: the free `x` of `Q(x)` sees `x = 1`, so the answer is true | the binding is visible only inside the quantifier's body, and both operands see the caller's environment, making the answer false | not executed; follows from Python's dictionary aliasing | EnvironmentLeak.EvalShared, shown by EnvironmentLeak.LeakExample and EnvironmentLeak.LeakLineExample | Evaluator.Eval, with Evaluator.JunctionSemantics and EnvironmentLeak.SharedAgrees |
