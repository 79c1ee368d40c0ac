/**
 * `Parser.tokenize`: splits a space-free string into one-character symbols, identifiers
 * (a letter, then letters, digits or `_`) and numerals (digit runs). Character classes are
 * ASCII only.
 */
module Tokenizer {
  import opened Wrappers
  import opened Printers

  predicate IsUpper(c: char) { 'A' <= c <= 'Z' }
  predicate IsLower(c: char) { 'a' <= c <= 'z' }
  predicate IsDigit(c: char) { '0' <= c <= '9' }
  predicate IsAlpha(c: char) { IsUpper(c) || IsLower(c) }
  predicate IsAlnum(c: char) { IsAlpha(c) || IsDigit(c) }

  /** Characters that may continue an identifier. */
  predicate IsIdentChar(c: char) { IsAlnum(c) || c == '_' }

  /** The twelve one-character symbols. */
  predicate IsSymbolChar(c: char) {
    c == '@' || c == '#' || c == '&' || c == '|' || c == '!' || c == '>' || c == '='
    || c == '(' || c == ')' || c == ',' || c == '[' || c == ']'
  }

  /** Every character that can occur in a successfully tokenized string. */
  predicate IsTokenChar(c: char) { IsSymbolChar(c) || IsIdentChar(c) }

  // ----- Token shapes -----

  predicate IsSymbolToken(t: string) { |t| == 1 && IsSymbolChar(t[0]) }

  predicate IsIdentifier(t: string) {
    |t| >= 1 && IsAlpha(t[0]) && forall i :: 1 <= i < |t| ==> IsIdentChar(t[i])
  }

  predicate IsNumeral(t: string) {
    |t| >= 1 && forall i :: 0 <= i < |t| ==> IsDigit(t[i])
  }

  predicate WellShaped(t: string) { IsSymbolToken(t) || IsIdentifier(t) || IsNumeral(t) }

  predicate AllWellShaped(ts: seq<string>) {
    forall i :: 0 <= i < |ts| ==> WellShaped(ts[i])
  }

  /** Neighbouring tokens could not have been one longer token: an identifier is not followed
      by an identifier character, a numeral not by a digit. */
  predicate Separated(a: string, b: string) {
    b == [] || ((IsIdentifier(a) ==> !IsIdentChar(b[0])) && (IsNumeral(a) ==> !IsDigit(b[0])))
  }

  predicate Maximal(ts: seq<string>) {
    forall i :: 0 <= i < |ts| - 1 ==> Separated(ts[i], ts[i + 1])
  }

  // ----- The tokenizer -----

  /** Length of the leading run of identifier characters. */
  function IdentRun(s: string): (k: nat)
    ensures k <= |s|
    ensures forall i :: 0 <= i < k ==> IsIdentChar(s[i])
    ensures k == |s| || !IsIdentChar(s[k])
  {
    if s != [] && IsIdentChar(s[0]) then 1 + IdentRun(s[1..]) else 0
  }

  /** Length of the leading run of digits. */
  function DigitRun(s: string): (k: nat)
    ensures k <= |s|
    ensures forall i :: 0 <= i < k ==> IsDigit(s[i])
    ensures k == |s| || !IsDigit(s[k])
  {
    if s != [] && IsDigit(s[0]) then 1 + DigitRun(s[1..]) else 0
  }

  function Prepend(t: seq<string>, r: Option<seq<string>>): Option<seq<string>> {
    match r
    case None => None
    case Some(ts) => Some(t + ts)
  }

  /** The token sequence, or `None` where the source gives up and returns `[]`. A success
      reproduces the input when concatenated, and consists of well-shaped, maximal tokens.
      The input fails exactly at a character that cannot start a token. */
  function Lex(s: string): (r: Option<seq<string>>)
    decreases |s|
    ensures r.Some? ==> Concat(r.value) == s && AllWellShaped(r.value) && Maximal(r.value)
    ensures r.Some? ==> forall i :: 0 <= i < |s| ==> IsTokenChar(s[i])
    ensures (forall i :: 0 <= i < |s| ==> IsSymbolChar(s[i]) || IsAlnum(s[i])) ==> r.Some?
  {
    if s == [] then Some([])
    else if IsSymbolChar(s[0]) then LexStep(s, 1)
    else if IsAlpha(s[0]) then LexStep(s, IdentRun(s))
    else if IsDigit(s[0]) then LexStep(s, DigitRun(s))
    else None
  }

  /** Emits `s[..j]` as one token and continues after it. */
  function LexStep(s: string, j: nat): (r: Option<seq<string>>)
    requires 0 < j <= |s|
    requires IsSymbolChar(s[0]) ==> j == 1
    requires IsAlpha(s[0]) ==> j == IdentRun(s)
    requires IsDigit(s[0]) ==> j == DigitRun(s)
    requires IsSymbolChar(s[0]) || IsAlnum(s[0])
    decreases |s|, 0
    ensures r.Some? ==> Concat(r.value) == s && AllWellShaped(r.value) && Maximal(r.value)
    ensures r.Some? ==> forall i :: 0 <= i < |s| ==> IsTokenChar(s[i])
    ensures (forall i :: 0 <= i < |s| ==> IsSymbolChar(s[i]) || IsAlnum(s[i])) ==> r.Some?
  {
    var rest := Lex(s[j..]);
    if rest.None? then None
    else
      StepFacts(s, j, rest.value);
      Some([s[..j]] + rest.value)
  }

  lemma StepFacts(s: string, j: nat, ts: seq<string>)
    requires 0 < j <= |s|
    requires IsSymbolChar(s[0]) ==> j == 1
    requires IsAlpha(s[0]) ==> j == IdentRun(s)
    requires IsDigit(s[0]) ==> j == DigitRun(s)
    requires IsSymbolChar(s[0]) || IsAlnum(s[0])
    requires Concat(ts) == s[j..] && AllWellShaped(ts) && Maximal(ts)
    requires forall i :: 0 <= i < |s| - j ==> IsTokenChar(s[j..][i])
    ensures Concat([s[..j]] + ts) == s && AllWellShaped([s[..j]] + ts) && Maximal([s[..j]] + ts)
    ensures forall i :: 0 <= i < |s| ==> IsTokenChar(s[i])
  {
    var t := s[..j];
    FirstTokenShape(s, j);
    ConcatCons(t, ts);
    assert t + s[j..] == s;
    FirstTokenSeparated(s, j, ts);
    MaximalCons(t, ts);
    TokenCharsJoin(s, j);
  }

  /** The first token chosen by `Lex` is well-shaped and covers only token characters. */
  lemma FirstTokenShape(s: string, j: nat)
    requires 0 < j <= |s|
    requires IsSymbolChar(s[0]) ==> j == 1
    requires IsAlpha(s[0]) ==> j == IdentRun(s)
    requires IsDigit(s[0]) ==> j == DigitRun(s)
    requires IsSymbolChar(s[0]) || IsAlnum(s[0])
    ensures WellShaped(s[..j])
    ensures forall i :: 0 <= i < j ==> IsTokenChar(s[i])
  {
    var t := s[..j];
    if IsSymbolChar(s[0]) {
      assert IsSymbolToken(t);
    } else if IsAlpha(s[0]) {
      assert IsIdentifier(t);
    } else {
      assert IsNumeral(t);
    }
  }

  /** The first token is separated from whatever the rest of the string starts with. */
  lemma FirstTokenSeparated(s: string, j: nat, ts: seq<string>)
    requires 0 < j <= |s|
    requires IsSymbolChar(s[0]) ==> j == 1
    requires IsAlpha(s[0]) ==> j == IdentRun(s)
    requires IsDigit(s[0]) ==> j == DigitRun(s)
    requires IsSymbolChar(s[0]) || IsAlnum(s[0])
    requires Concat(ts) == s[j..] && AllWellShaped(ts)
    ensures ts == [] || Separated(s[..j], ts[0])
  {
    if ts != [] {
      assert WellShaped(ts[0]);
      ConcatHead(ts);
      assert s[j] == ts[0][0];
      var t := s[..j];
      assert t[0] == s[0];
      if IsSymbolChar(s[0]) {
        assert !IsIdentifier(t) && !IsNumeral(t);
      }
    }
  }

  lemma TokenCharsJoin(s: string, j: nat)
    requires 0 < j <= |s|
    requires forall i :: 0 <= i < j ==> IsTokenChar(s[i])
    requires forall i :: 0 <= i < |s| - j ==> IsTokenChar(s[j..][i])
    ensures forall i :: 0 <= i < |s| ==> IsTokenChar(s[i])
  {
    forall i | j <= i < |s| ensures IsTokenChar(s[i]) {
      assert s[i] == s[j..][i - j];
    }
  }

  lemma ConcatCons(t: string, ts: seq<string>)
    ensures Concat([t] + ts) == t + Concat(ts)
  {
    assert ([t] + ts)[1..] == ts;
  }

  lemma ConcatHead(ts: seq<string>)
    requires ts != [] && ts[0] != []
    ensures |Concat(ts)| > 0 && Concat(ts)[0] == ts[0][0]
  {
  }

  lemma MaximalCons(t: string, ts: seq<string>)
    requires WellShaped(t) && AllWellShaped(ts) && Maximal(ts)
    requires ts == [] || Separated(t, ts[0])
    ensures AllWellShaped([t] + ts) && Maximal([t] + ts)
  {
    var us := [t] + ts;
    forall i | 0 <= i < |us| - 1 ensures Separated(us[i], us[i + 1]) {
      if i > 0 {
        assert us[i] == ts[i - 1] && us[i + 1] == ts[i];
      }
    }
    forall i | 0 <= i < |us| ensures WellShaped(us[i]) {
      if i > 0 {
        assert us[i] == ts[i - 1];
      }
    }
  }

  /** A leading symbol character is a token of its own. */
  lemma LexSymbolFirst(c: char, rest: string)
    requires IsSymbolChar(c)
    ensures Lex([c] + rest) == Prepend([[c]], Lex(rest))
  {
    var s := [c] + rest;
    assert s[..1] == [c] && s[1..] == rest;
  }

  /** A leading letter not followed by an identifier character is a one-letter token. */
  lemma LexLetterFirst(c: char, rest: string)
    requires IsAlpha(c) && (rest == [] || !IsIdentChar(rest[0]))
    ensures Lex([c] + rest) == Prepend([[c]], Lex(rest))
  {
    var s := [c] + rest;
    assert s[1..] == rest;
    assert IdentRun(s[1..]) == 0;
    assert s[..1] == [c];
  }

  /** Character `i` is a token by itself: a symbol, or a letter no identifier character
      follows. */
  predicate StandsAlone(s: string, i: nat)
    requires i < |s|
  {
    IsSymbolChar(s[i]) || (IsAlpha(s[i]) && (i + 1 == |s| || !IsIdentChar(s[i + 1])))
  }

  predicate SingleCharTokens(s: string) {
    forall i :: 0 <= i < |s| ==> StandsAlone(s, i)
  }

  /** Such a string is split into its characters, one token each. */
  lemma {:induction false} LexSingleCharTokens(s: string)
    requires SingleCharTokens(s)
    ensures Lex(s) == Some(seq(|s|, i requires 0 <= i < |s| => [s[i]]))
  {
    if s != [] {
      var rest := s[1..];
      forall i | 0 <= i < |rest| ensures StandsAlone(rest, i) {
        assert StandsAlone(s, i + 1);
        assert rest[i] == s[i + 1];
        assert i + 1 < |rest| ==> rest[i + 1] == s[i + 2];
      }
      LexSingleCharTokens(rest);
      assert s == [s[0]] + rest;
      assert StandsAlone(s, 0);
      if IsSymbolChar(s[0]) {
        LexSymbolFirst(s[0], rest);
      } else {
        assert rest != [] ==> rest[0] == s[1];
        LexLetterFirst(s[0], rest);
      }
      assert [[s[0]]] + seq(|rest|, i requires 0 <= i < |rest| => [rest[i]])
          == seq(|s|, i requires 0 <= i < |s| => [s[i]]);
    } else {
      assert seq(|s|, i requires 0 <= i < |s| => [s[i]]) == [];
    }
  }

  /** `tokenize` as the caller sees it: the tokens, or `[]` on failure. */
  function Tokenize(s: string): seq<string> {
    match Lex(s)
    case None => []
    case Some(ts) => ts
  }

  /** The loop of the source, one character class at a time. */
  method TokenizeLoop(s: string) returns (tokens: seq<string>)
    ensures tokens == Tokenize(s)
  {
    tokens := [];
    var i := 0;
    LexStart(s);
    while i < |s|
      invariant 0 <= i <= |s|
      invariant Lex(s) == Prepend(tokens, Lex(s[i..]))
    {
      var j: int;
      if IsSymbolChar(s[i]) {
        j := i + 1;
      } else if IsAlpha(s[i]) {
        j := ScanIdentifier(s, i);
      } else if IsDigit(s[i]) {
        j := ScanNumeral(s, i);
      } else {
        LexFailsAt(s, i, tokens);
        return [];
      }
      LexAdvance(s, i, j, tokens);
      tokens := tokens + [s[i..j]];
      i := j;
    }
    LexEnd(s, tokens);
  }

  /** The inner loop over identifier characters starting at `i`. */
  method ScanIdentifier(s: string, i: nat) returns (j: nat)
    requires i < |s|
    ensures i <= j <= |s| && j - i == IdentRun(s[i..])
  {
    j := i;
    while j < |s| && IsIdentChar(s[j])
      invariant i <= j <= |s|
      invariant (j - i) + IdentRun(s[j..]) == IdentRun(s[i..])
    {
      assert s[j..][1..] == s[j + 1..];
      j := j + 1;
    }
  }

  /** The inner loop over digits starting at `i`. */
  method ScanNumeral(s: string, i: nat) returns (j: nat)
    requires i < |s|
    ensures i <= j <= |s| && j - i == DigitRun(s[i..])
  {
    j := i;
    while j < |s| && IsDigit(s[j])
      invariant i <= j <= |s|
      invariant (j - i) + DigitRun(s[j..]) == DigitRun(s[i..])
    {
      assert s[j..][1..] == s[j + 1..];
      j := j + 1;
    }
  }

  lemma LexStart(s: string)
    ensures Lex(s) == Prepend([], Lex(s[0..]))
  {
    assert s[0..] == s;
    if Lex(s).Some? {
      assert [] + Lex(s).value == Lex(s).value;
    }
  }

  lemma LexEnd(s: string, tokens: seq<string>)
    requires Lex(s) == Prepend(tokens, Lex(s[|s|..]))
    ensures tokens == Tokenize(s)
  {
    assert s[|s|..] == [];
    assert tokens + [] == tokens;
  }

  lemma LexFailsAt(s: string, i: nat, tokens: seq<string>)
    requires i < |s| && !IsSymbolChar(s[i]) && !IsAlnum(s[i])
    requires Lex(s) == Prepend(tokens, Lex(s[i..]))
    ensures Tokenize(s) == []
  {
    assert s[i..][0] == s[i];
  }

  /** One step of `Lex`: the first token is the prefix of length k. */
  lemma LexUnfold(u: string, k: nat)
    requires 0 < k <= |u|
    requires IsSymbolChar(u[0]) || IsAlnum(u[0])
    requires IsSymbolChar(u[0]) ==> k == 1
    requires IsAlpha(u[0]) ==> k == IdentRun(u)
    requires IsDigit(u[0]) ==> k == DigitRun(u)
    ensures Lex(u) == Prepend([u[..k]], Lex(u[k..]))
  {
  }

  lemma PrependAssoc(a: seq<string>, b: seq<string>, r: Option<seq<string>>)
    ensures Prepend(a, Prepend(b, r)) == Prepend(a + b, r)
  {
    if r.Some? {
      assert a + (b + r.value) == (a + b) + r.value;
    }
  }

  lemma LexAdvance(s: string, i: nat, j: nat, tokens: seq<string>)
    requires i < j <= |s|
    requires IsSymbolChar(s[i]) || IsAlnum(s[i])
    requires IsSymbolChar(s[i]) ==> j == i + 1
    requires IsAlpha(s[i]) ==> j - i == IdentRun(s[i..])
    requires IsDigit(s[i]) ==> j - i == DigitRun(s[i..])
    ensures Prepend(tokens, Lex(s[i..])) == Prepend(tokens + [s[i..j]], Lex(s[j..]))
  {
    var u := s[i..];
    var k := j - i;
    assert u[0] == s[i];
    assert u[..k] == s[i..j];
    assert u[k..] == s[j..];
    LexUnfold(u, k);
    PrependAssoc(tokens, [s[i..j]], Lex(s[j..]));
  }

  // ----- Uniqueness: Lex is the only tokenization with these properties -----

  lemma {:induction false} IdentRunOfToken(t: string, b: string)
    requires forall i :: 0 <= i < |t| ==> IsIdentChar(t[i])
    requires b == [] || !IsIdentChar(b[0])
    ensures IdentRun(t + b) == |t|
  {
    if t == [] {
      assert t + b == b;
    } else {
      assert (t + b)[1..] == t[1..] + b;
      IdentRunOfToken(t[1..], b);
    }
  }

  lemma {:induction false} DigitRunOfToken(t: string, b: string)
    requires forall i :: 0 <= i < |t| ==> IsDigit(t[i])
    requires b == [] || !IsDigit(b[0])
    ensures DigitRun(t + b) == |t|
  {
    if t == [] {
      assert t + b == b;
    } else {
      assert (t + b)[1..] == t[1..] + b;
      DigitRunOfToken(t[1..], b);
    }
  }

  /** Any sequence of well-shaped, maximal tokens is exactly what the tokenizer returns for
      its concatenation; together with the contract of `Lex` this pins the tokenizer down. */
  lemma {:induction false} LexUnique(ts: seq<string>)
    requires AllWellShaped(ts) && Maximal(ts)
    ensures Lex(Concat(ts)) == Some(ts)
  {
    if ts != [] {
      var t, rest := ts[0], ts[1..];
      var r := Concat(rest);
      var s := Concat(ts);
      assert s == t + r;
      TailShaped(ts);
      LexUnique(rest);
      FirstTokenIsChosen(t, rest);
      assert s[..|t|] == t && s[|t|..] == r;
      LexUnfold(s, |t|);
      assert [t] + rest == ts;
    }
  }

  lemma TailShaped(ts: seq<string>)
    requires ts != [] && AllWellShaped(ts) && Maximal(ts)
    ensures AllWellShaped(ts[1..]) && Maximal(ts[1..])
    ensures ts[1..] == [] || Separated(ts[0], ts[1..][0])
  {
    var rest := ts[1..];
    forall i | 0 <= i < |rest| ensures WellShaped(rest[i]) {
      assert rest[i] == ts[i + 1];
    }
    forall i | 0 <= i < |rest| - 1 ensures Separated(rest[i], rest[i + 1]) {
      assert rest[i] == ts[i + 1] && rest[i + 1] == ts[i + 2];
    }
  }

  /** A well-shaped token followed by a separated rest is the prefix `Lex` would cut. */
  lemma FirstTokenIsChosen(t: string, rest: seq<string>)
    requires WellShaped(t) && AllWellShaped(rest)
    requires rest == [] || Separated(t, rest[0])
    ensures var s := t + Concat(rest);
      0 < |t| <= |s| && s[0] == t[0] && (IsSymbolChar(s[0]) || IsAlnum(s[0]))
      && (IsSymbolChar(s[0]) ==> |t| == 1)
      && (IsAlpha(s[0]) ==> |t| == IdentRun(s))
      && (IsDigit(s[0]) ==> |t| == DigitRun(s))
  {
    var r := Concat(rest);
    assert r == [] || r[0] == rest[0][0] by {
      if rest != [] {
        assert WellShaped(rest[0]);
        ConcatHead(rest);
      }
    }
    assert (t + r)[0] == t[0];
    if IsIdentifier(t) {
      IdentRunOfToken(t, r);
    } else if IsNumeral(t) {
      DigitRunOfToken(t, r);
    }
  }

  /** A non-empty result concatenates back to the input. */
  lemma TokenizeConcat(s: string)
    requires Tokenize(s) != []
    ensures Concat(Tokenize(s)) == s
  {
  }

  /** A character outside the symbols, letters, digits and `_` makes the tokenizer fail. */
  lemma BadCharacterFails(s: string, i: nat)
    requires i < |s| && !IsTokenChar(s[i])
    ensures Lex(s) == None && Tokenize(s) == []
  {
  }

  /** `_` cannot start a token, only continue an identifier. */
  lemma LeadingUnderscoreFails(s: string)
    requires s != [] && s[0] == '_'
    ensures Lex(s) == None
  {
  }
}
