/** Join codes: the alphabet they are drawn from, the generator that builds
    one from six random draws, and the upper-casing a join request applies
    before it looks a code up. */
module JoinCode {

  /** The symbols a join code is made of: the capital letters without I and O,
      and the digits 2 to 9. */
  const Alphabet: string := "ABCDEFGHJKLMNPQRSTUVWXYZ23456789"

  /** Every join code has this many symbols. */
  const CodeLength: nat := 6

  /** The symbols of the alphabet, by character range: a capital letter other
      than I and O, or a digit from 2 to 9. */
  predicate IsSymbol(c: char) {
    ('A' <= c <= 'Z' && c != 'I' && c != 'O') || '2' <= c <= '9'
  }

  /** The alphabet has 32 distinct symbols, none of them one of the
      look-alikes I, O, 0 and 1, and its symbols are exactly those IsSymbol
      accepts. */
  lemma AlphabetShape()
    ensures |Alphabet| == 32
    ensures forall i, j :: 0 <= i < j < |Alphabet| ==> Alphabet[i] != Alphabet[j]
    ensures 'I' !in Alphabet && 'O' !in Alphabet && '0' !in Alphabet && '1' !in Alphabet
    ensures forall c :: c in Alphabet <==> IsSymbol(c)
  {
    AlphabetDistinct();
    AlphabetSymbols();
    forall c ensures c in Alphabet <==> IsSymbol(c) {
      if IsSymbol(c) {
        assert Alphabet[SymbolIndex(c)] == c;
      }
    }
  }

  lemma AlphabetDistinct()
    ensures forall i, j :: 0 <= i < j < |Alphabet| ==> Alphabet[i] != Alphabet[j]
  {
  }

  lemma AlphabetSymbols()
    ensures forall i :: 0 <= i < |Alphabet| ==> IsSymbol(Alphabet[i])
  {
  }

  /** Position of a symbol in the alphabet. */
  function SymbolIndex(c: char): (k: nat)
    requires IsSymbol(c)
    ensures k < |Alphabet| && Alphabet[k] == c
  {
    if c <= '9' then c as int - '2' as int + 24
    else if c < 'I' then c as int - 'A' as int
    else if c < 'O' then c as int - 'A' as int - 1
    else c as int - 'A' as int - 2
  }

  /** A join code: six symbols of the alphabet. */
  predicate IsJoinCode(code: string) {
    |code| == CodeLength && forall i :: 0 <= i < |code| ==> IsSymbol(code[i])
  }

  /** One attempt of the random source: six positions in the alphabet. Each is
      what `Math.floor(Math.random() * chars.length)` picks. */
  predicate IsDraw(d: seq<nat>) {
    |d| == CodeLength && forall i :: 0 <= i < |d| ==> d[i] < |Alphabet|
  }

  /** The code that the draws `d` spell, one symbol appended per draw. */
  function CodeOf(d: seq<nat>): (code: string)
    requires forall i :: 0 <= i < |d| ==> d[i] < |Alphabet|
    ensures |code| == |d|
    ensures forall i :: 0 <= i < |d| ==> code[i] == Alphabet[d[i]]
  {
    if |d| == 0 then "" else CodeOf(d[..|d| - 1]) + [Alphabet[d[|d| - 1]]]
  }

  /** What a draw spells is always a well-formed join code. */
  lemma DrawIsJoinCode(d: seq<nat>)
    requires IsDraw(d)
    ensures IsJoinCode(CodeOf(d))
  {
    AlphabetSymbols();
  }

  /** Every join code can be generated: the generator reaches the whole code
      space, not just part of it. */
  lemma {:induction false} EveryCodeIsDrawable(code: string)
    requires IsJoinCode(code)
    ensures exists d :: IsDraw(d) && CodeOf(d) == code
  {
    var d := seq(|code|, i requires 0 <= i < |code| => SymbolIndex(code[i]));
    assert forall i :: 0 <= i < |d| ==> Alphabet[d[i]] == code[i];
    assert IsDraw(d);
    assert CodeOf(d) == code;
  }

  /** `generateJoinCode`: builds the code by appending one drawn symbol at a
      time, six times. */
  method GenerateJoinCode(draws: seq<nat>) returns (code: string)
    requires IsDraw(draws)
    ensures code == CodeOf(draws)
    ensures IsJoinCode(code)
  {
    DrawIsJoinCode(draws);
    code := "";
    for i := 0 to CodeLength
      invariant code == CodeOf(draws[..i])
    {
      assert draws[..i + 1][..i] == draws[..i];
      code := code + [Alphabet[draws[i]]];
    }
    assert draws[..CodeLength] == draws;
  }

  /** Upper-casing of one character, as `toUpperCase` does for ASCII. */
  function UpperChar(c: char): char {
    if 'a' <= c <= 'z' then (c as int - 32) as char else c
  }

  /** Lower-casing of one character, for ASCII capitals. */
  function LowerChar(c: char): char {
    if 'A' <= c <= 'Z' then (c as int + 32) as char else c
  }

  /** `joinCode.toUpperCase()`, character by character. */
  function ToUpper(s: string): (u: string)
    ensures |u| == |s|
    ensures forall i :: 0 <= i < |s| ==> u[i] == UpperChar(s[i])
  {
    if s == [] then [] else [UpperChar(s[0])] + ToUpper(s[1..])
  }

  /** `s` spells `code` when each of its characters is either the code's
      symbol or that symbol in lower case. */
  predicate SameIgnoringCase(s: string, code: string) {
    |s| == |code| && forall i :: 0 <= i < |s| ==> s[i] == code[i] || s[i] == LowerChar(code[i])
  }

  /** The upper-cased request matches a stored join code exactly when the
      request spells that code in any mix of cases. */
  lemma UpperMatchesIgnoringCase(s: string, code: string)
    requires IsJoinCode(code)
    ensures ToUpper(s) == code <==> SameIgnoringCase(s, code)
  {
    if ToUpper(s) == code {
      forall i | 0 <= i < |s| ensures s[i] == code[i] || s[i] == LowerChar(code[i]) {
        assert UpperChar(s[i]) == code[i];
      }
    }
    if SameIgnoringCase(s, code) {
      assert forall i :: 0 <= i < |s| ==> ToUpper(s)[i] == code[i];
    }
  }

  /** Upper-casing leaves a stored join code as it is. */
  lemma UpperOfJoinCode(code: string)
    requires IsJoinCode(code)
    ensures ToUpper(code) == code
  {
    UpperMatchesIgnoringCase(code, code);
  }
}
