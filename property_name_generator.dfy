/** The C# property-name generator that keeps the original casing of a
  * schema property name: the raw name is cleaned by two fixed chains of
  * literal replacements, each skipped when a fast "contains any of" check
  * finds nothing for it to do. */
module PropertyNameGenerator {

  /** Characters rewritten by the first chain of replacements. */
  const FirstPassChars: string := "\"'@?!$[]().=+|"

  /** Characters rewritten by the second chain of replacements. */
  const SecondPassChars: string := "*:-#&"

  /** A character that never survives `Generate`: one of `FirstPassChars`
    * or `SecondPassChars` (see `ReservedChars`). It is written as a `match`
    * on purpose: the case split lines up with `Substitute`, which keeps the
    * proofs about `SubstituteAll` cheap, and `ReservedChars` ties the two
    * spellings together. */
  predicate IsReserved(c: char) {
    match c
    case '"' | '\'' | '@' | '?' | '!' | '$' | '[' | ']' | '(' | ')' | '.' | '=' | '+' | '|' => true
    case '*' | ':' | '-' | '#' | '&' => true
    case _ => false
  }

  predicate NoReserved(s: string) {
    forall i :: 0 <= i < |s| ==> !IsReserved(s[i])
  }

  predicate NoneOf(s: string, chars: string) {
    forall i :: 0 <= i < |s| ==> s[i] !in chars
  }

  /** `name.AsSpan().IndexOfAny(chars)`: the first position holding one of
    * `chars`, or -1 when there is none. */
  function IndexOfAny(s: string, chars: string): (r: int)
    ensures -1 <= r < |s|
    ensures r == -1 <==> NoneOf(s, chars)
    ensures r != -1 ==> s[r] in chars && forall i :: 0 <= i < r ==> s[i] !in chars
  {
    if |s| == 0 then -1
    else if s[0] in chars then 0
    else
      var k := IndexOfAny(s[1..], chars);
      if k == -1 then -1 else k + 1
  }

  /** `s.Replace(c, r)` for a one-character pattern: every occurrence of `c`,
    * scanning left to right, becomes `r`; inserted text is not scanned again. */
  function Replace(s: string, c: char, r: string): string {
    if |s| == 0 then []
    else (if s[0] == c then r else [s[0]]) + Replace(s[1..], c, r)
  }

  /** The first chain of replacements, in the order `Generate` applies them. */
  function FirstPass(s: string): string {
    Replace(Replace(Replace(Replace(Replace(Replace(Replace(
    Replace(Replace(Replace(Replace(Replace(Replace(Replace(s,
      '"', ""), '\'', ""), '@', ""), '?', ""), '!', ""), '$', ""), '[', ""),
      ']', ""), '(', "_"), ')', ""), '.', "_"), '=', "_"), '+', "plus"), '|', "_")
  }

  /** The second chain of replacements. */
  function SecondPass(s: string): string {
    Replace(Replace(Replace(Replace(Replace(s,
      '*', "Star"), ':', "_"), '-', "_"), '#', "_"), '&', "And")
  }

  /** `Generate(property)` applied to `property.Name`. The second guard
    * inspects the name as the first chain left it. */
  function Generate(name: string): string {
    var afterFirst := if IndexOfAny(name, FirstPassChars) != -1 then FirstPass(name) else name;
    if IndexOfAny(afterFirst, SecondPassChars) != -1 then SecondPass(afterFirst) else afterFirst
  }

  /** The reference definition: a single substitution table, applied to each
    * character on its own, left to right. */
  function Substitute(c: char): string {
    match c
    case '"' | '\'' | '@' | '?' | '!' | '$' | '[' | ']' | ')' => ""
    case '(' | '.' | '=' | '|' | ':' | '-' | '#' => "_"
    case '+' => "plus"
    case '*' => "Star"
    case '&' => "And"
    case _ => [c]
  }

  function SubstituteAll(s: string): string {
    if |s| == 0 then [] else Substitute(s[0]) + SubstituteAll(s[1..])
  }

  // ---------------------------------------------------------------------
  // Facts about a single replacement.

  /** Replacing an absent character is the identity; a one-character string
    * that is the pattern becomes the replacement text. */
  lemma {:induction false} ReplaceStep(s: string, c: char, r: string)
    ensures c !in s ==> Replace(s, c, r) == s
    ensures |s| == 1 && s[0] == c ==> Replace(s, c, r) == r
  {
    if |s| != 0 {
      ReplaceStep(s[1..], c, r);
      assert s == [s[0]] + s[1..];
    }
  }

  /** A replacement neither adds nor removes a character that is neither the
    * pattern nor part of the replacement text. */
  lemma {:induction false} ReplaceKeeps(s: string, c: char, r: string, x: char)
    requires x != c && x !in r
    ensures x in Replace(s, c, r) <==> x in s
  {
    if |s| != 0 {
      ReplaceKeeps(s[1..], c, r, x);
      assert s == [s[0]] + s[1..];
    }
  }

  /** Replacement distributes over concatenation. */
  lemma {:induction false} ReplaceAppend(a: string, b: string, c: char, r: string)
    ensures Replace(a + b, c, r) == Replace(a, c, r) + Replace(b, c, r)
  {
    if |a| == 0 {
      assert a + b == b;
    } else {
      assert (a + b)[1..] == a[1..] + b;
      ReplaceAppend(a[1..], b, c, r);
    }
  }

  lemma FirstPassAppend(a: string, b: string)
    ensures FirstPass(a + b) == FirstPass(a) + FirstPass(b)
  {
    var ta, tb := a, b;
    ReplaceAppend(ta, tb, '"', ""); ta, tb := Replace(ta, '"', ""), Replace(tb, '"', "");
    ReplaceAppend(ta, tb, '\'', ""); ta, tb := Replace(ta, '\'', ""), Replace(tb, '\'', "");
    ReplaceAppend(ta, tb, '@', ""); ta, tb := Replace(ta, '@', ""), Replace(tb, '@', "");
    ReplaceAppend(ta, tb, '?', ""); ta, tb := Replace(ta, '?', ""), Replace(tb, '?', "");
    ReplaceAppend(ta, tb, '!', ""); ta, tb := Replace(ta, '!', ""), Replace(tb, '!', "");
    ReplaceAppend(ta, tb, '$', ""); ta, tb := Replace(ta, '$', ""), Replace(tb, '$', "");
    ReplaceAppend(ta, tb, '[', ""); ta, tb := Replace(ta, '[', ""), Replace(tb, '[', "");
    ReplaceAppend(ta, tb, ']', ""); ta, tb := Replace(ta, ']', ""), Replace(tb, ']', "");
    ReplaceAppend(ta, tb, '(', "_"); ta, tb := Replace(ta, '(', "_"), Replace(tb, '(', "_");
    ReplaceAppend(ta, tb, ')', ""); ta, tb := Replace(ta, ')', ""), Replace(tb, ')', "");
    ReplaceAppend(ta, tb, '.', "_"); ta, tb := Replace(ta, '.', "_"), Replace(tb, '.', "_");
    ReplaceAppend(ta, tb, '=', "_"); ta, tb := Replace(ta, '=', "_"), Replace(tb, '=', "_");
    ReplaceAppend(ta, tb, '+', "plus"); ta, tb := Replace(ta, '+', "plus"), Replace(tb, '+', "plus");
    ReplaceAppend(ta, tb, '|', "_"); ta, tb := Replace(ta, '|', "_"), Replace(tb, '|', "_");
  }

  lemma SecondPassAppend(a: string, b: string)
    ensures SecondPass(a + b) == SecondPass(a) + SecondPass(b)
  {
    var ta, tb := a, b;
    ReplaceAppend(ta, tb, '*', "Star"); ta, tb := Replace(ta, '*', "Star"), Replace(tb, '*', "Star");
    ReplaceAppend(ta, tb, ':', "_"); ta, tb := Replace(ta, ':', "_"), Replace(tb, ':', "_");
    ReplaceAppend(ta, tb, '-', "_"); ta, tb := Replace(ta, '-', "_"), Replace(tb, '-', "_");
    ReplaceAppend(ta, tb, '#', "_"); ta, tb := Replace(ta, '#', "_"), Replace(tb, '#', "_");
    ReplaceAppend(ta, tb, '&', "And"); ta, tb := Replace(ta, '&', "And"), Replace(tb, '&', "And");
  }

  // ---------------------------------------------------------------------
  // Each chain on a single character.

  /** What the first chain makes of one character. */
  function FirstPassEntry(x: char): string {
    match x
    case '"' | '\'' | '@' | '?' | '!' | '$' | '[' | ']' | ')' => ""
    case '(' | '.' | '=' | '|' => "_"
    case '+' => "plus"
    case _ => [x]
  }

  /** What the second chain makes of one character. */
  function SecondPassEntry(x: char): string {
    match x
    case ':' | '-' | '#' => "_"
    case '*' => "Star"
    case '&' => "And"
    case _ => [x]
  }

  lemma FirstPassOther(x: char)
    requires x !in FirstPassChars
    ensures FirstPass([x]) == [x]
  {
    var t := [x];
    ReplaceStep(t, '"', ""); t := Replace(t, '"', "");
    ReplaceStep(t, '\'', ""); t := Replace(t, '\'', "");
    ReplaceStep(t, '@', ""); t := Replace(t, '@', "");
    ReplaceStep(t, '?', ""); t := Replace(t, '?', "");
    ReplaceStep(t, '!', ""); t := Replace(t, '!', "");
    ReplaceStep(t, '$', ""); t := Replace(t, '$', "");
    ReplaceStep(t, '[', ""); t := Replace(t, '[', "");
    ReplaceStep(t, ']', ""); t := Replace(t, ']', "");
    ReplaceStep(t, '(', "_"); t := Replace(t, '(', "_");
    ReplaceStep(t, ')', ""); t := Replace(t, ')', "");
    ReplaceStep(t, '.', "_"); t := Replace(t, '.', "_");
    ReplaceStep(t, '=', "_"); t := Replace(t, '=', "_");
    ReplaceStep(t, '+', "plus"); t := Replace(t, '+', "plus");
    ReplaceStep(t, '|', "_"); t := Replace(t, '|', "_");
    assert t == FirstPass([x]);
  }

  lemma SecondPassOther(x: char)
    requires x !in SecondPassChars
    ensures SecondPass([x]) == [x]
  {
    var t := [x];
    ReplaceStep(t, '*', "Star"); t := Replace(t, '*', "Star");
    ReplaceStep(t, ':', "_"); t := Replace(t, ':', "_");
    ReplaceStep(t, '-', "_"); t := Replace(t, '-', "_");
    ReplaceStep(t, '#', "_"); t := Replace(t, '#', "_");
    ReplaceStep(t, '&', "And"); t := Replace(t, '&', "And");
    assert t == SecondPass([x]);
  }

  // One lemma per reserved character: the chain evaluated on that character.

  lemma FirstPassQuote(x: char) requires x == '"' ensures FirstPass([x]) == "" {
    assert [x] == "\""; assert FirstPass("\"") == "";
  }
  lemma FirstPassApostrophe(x: char) requires x == '\'' ensures FirstPass([x]) == "" {
    assert [x] == "'"; assert FirstPass("'") == "";
  }
  lemma FirstPassAt(x: char) requires x == '@' ensures FirstPass([x]) == "" {
    assert [x] == "@"; assert FirstPass("@") == "";
  }
  lemma FirstPassQuestion(x: char) requires x == '?' ensures FirstPass([x]) == "" {
    assert [x] == "?"; assert FirstPass("?") == "";
  }
  lemma FirstPassBang(x: char) requires x == '!' ensures FirstPass([x]) == "" {
    assert [x] == "!"; assert FirstPass("!") == "";
  }
  lemma FirstPassDollar(x: char) requires x == '$' ensures FirstPass([x]) == "" {
    assert [x] == "$"; assert FirstPass("$") == "";
  }
  lemma FirstPassOpenBracket(x: char) requires x == '[' ensures FirstPass([x]) == "" {
    assert [x] == "["; assert FirstPass("[") == "";
  }
  lemma FirstPassCloseBracket(x: char) requires x == ']' ensures FirstPass([x]) == "" {
    assert [x] == "]"; assert FirstPass("]") == "";
  }
  lemma FirstPassOpenParen(x: char) requires x == '(' ensures FirstPass([x]) == "_" {
    assert [x] == "("; assert FirstPass("(") == "_";
  }
  lemma FirstPassCloseParen(x: char) requires x == ')' ensures FirstPass([x]) == "" {
    assert [x] == ")"; assert FirstPass(")") == "";
  }
  lemma FirstPassDot(x: char) requires x == '.' ensures FirstPass([x]) == "_" {
    assert [x] == "."; assert FirstPass(".") == "_";
  }
  lemma FirstPassEquals(x: char) requires x == '=' ensures FirstPass([x]) == "_" {
    assert [x] == "="; assert FirstPass("=") == "_";
  }
  lemma FirstPassPlus(x: char) requires x == '+' ensures FirstPass([x]) == "plus" {
    assert [x] == "+"; assert FirstPass("+") == "plus";
  }
  lemma FirstPassPipe(x: char) requires x == '|' ensures FirstPass([x]) == "_" {
    assert [x] == "|"; assert FirstPass("|") == "_";
  }

  lemma SecondPassStar(x: char) requires x == '*' ensures SecondPass([x]) == "Star" {
    assert [x] == "*"; assert SecondPass("*") == "Star";
  }
  lemma SecondPassColon(x: char) requires x == ':' ensures SecondPass([x]) == "_" {
    assert [x] == ":"; assert SecondPass(":") == "_";
  }
  lemma SecondPassHyphen(x: char) requires x == '-' ensures SecondPass([x]) == "_" {
    assert [x] == "-"; assert SecondPass("-") == "_";
  }
  lemma SecondPassHash(x: char) requires x == '#' ensures SecondPass([x]) == "_" {
    assert [x] == "#"; assert SecondPass("#") == "_";
  }
  lemma SecondPassAmpersand(x: char) requires x == '&' ensures SecondPass([x]) == "And" {
    assert [x] == "&"; assert SecondPass("&") == "And";
  }

  lemma FirstPassChar(x: char)
    ensures FirstPass([x]) == FirstPassEntry(x)
  {
    if x !in FirstPassChars {
      FirstPassOther(x);
    } else if x == '"' {
      FirstPassQuote(x);
    } else if x == '\'' {
      FirstPassApostrophe(x);
    } else if x == '@' {
      FirstPassAt(x);
    } else if x == '?' {
      FirstPassQuestion(x);
    } else if x == '!' {
      FirstPassBang(x);
    } else if x == '$' {
      FirstPassDollar(x);
    } else if x == '[' {
      FirstPassOpenBracket(x);
    } else if x == ']' {
      FirstPassCloseBracket(x);
    } else if x == '(' {
      FirstPassOpenParen(x);
    } else if x == ')' {
      FirstPassCloseParen(x);
    } else if x == '.' {
      FirstPassDot(x);
    } else if x == '=' {
      FirstPassEquals(x);
    } else if x == '+' {
      FirstPassPlus(x);
    } else if x == '|' {
      FirstPassPipe(x);
    }
  }

  lemma SecondPassChar(x: char)
    ensures SecondPass([x]) == SecondPassEntry(x)
  {
    if x !in SecondPassChars {
      SecondPassOther(x);
    } else if x == '*' {
      SecondPassStar(x);
    } else if x == ':' {
      SecondPassColon(x);
    } else if x == '-' {
      SecondPassHyphen(x);
    } else if x == '#' {
      SecondPassHash(x);
    } else if x == '&' {
      SecondPassAmpersand(x);
    }
  }

  /** Both chains applied to one character give its entry in the single
    * table. */
  lemma PassesChar(x: char)
    ensures SecondPass(FirstPass([x])) == Substitute(x)
  {
    FirstPassChar(x);
    var m := FirstPassEntry(x);
    if m == [x] {
      SecondPassChar(x);
    } else {
      assert m == "" || m == "_" || m == "plus";
      SecondPassIdentity(m);
    }
  }

  // ---------------------------------------------------------------------
  // Whole names.

  /** Without a first-pass character the first chain changes nothing. */
  lemma {:induction false} FirstPassIdentity(s: string)
    requires NoneOf(s, FirstPassChars)
    ensures FirstPass(s) == s
  {
    if |s| != 0 {
      assert s == [s[0]] + s[1..];
      FirstPassAppend([s[0]], s[1..]);
      FirstPassOther(s[0]);
      FirstPassIdentity(s[1..]);
    }
  }

  /** Without a second-pass character the second chain changes nothing. */
  lemma {:induction false} SecondPassIdentity(s: string)
    requires NoneOf(s, SecondPassChars)
    ensures SecondPass(s) == s
  {
    if |s| != 0 {
      assert s == [s[0]] + s[1..];
      SecondPassAppend([s[0]], s[1..]);
      SecondPassOther(s[0]);
      SecondPassIdentity(s[1..]);
    }
  }

  /** The two chains together are one left-to-right substitution. */
  lemma {:induction false} PassesAreSubstitution(s: string)
    ensures SecondPass(FirstPass(s)) == SubstituteAll(s)
  {
    if |s| != 0 {
      assert s == [s[0]] + s[1..];
      FirstPassAppend([s[0]], s[1..]);
      SecondPassAppend(FirstPass([s[0]]), FirstPass(s[1..]));
      PassesChar(s[0]);
      PassesAreSubstitution(s[1..]);
    }
  }

  /** The fast `IndexOfAny` guards do not change the result: skipping a chain
    * is what the chain itself would do. */
  lemma GuardsDoNotMatter(name: string)
    ensures Generate(name) == SecondPass(FirstPass(name))
  {
    if IndexOfAny(name, FirstPassChars) == -1 {
      FirstPassIdentity(name);
    }
    var m := FirstPass(name);
    if IndexOfAny(m, SecondPassChars) == -1 {
      SecondPassIdentity(m);
    }
  }

  /** `Generate` is the single per-character substitution `Substitute`. */
  lemma GenerateIsSubstitution(name: string)
    ensures Generate(name) == SubstituteAll(name)
  {
    GuardsDoNotMatter(name);
    PassesAreSubstitution(name);
  }

  lemma {:induction false} SubstituteAllNoReserved(s: string)
    ensures NoReserved(SubstituteAll(s))
  {
    if |s| != 0 {
      SubstituteAllNoReserved(s[1..]);
      var h := Substitute(s[0]);
      assert NoReserved(h);
      assert SubstituteAll(s) == h + SubstituteAll(s[1..]);
    }
  }

  lemma {:induction false} SubstituteAllIdentity(s: string)
    requires NoReserved(s)
    ensures SubstituteAll(s) == s
  {
    if |s| != 0 {
      SubstituteAllIdentity(s[1..]);
      assert s == [s[0]] + s[1..];
    }
  }

  /** No reserved character survives. */
  lemma GenerateRemovesReserved(name: string)
    ensures NoReserved(Generate(name))
  {
    GenerateIsSubstitution(name);
    SubstituteAllNoReserved(name);
  }

  /** A name without reserved characters comes back unchanged. */
  lemma GenerateKeepsCleanName(name: string)
    requires NoReserved(name)
    ensures Generate(name) == name
  {
    GenerateIsSubstitution(name);
    SubstituteAllIdentity(name);
  }

  lemma GenerateIdempotent(name: string)
    ensures Generate(Generate(name)) == Generate(name)
  {
    GenerateRemovesReserved(name);
    GenerateKeepsCleanName(Generate(name));
  }

  /** The first chain, character by character. */
  function FirstPassAll(s: string): string {
    if |s| == 0 then [] else FirstPassEntry(s[0]) + FirstPassAll(s[1..])
  }

  lemma {:induction false} FirstPassIsPerCharacter(s: string)
    ensures FirstPass(s) == FirstPassAll(s)
  {
    if |s| != 0 {
      assert s == [s[0]] + s[1..];
      FirstPassAppend([s[0]], s[1..]);
      FirstPassChar(s[0]);
      FirstPassIsPerCharacter(s[1..]);
    }
  }

  lemma NoneOfAppend(a: string, b: string, chars: string)
    ensures NoneOf(a + b, chars) <==> NoneOf(a, chars) && NoneOf(b, chars)
  {
    if NoneOf(a, chars) && NoneOf(b, chars) {
      forall i | 0 <= i < |a + b| ensures (a + b)[i] !in chars {
        if i >= |a| { assert (a + b)[i] == b[i - |a|]; }
      }
    }
    if NoneOf(a + b, chars) {
      forall i | 0 <= i < |a| ensures a[i] !in chars {
        assert (a + b)[i] == a[i];
      }
      forall i | 0 <= i < |b| ensures b[i] !in chars {
        assert (a + b)[|a| + i] == b[i];
      }
    }
  }

  lemma FirstPassEntryKeeps(x: char)
    ensures NoneOf(FirstPassEntry(x), SecondPassChars) <==> x !in SecondPassChars
  {
    var h := FirstPassEntry(x);
    if x in FirstPassChars {
      assert h == "" || h == "_" || h == "plus";
    } else {
      assert h == [x] && h[0] == x;
    }
  }

  /** The first chain neither adds nor removes a second-pass character. */
  lemma {:induction false} FirstPassKeepsSecondPassChars(s: string)
    ensures NoneOf(FirstPassAll(s), SecondPassChars) <==> NoneOf(s, SecondPassChars)
  {
    if |s| != 0 {
      FirstPassKeepsSecondPassChars(s[1..]);
      var h := FirstPassEntry(s[0]);
      FirstPassEntryKeeps(s[0]);
      NoneOfAppend(h, FirstPassAll(s[1..]), SecondPassChars);
      NoneOfAppend([s[0]], s[1..], SecondPassChars);
      assert s == [s[0]] + s[1..];
    }
  }

  /** The second guard inspects the first-pass result; inspecting the original
    * name instead would give the same decision. */
  lemma SecondGuardAgreesWithOriginal(name: string)
    ensures (IndexOfAny(FirstPass(name), SecondPassChars) == -1) <==> (IndexOfAny(name, SecondPassChars) == -1)
  {
    FirstPassIsPerCharacter(name);
    FirstPassKeepsSecondPassChars(name);
  }

  /** `IsReserved` is membership in one of the two character lists. */
  lemma ReservedChars(c: char)
    ensures IsReserved(c) <==> c in FirstPassChars || c in SecondPassChars
  {
  }

  // ---------------------------------------------------------------------
  // Sample names. Each is evaluated on the table, one suffix at a time, and
  // carried over to `Generate` by `GenerateIsSubstitution`; the name is a
  // parameter so that the verifier does not unfold `Generate` on a literal.

  lemma SubstituteAllDot(name: string)
    requires name == "foo.bar"
    ensures SubstituteAll(name) == "foo_bar"
  {
    assert SubstituteAll(name[7..]) == "";
    assert SubstituteAll(name[6..]) == "r";
    assert SubstituteAll(name[5..]) == "ar";
    assert SubstituteAll(name[4..]) == "bar";
    assert SubstituteAll(name[3..]) == "_bar";
    assert SubstituteAll(name[2..]) == "o_bar";
    assert SubstituteAll(name[1..]) == "oo_bar";
    assert SubstituteAll(name[0..]) == "foo_bar";
    assert name[0..] == name;
  }

  lemma ExampleDot(name: string)
    requires name == "foo.bar"
    ensures Generate(name) == "foo_bar"
  {
    GenerateIsSubstitution(name);
    SubstituteAllDot(name);
  }

  lemma SubstituteAllPlus(name: string)
    requires name == "a+b"
    ensures SubstituteAll(name) == "aplusb"
  {
    assert SubstituteAll(name[3..]) == "";
    assert SubstituteAll(name[2..]) == "b";
    assert SubstituteAll(name[1..]) == "plusb";
    assert SubstituteAll(name[0..]) == "aplusb";
    assert name[0..] == name;
  }

  lemma ExamplePlus(name: string)
    requires name == "a+b"
    ensures Generate(name) == "aplusb"
  {
    GenerateIsSubstitution(name);
    SubstituteAllPlus(name);
  }

  lemma SubstituteAllHyphen(name: string)
    requires name == "x-y"
    ensures SubstituteAll(name) == "x_y"
  {
    assert SubstituteAll(name[3..]) == "";
    assert SubstituteAll(name[2..]) == "y";
    assert SubstituteAll(name[1..]) == "_y";
    assert SubstituteAll(name[0..]) == "x_y";
    assert name[0..] == name;
  }

  lemma ExampleHyphen(name: string)
    requires name == "x-y"
    ensures Generate(name) == "x_y"
  {
    GenerateIsSubstitution(name);
    SubstituteAllHyphen(name);
  }

  lemma SubstituteAllStar(name: string)
    requires name == "*flag"
    ensures SubstituteAll(name) == "Starflag"
  {
    assert SubstituteAll(name[5..]) == "";
    assert SubstituteAll(name[4..]) == "g";
    assert SubstituteAll(name[3..]) == "ag";
    assert SubstituteAll(name[2..]) == "lag";
    assert SubstituteAll(name[1..]) == "flag";
    assert SubstituteAll(name[0..]) == "Starflag";
    assert name[0..] == name;
  }

  lemma ExampleStar(name: string)
    requires name == "*flag"
    ensures Generate(name) == "Starflag"
  {
    GenerateIsSubstitution(name);
    SubstituteAllStar(name);
  }

  lemma SubstituteAllAmpersand(name: string)
    requires name == "a&b"
    ensures SubstituteAll(name) == "aAndb"
  {
    assert SubstituteAll(name[3..]) == "";
    assert SubstituteAll(name[2..]) == "b";
    assert SubstituteAll(name[1..]) == "Andb";
    assert SubstituteAll(name[0..]) == "aAndb";
    assert name[0..] == name;
  }

  lemma ExampleAmpersand(name: string)
    requires name == "a&b"
    ensures Generate(name) == "aAndb"
  {
    GenerateIsSubstitution(name);
    SubstituteAllAmpersand(name);
  }
}
