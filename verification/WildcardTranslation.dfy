/**
 Wildcard patterns of classification rules: the rule engine matches them with
 fnmatch, the rule preview translates them to a SQL LIKE pattern. Case mapping is
 that of ASCII letters.
 */
module WildcardTranslation {
  import opened Common

  function FoldChar(c: char): char {
    if 'A' <= c <= 'Z' then c - 'A' + 'a' else c
  }

  function Fold(s: string): string {
    seq(|s|, i requires 0 <= i < |s| => FoldChar(s[i]))
  }

  // --- The rule engine: fnmatchcase on folded strings --------------------------

  // '*' stands for any text, '?' for one character, anything else for itself; the
  // bracket sets of fnmatch are not modelled, so patterns are without '['.
  predicate WildcardMatches(value: string, pattern: string)
    decreases |pattern|
  {
    if pattern == [] then value == []
    else if pattern[0] == '*' then exists k :: 0 <= k <= |value| && WildcardMatches(value[k..], pattern[1..])
    else value != [] && (pattern[0] == '?' || pattern[0] == value[0]) && WildcardMatches(value[1..], pattern[1..])
  }

  // --- The rule preview: SQL LIKE -------------------------------------------------

  // str.replace of a single character.
  function ReplaceAll(s: string, what: char, into: string): string {
    if s == [] then [] else (if s[0] == what then into else [s[0]]) + ReplaceAll(s[1..], what, into)
  }

  function Translate(pattern: string): string {
    ReplaceAll(ReplaceAll(ReplaceAll(ReplaceAll(ReplaceAll(pattern, '\\', "\\\\"), '%', "\\%"), '_', "\\_"), '*', "%"),
               '?', "_")
  }

  // The LIKE matcher: '%' tries zero characters, then one more; the escape character
  // makes the next pattern character literal and must not be the last one.
  datatype LikeError = EscapeTooLong | TrailingEscape

  predicate WellEscaped(pattern: string, escape: char) {
    if pattern == [] then true
    else if pattern[0] == escape then |pattern| >= 2 && WellEscaped(pattern[2..], escape)
    else WellEscaped(pattern[1..], escape)
  }

  predicate LikeMatches(value: string, pattern: string, escape: char)
    decreases |pattern|, |value|
  {
    if pattern == [] then value == []
    else if pattern[0] == escape then
      |pattern| >= 2 && value != [] && value[0] == pattern[1] && LikeMatches(value[1..], pattern[2..], escape)
    else if pattern[0] == '%' then
      LikeMatches(value, pattern[1..], escape) || (value != [] && LikeMatches(value[1..], pattern, escape))
    else
      value != [] && (pattern[0] == '_' || pattern[0] == value[0]) && LikeMatches(value[1..], pattern[1..], escape)
  }

  // A SQL string constant: with standard_conforming_strings off, a backslash in it
  // escapes the next character.
  function SqlLiteral(text: string, standardConforming: bool): (content: string)
    ensures content == [] <==> text == []
  {
    if standardConforming || text == [] then text
    else if text[0] == '\\' && |text| >= 2 then [text[1]] + SqlLiteral(text[2..], standardConforming)
    else [text[0]] + SqlLiteral(text[1..], standardConforming)
  }

  function Like(value: string, pattern: string, escape: string): Result<bool, LikeError>
    requires escape != []
  {
    if |escape| > 1 then Err(EscapeTooLong)
    else if !WellEscaped(pattern, escape[0]) then Err(TrailingEscape)
    else Ok(LikeMatches(value, pattern, escape[0]))
  }

  // The text between the quotes after ESCAPE: the source writes four backslashes in a
  // Python literal, so the statement carries two.
  const ESCAPE_TEXT: string := "\\\\"

  // The wildcard branch of test_rule for one stored value.
  function Preview(value: string, pattern: string, standardConforming: bool): Result<bool, LikeError> {
    Like(Fold(value), Fold(Translate(pattern)), SqlLiteral(ESCAPE_TEXT, standardConforming))
  }

  // Backslashes that were doubled are read back as one, and standard ones as they are.
  lemma {:induction false} DoublingIsUndone(text: string)
    ensures SqlLiteral(ReplaceAll(text, '\\', "\\\\"), false) == text
    ensures SqlLiteral(text, true) == text
  {
    if text != [] {
      DoublingIsUndone(text[1..]);
      var rest := ReplaceAll(text[1..], '\\', "\\\\");
      if text[0] == '\\' {
        assert ("\\\\" + rest)[2..] == rest;
      } else {
        assert ([text[0]] + rest)[1..] == rest;
      }
      assert [text[0]] + text[1..] == text;
    }
  }

  // --- The five replacements act as one map ------------------------------------------

  function TranslateChar(c: char): string {
    match c
    case '\\' => "\\\\"
    case '%' => "\\%"
    case '_' => "\\_"
    case '*' => "%"
    case '?' => "_"
    case _ => [c]
  }

  function TranslateEach(pattern: string): string {
    if pattern == [] then [] else TranslateChar(pattern[0]) + TranslateEach(pattern[1..])
  }

  lemma {:induction false} ReplaceConcat(a: string, b: string, what: char, into: string)
    ensures ReplaceAll(a + b, what, into) == ReplaceAll(a, what, into) + ReplaceAll(b, what, into)
  {
    if a == [] {
      assert a + b == b;
    } else {
      ReplaceConcat(a[1..], b, what, into);
      var head := if a[0] == what then into else [a[0]];
      var first, second := ReplaceAll(a[1..], what, into), ReplaceAll(b, what, into);
      assert (a + b)[0] == a[0] && (a + b)[1..] == a[1..] + b;
      assert head + (first + second) == head + first + second;
    }
  }

  lemma TranslateConcat(a: string, b: string)
    ensures Translate(a + b) == Translate(a) + Translate(b)
  {
    ReplaceConcat(a, b, '\\', "\\\\");
    var a1, b1 := ReplaceAll(a, '\\', "\\\\"), ReplaceAll(b, '\\', "\\\\");
    ReplaceConcat(a1, b1, '%', "\\%");
    var a2, b2 := ReplaceAll(a1, '%', "\\%"), ReplaceAll(b1, '%', "\\%");
    ReplaceConcat(a2, b2, '_', "\\_");
    var a3, b3 := ReplaceAll(a2, '_', "\\_"), ReplaceAll(b2, '_', "\\_");
    ReplaceConcat(a3, b3, '*', "%");
    ReplaceConcat(ReplaceAll(a3, '*', "%"), ReplaceAll(b3, '*', "%"), '?', "_");
  }

  lemma ReplaceOne(c: char, what: char, into: string)
    ensures ReplaceAll([c], what, into) == if c == what then into else [c]
  {
    assert [c][1..] == [];
  }

  lemma ReplaceTwo(c: char, d: char, what: char, into: string)
    requires c != what && d != what
    ensures ReplaceAll([c, d], what, into) == [c, d]
  {
    assert [c, d][1..] == [d];
    ReplaceOne(d, what, into);
  }

  lemma TranslateOne(c: char)
    ensures Translate([c]) == TranslateChar(c)
  {
    ReplaceOne(c, '\\', "\\\\");
    ReplaceOne(c, '%', "\\%");
    ReplaceOne(c, '_', "\\_");
    ReplaceOne(c, '*', "%");
    ReplaceOne(c, '?', "_");
    ReplaceOne('%', '?', "_");
    if c == '\\' || c == '%' || c == '_' {
      if c != '_' {
        ReplaceTwo('\\', c, '_', "\\_");
      }
      if c == '\\' {
        ReplaceTwo('\\', '\\', '%', "\\%");
      }
      ReplaceTwo('\\', c, '*', "%");
      ReplaceTwo('\\', c, '?', "_");
    }
  }

  // No replacement touches what an earlier one produced.
  lemma {:induction false} TranslateIsPerCharacter(pattern: string)
    ensures Translate(pattern) == TranslateEach(pattern)
  {
    if pattern != [] {
      TranslateConcat([pattern[0]], pattern[1..]);
      assert [pattern[0]] + pattern[1..] == pattern;
      TranslateOne(pattern[0]);
      TranslateIsPerCharacter(pattern[1..]);
    }
  }

  // --- Meaning is preserved --------------------------------------------------------------

  lemma FoldConcat(a: string, b: string)
    ensures Fold(a + b) == Fold(a) + Fold(b)
  {
  }

  lemma FoldTranslateChar(c: char)
    ensures Fold(TranslateChar(c)) == TranslateChar(FoldChar(c))
  {
  }

  // Lowering the translated pattern is translating the lowered pattern.
  lemma {:induction false} FoldTranslate(pattern: string)
    ensures Fold(TranslateEach(pattern)) == TranslateEach(Fold(pattern))
  {
    if pattern != [] {
      FoldTranslate(pattern[1..]);
      FoldConcat(TranslateChar(pattern[0]), TranslateEach(pattern[1..]));
      FoldTranslateChar(pattern[0]);
      assert Fold(pattern)[1..] == Fold(pattern[1..]);
    }
  }

  lemma {:induction false} TranslationIsWellEscaped(pattern: string)
    ensures WellEscaped(TranslateEach(pattern), '\\')
  {
    if pattern != [] {
      TranslationIsWellEscaped(pattern[1..]);
      var head, rest := TranslateChar(pattern[0]), TranslateEach(pattern[1..]);
      assert (head + rest)[|head|..] == rest;
    }
  }

  // LIKE on the translation is wildcard matching on the pattern.
  lemma {:induction false} TranslationPreservesMeaning(value: string, pattern: string)
    ensures LikeMatches(value, TranslateEach(pattern), '\\') <==> WildcardMatches(value, pattern)
    decreases |pattern|, |value|
  {
    if pattern != [] {
      var rest := pattern[1..];
      var head, tail := TranslateChar(pattern[0]), TranslateEach(rest);
      assert (head + tail)[|head|..] == tail;
      if pattern[0] == '*' {
        StarPreservesMeaning(value, pattern);
      } else if value != [] {
        TranslationPreservesMeaning(value[1..], rest);
      }
    }
  }

  lemma {:induction false} StarPreservesMeaning(value: string, pattern: string)
    requires pattern != [] && pattern[0] == '*'
    ensures LikeMatches(value, TranslateEach(pattern), '\\') <==> WildcardMatches(value, pattern)
    decreases |pattern|, |value|, 0
  {
    var rest := pattern[1..];
    assert TranslateEach(pattern) == "%" + TranslateEach(rest);
    assert TranslateEach(pattern)[1..] == TranslateEach(rest);
    TranslationPreservesMeaning(value, rest);
    assert value[0..] == value;
    if value != [] {
      TranslationPreservesMeaning(value[1..], pattern);
      assert forall k :: 0 < k <= |value| ==> value[k..] == value[1..][k - 1..];
      assert forall k :: 0 <= k <= |value[1..]| ==> value[1..][k..] == value[k + 1..];
    }
  }

  // The preview answers as the rule engine does exactly when the server reads the
  // doubled backslash as one; otherwise the statement fails for every pattern.
  lemma PreviewAgreesExactly(value: string, pattern: string, standardConforming: bool)
    requires '[' !in pattern
    ensures Preview(value, pattern, standardConforming) == Ok(WildcardMatches(Fold(value), Fold(pattern))) <==>
              !standardConforming
    ensures standardConforming ==> Preview(value, pattern, standardConforming) == Err(EscapeTooLong)
  {
    if !standardConforming {
      assert ESCAPE_TEXT[2..] == [];
      assert SqlLiteral(ESCAPE_TEXT, false) == ['\\'] + SqlLiteral([], false);
      TranslateIsPerCharacter(pattern);
      FoldTranslate(pattern);
      TranslationIsWellEscaped(Fold(pattern));
      TranslationPreservesMeaning(Fold(value), Fold(pattern));
    }
  }
}
