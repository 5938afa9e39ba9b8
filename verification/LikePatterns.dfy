/**
 SQL LIKE patterns and the regular expressions they are compiled to: at translation time for literal
 patterns, and by passes of replacements over the text of all others. How the passes are put into an
 aggregation expression is the subject of `LikeExpressions`.
 */
module LikePatterns {
  import opened Options
  import opened Text

  const METACHARACTERS: string := "\\.*+?()[]{}^$|"

  predicate IsMeta(c: char) {
    c in METACHARACTERS
  }

  // ----- what a pattern means (section 8.5 of ISO/IEC 9075-2) -----

  /** What one specifier of a pattern, or one item of a regular expression, stands for. */
  datatype Item = Literal(c: char) | AnyCharacter | AnyString

  /** A backslash makes the next character literal, and is itself literal at the end. */
  function LikeItems(pattern: string): seq<Item> {
    if pattern == "" then []
    else if pattern[0] == '\\' then
      if |pattern| == 1 then [Literal('\\')] else [Literal(pattern[1])] + LikeItems(pattern[2..])
    else if pattern[0] == '%' then [AnyString] + LikeItems(pattern[1..])
    else if pattern[0] == '_' then [AnyCharacter] + LikeItems(pattern[1..])
    else [Literal(pattern[0])] + LikeItems(pattern[1..])
  }

  function Concat(parts: seq<string>): string {
    if parts == [] then "" else parts[0] + Concat(parts[1..])
  }

  predicate Fits(item: Item, part: string) {
    match item
    case Literal(c) => part == [c]
    case AnyCharacter => |part| == 1
    case AnyString => true
  }

  ghost predicate Partitions(items: seq<Item>, parts: seq<string>, s: string) {
    |parts| == |items| && Concat(parts) == s && forall i :: 0 <= i < |items| ==> Fits(items[i], parts[i])
  }

  /** The string can be partitioned so that each part fits its specifier. */
  ghost predicate Like(pattern: string, s: string) {
    exists parts :: Partitions(LikeItems(pattern), parts, s)
  }

  // ----- what a regular expression means -----

  /** Characters that mean something else than themselves. */
  predicate IsSyntax(c: char) {
    || c == '\\' || c == '.' || c == '*' || c == '+' || c == '?' || c == '(' || c == ')' || c == '[' || c == ']'
    || c == '{' || c == '}' || c == '^' || c == '$' || c == '|'
  }

  /** After a backslash, letters and digits mean something else than themselves. */
  predicate IsAlphanumeric(c: char) {
    'a' <= c <= 'z' || 'A' <= c <= 'Z' || '0' <= c <= '9'
  }

  /** The items of regular expressions of the form emitted: escaped or plain characters, `.` and `.*`. */
  function ParseItems(text: string): Option<seq<Item>> {
    if text == "" then Some([])
    else if text[0] == '\\' then
      if |text| == 1 || IsAlphanumeric(text[1]) then None else Then(Literal(text[1]), ParseItems(text[2..]))
    else if text[0] == '.' then
      if |text| > 1 && text[1] == '*' then Then(AnyString, ParseItems(text[2..]))
      else Then(AnyCharacter, ParseItems(text[1..]))
    else if IsSyntax(text[0]) then None
    else Then(Literal(text[0]), ParseItems(text[1..]))
  }

  function Then(item: Item, rest: Option<seq<Item>>): Option<seq<Item>> {
    match rest
    case None => None
    case Some(items) => Some([item] + items)
  }

  /** Anchored at both ends. */
  function ParseRegex(text: string): Option<seq<Item>> {
    if |text| >= 2 && text[0] == '^' && text[|text| - 1] == '$' then ParseItems(text[1..|text| - 1]) else None
  }

  /** `.` does not match a newline, and `$` also matches before a newline at the end. */
  predicate MatchItems(items: seq<Item>, s: string)
    decreases |items| + |s|
  {
    if items == [] then s == "" || s == "\n"
    else
      match items[0]
      case Literal(c) => s != "" && s[0] == c && MatchItems(items[1..], s[1..])
      case AnyCharacter => s != "" && s[0] != '\n' && MatchItems(items[1..], s[1..])
      case AnyString => MatchItems(items[1..], s) || (s != "" && s[0] != '\n' && MatchItems(items, s[1..]))
  }

  predicate RegexMatches(text: string, s: string) {
    ParseRegex(text).Some? && MatchItems(ParseRegex(text).value, s)
  }

  /** The characters that are escaped are those that need it. */
  lemma MetaExact(c: char)
    ensures IsMeta(c) <==> IsSyntax(c)
  {
    var m := METACHARACTERS;
    assert m[0] == '\\' && m[1] == '.' && m[2] == '*' && m[3] == '+' && m[4] == '?' && m[5] == '(' && m[6] == ')';
    assert m[7] == '[' && m[8] == ']' && m[9] == '{' && m[10] == '}' && m[11] == '^' && m[12] == '$' && m[13] == '|';
  }

  // ----- compiling literal patterns -----

  function Escape(c: char): string {
    if IsMeta(c) then ['\\', c] else [c]
  }

  method EscapeRegexChar(c: char, out: string) returns (longer: string)
    ensures longer == out + Escape(c)
  {
    longer := out;
    if c in METACHARACTERS {
      longer := longer + ['\\'];
    }
    longer := longer + [c];
  }

  function RegexBody(pattern: string): string {
    if pattern == "" then ""
    else if pattern[0] == '\\' then
      if |pattern| == 1 then "\\\\" else Escape(pattern[1]) + RegexBody(pattern[2..])
    else if pattern[0] == '%' then ".*" + RegexBody(pattern[1..])
    else if pattern[0] == '_' then "." + RegexBody(pattern[1..])
    else Escape(pattern[0]) + RegexBody(pattern[1..])
  }

  method SqlLikeToRegex(pattern: string) returns (regex: string)
    ensures regex == "^" + RegexBody(pattern) + "$"
    ensures ParseRegex(regex) == Some(LikeItems(pattern))
    ensures forall s :: '\n' !in s ==> (RegexMatches(regex, s) <==> Like(pattern, s))
  {
    regex := "^";
    var i := 0;
    while i < |pattern|
      invariant 0 <= i <= |pattern|
      invariant regex + RegexBody(pattern[i..]) == "^" + RegexBody(pattern)
    {
      BodyStep(pattern, i);
      ghost var before, start := regex, i;
      ghost var piece: string;
      var c := pattern[i];
      i := i + 1;
      if c == '\\' {
        if i < |pattern| {
          regex := EscapeRegexChar(pattern[i], regex);
          piece := Escape(pattern[i]);
          i := i + 1;
        } else {
          regex := regex + "\\\\";
          piece := "\\\\";
        }
      } else if c == '%' {
        regex := regex + ".*";
        piece := ".*";
      } else if c == '_' {
        regex := regex + ".";
        piece := ".";
      } else {
        regex := EscapeRegexChar(c, regex);
        piece := Escape(c);
      }
      assert RegexBody(pattern[start..]) == piece + RegexBody(pattern[i..]);
      Regroup(before, piece, RegexBody(pattern[i..]));
    }
    assert regex + RegexBody(pattern[i..]) == regex;
    regex := regex + "$";
    LikeCorrectForAll(pattern);
  }

  lemma BodyStep(pattern: string, i: nat)
    requires i < |pattern|
    ensures var c, rest := pattern[i], pattern[i + 1..];
      RegexBody(pattern[i..]) ==
        if c == '\\' then if rest == "" then "\\\\" else Escape(rest[0]) + RegexBody(pattern[i + 2..])
        else if c == '%' then ".*" + RegexBody(rest)
        else if c == '_' then "." + RegexBody(rest)
        else Escape(c) + RegexBody(rest)
  {
    assert pattern[i..][1..] == pattern[i + 1..];
    assert i + 1 < |pattern| ==> pattern[i..][2..] == pattern[i + 2..];
  }

  lemma ParseEscaped(c: char, text: string)
    requires IsMeta(c) || (c != '\\' && c != '.')
    ensures ParseItems(Escape(c) + text) == Then(Literal(c), ParseItems(text))
  {
    var escaped := Escape(c) + text;
    assert escaped[|Escape(c)|..] == text;
  }

  lemma ParseAnyString(text: string)
    ensures ParseItems(".*" + text) == Then(AnyString, ParseItems(text))
  {
    assert (".*" + text)[2..] == text;
  }

  lemma ParseAnyCharacter(text: string)
    requires text == "" || text[0] != '*'
    ensures ParseItems("." + text) == Then(AnyCharacter, ParseItems(text))
  {
    var dotted := "." + text;
    assert dotted[1..] == text;
    assert |dotted| > 1 ==> dotted[1] == text[0];
  }

  lemma BodyStart(pattern: string)
    ensures RegexBody(pattern) == "" || RegexBody(pattern)[0] != '*'
  {
  }

  /** The text of the regular expression denotes the items of the pattern. */
  lemma {:induction false} BodyParses(pattern: string)
    ensures ParseItems(RegexBody(pattern)) == Some(LikeItems(pattern))
  {
    if pattern != "" {
      var c, rest := pattern[0], pattern[1..];
      if c == '\\' {
        if rest != "" {
          BodyParses(pattern[2..]);
          ParseEscaped(pattern[1], RegexBody(pattern[2..]));
        } else {
          assert IsMeta('\\') by { assert METACHARACTERS[0] == '\\'; }
          ParseEscaped('\\', "");
          assert Escape('\\') + "" == "\\\\" == RegexBody(pattern);
          assert [Literal('\\')] + [] == LikeItems(pattern);
        }
      } else {
        BodyParses(rest);
        if c == '%' {
          ParseAnyString(RegexBody(rest));
        } else if c == '_' {
          BodyStart(rest);
          ParseAnyCharacter(RegexBody(rest));
        } else {
          ParseEscaped(c, RegexBody(rest));
        }
      }
    }
  }

  lemma LikeCompiles(pattern: string)
    ensures ParseRegex("^" + RegexBody(pattern) + "$") == Some(LikeItems(pattern))
  {
    BodyParses(pattern);
    AnchoredParses(RegexBody(pattern));
  }

  // ----- the compiled pattern matches what the pattern means -----

  lemma PartitionCons(items: seq<Item>, parts: seq<string>, s: string, part: string, t: string)
    requires items != [] && Fits(items[0], part) && s == part + t && Partitions(items[1..], parts, t)
    ensures Partitions(items, [part] + parts, s)
  {
    var all := [part] + parts;
    assert all[1..] == parts;
    forall i | 0 <= i < |items| ensures Fits(items[i], all[i]) {
      if i > 0 { assert Fits(items[1..][i - 1], parts[i - 1]); }
    }
  }

  lemma PartitionTail(items: seq<Item>, parts: seq<string>, s: string)
    requires items != [] && Partitions(items, parts, s)
    ensures Fits(items[0], parts[0]) && s == parts[0] + Concat(parts[1..])
    ensures Partitions(items[1..], parts[1..], Concat(parts[1..]))
  {
  }

  lemma {:induction false} MatchPartitions(items: seq<Item>, s: string) returns (parts: seq<string>)
    requires '\n' !in s && MatchItems(items, s)
    ensures Partitions(items, parts, s)
    decreases |items| + |s|
  {
    if items == [] {
      parts := [];
    } else if items[0].AnyString? && !MatchItems(items[1..], s) {
      var shorter := MatchPartitions(items, s[1..]);
      PartitionTail(items, shorter, s[1..]);
      var first := [s[0]] + shorter[0];
      assert s == [s[0]] + s[1..];
      assert s == first + Concat(shorter[1..]);
      PartitionCons(items, shorter[1..], s, first, Concat(shorter[1..]));
      parts := [first] + shorter[1..];
    } else {
      var n := if items[0].AnyString? then 0 else 1;
      var rest := MatchPartitions(items[1..], s[n..]);
      PartitionCons(items, rest, s, s[..n], s[n..]);
      parts := [s[..n]] + rest;
    }
  }

  lemma {:induction false} PartitionMatches(items: seq<Item>, parts: seq<string>, s: string)
    requires '\n' !in s && Partitions(items, parts, s)
    ensures MatchItems(items, s)
    decreases |items| + |s|
  {
    if items != [] {
      PartitionTail(items, parts, s);
      var first, t := parts[0], Concat(parts[1..]);
      assert s[|first|..] == t;
      if items[0].AnyString? && first != "" {
        assert s[1..] == first[1..] + t;
        PartitionCons(items, parts[1..], s[1..], first[1..], t);
        PartitionMatches(items, [first[1..]] + parts[1..], s[1..]);
      } else {
        PartitionMatches(items[1..], parts[1..], t);
      }
    }
  }

  /** On strings without newlines the compiled regular expression matches exactly if the pattern does. */
  lemma LikeCorrect(pattern: string, s: string)
    requires '\n' !in s
    ensures RegexMatches("^" + RegexBody(pattern) + "$", s) <==> Like(pattern, s)
  {
    LikeCompiles(pattern);
    var items := LikeItems(pattern);
    if MatchItems(items, s) {
      var parts := MatchPartitions(items, s);
    }
    if Like(pattern, s) {
      var parts :| Partitions(items, parts, s);
      PartitionMatches(items, parts, s);
    }
  }

  lemma LikeCorrectForAll(pattern: string)
    ensures var regex := "^" + RegexBody(pattern) + "$";
      && ParseRegex(regex) == Some(LikeItems(pattern))
      && forall s :: '\n' !in s ==> (RegexMatches(regex, s) <==> Like(pattern, s))
  {
    LikeCompiles(pattern);
    forall s | '\n' !in s ensures RegexMatches("^" + RegexBody(pattern) + "$", s) <==> Like(pattern, s) {
      LikeCorrect(pattern, s);
    }
  }

  // ----- newlines -----

  function Underscores(n: nat): (pattern: string)
    ensures |pattern| == n
  {
    if n == 0 then "" else "_" + Underscores(n - 1)
  }

  lemma {:induction false} UnderscoresLike(s: string)
    ensures Like(Underscores(|s|), s)
  {
    var items := LikeItems(Underscores(|s|));
    if s == "" {
      assert Partitions(items, [], s);
    } else {
      UnderscoresLike(s[1..]);
      assert Underscores(|s|)[1..] == Underscores(|s| - 1);
      var parts :| Partitions(LikeItems(Underscores(|s[1..]|)), parts, s[1..]);
      assert items[1..] == LikeItems(Underscores(|s| - 1));
      PartitionCons(items, parts, s, s[..1], s[1..]);
    }
  }

  lemma {:induction false} UnderscoresMatch(n: nat, s: string)
    requires |s| == n
    ensures MatchItems(LikeItems(Underscores(n)), s) ==> '\n' !in s
  {
    if n > 0 {
      assert Underscores(n)[1..] == Underscores(n - 1);
      assert LikeItems(Underscores(n))[1..] == LikeItems(Underscores(n - 1));
      UnderscoresMatch(n - 1, s[1..]);
      assert s == [s[0]] + s[1..];
    }
  }

  /** Compilation is right for all patterns on exactly the strings without newlines. */
  lemma NewlineFreeExact(s: string)
    ensures (forall pattern :: RegexMatches("^" + RegexBody(pattern) + "$", s) <==> Like(pattern, s)) <==> '\n' !in s
  {
    if '\n' in s {
      var pattern := Underscores(|s|);
      UnderscoresLike(s);
      UnderscoresMatch(|s|, s);
      LikeCompiles(pattern);
    } else {
      forall pattern ensures RegexMatches("^" + RegexBody(pattern) + "$", s) <==> Like(pattern, s) {
        LikeCorrect(pattern, s);
      }
    }
  }

  // ----- the passes over the text of other patterns -----

  datatype Replacement = Replacement(find: char, replacement: string)

  function Escapes(characters: string): seq<Replacement> {
    if characters == "" then []
    else [Replacement(characters[0], ['\\', characters[0]])] + Escapes(characters[1..])
  }

  /** First the metacharacters are escaped, the backslash before all others, and then the wildcards are converted. */
  function Replacements(): seq<Replacement> {
    Escapes(METACHARACTERS) + [Replacement('%', ".*"), Replacement('_', ".")]
  }

  /** One pass. */
  function ReplaceAll(input: string, find: char, replacement: string): string {
    if input == "" then ""
    else (if input[0] == find then replacement else [input[0]]) + ReplaceAll(input[1..], find, replacement)
  }

  function Chain(input: string, replacements: seq<Replacement>): string
    decreases |replacements|
  {
    if replacements == [] then input
    else Chain(ReplaceAll(input, replacements[0].find, replacements[0].replacement), replacements[1..])
  }

  lemma {:induction false} ReplaceAllAppend(a: string, b: string, find: char, replacement: string)
    ensures ReplaceAll(a + b, find, replacement) == ReplaceAll(a, find, replacement) + ReplaceAll(b, find, replacement)
  {
    if a == "" {
      assert a + b == b;
    } else {
      assert (a + b)[1..] == a[1..] + b;
      ReplaceAllAppend(a[1..], b, find, replacement);
    }
  }

  lemma {:induction false} ReplaceAllAbsent(input: string, find: char, replacement: string)
    requires find !in input
    ensures ReplaceAll(input, find, replacement) == input
  {
    if input != "" {
      ReplaceAllAbsent(input[1..], find, replacement);
    }
  }

  /** Replacements act on each character by itself. */
  lemma {:induction false} ChainAppend(a: string, b: string, replacements: seq<Replacement>)
    ensures Chain(a + b, replacements) == Chain(a, replacements) + Chain(b, replacements)
    decreases |replacements|
  {
    if replacements != [] {
      var find, replacement := replacements[0].find, replacements[0].replacement;
      ReplaceAllAppend(a, b, find, replacement);
      ChainAppend(ReplaceAll(a, find, replacement), ReplaceAll(b, find, replacement), replacements[1..]);
    }
  }

  lemma {:induction false} ChainConcat(input: string, first: seq<Replacement>, second: seq<Replacement>)
    ensures Chain(input, first + second) == Chain(Chain(input, first), second)
    decreases |first|
  {
    if first == [] {
      assert first + second == second;
    } else {
      assert (first + second)[1..] == first[1..] + second;
      ChainConcat(ReplaceAll(input, first[0].find, first[0].replacement), first[1..], second);
    }
  }

  predicate Distinct(s: string) {
    forall i, j :: 0 <= i < j < |s| ==> s[i] != s[j]
  }

  lemma {:induction false} EscapesSkip(input: string, characters: string)
    requires forall c :: c in input ==> c !in characters
    ensures Chain(input, Escapes(characters)) == input
  {
    if characters != "" {
      ReplaceAllAbsent(input, characters[0], ['\\', characters[0]]);
      EscapesSkip(input, characters[1..]);
    }
  }

  /** The escaping passes escape a character once, as the backslash is not replaced again. */
  lemma {:induction false} EscapesOnce(c: char, characters: string)
    requires Distinct(characters) && (characters == "" || '\\' !in characters[1..])
    ensures Chain([c], Escapes(characters)) == if c in characters then ['\\', c] else [c]
  {
    if characters != "" {
      var rest := characters[1..];
      assert Distinct(rest) && characters == [characters[0]] + rest;
      assert Escapes(characters)[1..] == Escapes(rest);
      if c == characters[0] {
        assert ReplaceAll([c], c, ['\\', c]) == ['\\', c];
        EscapesSkip(['\\', c], rest);
      } else {
        ReplaceAllAbsent([c], characters[0], ['\\', characters[0]]);
        EscapesOnce(c, rest);
      }
    }
  }

  /** What the chain does to one character. */
  function RuntimeEscape(c: char): string {
    if IsMeta(c) then ['\\', c]
    else if c == '%' then ".*"
    else if c == '_' then "."
    else [c]
  }

  lemma WildcardChain(input: string)
    ensures Chain(input, [Replacement('%', ".*"), Replacement('_', ".")])
         == ReplaceAll(ReplaceAll(input, '%', ".*"), '_', ".")
  {
    var wildcards := [Replacement('%', ".*"), Replacement('_', ".")];
    assert wildcards[1..] == [Replacement('_', ".")] && wildcards[1..][1..] == [];
  }

  lemma MetaDistinct()
    ensures Distinct(METACHARACTERS) && '\\' !in METACHARACTERS[1..]
    ensures '%' !in METACHARACTERS && '_' !in METACHARACTERS
  {
  }

  lemma ReplaceOne(find: char, replacement: string)
    ensures ReplaceAll([find], find, replacement) == replacement
  {
    assert [find][1..] == "" && replacement + "" == replacement;
  }

  lemma ChainCharacter(c: char)
    ensures Chain([c], Replacements()) == RuntimeEscape(c)
  {
    MetaDistinct();
    EscapesOnce(c, METACHARACTERS);
    ChainConcat([c], Escapes(METACHARACTERS), [Replacement('%', ".*"), Replacement('_', ".")]);
    WildcardChain(Escape(c));
    if c == '%' {
      ReplaceOne('%', ".*");
      ReplaceAllAbsent(".*", '_', ".");
    } else {
      ReplaceAllAbsent(Escape(c), '%', ".*");
      if c == '_' {
        ReplaceOne('_', ".");
      } else {
        ReplaceAllAbsent(Escape(c), '_', ".");
      }
    }
  }

  lemma ChainCons(c: char, rest: string)
    ensures Chain([c] + rest, Replacements()) == RuntimeEscape(c) + Chain(rest, Replacements())
  {
    ChainAppend([c], rest, Replacements());
    ChainCharacter(c);
  }

  lemma {:induction false} ChainEmpty(replacements: seq<Replacement>)
    ensures Chain("", replacements) == ""
  {
    if replacements != [] {
      ChainEmpty(replacements[1..]);
    }
  }

  /** A backslash that escapes something. */
  predicate HasEscape(pattern: string) {
    exists i :: 0 <= i < |pattern| - 1 && pattern[i] == '\\'
  }

  lemma HasEscapeCons(c: char, rest: string)
    ensures HasEscape([c] + rest) <==> (c == '\\' && rest != "") || HasEscape(rest)
  {
    var pattern := [c] + rest;
    if HasEscape(rest) {
      var i :| 0 <= i < |rest| - 1 && rest[i] == '\\';
      assert pattern[i + 1] == '\\';
    }
    if HasEscape(pattern) && !(c == '\\' && rest != "") {
      var i :| 0 <= i < |pattern| - 1 && pattern[i] == '\\';
      assert rest[i - 1] == '\\';
    }
    assert pattern[0] == c;
  }

  lemma BodyCons(c: char, rest: string)
    requires c != '\\' || rest == ""
    ensures RegexBody([c] + rest) == RuntimeEscape(c) + RegexBody(rest)
  {
    assert ([c] + rest)[1..] == rest;
    assert METACHARACTERS[0] == '\\';
    MetaDistinct();
  }

  lemma EscapeNotLonger(c: char)
    ensures |Escape(c)| <= |RuntimeEscape(c)| && |RuntimeEscape('\\')| == 2
  {
    assert METACHARACTERS[0] == '\\';
  }

  lemma {:induction false} ChainAtLeastBody(pattern: string)
    ensures |RegexBody(pattern)| <= |Chain(pattern, Replacements())|
    ensures HasEscape(pattern) ==> |RegexBody(pattern)| < |Chain(pattern, Replacements())|
    ensures !HasEscape(pattern) ==> RegexBody(pattern) == Chain(pattern, Replacements())
    decreases pattern, 1
  {
    if pattern == "" {
      ChainEmpty(Replacements());
    } else {
      var c, rest := pattern[0], pattern[1..];
      assert pattern == [c] + rest;
      ChainCons(c, rest);
      HasEscapeCons(c, rest);
      if c != '\\' || rest == "" {
        BodyCons(c, rest);
        ChainAtLeastBody(rest);
      } else {
        EscapedShorter(pattern);
      }
    }
  }

  lemma {:induction false} EscapedShorter(pattern: string)
    requires |pattern| > 1 && pattern[0] == '\\'
    ensures |RegexBody(pattern)| < |Chain(pattern, Replacements())|
    decreases pattern, 0
  {
    var c, rest := pattern[1], pattern[2..];
    assert pattern == ['\\'] + ([c] + rest);
    ChainCons('\\', [c] + rest);
    ChainCons(c, rest);
    EscapeNotLonger(c);
    ChainAtLeastBody(rest);
  }

  /** The passes give the text of the literal compilation exactly if no backslash escapes anything. */
  lemma DynamicAgrees(pattern: string)
    ensures "^" + Chain(pattern, Replacements()) + "$" == "^" + RegexBody(pattern) + "$" <==> !HasEscape(pattern)
  {
    ChainAtLeastBody(pattern);
  }

  // ----- what the text after the passes matches -----

  function PlainItem(c: char): Item {
    if c == '%' then AnyString else if c == '_' then AnyCharacter else Literal(c)
  }

  /** The items of a pattern in which a backslash escapes nothing. */
  function PlainItems(pattern: string): seq<Item> {
    if pattern == "" then [] else [PlainItem(pattern[0])] + PlainItems(pattern[1..])
  }

  lemma RuntimeParses(c: char, text: string)
    requires text == "" || text[0] != '*'
    ensures ParseItems(RuntimeEscape(c) + text) == Then(PlainItem(c), ParseItems(text))
    ensures RuntimeEscape(c) + text != "" && (RuntimeEscape(c) + text)[0] != '*'
  {
    MetaDistinct();
    if c == '%' {
      ParseAnyString(text);
    } else if c == '_' {
      ParseAnyCharacter(text);
    } else {
      assert IsMeta('\\') && IsMeta('.') && IsMeta('*') by {
        assert METACHARACTERS[0] == '\\' && METACHARACTERS[1] == '.' && METACHARACTERS[2] == '*';
      }
      ParseEscaped(c, text);
    }
  }

  /** What the chain does to a pattern, character by character. */
  function RuntimeText(pattern: string): string {
    if pattern == "" then "" else RuntimeEscape(pattern[0]) + RuntimeText(pattern[1..])
  }

  lemma {:induction false} CharacterwiseChain(pattern: string, replacements: seq<Replacement>)
    requires forall c :: Chain([c], replacements) == RuntimeEscape(c)
    ensures Chain(pattern, replacements) == RuntimeText(pattern)
  {
    if pattern == "" {
      ChainEmpty(replacements);
    } else {
      assert pattern == [pattern[0]] + pattern[1..];
      ChainAppend([pattern[0]], pattern[1..], replacements);
      CharacterwiseChain(pattern[1..], replacements);
    }
  }

  lemma ChainCharacters(pattern: string)
    ensures Chain(pattern, Replacements()) == RuntimeText(pattern)
  {
    forall c ensures Chain([c], Replacements()) == RuntimeEscape(c) {
      ChainCharacter(c);
    }
    CharacterwiseChain(pattern, Replacements());
  }

  lemma {:induction false} TextParses(pattern: string)
    ensures ParseItems(RuntimeText(pattern)) == Some(PlainItems(pattern))
    ensures RuntimeText(pattern) == "" || RuntimeText(pattern)[0] != '*'
  {
    if pattern != "" {
      TextParses(pattern[1..]);
      RuntimeParses(pattern[0], RuntimeText(pattern[1..]));
    }
  }

  lemma RuntimeCompiles(pattern: string)
    ensures ParseRegex("^" + Chain(pattern, Replacements()) + "$") == Some(PlainItems(pattern))
  {
    ChainCharacters(pattern);
    TextParses(pattern);
    AnchoredParses(RuntimeText(pattern));
  }

  lemma AnchoredParses(body: string)
    ensures ParseRegex("^" + body + "$") == ParseItems(body)
  {
    var text := "^" + body + "$";
    assert text[1..|text| - 1] == body;
  }

  /** The number of items that take a character each. */
  function MinLength(items: seq<Item>): nat {
    if items == [] then 0 else (if items[0].AnyString? then 0 else 1) + MinLength(items[1..])
  }

  lemma {:induction false} MatchesAreLong(items: seq<Item>, s: string)
    requires MatchItems(items, s) && '\n' !in s
    ensures |s| >= MinLength(items)
    decreases |items| + |s|
  {
    if items != [] {
      if items[0].AnyString? && !MatchItems(items[1..], s) {
        MatchesAreLong(items, s[1..]);
      } else {
        MatchesAreLong(items[1..], s[if items[0].AnyString? then 0 else 1..]);
      }
    }
  }

  /** A shortest string the pattern stands for. */
  function Shortest(pattern: string): string {
    if pattern == "" then ""
    else if pattern[0] == '\\' then
      if |pattern| == 1 then pattern else [pattern[1]] + Shortest(pattern[2..])
    else if pattern[0] == '%' then Shortest(pattern[1..])
    else if pattern[0] == '_' then "x" + Shortest(pattern[1..])
    else [pattern[0]] + Shortest(pattern[1..])
  }

  lemma {:induction false} ShortestMatches(pattern: string)
    requires '\n' !in pattern
    ensures '\n' !in Shortest(pattern) && MatchItems(LikeItems(pattern), Shortest(pattern))
  {
    if |pattern| > 1 && pattern[0] == '\\' {
      ShortestMatches(pattern[2..]);
    } else if pattern != "" && pattern != "\\" {
      ShortestMatches(pattern[1..]);
    }
  }

  lemma {:induction false} ShortestIsShort(pattern: string)
    ensures |Shortest(pattern)| <= MinLength(PlainItems(pattern))
  {
    if pattern != "" {
      assert PlainItems(pattern)[1..] == PlainItems(pattern[1..]);
      if pattern[0] == '\\' && |pattern| > 1 {
        ShortestIsShort(pattern[2..]);
        assert PlainItems(pattern[1..])[1..] == PlainItems(pattern[2..]);
      } else {
        ShortestIsShort(pattern[1..]);
      }
    }
  }

  /** A pattern with an escape does not match its shortest string once the backslash is read as itself. */
  lemma {:induction false} EscapeMisread(pattern: string)
    requires '\n' !in pattern && HasEscape(pattern)
    ensures !MatchItems(PlainItems(pattern), Shortest(pattern))
  {
    var rest := pattern[1..];
    var items, s := PlainItems(pattern), Shortest(pattern);
    assert pattern == [pattern[0]] + rest && items[1..] == PlainItems(rest);
    HasEscapeCons(pattern[0], rest);
    ShortestMatches(pattern);
    if pattern[0] == '\\' {
      ShortestIsShort(pattern[2..]);
      assert items[1..][1..] == PlainItems(pattern[2..]);
      if MatchItems(items, s) {
        MatchesAreLong(items[1..], s[1..]);
      }
    } else {
      EscapeMisread(rest);
      ShortestIsShort(rest);
      if pattern[0] == '%' && MatchItems(items, s) {
        MatchesAreLong(items, s[1..]);
      }
    }
  }

  /** Without escapes the passes give the items of the pattern. */
  lemma PlainLike(pattern: string)
    requires !HasEscape(pattern)
    ensures PlainItems(pattern) == LikeItems(pattern)
  {
    ChainAtLeastBody(pattern);
    ChainCharacters(pattern);
    TextParses(pattern);
    BodyParses(pattern);
  }

  lemma {:induction false} NewlineItem(pattern: string)
    requires '\n' in pattern
    ensures Literal('\n') in PlainItems(pattern) && Literal('\n') in LikeItems(pattern)
  {
    if pattern[0] != '\n' {
      NewlineItem(pattern[1..]);
    }
    if pattern[0] == '\\' && pattern[1] != '\n' {
      NewlineItem(pattern[2..]);
    }
  }

  lemma {:induction false} NewlineNeeded(items: seq<Item>, s: string)
    requires Literal('\n') in items && MatchItems(items, s)
    ensures '\n' in s
    decreases |items| + |s|
  {
    if items[0] != Literal('\n') {
      if items[0].AnyString? && !MatchItems(items[1..], s) {
        NewlineNeeded(items, s[1..]);
      } else {
        NewlineNeeded(items[1..], s[if items[0].AnyString? then 0 else 1..]);
      }
    }
  }

  /**
   The text after the passes is right on all strings without newlines exactly if no backslash escapes
   anything, or the pattern has a newline and matches none of them.
   */
  lemma DynamicExact(pattern: string)
    ensures (forall s :: '\n' !in s ==>
               (RegexMatches("^" + Chain(pattern, Replacements()) + "$", s) <==> Like(pattern, s)))
       <==> !HasEscape(pattern) || '\n' in pattern
  {
    RuntimeCompiles(pattern);
    if HasEscape(pattern) && '\n' !in pattern {
      EscapeMisread(pattern);
      ShortestMatches(pattern);
      LikeCompiles(pattern);
      LikeCorrect(pattern, Shortest(pattern));
    } else {
      forall s | '\n' !in s
        ensures RegexMatches("^" + Chain(pattern, Replacements()) + "$", s) <==> Like(pattern, s)
      {
        LikeCompiles(pattern);
        LikeCorrect(pattern, s);
        if '\n' in pattern {
          NewlineItem(pattern);
          assert MatchItems(PlainItems(pattern), s) ==> '\n' in s by {
            if MatchItems(PlainItems(pattern), s) { NewlineNeeded(PlainItems(pattern), s); }
          }
          assert MatchItems(LikeItems(pattern), s) ==> '\n' in s by {
            if MatchItems(LikeItems(pattern), s) { NewlineNeeded(LikeItems(pattern), s); }
          }
        } else {
          PlainLike(pattern);
        }
      }
    }
  }
}
