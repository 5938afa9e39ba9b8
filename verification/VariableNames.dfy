/**
 Names in MongoDB expressions: which are safe as field references, and how any name is turned into a
 valid variable name.
 */
module VariableNames {
  import opened Options
  import opened Text

  /** MongoDB does not interpret the name: no initial dollar sign, no dots. */
  predicate IsNameSafe(name: string) {
    !(name != "" && name[0] == '$') && '.' !in name
  }

  // ----- escaping -----

  const ESCAPE_CHAR: char := '\U{B7}'
  const ESCAPE_CHAR_ESCAPE_SEQUENCE: nat := 0xff

  predicate IsWordChar(c: char) {
    'a' <= c <= 'z' || 'A' <= c <= 'Z' || '0' <= c <= '9' || c == '_'
  }

  predicate IsAscii(c: char) {
    c as int <= 127
  }

  /** The characters MongoDB allows in variable names. */
  predicate IsLegal(c: char) {
    !IsAscii(c) || IsWordChar(c)
  }

  function HexDigit(d: nat): char
    requires d < 16
  {
    if d < 10 then '0' + d as char else 'a' + (d - 10) as char
  }

  function HexValue(c: char): Option<nat> {
    if '0' <= c <= '9' then Some((c - '0') as nat)
    else if 'a' <= c <= 'f' then Some((c - 'a') as nat + 10)
    else None
  }

  /** Lower-case hexadecimal notation without leading zeros. */
  function Hex(n: nat): string {
    if n < 16 then [HexDigit(n)] else Hex(n / 16) + [HexDigit(n % 16)]
  }

  function EncodedChar(code: nat): string {
    [ESCAPE_CHAR] + (if code < 0x10 then "0" else "") + Hex(code)
  }

  method PushEncodedChar(encoded: string, code: nat) returns (longer: string)
    ensures longer == encoded + EncodedChar(code)
  {
    var zeroPad := if code < 0x10 then "0" else "";
    longer := encoded + ([ESCAPE_CHAR] + zeroPad + Hex(code));
  }

  function EscapedChar(c: char): string {
    if c == ESCAPE_CHAR then EncodedChar(ESCAPE_CHAR_ESCAPE_SEQUENCE)
    else if IsWordChar(c) then [c]
    else if IsAscii(c) then EncodedChar(c as nat)
    else [c]
  }

  function Escaped(input: string): string {
    if input == "" then "" else Escaped(input[..|input| - 1]) + EscapedChar(input[|input| - 1])
  }

  method EscapeInvalidVariableChars(input: string) returns (encoded: string)
    ensures encoded == Escaped(input)
    ensures forall c :: c in encoded ==> IsLegal(c)
    ensures Unescape(encoded) == Some(input)
  {
    encoded := "";
    for i := 0 to |input|
      invariant encoded == Escaped(input[..i])
    {
      var c := input[i];
      assert input[..i + 1][..i] == input[..i];
      if c == ESCAPE_CHAR {
        encoded := PushEncodedChar(encoded, ESCAPE_CHAR_ESCAPE_SEQUENCE);
      } else if IsWordChar(c) {
        encoded := encoded + [c];
      } else if c as int <= 127 {
        encoded := PushEncodedChar(encoded, c as nat);
      } else {
        encoded := encoded + [c];
      }
    }
    assert input[..|input|] == input;
    EscapedLegal(input);
    EscapedRoundTrip(input);
  }

  /** Letters, digits, underscores and characters beyond ASCII, but for the middle dot. */
  predicate StaysAsItIs(c: char) {
    'a' <= c <= 'z' || 'A' <= c <= 'Z' || '0' <= c <= '9' || c == '_' || (c > '\U{7F}' && c != '\U{B7}')
  }

  lemma EscapedCharUnchanged(c: char)
    ensures if StaysAsItIs(c) then EscapedChar(c) == [c] else |EscapedChar(c)| > 1
  {
  }

  lemma {:induction false} EscapedStays(input: string)
    requires forall i :: 0 <= i < |input| ==> StaysAsItIs(input[i])
    ensures Escaped(input) == input
  {
    if input != "" {
      EscapedStays(input[..|input| - 1]);
      EscapedCharUnchanged(input[|input| - 1]);
    }
  }

  lemma {:induction false} EscapedLonger(input: string, i: nat)
    ensures |Escaped(input)| >= |input|
    ensures i < |input| && !StaysAsItIs(input[i]) ==> |Escaped(input)| > |input|
  {
    if input != "" {
      var init := input[..|input| - 1];
      EscapedLonger(init, i);
      EscapedCharUnchanged(input[|input| - 1]);
      assert i < |init| ==> init[i] == input[i];
    }
  }

  /** Exactly the names of such characters are left unchanged. */
  lemma EscapedUnchanged(input: string)
    ensures Escaped(input) == input <==> forall i :: 0 <= i < |input| ==> StaysAsItIs(input[i])
  {
    if i :| 0 <= i < |input| && !StaysAsItIs(input[i]) {
      EscapedLonger(input, i);
    } else {
      EscapedStays(input);
    }
  }

  // ----- decoding -----

  /** Reads escape sequences of an escape character and two hexadecimal digits. */
  function Unescape(encoded: string): Option<string> {
    if encoded == "" then Some("")
    else if encoded[0] != ESCAPE_CHAR then Cons(Some(encoded[0]), Unescape(encoded[1..]))
    else if |encoded| < 3 then None
    else Cons(DecodedChar(encoded[1], encoded[2]), Unescape(encoded[3..]))
  }

  function DecodedChar(high: char, low: char): Option<char> {
    match (HexValue(high), HexValue(low))
    case (Some(h), Some(l)) =>
      var code := h * 16 + l;
      if code == ESCAPE_CHAR_ESCAPE_SEQUENCE then Some(ESCAPE_CHAR) else if code < 256 then Some(code as char) else None
    case _ => None
  }

  function Cons(c: Option<char>, rest: Option<string>): Option<string> {
    match (c, rest)
    case (Some(head), Some(tail)) => Some([head] + tail)
    case _ => None
  }

  // ----- nothing is lost -----

  lemma HexTwoDigits(code: nat)
    requires code < 256
    ensures EncodedChar(code) == [ESCAPE_CHAR, HexDigit(code / 16), HexDigit(code % 16)]
  {
    if code >= 16 {
      assert Hex(code / 16) == [HexDigit(code / 16)];
    }
  }

  lemma HexRoundTrip(d: nat)
    requires d < 16
    ensures HexValue(HexDigit(d)) == Some(d) && IsWordChar(HexDigit(d))
  {
  }

  lemma EncodedCharDecodes(code: nat)
    requires code < 256
    ensures EncodedChar(code)[0] == ESCAPE_CHAR && |EncodedChar(code)| == 3
    ensures DecodedChar(EncodedChar(code)[1], EncodedChar(code)[2])
         == Some(if code == ESCAPE_CHAR_ESCAPE_SEQUENCE then ESCAPE_CHAR else code as char)
    ensures forall c :: c in EncodedChar(code) ==> IsLegal(c)
  {
    HexTwoDigits(code);
    HexRoundTrip(code / 16);
    HexRoundTrip(code % 16);
  }

  lemma UnescapeChar(c: char, rest: string)
    ensures Unescape(EscapedChar(c) + rest)
         == match Unescape(rest) case None => None case Some(decoded) => Some([c] + decoded)
    ensures forall d :: d in EscapedChar(c) ==> IsLegal(d)
  {
    var s := EscapedChar(c) + rest;
    assert s[|EscapedChar(c)|..] == rest;
    if c == ESCAPE_CHAR {
      EncodedCharDecodes(ESCAPE_CHAR_ESCAPE_SEQUENCE);
    } else if !IsWordChar(c) && IsAscii(c) {
      EncodedCharDecodes(c as nat);
    }
  }

  lemma {:induction false} UnescapeAfter(input: string, rest: string, decoded: string)
    requires Unescape(rest) == Some(decoded)
    ensures Unescape(Escaped(input) + rest) == Some(input + decoded)
  {
    if input == "" {
      assert Escaped(input) + rest == rest && input + decoded == decoded;
    } else {
      var init, last := input[..|input| - 1], input[|input| - 1];
      UnescapeChar(last, rest);
      UnescapeAfter(init, EscapedChar(last) + rest, [last] + decoded);
      Regroup(Escaped(init), EscapedChar(last), rest);
      Regroup(init, [last], decoded);
      assert input == init + [last];
    }
  }

  /** Decoding gives back every string. */
  lemma EscapedRoundTrip(input: string)
    ensures Unescape(Escaped(input)) == Some(input)
  {
    UnescapeAfter(input, "", "");
    assert Escaped(input) + "" == Escaped(input) && input + "" == input;
  }

  lemma {:induction false} EscapedLegal(input: string)
    ensures forall c :: c in Escaped(input) ==> IsLegal(c)
  {
    if input != "" {
      EscapedLegal(input[..|input| - 1]);
      UnescapeChar(input[|input| - 1], "");
    }
  }

  // ----- variable names -----

  predicate StartsLower(name: string) {
    name != "" && 'a' <= name[0] <= 'z'
  }

  function ValidInitial(name: string): string {
    if StartsLower(name) then name else "v_" + name
  }

  function Variable(name: string): string {
    Escaped(ValidInitial(name))
  }

  /** Variable names start with a lower-case letter and have legal characters only. */
  lemma VariableLegal(name: string)
    ensures StartsLower(Variable(name)) && forall c :: c in Variable(name) ==> IsLegal(c)
  {
    EscapedLegal(ValidInitial(name));
    EscapedStart(ValidInitial(name));
  }

  lemma {:induction false} EscapedStart(input: string)
    requires StartsLower(input)
    ensures StartsLower(Escaped(input))
  {
    if |input| > 1 {
      EscapedStart(input[..|input| - 1]);
    } else {
      assert Escaped(input) == "" + EscapedChar(input[0]);
    }
  }

  /**
   Two names get the same variable exactly if they are equal, or one is the other after a prefix `v_`
   that the other gets.
   */
  lemma VariableCollision(a: string, b: string)
    ensures Variable(a) == Variable(b) <==>
      a == b || (a == "v_" + b && !StartsLower(b)) || (b == "v_" + a && !StartsLower(a))
  {
    EscapedRoundTrip(ValidInitial(a));
    EscapedRoundTrip(ValidInitial(b));
    PrefixInjective(a, b);
  }

  lemma PrefixInjective(a: string, b: string)
    ensures "v_" + a == "v_" + b <==> a == b
  {
    assert ("v_" + a)[2..] == a && ("v_" + b)[2..] == b;
  }

  /** The documented claim of distinctness fails. */
  lemma VariablesCollide()
    ensures Variable("A") == Variable("v_A")
  {
    VariableCollision("A", "v_A");
  }
}
