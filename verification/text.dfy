/** String primitives of the JavaScript runtime the source relies on:
    `String.prototype.trim`, the `\s` character class, `toLowerCase`,
    `split(/\s+/)`, `includes`, `parseInt` on digit runs and
    `padStart(2, '0')`. Strings are sequences of UTF-16 code units. */
module Text {

  /** JavaScript WhiteSpace and LineTerminator characters: what `trim`
      removes and what `\s` matches. */
  predicate IsSpace(c: char) {
    || c == ' ' || c == '\t' || c == '\n' || c == '\U{000B}' || c == '\U{000C}'
    || c == '\r' || c == '\U{00A0}' || c == '\U{1680}'
    || ('\U{2000}' <= c <= '\U{200A}')
    || c == '\U{2028}' || c == '\U{2029}' || c == '\U{202F}' || c == '\U{205F}'
    || c == '\U{3000}' || c == '\U{FEFF}'
  }

  /** The `\d` character class. */
  predicate IsDigit(c: char) {
    '0' <= c <= '9'
  }

  predicate AllDigits(s: string) {
    forall i :: 0 <= i < |s| ==> IsDigit(s[i])
  }

  predicate NoSpace(s: string) {
    forall i :: 0 <= i < |s| ==> !IsSpace(s[i])
  }

  /** `toLowerCase` restricted to ASCII letters. */
  function LowerChar(c: char): char {
    if 'A' <= c <= 'Z' then (c as int + 32) as char else c
  }

  function Lower(s: string): (r: string)
    ensures |r| == |s|
    ensures forall i :: 0 <= i < |s| ==> r[i] == LowerChar(s[i])
  {
    seq(|s|, i requires 0 <= i < |s| => LowerChar(s[i]))
  }

  /** `trimStart`: drops the leading run of white space and nothing else. */
  function TrimStart(s: string): (r: string)
    ensures |r| <= |s| && r == s[|s| - |r|..]
    ensures forall i :: 0 <= i < |s| - |r| ==> IsSpace(s[i])
    ensures r == [] || !IsSpace(r[0])
  {
    if s == [] || !IsSpace(s[0]) then s else TrimStart(s[1..])
  }

  /** One leading space goes, and a text that starts with a non-space is
      kept whole. */
  lemma TrimStartStep(s: string)
    requires s != [] && IsSpace(s[0]) && (|s| == 1 || !IsSpace(s[1]))
    ensures TrimStart(s) == s[1..]
  {
    assert TrimStart(s) == TrimStart(s[1..]);
  }

  /** A run of two digits is all digits. */
  lemma TwoDigits(s: string)
    requires |s| == 2 && IsDigit(s[0]) && IsDigit(s[1])
    ensures AllDigits(s)
  {
  }

  /** `trimEnd`: drops the trailing run of white space and nothing else. */
  function TrimEnd(s: string): (r: string)
    ensures |r| <= |s| && r == s[..|r|]
    ensures forall i :: |r| <= i < |s| ==> IsSpace(s[i])
    ensures r == [] || !IsSpace(r[|r| - 1])
  {
    if s == [] || !IsSpace(s[|s| - 1]) then s else TrimEnd(s[..|s| - 1])
  }

  function Trim(s: string): string {
    TrimEnd(TrimStart(s))
  }

  /** A string that neither starts nor ends with white space is its own trim. */
  lemma TrimOfTrimmed(s: string)
    requires s == [] || (!IsSpace(s[0]) && !IsSpace(s[|s| - 1]))
    ensures Trim(s) == s
  {
  }

  /** `replace(/c/g, d)`. */
  function ReplaceChar(s: string, c: char, d: char): (r: string)
    ensures |r| == |s|
    ensures forall i :: 0 <= i < |s| ==> r[i] == (if s[i] == c then d else s[i])
  {
    seq(|s|, i requires 0 <= i < |s| => if s[i] == c then d else s[i])
  }

  /** `includes(sub)`. */
  predicate Includes(s: string, sub: string) {
    exists i :: 0 <= i <= |s| - |sub| && sub <= s[i..]
  }

  function DigitValue(c: char): nat
    requires IsDigit(c)
  {
    c as int - '0' as int
  }

  function DigitChar(n: nat): (c: char)
    requires n < 10
    ensures IsDigit(c) && DigitValue(c) == n
  {
    ('0' as int + n) as char
  }

  /** `parseInt` of a string made of decimal digits only. */
  function DecimalValue(s: string): nat
    requires AllDigits(s)
  {
    if s == [] then 0 else DecimalValue(s[..|s| - 1]) * 10 + DigitValue(s[|s| - 1])
  }

  lemma DecimalValueTwo(s: string)
    requires AllDigits(s) && |s| == 2
    ensures DecimalValue(s) == DigitValue(s[0]) * 10 + DigitValue(s[1])
  {
    var a := s[..1];
    assert a[..|a| - 1] == [];
    assert a[|a| - 1] == s[0];
    assert DecimalValue(a) == DigitValue(s[0]);
    assert s[..|s| - 1] == a;
  }

  /** `String(n).padStart(2, '0')` for `n` below 100. */
  function Pad2(n: nat): (r: string)
    requires n < 100
    ensures |r| == 2 && AllDigits(r)
    ensures DecimalValue(r) == n
  {
    var r := [DigitChar(n / 10), DigitChar(n % 10)];
    DecimalValueTwo(r);
    r
  }

  /** Two digits are the padded form of their own value. */
  lemma Pad2OfDigits(s: string)
    requires |s| == 2 && AllDigits(s)
    ensures DecimalValue(s) < 100 && Pad2(DecimalValue(s)) == s
  {
    DecimalValueTwo(s);
    var r := Pad2(DecimalValue(s));
    DecimalValueTwo(r);
  }

  /** The longest prefix free of white space. */
  function TakeWord(s: string): (w: string)
    ensures |w| <= |s| && w == s[..|w|]
    ensures NoSpace(w)
    ensures |w| == |s| || IsSpace(s[|w|])
  {
    if s == [] || IsSpace(s[0]) then [] else [s[0]] + TakeWord(s[1..])
  }

  /** `split(/\s+/)`: the pieces between maximal runs of white space,
      including the empty piece before a leading run and after a trailing one. */
  function SplitWs(s: string): (fields: seq<string>)
    ensures |fields| >= 1
    ensures forall k :: 0 <= k < |fields| ==> NoSpace(fields[k])
    decreases |s|
  {
    var w := TakeWord(s);
    var rest := s[|w|..];
    if rest == [] then [w] else [w] + SplitWs(TrimStart(rest))
  }

  /** `words.join(" ")`. */
  function JoinSpace(words: seq<string>): string {
    if |words| <= 1 then (if words == [] then "" else words[0])
    else words[0] + " " + JoinSpace(words[1..])
  }

  lemma TakeWordOfPrefix(w: string, rest: string)
    requires NoSpace(w)
    requires rest == [] || IsSpace(rest[0])
    ensures TakeWord(w + rest) == w
  {
    if w != [] {
      assert (w + rest)[1..] == w[1..] + rest;
      TakeWordOfPrefix(w[1..], rest);
    } else {
      assert w + rest == rest;
    }
  }

  /** Splitting undoes joining with single spaces, when every word is a
      non-empty run free of white space. */
  lemma {:induction false} SplitJoin(words: seq<string>)
    requires |words| >= 1
    requires forall k :: 0 <= k < |words| ==> |words[k]| >= 1 && NoSpace(words[k])
    ensures SplitWs(JoinSpace(words)) == words
  {
    if |words| == 1 {
      TakeWordOfPrefix(words[0], []);
      assert words[0] + [] == words[0];
    } else {
      var tail := JoinSpace(words[1..]);
      JoinSpaceStart(words[1..]);
      assert !IsSpace(words[1][0]);
      SplitStep(words[0], tail);
      assert JoinSpace(words) == words[0] + " " + tail;
      SplitJoin(words[1..]);
      assert [words[0]] + words[1..] == words;
    }
  }

  /** A word, one space and a text starting with a non-space split into
      the word and the pieces of that text. */
  lemma SplitStep(w: string, tail: string)
    requires NoSpace(w) && tail != [] && !IsSpace(tail[0])
    ensures SplitWs(w + " " + tail) == [w] + SplitWs(tail)
  {
    var s := w + " " + tail;
    assert s == w + (" " + tail);
    TakeWordOfPrefix(w, " " + tail);
    assert s[|w|..] == " " + tail;
    assert (" " + tail)[1..] == tail;
    TrimStartStep(" " + tail);
  }

  lemma JoinSpaceStart(words: seq<string>)
    requires |words| >= 1 && |words[0]| >= 1
    ensures |JoinSpace(words)| >= 1 && JoinSpace(words)[0] == words[0][0]
  {
  }
}
