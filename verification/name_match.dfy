/** The fuzzy person-name matcher `areNamesEquivalent`
    (google_apps_script_code.js:954-1001) and the tokeniser it is built on. */
module NameMatch {
  import opened Text

  /** Characters the tokeniser keeps besides white space: `[a-z0-9]`. */
  predicate IsTokenChar(c: char) {
    'a' <= c <= 'z' || IsDigit(c)
  }

  /** A token: at least two characters, all of them lower-case letters or digits. */
  predicate IsToken(t: string) {
    |t| >= 2 && forall i :: 0 <= i < |t| ==> IsTokenChar(t[i])
  }

  predicate Distinct(ts: seq<string>) {
    forall i, j :: 0 <= i < j < |ts| ==> ts[i] != ts[j]
  }

  /** The form the fast path compares: lower-cased, then trimmed. */
  function Normalize(name: string): string {
    Trim(Lower(name))
  }

  /** `replace(/[^a-z0-9\s]/g, "")`: keeps token characters and white space, in order. */
  function Clean(s: string): (r: string)
    ensures |r| <= |s|
    ensures forall i :: 0 <= i < |r| ==> IsTokenChar(r[i]) || IsSpace(r[i])
    ensures (forall i :: 0 <= i < |s| ==> IsTokenChar(s[i]) || IsSpace(s[i])) ==> r == s
  {
    if s == [] then []
    else if IsTokenChar(s[0]) || IsSpace(s[0]) then [s[0]] + Clean(s[1..])
    else Clean(s[1..])
  }

  /** `filter(t => t.length > 1)`. */
  function LongFields(fields: seq<string>): (r: seq<string>)
    ensures |r| <= |fields|
    ensures forall k :: 0 <= k < |r| ==> |r[k]| > 1 && r[k] in fields
    ensures forall k :: 0 <= k < |fields| && |fields[k]| > 1 ==> fields[k] in r
  {
    if fields == [] then []
    else if |fields[0]| > 1 then [fields[0]] + LongFields(fields[1..])
    else LongFields(fields[1..])
  }

  /** The token list of a name, in order and with repetitions. */
  function Tokens(name: string): seq<string> {
    LongFields(SplitWs(Clean(Normalize(name))))
  }

  /** Tokenisation lower-cases, keeps only `[a-z0-9]` and white space, and
      drops pieces of fewer than two characters: every token is at least two
      lower-case letters or digits. */
  lemma TokensAreTokens(name: string)
    ensures forall k :: 0 <= k < |Tokens(name)| ==> IsToken(Tokens(name)[k])
  {
    var c := Clean(Normalize(name));
    SplitWsChars(c);
  }

  /** Every character of every field in `fields` occurs in `s`. */
  predicate CharsWithin(fields: seq<string>, s: string) {
    forall k, i :: 0 <= k < |fields| && 0 <= i < |fields[k]| ==> fields[k][i] in s
  }

  /** Every character of every field of a split comes from the split string. */
  lemma {:induction false} SplitWsChars(s: string)
    ensures CharsWithin(SplitWs(s), s)
    decreases |s|
  {
    var w := TakeWord(s);
    var rest := s[|w|..];
    if rest == [] {
      assert SplitWs(s) == [w];
    } else {
      var t := TrimStart(rest);
      SplitWsChars(t);
      assert SplitWs(s) == [w] + SplitWs(t);
      assert t == s[|s| - |t|..];
      CharsWithinCons(w, SplitWs(t), t, s);
    }
  }

  lemma CharsWithinCons(w: string, fields: seq<string>, t: string, s: string)
    requires |w| <= |s| && w == s[..|w|] && |t| <= |s| && t == s[|s| - |t|..]
    requires CharsWithin(fields, t)
    ensures CharsWithin([w] + fields, s)
  {
    var all := [w] + fields;
    forall k, i | 0 <= k < |all| && 0 <= i < |all[k]|
      ensures all[k][i] in s
    {
      if k == 0 {
        assert all[k] == w;
        assert w[i] == s[i];
      } else {
        assert all[k] == fields[k - 1];
        var c := fields[k - 1][i];
        assert c in t;
        var j :| 0 <= j < |t| && t[j] == c;
        assert t[j] == s[|s| - |t| + j];
      }
    }
  }

  /** How many entries of `t1` (counted with repetition) occur in `t2`:
      the `matchCount` loop over `tokens1` against `new Set(tokens2)`. */
  function MatchCount(t1: seq<string>, t2: seq<string>): (n: nat)
    ensures n <= |t1|
  {
    if t1 == [] then 0
    else (if t1[0] in t2 then 1 else 0) + MatchCount(t1[1..], t2)
  }

  function Min(a: nat, b: nat): nat { if a <= b then a else b }
  function Max(a: nat, b: nat): nat { if a <= b then b else a }

  /** The decision rules applied to two non-empty token lists: the subset rule,
      then the ratio rule (`matchCount / maxLen > 0.7`, written over integers)
      when the longer list has three or more tokens, else the short-name
      fallback `matchCount >= 2`. */
  predicate TokenRule(t1: seq<string>, t2: seq<string>) {
    var m := MatchCount(t1, t2);
    var minLen := Min(|t1|, |t2|);
    var maxLen := Max(|t1|, |t2|);
    if m == minLen then true
    else if maxLen >= 3 then 10 * m > 7 * maxLen
    else m >= 2
  }

  /** What the matcher decides from the normalised forms and token lists of
      two non-empty names: the fast path on equal normalised forms, then
      "no tokens, no match", then the token rules. */
  predicate Judge(n1: string, n2: string, t1: seq<string>, t2: seq<string>) {
    if n1 == n2 then true
    else if |t1| == 0 || |t2| == 0 then false
    else TokenRule(t1, t2)
  }

  /** `areNamesEquivalent(name1, name2)`; an empty name is falsy and never matches. */
  predicate AreNamesEquivalent(name1: string, name2: string) {
    if name1 == "" || name2 == "" then false
    else Judge(Normalize(name1), Normalize(name2), Tokens(name1), Tokens(name2))
  }

  // ---------------------------------------------------------------------
  // The rules, one lemma each

  /** An empty name never matches anything, not even another empty name. */
  lemma EmptyNeverMatches(name: string)
    ensures !AreNamesEquivalent("", name) && !AreNamesEquivalent(name, "")
  {
  }

  /** Every non-empty name matches itself through the fast path. */
  lemma Reflexive(name: string)
    requires name != ""
    ensures AreNamesEquivalent(name, name)
  {
  }

  /** A name with no token of two or more characters matches only names
      with the same normalised form. */
  lemma NoTokensOnlyFastPath(name1: string, name2: string)
    requires Tokens(name1) == [] || Tokens(name2) == []
    ensures AreNamesEquivalent(name1, name2) <==>
      name1 != "" && name2 != "" && Normalize(name1) == Normalize(name2)
  {
  }

  /** Subset rule: when every token of the shorter list is matched, the
      names are equivalent. */
  lemma SubsetRule(name1: string, name2: string)
    requires name1 != "" && name2 != ""
    requires |Tokens(name1)| > 0 && |Tokens(name2)| > 0
    requires MatchCount(Tokens(name1), Tokens(name2)) == Min(|Tokens(name1)|, |Tokens(name2)|)
    ensures AreNamesEquivalent(name1, name2)
  {
  }

  /** Ratio rule: past the fast path and the subset rule, a pair whose longer
      token list has three or more tokens matches exactly when more than 70%
      of the longer list is matched. */
  lemma RatioRule(name1: string, name2: string)
    requires name1 != "" && name2 != ""
    requires Normalize(name1) != Normalize(name2)
    requires |Tokens(name1)| > 0 && |Tokens(name2)| > 0
    requires Max(|Tokens(name1)|, |Tokens(name2)|) >= 3
    requires MatchCount(Tokens(name1), Tokens(name2)) != Min(|Tokens(name1)|, |Tokens(name2)|)
    ensures AreNamesEquivalent(name1, name2) <==>
      10 * MatchCount(Tokens(name1), Tokens(name2)) > 7 * Max(|Tokens(name1)|, |Tokens(name2)|)
  {
  }

  /** Only exact token equality counts: two one-token names that differ after
      normalisation match exactly when their tokens are equal, so a token
      that merely contains the other ("contest" and "test") does not match. */
  lemma {:induction false} SingleTokenExact(name1: string, name2: string, x: string, y: string)
    requires name1 != "" && name2 != ""
    requires Normalize(name1) != Normalize(name2)
    requires Tokens(name1) == [x] && Tokens(name2) == [y]
    ensures AreNamesEquivalent(name1, name2) <==> x == y
  {
    assert AreNamesEquivalent(name1, name2) == Judge(Normalize(name1), Normalize(name2), [x], [y]);
    JudgeSingle(Normalize(name1), Normalize(name2), x, y);
  }

  lemma JudgeSingle(n1: string, n2: string, x: string, y: string)
    requires n1 != n2
    ensures Judge(n1, n2, [x], [y]) <==> x == y
  {
    assert MatchCount([x], [y]) == (if x in [y] then 1 else 0) + MatchCount([x][1..], [y]);
    assert [x][1..] == [];
  }

  // ---------------------------------------------------------------------
  // Counting

  lemma {:induction false} MatchCountAppend(a: seq<string>, b: seq<string>, t2: seq<string>)
    ensures MatchCount(a + b, t2) == MatchCount(a, t2) + MatchCount(b, t2)
  {
    if a != [] {
      assert (a + b)[1..] == a[1..] + b;
      MatchCountAppend(a[1..], b, t2);
    } else {
      assert a + b == b;
    }
  }

  /** The count depends on the first list only through its multiset. */
  lemma {:induction false} MatchCountPermutation(t1: seq<string>, u1: seq<string>, t2: seq<string>)
    requires multiset(t1) == multiset(u1)
    ensures MatchCount(t1, t2) == MatchCount(u1, t2)
    decreases |t1|
  {
    if t1 != [] {
      var x, rest := t1[0], t1[1..];
      assert t1 == [x] + rest;
      assert x in multiset(u1);
      var j :| 0 <= j < |u1| && u1[j] == x;
      var a, b := u1[..j], u1[j + 1..];
      RemoveOne(t1, u1, j);
      MatchCountPermutation(rest, a + b, t2);
      assert u1 == a + ([x] + b);
      MatchCountAppend(a, b, t2);
      MatchCountAppend(a, [x] + b, t2);
      MatchCountAppend([x], b, t2);
      assert MatchCount([x], t2) == (if x in t2 then 1 else 0) + MatchCount([x][1..], t2);
      assert [x][1..] == [];
    } else {
      assert |u1| == |multiset(u1)| == 0;
    }
  }

  /** Taking the first entry off one list and an equal entry off a permutation
      of it leaves permutations of each other. */
  lemma RemoveOne(t1: seq<string>, u1: seq<string>, j: nat)
    requires t1 != [] && j < |u1| && u1[j] == t1[0]
    requires multiset(t1) == multiset(u1)
    ensures multiset(t1[1..]) == multiset(u1[..j] + u1[j + 1..])
  {
    var x := t1[0];
    var rest, left, right := t1[1..], u1[..j], u1[j + 1..];
    assert t1 == [x] + rest;
    assert u1 == left + [x] + right;
    var a := multiset(rest);
    var b := multiset(left + right);
    assert b == multiset(left) + multiset(right);
    forall y ensures a[y] == b[y] {
      assert multiset(t1)[y] == a[y] + multiset([x])[y];
      assert multiset(u1)[y] == multiset(left)[y] + multiset([x])[y] + multiset(right)[y];
    }
    assert a == b;
  }

  /** The count depends on the second list only through the set of its entries. */
  lemma {:induction false} MatchCountSameMembers(t1: seq<string>, t2: seq<string>, u2: seq<string>)
    requires forall x :: x in t2 <==> x in u2
    ensures MatchCount(t1, t2) == MatchCount(t1, u2)
  {
    if t1 != [] {
      MatchCountSameMembers(t1[1..], t2, u2);
    }
  }

  /** Without repeated tokens in the first list, the count is the size of the
      intersection of the two token sets. */
  lemma {:induction false} MatchCountDistinct(t1: seq<string>, t2: seq<string>)
    requires Distinct(t1)
    ensures MatchCount(t1, t2) == |set x | x in t1 && x in t2|
  {
    if t1 == [] {
      assert (set x | x in t1 && x in t2) == {};
    } else {
      var rest := t1[1..];
      assert Distinct(rest);
      MatchCountDistinct(rest, t2);
      var s := set x | x in rest && x in t2;
      assert t1[0] !in rest;
      if t1[0] in t2 {
        assert (set x | x in t1 && x in t2) == s + {t1[0]};
      } else {
        assert (set x | x in t1 && x in t2) == s;
      }
    }
  }

  lemma SubsetSize<T>(a: set<T>, b: set<T>)
    requires a <= b
    ensures |a| <= |b|
  {
    assert b == a + (b - a);
  }

  // ---------------------------------------------------------------------
  // Structural properties

  /** For names without repeated tokens the matcher is symmetric. */
  lemma SymmetricWhenDistinct(name1: string, name2: string)
    requires Distinct(Tokens(name1)) && Distinct(Tokens(name2))
    ensures AreNamesEquivalent(name1, name2) == AreNamesEquivalent(name2, name1)
  {
    var t1, t2 := Tokens(name1), Tokens(name2);
    JudgeSymmetric(Normalize(name1), Normalize(name2), t1, t2);
  }

  lemma JudgeSymmetric(n1: string, n2: string, t1: seq<string>, t2: seq<string>)
    requires Distinct(t1) && Distinct(t2)
    ensures Judge(n1, n2, t1, t2) == Judge(n2, n1, t2, t1)
  {
    MatchCountDistinct(t1, t2);
    MatchCountDistinct(t2, t1);
    assert (set x | x in t1 && x in t2) == (set x | x in t2 && x in t1);
  }

  /** Reordering (or otherwise permuting) the tokens of either name does not
      change the verdict of the token rules. */
  lemma TokenOrderInvariant(name1: string, other1: string, name2: string)
    requires name1 != "" && other1 != ""
    requires Normalize(name1) != Normalize(name2) && Normalize(other1) != Normalize(name2)
    requires multiset(Tokens(name1)) == multiset(Tokens(other1))
    ensures AreNamesEquivalent(name1, name2) == AreNamesEquivalent(other1, name2)
    ensures AreNamesEquivalent(name2, name1) == AreNamesEquivalent(name2, other1)
  {
    JudgePermutation(Normalize(name1), Normalize(other1), Normalize(name2),
      Tokens(name1), Tokens(other1), Tokens(name2));
  }

  lemma JudgePermutation(n1: string, m1: string, n2: string,
                         t1: seq<string>, u1: seq<string>, t2: seq<string>)
    requires n1 != n2 && m1 != n2
    requires multiset(t1) == multiset(u1)
    ensures Judge(n1, n2, t1, t2) == Judge(m1, n2, u1, t2)
    ensures Judge(n2, n1, t2, t1) == Judge(n2, m1, t2, u1)
  {
    assert |t1| == |multiset(t1)| == |multiset(u1)| == |u1|;
    MatchCountPermutation(t1, u1, t2);
    forall x ensures x in t1 <==> x in u1 {
      assert x in t1 <==> x in multiset(t1);
      assert x in u1 <==> x in multiset(u1);
    }
    MatchCountSameMembers(t2, t1, u1);
  }

  /** The short-name fallback `matchCount >= 2` (google_apps_script_code.js:998)
      never decides anything when the first name has no repeated token: any
      pair it would accept the subset rule has already accepted, so the
      matcher agrees with one that has no fallback at all. */
  lemma ShortFallbackUnreachable(name1: string, name2: string)
    requires Distinct(Tokens(name1))
    ensures AreNamesEquivalent(name1, name2) <==>
      name1 != "" && name2 != "" &&
      JudgeWithoutFallback(Normalize(name1), Normalize(name2), Tokens(name1), Tokens(name2))
  {
    NoFallbackAgrees(Normalize(name1), Normalize(name2), Tokens(name1), Tokens(name2));
  }

  /** The matcher with the short-name fallback removed. */
  predicate JudgeWithoutFallback(n1: string, n2: string, t1: seq<string>, t2: seq<string>) {
    var m := MatchCount(t1, t2);
    n1 == n2 ||
    (|t1| > 0 && |t2| > 0 &&
     (m == Min(|t1|, |t2|) || (Max(|t1|, |t2|) >= 3 && 10 * m > 7 * Max(|t1|, |t2|))))
  }

  lemma NoFallbackAgrees(n1: string, n2: string, t1: seq<string>, t2: seq<string>)
    requires Distinct(t1)
    ensures Judge(n1, n2, t1, t2) == JudgeWithoutFallback(n1, n2, t1, t2)
  {
    MatchCountDistinct(t1, t2);
    var s := set x | x in t1 && x in t2;
    var s2 := set x | x in t2 && x in t1;
    assert s == s2;
    SubsetSize(s, set x | x in t2);
    SeqSetSize(t2);
  }

  lemma {:induction false} SeqSetSize(ts: seq<string>)
    ensures |set x | x in ts| <= |ts|
  {
    if ts != [] {
      SeqSetSize(ts[1..]);
      assert (set x | x in ts) == (set x | x in ts[1..]) + {ts[0]};
    } else {
      assert (set x | x in ts) == {};
    }
  }

  // ---------------------------------------------------------------------
  // Concrete cases

  predicate AllTokenChars(w: string) {
    forall i :: 0 <= i < |w| ==> IsTokenChar(w[i])
  }

  predicate PlainWords(words: seq<string>) {
    |words| >= 1 && forall k :: 0 <= k < |words| ==> IsToken(words[k])
  }

  /** A name that lower-cases to plain words (lower-case letters and digits)
      joined by single spaces has that text as its normal form and its words
      of two or more characters as its tokens. */
  lemma PlainName(name: string, words: seq<string>)
    requires PlainWords(words)
    requires Lower(name) == JoinSpace(words)
    ensures Normalize(name) == JoinSpace(words)
    ensures Tokens(name) == words
  {
    PlainNormal(name, words);
    PlainClean(words);
    PlainSplit(words);
    TokensFromFields(name, words);
    LongFieldsAllLong(words);
  }

  lemma {:induction false} LongFieldsAllLong(fields: seq<string>)
    requires forall k :: 0 <= k < |fields| ==> |fields[k]| > 1
    ensures LongFields(fields) == fields
  {
    if fields != [] {
      LongFieldsAllLong(fields[1..]);
    }
  }

  lemma PlainNormal(name: string, words: seq<string>)
    requires PlainWords(words)
    requires Lower(name) == JoinSpace(words)
    ensures Normalize(name) == JoinSpace(words)
  {
    JoinPlainChars(words);
    TrimOfTrimmed(JoinSpace(words));
  }

  lemma PlainClean(words: seq<string>)
    requires PlainWords(words)
    ensures Clean(JoinSpace(words)) == JoinSpace(words)
  {
    JoinPlainChars(words);
  }

  lemma PlainSplit(words: seq<string>)
    requires PlainWords(words)
    ensures SplitWs(JoinSpace(words)) == words
  {
    forall k | 0 <= k < |words| ensures NoSpace(words[k]) {
      assert forall i :: 0 <= i < |words[k]| ==> IsTokenChar(words[k][i]);
    }
    SplitJoin(words);
  }

  lemma TokensFromFields(name: string, words: seq<string>)
    requires Clean(Normalize(name)) == JoinSpace(words)
    requires SplitWs(JoinSpace(words)) == words
    ensures Tokens(name) == LongFields(words)
  {
  }

  lemma {:induction false} JoinPlainChars(words: seq<string>)
    requires PlainWords(words)
    ensures var j := JoinSpace(words);
      |j| >= 1 && IsTokenChar(j[0]) && IsTokenChar(j[|j| - 1]) &&
      forall i :: 0 <= i < |j| ==> IsTokenChar(j[i]) || j[i] == ' '
  {
    if |words| > 1 {
      JoinPlainChars(words[1..]);
      var t := JoinSpace(words[1..]);
      var j := words[0] + " " + t;
      assert JoinSpace(words) == j;
      forall i | 0 <= i < |j| ensures IsTokenChar(j[i]) || j[i] == ' ' {
        if i < |words[0]| {
          assert j[i] == words[0][i];
        } else if i > |words[0]| {
          assert j[i] == t[i - |words[0]| - 1];
        }
      }
      assert j[|j| - 1] == t[|t| - 1];
    }
  }

  /** The premises of `PlainName` for one name, with its normal form. */
  predicate PlainSpelling(name: string, words: seq<string>, normal: string) {
    && PlainWords(words)
    && Lower(name) == normal
    && JoinSpace(words) == normal
  }

  /** The verdict on two plainly spelled names is the verdict of the rules on
      their normal forms and word lists. */
  lemma PlainVerdict(name1: string, words1: seq<string>, normal1: string,
                     name2: string, words2: seq<string>, normal2: string)
    requires PlainSpelling(name1, words1, normal1)
    requires PlainSpelling(name2, words2, normal2)
    ensures AreNamesEquivalent(name1, name2) == Judge(normal1, normal2, words1, words2)
  {
    PlainName(name1, words1);
    PlainName(name2, words2);
    JoinPlainChars(words1);
    JoinPlainChars(words2);
  }

  // The concrete cases below are proved in steps so that the solver never
  // has to evaluate the string functions on a long literal: the spelling of
  // each name on its own, the rules on the word lists, then the verdict.

  /** A literal's lower-case form, checked one character at a time. */
  lemma LowerLit(s: string, t: string)
    requires |s| == |t| && forall i :: 0 <= i < |s| ==> LowerChar(s[i]) == t[i]
    ensures Lower(s) == t
  {
  }

  lemma SpellingShiva()
    ensures PlainSpelling("Shiva", ["shiva"], "shiva")
  {
    LowerOfShiva();
    assert JoinSpace(["shiva"]) == "shiva";
    assert PlainWords(["shiva"]);
  }

  lemma LowerOfShiva()
    ensures Lower("Shiva") == "shiva"
  {
    LowerLit("Shiva", "shiva");
  }

  lemma SpellingShivam()
    ensures PlainSpelling("Shivam", ["shivam"], "shivam")
  {
    LowerOfShivam();
    assert JoinSpace(["shivam"]) == "shivam";
    assert PlainWords(["shivam"]);
  }

  lemma LowerOfShivam()
    ensures Lower("Shivam") == "shivam"
  {
    LowerLit("Shivam", "shivam");
  }

  lemma SpellingShivamKumar()
    ensures PlainSpelling("Shivam Kumar", ["shivam", "kumar"], "shivam kumar")
  {
    LowerOfShivamKumar();
    JoinOfShivamKumar();
    assert PlainWords(["shivam", "kumar"]);
  }

  lemma JoinOfShivamKumar()
    ensures JoinSpace(["shivam", "kumar"]) == "shivam kumar"
  {
  }

  lemma LowerOfShivamKumar()
    ensures Lower("Shivam Kumar") == "shivam kumar"
  {
    LowerLit("Shivam Kumar", "shivam kumar");
  }

  lemma SpellingShivamKumarJha()
    ensures PlainSpelling("Shivam Kumar Jha", ["shivam", "kumar", "jha"], "shivam kumar jha")
  {
    LowerOfShivamKumarJha();
    JoinOfShivamKumarJha();
    assert PlainWords(["shivam", "kumar", "jha"]);
  }

  lemma JoinOfShivamKumarJha()
    ensures JoinSpace(["shivam", "kumar", "jha"]) == "shivam kumar jha"
  {
  }

  lemma LowerOfShivamKumarJha()
    ensures Lower("Shivam Kumar Jha") == "shivam kumar jha"
  {
    LowerLit("Shivam Kumar Jha", "shivam kumar jha");
  }

  lemma SpellingShivaRamaKrishnaBoga()
    ensures PlainSpelling("Shiva Rama Krishna Boga", ["shiva", "rama", "krishna", "boga"], "shiva rama krishna boga")
  {
    LowerOfShivaRamaKrishnaBoga();
    JoinOfShivaRamaKrishnaBoga();
    assert PlainWords(["shiva", "rama", "krishna", "boga"]);
  }

  lemma JoinOfShivaRamaKrishnaBoga()
    ensures JoinSpace(["shiva", "rama", "krishna", "boga"]) == "shiva rama krishna boga"
  {
  }

  lemma LowerOfShivaRamaKrishnaBoga()
    ensures Lower("Shiva Rama Krishna Boga") == "shiva rama krishna boga"
  {
    LowerLit("Shiva Rama Krishna Boga", "shiva rama krishna boga");
  }

  lemma SpellingKanishk()
    ensures PlainSpelling("Kanishk", ["kanishk"], "kanishk")
  {
    LowerOfKanishk();
    assert JoinSpace(["kanishk"]) == "kanishk";
    assert PlainWords(["kanishk"]);
  }

  lemma LowerOfKanishk()
    ensures Lower("Kanishk") == "kanishk"
  {
    LowerLit("Kanishk", "kanishk");
  }

  lemma SpellingKanishka()
    ensures PlainSpelling("Kanishka", ["kanishka"], "kanishka")
  {
    LowerOfKanishka();
    assert JoinSpace(["kanishka"]) == "kanishka";
    assert PlainWords(["kanishka"]);
  }

  lemma LowerOfKanishka()
    ensures Lower("Kanishka") == "kanishka"
  {
    LowerLit("Kanishka", "kanishka");
  }

  lemma SpellingTest()
    ensures PlainSpelling("Test", ["test"], "test")
  {
    LowerOfTest();
    assert JoinSpace(["test"]) == "test";
    assert PlainWords(["test"]);
  }

  lemma LowerOfTest()
    ensures Lower("Test") == "test"
  {
    LowerLit("Test", "test");
  }

  lemma SpellingContest()
    ensures PlainSpelling("Contest", ["contest"], "contest")
  {
    LowerOfContest();
    assert JoinSpace(["contest"]) == "contest";
    assert PlainWords(["contest"]);
  }

  lemma LowerOfContest()
    ensures Lower("Contest") == "contest"
  {
    LowerLit("Contest", "contest");
  }

  lemma SpellingTestUser()
    ensures PlainSpelling("Test User", ["test", "user"], "test user")
  {
    LowerOfTestUser();
    JoinOfTestUser();
    assert PlainWords(["test", "user"]);
  }

  lemma JoinOfTestUser()
    ensures JoinSpace(["test", "user"]) == "test user"
  {
  }

  lemma LowerOfTestUser()
    ensures Lower("Test User") == "test user"
  {
    LowerLit("Test User", "test user");
  }

  lemma SpellingLaxmanacharryMulkala()
    ensures PlainSpelling("Laxmanacharry Mulkala", ["laxmanacharry", "mulkala"], "laxmanacharry mulkala")
  {
    LowerOfLaxmanacharryMulkala();
    JoinOfLaxmanacharryMulkala();
    assert PlainWords(["laxmanacharry", "mulkala"]);
  }

  lemma JoinOfLaxmanacharryMulkala()
    ensures JoinSpace(["laxmanacharry", "mulkala"]) == "laxmanacharry mulkala"
  {
  }

  lemma LowerOfLaxmanacharryMulkala()
    ensures Lower("Laxmanacharry Mulkala") == "laxmanacharry mulkala"
  {
    LowerLit("Laxmanacharry Mulkala", "laxmanacharry mulkala");
  }

  lemma SpellingMulkalaLaxmanacharry()
    ensures PlainSpelling("Mulkala Laxmanacharry", ["mulkala", "laxmanacharry"], "mulkala laxmanacharry")
  {
    LowerOfMulkalaLaxmanacharry();
    JoinOfMulkalaLaxmanacharry();
    assert PlainWords(["mulkala", "laxmanacharry"]);
  }

  lemma JoinOfMulkalaLaxmanacharry()
    ensures JoinSpace(["mulkala", "laxmanacharry"]) == "mulkala laxmanacharry"
  {
  }

  lemma LowerOfMulkalaLaxmanacharry()
    ensures Lower("Mulkala Laxmanacharry") == "mulkala laxmanacharry"
  {
    LowerLit("Mulkala Laxmanacharry", "mulkala laxmanacharry");
  }

  lemma SpellingMulkalaLaxman()
    ensures PlainSpelling("Mulkala Laxman", ["mulkala", "laxman"], "mulkala laxman")
  {
    LowerOfMulkalaLaxman();
    JoinOfMulkalaLaxman();
    assert PlainWords(["mulkala", "laxman"]);
  }

  lemma JoinOfMulkalaLaxman()
    ensures JoinSpace(["mulkala", "laxman"]) == "mulkala laxman"
  {
  }

  lemma LowerOfMulkalaLaxman()
    ensures Lower("Mulkala Laxman") == "mulkala laxman"
  {
    LowerLit("Mulkala Laxman", "mulkala laxman");
  }

  lemma SpellingAaAaBb()
    ensures PlainSpelling("aa aa bb", ["aa", "aa", "bb"], "aa aa bb")
  {
    LowerOfAaAaBb();
    JoinOfAaAaBb();
    assert PlainWords(["aa", "aa", "bb"]);
  }

  lemma JoinOfAaAaBb()
    ensures JoinSpace(["aa", "aa", "bb"]) == "aa aa bb"
  {
  }

  lemma LowerOfAaAaBb()
    ensures Lower("aa aa bb") == "aa aa bb"
  {
    LowerLit("aa aa bb", "aa aa bb");
  }

  lemma SpellingAaCc()
    ensures PlainSpelling("aa cc", ["aa", "cc"], "aa cc")
  {
    LowerOfAaCc();
    JoinOfAaCc();
    assert PlainWords(["aa", "cc"]);
  }

  lemma JoinOfAaCc()
    ensures JoinSpace(["aa", "cc"]) == "aa cc"
  {
  }

  lemma LowerOfAaCc()
    ensures Lower("aa cc") == "aa cc"
  {
    LowerLit("aa cc", "aa cc");
  }

  lemma DiagnosticJudgements()
    ensures !Judge("shiva", "shivam kumar jha", ["shiva"], ["shivam", "kumar", "jha"])
    ensures Judge("shiva", "shiva rama krishna boga", ["shiva"], ["shiva", "rama", "krishna", "boga"])
    ensures !Judge("shivam", "shiva rama krishna boga", ["shivam"], ["shiva", "rama", "krishna", "boga"])
    ensures Judge("shivam kumar", "shivam kumar jha", ["shivam", "kumar"], ["shivam", "kumar", "jha"])
    ensures !Judge("kanishk", "kanishka", ["kanishk"], ["kanishka"])
  {
  }

  /** The cases the source's own diagnostic routine checks
      (google_apps_script_code.js:1321-1331), and two more: a missing last
      name still matches, and a name that is a prefix of another does not. */
  lemma DiagnosticCases()
    ensures !AreNamesEquivalent("Shiva", "Shivam Kumar Jha")
    ensures AreNamesEquivalent("Shiva", "Shiva Rama Krishna Boga")
    ensures !AreNamesEquivalent("Shivam", "Shiva Rama Krishna Boga")
    ensures AreNamesEquivalent("Shivam Kumar", "Shivam Kumar Jha")
    ensures !AreNamesEquivalent("Kanishk", "Kanishka")
  {
    SpellingShiva();
    SpellingShivamKumarJha();
    SpellingShivaRamaKrishnaBoga();
    SpellingShivam();
    SpellingShivamKumar();
    SpellingKanishk();
    SpellingKanishka();
    DiagnosticJudgements();
    PlainVerdict("Shiva", ["shiva"], "shiva",
      "Shivam Kumar Jha", ["shivam", "kumar", "jha"], "shivam kumar jha");
    PlainVerdict("Shiva", ["shiva"], "shiva",
      "Shiva Rama Krishna Boga", ["shiva", "rama", "krishna", "boga"], "shiva rama krishna boga");
    PlainVerdict("Shivam", ["shivam"], "shivam",
      "Shiva Rama Krishna Boga", ["shiva", "rama", "krishna", "boga"], "shiva rama krishna boga");
    PlainVerdict("Shivam Kumar", ["shivam", "kumar"], "shivam kumar",
      "Shivam Kumar Jha", ["shivam", "kumar", "jha"], "shivam kumar jha");
    PlainVerdict("Kanishk", ["kanishk"], "kanishk",
      "Kanishka", ["kanishka"], "kanishka");
  }

  lemma CommentJudgements()
    ensures !Judge("test", "contest", ["test"], ["contest"])
    ensures Judge("test", "test user", ["test"], ["test", "user"])
    ensures Judge("laxmanacharry mulkala", "mulkala laxmanacharry", ["laxmanacharry", "mulkala"], ["mulkala", "laxmanacharry"])
    ensures !Judge("mulkala laxmanacharry", "mulkala laxman", ["mulkala", "laxmanacharry"], ["mulkala", "laxman"])
  {
  }

  /** The cases named in the comments above the matcher
      (google_apps_script_code.js:947-953): a word containing another is not a
      match, and reordered names are. "Mulkala Laxmanacharry" against
      "Mulkala Laxman" is rejected although a comment claims otherwise: one of
      two tokens matches, which satisfies neither the subset rule nor the
      fallback. */
  lemma CommentCases()
    ensures !AreNamesEquivalent("Test", "Contest")
    ensures AreNamesEquivalent("Test", "Test User")
    ensures AreNamesEquivalent("Laxmanacharry Mulkala", "Mulkala Laxmanacharry")
    ensures !AreNamesEquivalent("Mulkala Laxmanacharry", "Mulkala Laxman")
  {
    SpellingTest();
    SpellingContest();
    SpellingTestUser();
    SpellingLaxmanacharryMulkala();
    SpellingMulkalaLaxmanacharry();
    SpellingMulkalaLaxman();
    CommentJudgements();
    PlainVerdict("Test", ["test"], "test",
      "Contest", ["contest"], "contest");
    PlainVerdict("Test", ["test"], "test",
      "Test User", ["test", "user"], "test user");
    PlainVerdict("Laxmanacharry Mulkala", ["laxmanacharry", "mulkala"], "laxmanacharry mulkala",
      "Mulkala Laxmanacharry", ["mulkala", "laxmanacharry"], "mulkala laxmanacharry");
    PlainVerdict("Mulkala Laxmanacharry", ["mulkala", "laxmanacharry"], "mulkala laxmanacharry",
      "Mulkala Laxman", ["mulkala", "laxman"], "mulkala laxman");
  }

  lemma RepeatJudgements()
    ensures Judge("aa aa bb", "aa cc", ["aa", "aa", "bb"], ["aa", "cc"])
    ensures !Judge("aa cc", "aa aa bb", ["aa", "cc"], ["aa", "aa", "bb"])
  {
  }

  /** A repeated token breaks symmetry: "aa aa bb" matches "aa cc" (two
      matches, the shorter list's length), but "aa cc" does not match
      "aa aa bb" (one match: neither all of the shorter list nor over 70% of
      three). */
  lemma AsymmetricWithRepeatedToken()
    ensures AreNamesEquivalent("aa aa bb", "aa cc")
    ensures !AreNamesEquivalent("aa cc", "aa aa bb")
  {
    SpellingAaAaBb();
    SpellingAaCc();
    RepeatJudgements();
    PlainVerdict("aa aa bb", ["aa", "aa", "bb"], "aa aa bb",
      "aa cc", ["aa", "cc"], "aa cc");
    PlainVerdict("aa cc", ["aa", "cc"], "aa cc",
      "aa aa bb", ["aa", "aa", "bb"], "aa aa bb");
  }
}
