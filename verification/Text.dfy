/** Strings as the search code sees them: character classes, the byte order of
    Go's `<` on strings, and the mixed Chinese/English tokenizer of
    internal/fulltext. A string is a sequence of Unicode scalar values. */
module Text {

  predicate IsAsciiLetter(c: char) {
    'a' <= c <= 'z' || 'A' <= c <= 'Z'
  }

  predicate IsAsciiDigit(c: char) {
    '0' <= c <= '9'
  }

  predicate IsCjk(c: char) {
    || '\U{4E00}' <= c <= '\U{9FFF}'
    || '\U{3400}' <= c <= '\U{4DBF}'
    || '\U{F900}' <= c <= '\U{FAFF}'
  }

  predicate IsWordChar(c: char) {
    IsAsciiLetter(c) || IsAsciiDigit(c) || c == '_'
  }

  predicate IsSeparator(c: char) {
    !IsWordChar(c) && !IsCjk(c)
  }

  /** Lower-casing restricted to the characters that can occur in a token. */
  function ToLower(c: char): char {
    if 'A' <= c <= 'Z' then (c as int + 32) as char else c
  }

  function ToLowerAll(s: string): (r: string)
    ensures |r| == |s|
    ensures forall i :: 0 <= i < |s| ==> r[i] == ToLower(s[i])
  {
    seq(|s|, i requires 0 <= i < |s| => ToLower(s[i]))
  }

  // ---------------------------------------------------------------- order

  /** Go's `a < b` on strings. */
  predicate Less(a: string, b: string) {
    b != [] && (a == [] || a[0] < b[0] || (a[0] == b[0] && Less(a[1..], b[1..])))
  }

  lemma {:induction false} LessIrreflexive(a: string)
    ensures !Less(a, a)
  {
    if a != [] { LessIrreflexive(a[1..]); }
  }

  lemma {:induction false} LessTransitive(a: string, b: string, c: string)
    requires Less(a, b) && Less(b, c)
    ensures Less(a, c)
  {
    if a != [] && a[0] == b[0] == c[0] { LessTransitive(a[1..], b[1..], c[1..]); }
  }

  lemma {:induction false} LessTotal(a: string, b: string)
    ensures Less(a, b) || a == b || Less(b, a)
  {
    if a != [] && b != [] && a[0] == b[0] {
      LessTotal(a[1..], b[1..]);
      if a[1..] == b[1..] { assert a == [a[0]] + a[1..] == [b[0]] + b[1..] == b; }
    }
  }

  /** At place `k` the strings differ for the first time, and `a` has the smaller character. */
  predicate DiffersAt(a: string, b: string, k: nat) {
    k < |a| && k < |b| && a[..k] == b[..k] && a[k] as int < b[k] as int
  }

  /** What the order is: a string comes before another if it is a proper prefix of it, or has
      the smaller character at the first place where they differ. */
  lemma LessIff(a: string, b: string)
    ensures Less(a, b) <==> a < b || exists k: nat :: DiffersAt(a, b, k)
  {
    if Less(a, b) { LessDiffers(a, b); }
    if a < b { PrefixIsLess(a, b); }
    if k: nat :| DiffersAt(a, b, k) { DiffersIsLess(a, b, k); }
  }

  lemma {:induction false} LessDiffers(a: string, b: string)
    requires Less(a, b)
    ensures a < b || exists k: nat :: DiffersAt(a, b, k)
  {
    if a != [] {
      if a[0] == b[0] {
        LessDiffers(a[1..], b[1..]);
        assert a == [a[0]] + a[1..] && b == [b[0]] + b[1..];
        if k: nat :| DiffersAt(a[1..], b[1..], k) {
          assert a[..k+1] == [a[0]] + a[1..][..k] && b[..k+1] == [b[0]] + b[1..][..k];
          assert DiffersAt(a, b, k + 1);
        }
      } else {
        assert DiffersAt(a, b, 0);
      }
    }
  }

  lemma {:induction false} PrefixIsLess(a: string, b: string)
    requires a < b
    ensures Less(a, b)
  {
    if a != [] { PrefixIsLess(a[1..], b[1..]); }
  }

  lemma {:induction false} DiffersIsLess(a: string, b: string, k: nat)
    requires DiffersAt(a, b, k)
    ensures Less(a, b)
  {
    if k > 0 {
      assert a[..k][0] == b[..k][0];
      assert a[1..][..k-1] == a[..k][1..] && b[1..][..k-1] == b[..k][1..];
      DiffersIsLess(a[1..], b[1..], k - 1);
    }
  }

  /** A string with prefix `p` is not below `p`. */
  lemma {:induction false} PrefixNotBelow(p: string, t: string)
    requires p <= t
    ensures !Less(t, p)
  {
    if p != [] { PrefixNotBelow(p[1..], t[1..]); }
  }

  /** Once the ascending scan has passed the last string with prefix `p`,
      no later string has that prefix. */
  lemma {:induction false} PastPrefixRange(p: string, t: string, u: string)
    requires !Less(t, p) && !(p <= t) && Less(t, u)
    ensures !(p <= u)
  {
    if p != [] && t != [] && u != [] && p[0] == t[0] == u[0] {
      assert p[1..] <= t[1..] ==> p <= t;
      PastPrefixRange(p[1..], t[1..], u[1..]);
    }
  }

  // ------------------------------------------------------------ tokenizer

  function Flush(word: string): seq<string> {
    if word == [] then [] else [word]
  }

  /** The tokens of `s` when `word` is the unfinished ASCII word so far. */
  function Scan(s: string, word: string): seq<string> {
    if s == [] then Flush(word)
    else if IsWordChar(s[0]) then Scan(s[1..], word + [ToLower(s[0])])
    else if IsCjk(s[0]) then Flush(word) + [[ToLower(s[0])]] + Scan(s[1..], [])
    else Flush(word) + Scan(s[1..], [])
  }

  function TokensOf(s: string): seq<string> {
    Scan(s, [])
  }

  method Tokenize(text: string) returns (tokens: seq<string>)
    ensures tokens == TokensOf(text)
  {
    tokens := [];
    if text == "" { return; }
    var b := "";
    var i := 0;
    while i < |text|
      invariant 0 <= i <= |text|
      invariant tokens + Scan(text[i..], b) == TokensOf(text)
    {
      var r := text[i];
      assert text[i..][0] == r && text[i..][1..] == text[i+1..];
      ghost var before := tokens;
      if IsWordChar(r) {
        b := b + [ToLower(r)];
      } else if IsCjk(r) {
        if |b| > 0 { tokens := tokens + [b]; }
        assert tokens == before + Flush(b);
        tokens := tokens + [[ToLower(r)]];
        b := "";
      } else {
        if |b| > 0 { tokens := tokens + [b]; }
        assert tokens == before + Flush(b);
        b := "";
      }
      i := i + 1;
    }
    if |b| > 0 { tokens := tokens + [b]; }
  }

  /** A separator cuts the text: what follows is tokenized on its own. */
  lemma {:induction false} ScanAcrossSeparator(a: string, sep: char, b: string, word: string)
    requires IsSeparator(sep)
    ensures Scan(a + [sep] + b, word) == Scan(a, word) + TokensOf(b)
  {
    var whole := a + [sep] + b;
    if a == [] {
      assert whole[0] == sep && whole[1..] == b;
    } else {
      assert whole[0] == a[0] && whole[1..] == a[1..] + [sep] + b;
      ScanAcrossSeparator(a[1..], sep, b, if IsWordChar(a[0]) then word + [ToLower(a[0])] else []);
    }
  }

  lemma TokensAcrossSpace(a: string, b: string)
    ensures TokensOf(a + " " + b) == TokensOf(a) + TokensOf(b)
  {
    ScanAcrossSeparator(a, ' ', b, []);
  }

  /** What the tokenizer can produce: a lower-case word or a single ideograph. */
  predicate IsToken(t: string) {
    || (t != [] && forall i :: 0 <= i < |t| ==> IsWordChar(t[i]) && ToLower(t[i]) == t[i])
    || (|t| == 1 && IsCjk(t[0]))
  }

  lemma {:induction false} ScanYieldsTokens(s: string, word: string)
    requires word == [] || (IsToken(word) && IsWordChar(word[0]))
    ensures forall t :: t in Scan(s, word) ==> IsToken(t)
  {
    if s != [] {
      if IsWordChar(s[0]) {
        ScanYieldsTokens(s[1..], word + [ToLower(s[0])]);
      } else {
        ScanYieldsTokens(s[1..], []);
      }
    }
  }

  lemma TokensAreTokens(s: string)
    ensures forall t :: t in TokensOf(s) ==> IsToken(t)
  {
    ScanYieldsTokens(s, []);
  }

  function Letters(s: string): string {
    if s == [] then []
    else if IsSeparator(s[0]) then Letters(s[1..])
    else [ToLower(s[0])] + Letters(s[1..])
  }

  function Flatten(ts: seq<string>): string {
    if ts == [] then [] else ts[0] + Flatten(ts[1..])
  }

  lemma {:induction false} FlattenConcat(a: seq<string>, b: seq<string>)
    ensures Flatten(a + b) == Flatten(a) + Flatten(b)
  {
    if a == [] {
      assert a + b == b;
    } else {
      assert (a + b)[1..] == a[1..] + b;
      FlattenConcat(a[1..], b);
    }
  }

  lemma FlattenOne(t: string)
    ensures Flatten([t]) == t && Flatten(Flush(t)) == t
  {
    assert [t][1..] == [];
  }

  lemma LettersCons(c: char, rest: string)
    ensures Letters([c] + rest) == (if IsSeparator(c) then [] else [ToLower(c)]) + Letters(rest)
  {
    assert ([c] + rest)[1..] == rest;
  }

  lemma FlattenIdeograph(word: string, c: string, ts: seq<string>)
    ensures Flatten(Flush(word) + [c] + ts) == word + c + Flatten(ts)
  {
    FlattenOne(word);
    FlattenOne(c);
    FlattenConcat(Flush(word), [c]);
    FlattenConcat(Flush(word) + [c], ts);
  }

  lemma FlattenSeparated(word: string, ts: seq<string>)
    ensures Flatten(Flush(word) + ts) == word + Flatten(ts)
  {
    FlattenOne(word);
    FlattenConcat(Flush(word), ts);
  }

  /** Nothing but separators is lost, and the order of characters is kept. */
  lemma {:induction false} ScanKeepsLetters(s: string, word: string)
    ensures Flatten(Scan(s, word)) == word + Letters(s)
  {
    if s == [] {
      FlattenOne(word);
    } else {
      var c, rest := ToLower(s[0]), s[1..];
      assert s == [s[0]] + rest;
      LettersCons(s[0], rest);
      if IsWordChar(s[0]) {
        ScanKeepsLetters(rest, word + [c]);
        assert word + [c] + Letters(rest) == word + ([c] + Letters(rest));
      } else if IsCjk(s[0]) {
        ScanKeepsLetters(rest, []);
        FlattenIdeograph(word, [c], Scan(rest, []));
        assert word + [c] + ([] + Letters(rest)) == word + ([c] + Letters(rest));
      } else {
        ScanKeepsLetters(rest, []);
        FlattenSeparated(word, Scan(rest, []));
        assert word + ([] + Letters(rest)) == word + ([] + Letters(rest));
      }
    }
  }

  lemma TokensKeepLetters(s: string)
    ensures Flatten(TokensOf(s)) == Letters(s)
  {
    ScanKeepsLetters(s, []);
  }

  /** strings.Join(parts, " "). */
  function JoinSpace(parts: seq<string>): string {
    if parts == [] then ""
    else if |parts| == 1 then parts[0]
    else parts[0] + " " + JoinSpace(parts[1..])
  }

  function TokensOfAll(parts: seq<string>): seq<string> {
    if parts == [] then [] else TokensOf(parts[0]) + TokensOfAll(parts[1..])
  }

  lemma {:induction false} TokensOfJoin(parts: seq<string>)
    ensures TokensOf(JoinSpace(parts)) == TokensOfAll(parts)
  {
    if |parts| > 1 {
      TokensOfJoin(parts[1..]);
      TokensAcrossSpace(parts[0], JoinSpace(parts[1..]));
    } else if |parts| == 1 {
      assert parts[1..] == [];
    }
  }

  lemma {:induction false} TokensOfAllConcat(a: seq<string>, b: seq<string>)
    ensures TokensOfAll(a + b) == TokensOfAll(a) + TokensOfAll(b)
  {
    if a == [] {
      assert a + b == b;
    } else {
      assert (a + b)[1..] == a[1..] + b;
      TokensOfAllConcat(a[1..], b);
    }
  }

  lemma {:induction false} ScanWord(t: string, word: string)
    requires forall i :: 0 <= i < |t| ==> IsWordChar(t[i]) && ToLower(t[i]) == t[i]
    ensures Scan(t, word) == Flush(word + t)
  {
    if t == [] {
      assert word + t == word;
    } else {
      ScanWord(t[1..], word + [t[0]]);
      assert word + [t[0]] + t[1..] == word + t;
    }
  }

  lemma TokenIsItself(t: string)
    requires IsToken(t)
    ensures TokensOf(t) == [t]
  {
    if IsWordChar(t[0]) {
      ScanWord(t, []);
      assert [] + t == t;
    } else {
      assert t[1..] == [] && t == [t[0]] && ToLower(t[0]) == t[0];
      assert Scan(t, []) == Flush([]) + [[ToLower(t[0])]] + Scan([], []);
    }
  }

  /** Printing a list of tokens and tokenizing the result gives the list back. */
  lemma {:induction false} TokensRoundTrip(ts: seq<string>)
    requires forall t :: t in ts ==> IsToken(t)
    ensures TokensOf(JoinSpace(ts)) == ts
  {
    TokensOfJoin(ts);
    TokensOfAllOfTokens(ts);
  }

  lemma {:induction false} TokensOfAllOfTokens(ts: seq<string>)
    requires forall t :: t in ts ==> IsToken(t)
    ensures TokensOfAll(ts) == ts
  {
    if ts != [] {
      TokenIsItself(ts[0]);
      TokensOfAllOfTokens(ts[1..]);
    }
  }

  /** A token is its own lower-case form, so lower-casing a search prefix that
      came from the tokenizer changes nothing. */
  lemma TokenIsLower(t: string)
    requires IsToken(t)
    ensures ToLowerAll(t) == t
  {
    assert forall i :: 0 <= i < |t| ==> ToLower(t[i]) == t[i];
  }

  // --------------------------------------------------- what becomes a token

  predicate InWord(c: char) {
    'a' <= c <= 'z' || 'A' <= c <= 'Z' || '0' <= c <= '9' || c == '_'
  }

  predicate InIdeographs(c: char) {
    0x4E00 <= c as int <= 0x9FFF || 0x3400 <= c as int <= 0x4DBF || 0xF900 <= c as int <= 0xFAFF
  }

  /** An ideograph is a token of its own and cuts the text. */
  lemma IdeographStandsAlone(a: string, c: char, b: string)
    requires InIdeographs(c)
    ensures TokensOf(a + [c] + b) == TokensOf(a) + [[c]] + TokensOf(b)
  {
    ScanAcrossIdeograph(a, c, b, []);
  }

  lemma {:induction false} ScanAcrossIdeograph(a: string, c: char, b: string, word: string)
    requires InIdeographs(c)
    ensures Scan(a + [c] + b, word) == Scan(a, word) + [[c]] + TokensOf(b)
  {
    var whole := a + [c] + b;
    if a == [] {
      assert whole[0] == c && whole[1..] == b;
    } else {
      assert whole[0] == a[0] && whole[1..] == a[1..] + [c] + b;
      ScanAcrossIdeograph(a[1..], c, b, if IsWordChar(a[0]) then word + [ToLower(a[0])] else []);
    }
  }

  /** Everything that is neither in a word nor an ideograph only cuts the text. */
  lemma OthersSeparate(a: string, c: char, b: string)
    requires !InWord(c) && !InIdeographs(c)
    ensures TokensOf(a + [c] + b) == TokensOf(a) + TokensOf(b)
  {
    ScanAcrossSeparator(a, c, b, []);
  }

  /** A run of letters, digits and underscores is one token, in lower case. */
  lemma WordStaysWhole(w: string)
    requires w != "" && forall c | c in w :: InWord(c)
    ensures |TokensOf(w)| == 1 && |TokensOf(w)[0]| == |w|
    ensures forall i | 0 <= i < |w| ::
              TokensOf(w)[0][i] == if 'A' <= w[i] <= 'Z' then (w[i] as int + 32) as char else w[i]
  {
    ScanRun(w, []);
    assert [] + ToLowerAll(w) == ToLowerAll(w);
  }

  lemma {:induction false} ScanRun(w: string, word: string)
    requires forall i | 0 <= i < |w| :: InWord(w[i])
    ensures Scan(w, word) == Flush(word + ToLowerAll(w))
  {
    if w == [] {
      assert word + ToLowerAll(w) == word;
    } else {
      assert IsWordChar(w[0]);
      ScanRun(w[1..], word + [ToLower(w[0])]);
      LowerStep(w, word);
    }
  }

  lemma LowerStep(w: string, word: string)
    requires w != []
    ensures word + [ToLower(w[0])] + ToLowerAll(w[1..]) == word + ToLowerAll(w)
  {
  }

  predicate SameLetter(a: char, b: char) {
    a == b || ('a' <= a <= 'z' && a as int == b as int + 32) || ('a' <= b <= 'z' && b as int == a as int + 32)
  }

  /** Texts that differ in upper and lower case only have the same tokens. */
  lemma CaseDoesNotMatter(a: string, b: string)
    requires |a| == |b| && forall i | 0 <= i < |a| :: SameLetter(a[i], b[i])
    ensures TokensOf(a) == TokensOf(b)
  {
    ScanCase(a, b, []);
  }

  lemma {:induction false} ScanCase(a: string, b: string, word: string)
    requires |a| == |b| && forall i | 0 <= i < |a| :: SameLetter(a[i], b[i])
    ensures Scan(a, word) == Scan(b, word)
  {
    if a != [] {
      assert SameLetter(a[0], b[0]);
      ScanCase(a[1..], b[1..], if IsWordChar(a[0]) then word + [ToLower(a[0])] else []);
    }
  }
}
