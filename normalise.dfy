/** Word normalisation and grouping keys, shared by both mappers: the regular
    expression rewrites `replaceAll("\\p{Punct}", "")`, `toLowerCase()` and
    `replaceAll("[^a-z]", "")` as character filters over ASCII, and the grouping
    key, the word's chars sorted ascending by `Arrays.sort`. */
module Normalise {
  import opened Sorting

  /** `\p{Punct}`: one of the 32 ASCII punctuation chars
      ``!"#$%&'()*+,-./:;<=>?@[\]^_`{|}~``. */
  function IsPunct(c: char): (b: bool)
    ensures b ==> !IsUpper(c) && !IsLower(c)
  {
    ('!' <= c <= '/') || (':' <= c <= '@') || ('[' <= c <= '`') || ('{' <= c <= '~')
  }

  predicate IsUpper(c: char) {
    'A' <= c <= 'Z'
  }

  predicate IsLower(c: char) {
    'a' <= c <= 'z'
  }

  predicate AllLower(s: string) {
    forall i :: 0 <= i < |s| ==> IsLower(s[i])
  }

  /** `replaceAll("\\p{Punct}", "")`. */
  function RemovePunct(s: string): (r: string)
    ensures forall i :: 0 <= i < |r| ==> !IsPunct(r[i])
    ensures forall c :: c in r <==> c in s && !IsPunct(c)
  {
    if s == [] then []
    else (if IsPunct(s[0]) then [] else [s[0]]) + RemovePunct(s[1..])
  }

  /** `Character.toLowerCase` on ASCII: `A`-`Z` become `a`-`z`, every other char is kept. */
  function LowerChar(c: char): char {
    if IsUpper(c) then (c as int + 32) as char else c
  }

  /** `toLowerCase()`. */
  function ToLowerCase(s: string): (r: string)
    ensures |r| == |s|
    ensures forall i :: 0 <= i < |s| ==> r[i] == LowerChar(s[i]) && !IsUpper(r[i])
  {
    if s == [] then [] else [LowerChar(s[0])] + ToLowerCase(s[1..])
  }

  /** `replaceAll("[^a-z]", "")` (and `"[^a-z]+"`, which removes the same chars). */
  function KeepLower(s: string): (r: string)
    ensures AllLower(r)
  {
    if s == [] then []
    else (if IsLower(s[0]) then [s[0]] else []) + KeepLower(s[1..])
  }

  /** The three rewrites both mappers apply to a token, in their order. */
  function Clean(token: string): string {
    KeepLower(ToLowerCase(RemovePunct(token)))
  }

  /** A reference definition of the cleaned word: the token's ASCII letters
      lower-cased, in order. */
  function Letters(s: string): (r: string)
    ensures |r| <= |s|
  {
    if s == [] then []
    else (if IsUpper(s[0]) || IsLower(s[0]) then [LowerChar(s[0])] else []) + Letters(s[1..])
  }

  /** The three rewrites keep exactly the token's letters, lower-cased. */
  lemma {:induction false} CleanIsLetters(token: string)
    ensures Clean(token) == Letters(token)
    ensures AllLower(Clean(token))
  {
    if token != [] {
      CleanIsLetters(token[1..]);
      var c, rest := token[0], token[1..];
      if !IsPunct(c) {
        var lowered := [LowerChar(c)] + ToLowerCase(RemovePunct(rest));
        assert RemovePunct(token) == [c] + RemovePunct(rest);
        assert ([c] + RemovePunct(rest))[1..] == RemovePunct(rest);
        assert ToLowerCase(RemovePunct(token)) == lowered;
        assert lowered[1..] == ToLowerCase(RemovePunct(rest));
        assert KeepLower(lowered) == (if IsLower(LowerChar(c)) then [LowerChar(c)] else []) + Clean(rest);
        assert IsLower(LowerChar(c)) <==> IsUpper(c) || IsLower(c);
      } else {
        assert RemovePunct(token) == [] + RemovePunct(rest) == RemovePunct(rest);
        assert Letters(token) == [] + Letters(rest);
      }
    }
  }

  /** Removing punctuation first changes nothing: punctuation is not a letter,
      so the last rewrite removes it anyway. (The mapper's comment calls the
      first rewrite "probably unnecessary".) */
  lemma {:induction false} RemovePunctRedundant(token: string)
    ensures Clean(token) == KeepLower(ToLowerCase(token))
  {
    if token != [] {
      RemovePunctRedundant(token[1..]);
      var c, rest := token[0], token[1..];
      assert ToLowerCase(token) == [LowerChar(c)] + ToLowerCase(rest);
      assert KeepLower(ToLowerCase(token))
        == (if IsLower(LowerChar(c)) then [LowerChar(c)] else []) + KeepLower(ToLowerCase(rest));
      if !IsPunct(c) {
        var lowered := [LowerChar(c)] + ToLowerCase(RemovePunct(rest));
        assert RemovePunct(token) == [c] + RemovePunct(rest);
        assert ([c] + RemovePunct(rest))[1..] == RemovePunct(rest);
        assert ToLowerCase(RemovePunct(token)) == lowered;
        assert lowered[1..] == ToLowerCase(RemovePunct(rest));
        assert KeepLower(lowered) == (if IsLower(LowerChar(c)) then [LowerChar(c)] else []) + Clean(rest);
      } else {
        assert RemovePunct(token) == [] + RemovePunct(rest) == RemovePunct(rest);
        assert !IsLower(LowerChar(c));
      }
    }
  }

  // ---------------------------------------------------------------------------
  // Grouping key

  predicate CharLe(a: char, b: char) {
    a <= b
  }

  /** `new String(Arrays.sort(word.toCharArray()))`: the word's chars in ascending order. */
  function Key(word: string): string {
    SortBy(word, CharLe)
  }

  lemma CharLeTotalOrder()
    ensures IsTotalOrder(CharLe)
  {
  }

  /** The key is the word's chars sorted ascending, and a permutation of the word. */
  lemma KeyIsSortedPermutation(word: string)
    ensures SortedBy(Key(word), CharLe)
    ensures multiset(Key(word)) == multiset(word)
  {
    CharLeTotalOrder();
    SortBySorted(word, CharLe);
  }

  /** Two words share a key exactly when they are letter-permutations of each other. */
  lemma KeyIffAnagram(w1: string, w2: string)
    ensures Key(w1) == Key(w2) <==> multiset(w1) == multiset(w2)
  {
    KeyIsSortedPermutation(w1);
    KeyIsSortedPermutation(w2);
    if multiset(w1) == multiset(w2) {
      CharLeTotalOrder();
      SortedUnique(Key(w1), Key(w2), CharLe);
    }
  }

  /** The key of a word of lowercase letters is made of lowercase letters and is
      as long as the word. */
  lemma KeyOfLowerWord(word: string)
    requires AllLower(word)
    ensures AllLower(Key(word)) && |Key(word)| == |word|
  {
    KeyIsSortedPermutation(word);
    var k := Key(word);
    forall i | 0 <= i < |k| ensures IsLower(k[i]) {
      assert k[i] in multiset(word);
    }
  }
}
