/** `AnagramsAdvanced`: the job with a composite key and a secondary sort. Its
    mapper emits a `CompositeKeyWritable(wordKey, word)` per qualifying token;
    the partitioner routes a record by the hash of its `wordKey`; the framework
    sorts each reducer's input with the composite-key comparator and groups it
    with the `wordKey` comparator; the combiner drops duplicate words locally;
    the reducer counts the distinct words of a key in a `TreeSet` and writes
    them in ascending order, each followed by ", ". */
module AnagramsAdvanced {
  import opened Wrappers
  import opened JavaInt
  import opened JavaString
  import opened Sorting
  import opened Normalise
  import opened TextFormat
  import opened TreeSetOrder

  /** The value of a `CompositeKeyWritable`: the grouping key and the word. */
  datatype Record = Record(wordKey: string, word: string)

  // ---------------------------------------------------------------------------
  // Stop-word tests

  /** The mapper's test as written: `stopWords.contains(word)`, which asks
      whether the token occurs anywhere in the comma-separated literal. */
  function SubstringStopTest(stopWords: string): (isStop: string -> bool)
    ensures forall t :: isStop(t) <==> exists i :: OccursAt(stopWords, t, i)
  {
    assert forall t :: Contains(stopWords, t) <==> exists i :: OccursAt(stopWords, t, i) by {
      forall t ensures Contains(stopWords, t) <==> exists i :: OccursAt(stopWords, t, i) {
        ContainsIffOccurs(stopWords, t);
      }
    }
    t => Contains(stopWords, t)
  }

  /** The evidently intended test: the token is one of the comma-separated
      entries, which is how `AnagramFinder` tests the same literal. */
  function EntryStopTest(stopWords: string): (isStop: string -> bool)
    ensures forall t :: isStop(t) ==> exists i :: OccursAt(stopWords, t, i)
  {
    SplitPiecesOccur(stopWords, ',');
    t => t in Split(stopWords, ',')
  }

  /** The last piece `Split` cuts out of `s` is a suffix of `s`. */
  lemma {:induction false} SplitLastIsSuffix(s: string, c: char)
    ensures var r := Split(s, c); |r[|r| - 1]| <= |s| && r[|r| - 1] == s[|s| - |r[|r| - 1]|..]
    decreases |s|
  {
    if s != [] {
      var init, ch := s[..|s| - 1], s[|s| - 1];
      SplitLastIsSuffix(init, c);
      var r := Split(init, c);
      var last := r[|r| - 1];
      if ch != c {
        assert Split(s, c)[|Split(s, c)| - 1] == last + [ch];
        assert s[|s| - |last| - 1..] == init[|init| - |last|..] + [ch];
      }
    }
  }

  lemma OccursInExtension(init: string, ch: char, w: string, i: int)
    requires OccursAt(init, w, i)
    ensures OccursAt(init + [ch], w, i)
  {
    assert (init + [ch])[i..i + |w|] == init[i..i + |w|];
  }

  lemma SuffixExtends(init: string, ch: char, last: string)
    requires |last| <= |init| && last == init[|init| - |last|..]
    ensures OccursAt(init + [ch], last + [ch], |init| - |last|)
  {
    var s, i := init + [ch], |init| - |last|;
    assert s[i..i + |last| + 1] == s[i..];
    assert s[i..] == init[i..] + [ch];
  }

  /** Every piece `Split` cuts out of `s` occurs in `s`. */
  lemma {:induction false} SplitPiecesOccur(s: string, c: char)
    ensures forall w :: w in Split(s, c) ==> exists i :: OccursAt(s, w, i)
    decreases |s|
  {
    if s == [] {
      assert OccursAt(s, "", 0);
    } else {
      var init, ch := s[..|s| - 1], s[|s| - 1];
      assert s == init + [ch];
      SplitPiecesOccur(init, c);
      SplitLastIsSuffix(init, c);
      var r := Split(init, c);
      var last := r[|r| - 1];
      forall w | w in Split(s, c) ensures exists i :: OccursAt(s, w, i) {
        if w in r && (ch == c || w in r[..|r| - 1]) {
          var i :| OccursAt(init, w, i);
          OccursInExtension(init, ch, w, i);
        } else if ch == c {
          assert w == "";
          assert OccursAt(s, w, 0);
        } else {
          assert w == last + [ch];
          SuffixExtends(init, ch, last);
        }
      }
    }
  }

  /** The test as written drops every real stop word: each entry of the list
      is also a substring of it. */
  lemma EntryImpliesSubstring(stopWords: string, token: string)
    requires EntryStopTest(stopWords)(token)
    ensures SubstringStopTest(stopWords)(token)
  {
    SplitPiecesOccur(stopWords, ',');
    ContainsIffOccurs(stopWords, token);
  }

  /** ... and more: whenever the literal lists "often" (as it does), the test
      as written also drops "ten". */
  lemma SubstringTestDropsTen(before: string, after: string)
    ensures SubstringStopTest(before + ",often," + after)("ten")
  {
    var s := before + ",often," + after;
    assert s[|before| + 3..|before| + 6] == "ten";
    assert OccursAt(s, "ten", |before| + 3);
    ContainsIffOccurs(s, "ten");
  }

  // ---------------------------------------------------------------------------
  // Mapper

  /** The mapper's guard: the raw token passes the stop test and has more than
      one char. The length is tested before punctuation and digits are removed. */
  function Qualifies(token: string, isStop: string -> bool): (b: bool)
    ensures b ==> !isStop(token)
    ensures !isStop(token) && |Letters(token)| > 1 ==> b
  {
    !isStop(token) && |token| > 1
  }

  /** What the mapper writes for one token. */
  function Emitted(token: string, isStop: string -> bool): seq<Record> {
    if Qualifies(token, isStop) then [Record(Key(Clean(token)), Clean(token))] else []
  }

  /** The records the mapper writes for a sequence of tokens, in token order. */
  function MapOutput(tokens: seq<string>, isStop: string -> bool): seq<Record>
    decreases |tokens|
  {
    if tokens == [] then []
    else MapOutput(tokens[..|tokens| - 1], isStop) + Emitted(tokens[|tokens| - 1], isStop)
  }

  /** `AnMapper.map` over the tokens of one input line. */
  method Map(tokens: seq<string>, isStop: string -> bool) returns (out: seq<Record>)
    ensures out == MapOutput(tokens, isStop)
  {
    out := [];
    var i := 0;
    while i < |tokens|
      invariant 0 <= i <= |tokens|
      invariant out == MapOutput(tokens[..i], isStop)
    {
      var emitted := MapToken(tokens[i], isStop);
      out := out + emitted;
      assert tokens[..i + 1][..i] == tokens[..i];
      i := i + 1;
    }
    assert tokens[..i] == tokens;
  }

  /** The body of the mapper's loop for one token. */
  method MapToken(token: string, isStop: string -> bool) returns (emitted: seq<Record>)
    ensures emitted == Emitted(token, isStop)
  {
    var word := token;
    if !isStop(word) && |word| > 1 {
      word := ToLowerCase(RemovePunct(word));
      word := KeepLower(word);
      var wordArray := new char[|word|](k requires 0 <= k < |word| => word[k]);
      assert wordArray[..] == word;
      InsertionSort(wordArray, CharLe);
      var wordKey := wordArray[..];
      emitted := [Record(wordKey, word)];
    } else {
      emitted := [];
    }
  }

  /** A record is well formed when its key is its word's sorted letters and the
      word is lowercase. */
  predicate WellFormed(r: Record) {
    AllLower(r.word) && r.wordKey == Key(r.word)
  }

  /** Every record the mapper writes is well formed and comes from a qualifying
      token; every qualifying token has its record written. */
  lemma {:induction false} MapOutputSound(tokens: seq<string>, isStop: string -> bool)
    ensures forall r :: r in MapOutput(tokens, isStop) ==>
      WellFormed(r) && exists t :: t in tokens && Qualifies(t, isStop) && r.word == Clean(t)
    ensures forall t :: t in tokens && Qualifies(t, isStop) ==>
      Record(Key(Clean(t)), Clean(t)) in MapOutput(tokens, isStop)
    decreases |tokens|
  {
    if tokens != [] {
      var init, last := tokens[..|tokens| - 1], tokens[|tokens| - 1];
      assert tokens == init + [last];
      MapOutputSound(init, isStop);
      CleanIsLetters(last);
    }
  }

  /** Because the length is tested on the raw token, a word of fewer than two
      letters can be written: the token "a1" becomes the record ("a", "a"). */
  lemma ShortWordWritten(isStop: string -> bool)
    requires !isStop("a1")
    ensures MapOutput(["a1"], isStop) == [Record("a", "a")]
  {
    assert ["a1"][..0] == [];
    assert RemovePunct("a1") == "a1" by {
      assert "a1"[1..] == "1" && "1"[1..] == "";
    }
    assert ToLowerCase("a1") == "a1" by {
      assert "a1"[1..] == "1" && "1"[1..] == "";
    }
    assert KeepLower("a1") == "a" by {
      assert "a1"[1..] == "1" && "1"[1..] == "";
    }
    assert Key("a") == "a" by {
      assert "a"[..0] == [];
    }
  }

  /** The token "ten" is not a stop word of `"of,often"` but the test as written
      drops it, so the job never groups "ten" with "net". */
  lemma SubstringTestCounterexample()
    ensures SubstringStopTest("of,often")("ten")
    ensures !EntryStopTest("of,often")("ten")
    ensures MapOutput(["ten"], SubstringStopTest("of,often")) == []
    ensures MapOutput(["ten"], EntryStopTest("of,often")) == [Record("ent", "ten")]
  {
    TenOccursInExcerpt();
    ExcerptEntries();
    var asWritten, intended := SubstringStopTest("of,often"), EntryStopTest("of,often");
    assert asWritten("ten") && !intended("ten");
    SingleTokenOutput("ten", asWritten);
    SingleTokenOutput("ten", intended);
    TenIsItsOwnWord();
  }

  lemma SingleTokenOutput(token: string, isStop: string -> bool)
    ensures MapOutput([token], isStop) == Emitted(token, isStop)
  {
    assert [token][..0] == [];
  }

  lemma TenOccursInExcerpt()
    ensures Contains("of,often", "ten")
  {
    assert OccursAt("of,often", "ten", 5);
    ContainsIffOccurs("of,often", "ten");
  }

  lemma ExcerptEntries()
    ensures Split("of,often", ',') == ["of", "often"]
  {
    assert Join(["of", "often"], [',']) == "of,often" by {
      assert ["of", "often"][..1] == ["of"];
    }
    SplitJoinRoundTrip(["of", "often"], ',');
  }

  lemma TenIsItsOwnWord()
    ensures Clean("ten") == "ten" && Key("ten") == "ent"
  {
    TenIsClean();
    SortT();
    SortTe();
    SortTen();
  }

  lemma SortT()
    ensures SortBy("t", CharLe) == "t"
  {
    assert "t"[..0] == [];
  }

  lemma SortTe()
    ensures SortBy("te", CharLe) == "et"
  {
    SortT();
    assert "te"[..1] == "t";
    assert Insert("t", 'e', CharLe) == Insert([], 'e', CharLe) + "t";
  }

  lemma SortTen()
    ensures SortBy("ten", CharLe) == "ent"
  {
    SortTe();
    assert "ten"[..2] == "te";
    assert "et"[..1] == "e";
    assert Insert("e", 'n', CharLe) == "en";
    assert Insert("et", 'n', CharLe) == Insert("e", 'n', CharLe) + "t";
  }

  lemma TenIsClean()
    ensures Clean("ten") == "ten"
  {
    CleanIsLetters("ten");
    assert "ten"[1..] == "en" && "en"[1..] == "n" && "n"[1..] == "";
  }

  // ---------------------------------------------------------------------------
  // Composite key

  /** `CompositeKeyWritable`: a mutable pair of strings. */
  class CompositeKeyWritable {
    var wordKey: string
    var word: string

    constructor (wordKey: string, word: string)
      ensures this.wordKey == wordKey && this.word == word
    {
      this.wordKey := wordKey;
      this.word := word;
    }

    function GetWordKey(): string
      reads this
    {
      wordKey
    }

    function GetWord(): string
      reads this
    {
      word
    }

    method SetWordKey(wordKey: string)
      modifies this
      ensures this.wordKey == wordKey && word == old(word)
    {
      this.wordKey := wordKey;
    }

    method SetWord(word: string)
      modifies this
      ensures this.word == word && wordKey == old(wordKey)
    {
      this.word := word;
    }

    /** `wordKey` and `word` separated by a tab, as Hadoop's text output writes
        a key; the two fields can be recovered when neither contains a tab. */
    function ToString(): (s: string)
      reads this
      ensures '\t' !in wordKey && '\t' !in word ==> Split(s, '\t') == [wordKey, word]
    {
      TabSeparatedSplits(wordKey, word);
      wordKey + "\t" + word
    }

    /** `compareTo`: by `wordKey`, ties broken by `word`. */
    method CompareTo(objKeyPair: CompositeKeyWritable) returns (result: int)
      ensures result == SortCompare(Record(wordKey, word), Record(objKeyPair.wordKey, objKeyPair.word))
    {
      result := JavaString.CompareTo(wordKey, objKeyPair.wordKey);
      if 0 == result {
        result := JavaString.CompareTo(word, objKeyPair.word);
      }
    }
  }

  lemma TabSeparatedSplits(a: string, b: string)
    ensures '\t' !in a && '\t' !in b ==> Split(a + "\t" + b, '\t') == [a, b]
  {
    if '\t' !in a && '\t' !in b {
      assert Join([a, b], ['\t']) == a + "\t" + b by {
        assert [a, b][..1] == [a];
      }
      SplitJoinRoundTrip([a, b], '\t');
    }
  }

  // ---------------------------------------------------------------------------
  // Comparators

  /** `SSortCompKeyComparator.compare`, and `CompositeKeyWritable.compareTo`:
      compares the keys, and the words when the keys are equal. */
  function SortCompare(a: Record, b: Record): (r: int)
    ensures r == 0 <==> a == b
    ensures a.wordKey != b.wordKey ==> r == CompareTo(a.wordKey, b.wordKey)
    ensures a.wordKey == b.wordKey ==> r == CompareTo(a.word, b.word)
  {
    var compResult := CompareTo(a.wordKey, b.wordKey);
    if compResult == 0 then CompareTo(a.word, b.word) else compResult
  }

  /** `SSortGroupComparator.compare`: compares the keys only. */
  function GroupCompare(a: Record, b: Record): (r: int)
    ensures r == 0 <==> a.wordKey == b.wordKey
  {
    CompareTo(a.wordKey, b.wordKey)
  }

  /** The order the framework sorts a reducer's input by. */
  predicate RecLe(a: Record, b: Record) {
    SortCompare(a, b) <= 0
  }

  lemma SortCompareAntisymmetric(a: Record, b: Record)
    ensures SortCompare(b, a) == -SortCompare(a, b)
  {
    CompareToAntisymmetric(a.wordKey, b.wordKey);
    CompareToAntisymmetric(a.word, b.word);
  }

  /** Records the sort order puts first have keys no greater. */
  lemma RecLeKeys(a: Record, b: Record)
    requires RecLe(a, b)
    ensures Le(a.wordKey, b.wordKey)
  {
  }

  lemma SortCompareTransitive(a: Record, b: Record, c: Record)
    requires RecLe(a, b) && RecLe(b, c)
    ensures RecLe(a, c)
  {
    LeTransitive(a.wordKey, b.wordKey, c.wordKey);
    if a.wordKey == c.wordKey {
      CompareToAntisymmetric(a.wordKey, b.wordKey);
      assert b.wordKey == a.wordKey;
      LeTransitive(a.word, b.word, c.word);
    }
  }

  /** The composite-key order is a total order on records. */
  lemma RecLeTotalOrder()
    ensures IsTotalOrder(RecLe)
  {
    forall a, b ensures RecLe(a, b) || RecLe(b, a) {
      SortCompareAntisymmetric(a, b);
    }
    forall a, b, c | RecLe(a, b) && RecLe(b, c) ensures RecLe(a, c) {
      SortCompareTransitive(a, b, c);
    }
    forall a, b | RecLe(a, b) && RecLe(b, a) ensures a == b {
      SortCompareAntisymmetric(a, b);
    }
  }

  /** The grouping comparator is coarser than the sort comparator and agrees
      with it where it separates records. */
  lemma GroupCoarsensSort(a: Record, b: Record)
    ensures SortCompare(a, b) == 0 ==> GroupCompare(a, b) == 0
    ensures GroupCompare(a, b) != 0 ==> GroupCompare(a, b) == SortCompare(a, b)
  {
  }

  /** In a stream sorted by the composite key, the records of one key are
      contiguous: a record between two records of key `k` has key `k`. */
  lemma GroupContiguous(s: seq<Record>, i: int, k: int, j: int)
    requires SortedBy(s, RecLe)
    requires 0 <= i <= k <= j < |s|
    requires GroupCompare(s[i], s[j]) == 0
    ensures GroupCompare(s[i], s[k]) == 0
  {
    if i < k {
      RecLeKeys(s[i], s[k]);
    }
    if k < j {
      RecLeKeys(s[k], s[j]);
    }
    if i < k < j {
      CompareToAntisymmetric(s[i].wordKey, s[k].wordKey);
    }
  }

  // ---------------------------------------------------------------------------
  // Partitioner

  /** `SSortPartitioner.getPartition` as written: Java's truncating remainder of
      the key's hash, negative when the hash is. */
  function GetPartition(key: Record, numReduceTasks: int): (r: int)
    requires numReduceTasks > 0
    ensures Abs(r) < numReduceTasks
    ensures r < 0 ==> HashCode(key.wordKey) < 0
  {
    Rem(HashCode(key.wordKey), numReduceTasks)
  }

  /** The partition depends only on the key. */
  lemma PartitionIgnoresWord(a: Record, b: Record, numReduceTasks: int)
    requires numReduceTasks > 0
    requires a.wordKey == b.wordKey
    ensures GetPartition(a, numReduceTasks) == GetPartition(b, numReduceTasks)
  {
  }

  /** The partition that evidently was meant (Hadoop's own `HashPartitioner`):
      the sign bit is cleared before the remainder, so the lane is always valid,
      and it is the same lane as written whenever the hash is non-negative. */
  function LaneOf(wordKey: string, numReduceTasks: int): (r: int)
    requires numReduceTasks > 0
    ensures 0 <= r < numReduceTasks
    ensures HashCode(wordKey) >= 0 ==> r == Rem(HashCode(wordKey), numReduceTasks)
  {
    ClearSignBit(HashCode(wordKey)) % numReduceTasks
  }

  /** The key of "listen" and "silent" hashes to a negative value, so with the
      job's 8 reducers the partitioner as written returns -1, which the
      framework rejects as an illegal partition; the intended lane is 7. */
  lemma ListenPartitionIsNegative()
    ensures HashCode("eilnst") == -1303126521
    ensures GetPartition(Record("eilnst", "listen"), 8) == -1
    ensures LaneOf("eilnst", 8) == 7
  {
    ListenHash();
    var h := HashCode("eilnst");
    assert Rem(h, 8) == -1 by {
      assert Abs(h) == 1303126521 && 1303126521 % 8 == 1;
    }
    assert GetPartition(Record("eilnst", "listen"), 8) == Rem(h, 8);
    assert ClearSignBit(h) == 844357127 && 844357127 % 8 == 7;
  }

  /** `"eilnst".hashCode()`, one char at a time. */
  lemma ListenHash()
    ensures HashCode("eilnst") == -1303126521
  {
    assert HashCode("eilns") == 96510989 by {
      assert HashCode("eiln") == 3113254 by {
        assert HashCode("eil") == 100424 by {
          assert HashCode("ei") == 3236 by {
            assert HashCode("e") == 101 by { assert "e"[..0] == ""; }
            assert "ei"[..1] == "e";
          }
          assert "eil"[..2] == "ei";
        }
        assert "eiln"[..3] == "eil";
      }
      assert "eilns"[..4] == "eiln";
    }
    assert "eilnst"[..5] == "eilns";
    assert HashCode("eilnst") == Wrap32(31 * 96510989 + 116);
  }

  // ---------------------------------------------------------------------------
  // Combiner

  /** The records `(key, w)` for the words `ws`, in order. */
  function Pairs(key: string, ws: seq<string>): (r: seq<Record>)
    ensures |r| == |ws|
    ensures forall i :: 0 <= i < |ws| ==> r[i] == Record(key, ws[i])
  {
    seq(|ws|, i requires 0 <= i < |ws| => Record(key, ws[i]))
  }

  /** `AnCombiner.reduce`: writes `(key, value)` the first time `value` is seen. */
  method Combine(key: string, values: seq<string>) returns (out: seq<Record>)
    ensures out == Pairs(key, Dedup(values))
  {
    var uniqueWords: set<string> := {};
    out := [];
    for i := 0 to |values|
      invariant uniqueWords == Elements(values[..i])
      invariant out == Pairs(key, Dedup(values[..i]))
    {
      var value := values[i];
      var added := value !in uniqueWords;
      uniqueWords := uniqueWords + {value};
      assert values[..i + 1][..i] == values[..i];
      if added {
        out := out + [Record(key, value)];
      }
    }
    assert values[..|values|] == values;
  }

  /** The combiner keeps the key, writes each distinct word once, in the order
      of first occurrence, and writes no word that was not in its input. */
  lemma CombineSound(key: string, values: seq<string>)
    ensures forall r :: r in Pairs(key, Dedup(values)) ==> r.wordKey == key
    ensures NoDuplicates(Pairs(key, Dedup(values)))
    ensures forall w :: Record(key, w) in Pairs(key, Dedup(values)) <==> w in values
    ensures forall i, j :: 0 <= i < j < |Pairs(key, Dedup(values))| ==>
      FirstIndex(values, Pairs(key, Dedup(values))[i].word) < FirstIndex(values, Pairs(key, Dedup(values))[j].word)
  {
    DedupFirstOccurrenceOrder(values);
    var d := Dedup(values);
    forall w | w in values ensures Record(key, w) in Pairs(key, d) {
      var i :| 0 <= i < |d| && d[i] == w;
      assert Pairs(key, d)[i] == Record(key, w);
    }
  }

  /** On the records of one key, the combiner is `Dedup` on records. */
  lemma {:induction false} CombineIsRecordDedup(key: string, values: seq<string>)
    ensures Dedup(Pairs(key, values)) == Pairs(key, Dedup(values))
    decreases |values|
  {
    if values != [] {
      var init, last := values[..|values| - 1], values[|values| - 1];
      CombineIsRecordDedup(key, init);
      assert Pairs(key, values)[..|values| - 1] == Pairs(key, init);
      var d := Dedup(init);
      assert Record(key, last) in Pairs(key, d) <==> last in d by {
        if Record(key, last) in Pairs(key, d) {
          var i :| 0 <= i < |d| && Pairs(key, d)[i] == Record(key, last);
        }
        if last in d {
          var i :| 0 <= i < |d| && d[i] == last;
          assert Pairs(key, d)[i] == Record(key, last);
        }
      }
      if last !in d {
        assert Pairs(key, d + [last]) == Pairs(key, d) + [Record(key, last)];
      }
    }
  }

  // ---------------------------------------------------------------------------
  // Reducer

  /** `context.write(count, outputWord)`. */
  datatype AdvOutput = AdvOutput(count: int, words: string)

  /** What the reducer writes for the distinct words of a key: nothing unless
      there is more than one, otherwise their number and the words in
      ascending order, each followed by ", ". */
  ghost function ReduceSet(distinct: set<string>): Option<AdvOutput> {
    if |distinct| > 1 then Some(AdvOutput(|distinct|, Terminated(Ascending(distinct), ", "))) else None
  }

  /** `AnReducer`: the reducer object, with the two output holders it re-uses
      for every key. */
  class AnReducer {
    var count: int
    var outputWord: string

    constructor ()
      ensures count == 0 && outputWord == ""
    {
      count := 0;
      outputWord := "";
    }

    /** `AnReducer.reduce` for one key. The key itself is not written. */
    method Reduce(key: string, values: seq<string>) returns (written: Option<AdvOutput>)
      modifies this
      ensures written == ReduceSet(Elements(values))
      ensures written.Some? ==> count == written.value.count && outputWord == written.value.words
      ensures written.None? ==> count == old(count) && outputWord == old(outputWord)
    {
      var uniqueAnagrams, size := CollectDistinct(values);
      var anagram := RenderAscending(uniqueAnagrams);
      if size > 1 {
        count := size;
        outputWord := anagram;
        written := Some(AdvOutput(count, outputWord));
      } else {
        written := None;
      }
    }
  }

  /** The reducer's first loop: adds every value to the `TreeSet`, counting the
      additions that succeed. */
  method CollectDistinct(values: seq<string>) returns (uniqueAnagrams: set<string>, size: int)
    ensures uniqueAnagrams == Elements(values)
    ensures size == |uniqueAnagrams|
  {
    uniqueAnagrams := {};
    size := 0;
    for i := 0 to |values|
      invariant uniqueAnagrams == Elements(values[..i])
      invariant size == |uniqueAnagrams|
    {
      var s := values[i];
      var added := s !in uniqueAnagrams;
      ghost var before := uniqueAnagrams;
      uniqueAnagrams := uniqueAnagrams + {s};
      if added {
        size := size + 1;
        assert |uniqueAnagrams| == |before| + 1;
      } else {
        assert uniqueAnagrams == before;
      }
      assert values[..i + 1] == values[..i] + [s];
    }
    assert values[..|values|] == values;
  }

  /** The reducer's second loop: walks the `TreeSet` in ascending order,
      appending each word and ", ". */
  method RenderAscending(uniqueAnagrams: set<string>) returns (anagram: string)
    ensures anagram == Terminated(Ascending(uniqueAnagrams), ", ")
  {
    anagram := "";
    var remaining := uniqueAnagrams;
    ghost var done: seq<string> := [];
    while remaining != {}
      invariant Ascending(uniqueAnagrams) == done + Ascending(remaining)
      invariant anagram == Terminated(done, ", ")
      decreases |remaining|
    {
      LeastExists(remaining);
      var ww :| IsLeast(ww, remaining);
      RenderStep(uniqueAnagrams, done, remaining, ww);
      TerminatedAppend(done, ww, ", ");
      anagram := anagram + ww + ", ";
      done := done + [ww];
      remaining := remaining - {ww};
    }
    assert Ascending(remaining) == [];
    assert done + Ascending(remaining) == done;
  }

  /** One step of the `TreeSet` walk: the least remaining word comes next. */
  lemma RenderStep(all: set<string>, done: seq<string>, remaining: set<string>, ww: string)
    requires Ascending(all) == done + Ascending(remaining)
    requires IsLeast(ww, remaining)
    ensures Ascending(all) == (done + [ww]) + Ascending(remaining - {ww})
  {
    AscendingFirst(ww, remaining);
    var rest := Ascending(remaining - {ww});
    assert done + ([ww] + rest) == (done + [ww]) + rest;
  }

  /** The reducer writes exactly when there is more than one distinct word,
      with their number as count, and its text is the distinct words in
      ascending order joined by ", ", plus one trailing ", ". */
  lemma ReduceSetProperties(distinct: set<string>)
    ensures ReduceSet(distinct).Some? <==> |distinct| > 1
    ensures ReduceSet(distinct).Some? ==>
      ReduceSet(distinct).value.count == |distinct| &&
      ReduceSet(distinct).value.words == Join(Ascending(distinct), ", ") + ", "
  {
    if |distinct| > 1 {
      TerminatedIsJoinPlusSeparator(Ascending(distinct), ", ");
    }
  }

  /** Running the combiner first changes nothing the reducer writes: the
      combiner only drops repeated words. */
  lemma CombinerTransparent(values: seq<string>)
    ensures ReduceSet(Elements(Dedup(values))) == ReduceSet(Elements(values))
  {
    assert Elements(Dedup(values)) == Elements(values);
  }
}
