/** `AnagramFinder`: the simple job. Its mapper emits `(key, word)` for every
    qualifying token; its reducer de-duplicates the words of one key with a
    `HashSet`, and when there is more than one writes the sorted words joined by
    ','. The reducer's counter is never incremented (see `ReduceAsWritten`);
    `Reduce` is the evidently intended version. */
module AnagramFinder {
  import opened Wrappers
  import opened Sorting
  import opened Normalise
  import opened JavaString
  import opened TextFormat
  import opened TreeSetOrder

  /** `context.write(new Text(wordKey), new Text(anagramWord))`. */
  datatype Pair = Pair(key: string, word: string)

  // ---------------------------------------------------------------------------
  // Mapper

  /** The mapper's test: the raw token is not an element of the stop list, and
      the cleaned word has more than one letter. */
  function Qualifies(token: string, stopList: seq<string>): (b: bool)
    ensures b <==> token !in stopList && |Letters(token)| > 1
  {
    CleanIsLetters(token);
    token !in stopList && |Clean(token)| > 1
  }

  /** What the mapper writes for one token. */
  function Emitted(token: string, stopList: seq<string>): seq<Pair> {
    if Qualifies(token, stopList) then [Pair(Key(Clean(token)), Clean(token))] else []
  }

  /** The pairs the mapper writes for a sequence of tokens, in token order. */
  function MapOutput(tokens: seq<string>, stopList: seq<string>): seq<Pair>
    decreases |tokens|
  {
    if tokens == [] then []
    else MapOutput(tokens[..|tokens| - 1], stopList) + Emitted(tokens[|tokens| - 1], stopList)
  }

  /** `AnagramMapper.map` over the tokens of one input line. */
  method Map(tokens: seq<string>, stopList: seq<string>) returns (out: seq<Pair>)
    ensures out == MapOutput(tokens, stopList)
  {
    out := [];
    var i := 0;
    while i < |tokens|
      invariant 0 <= i <= |tokens|
      invariant out == MapOutput(tokens[..i], stopList)
    {
      var emitted := MapToken(tokens[i], stopList);
      out := out + emitted;
      assert tokens[..i + 1][..i] == tokens[..i];
      i := i + 1;
    }
    assert tokens[..i] == tokens;
  }

  /** The body of the mapper's loop for one token `checkWord`. */
  method MapToken(checkWord: string, stopList: seq<string>) returns (emitted: seq<Pair>)
    ensures emitted == Emitted(checkWord, stopList)
  {
    var anagramWord := ToLowerCase(RemovePunct(checkWord));
    anagramWord := KeepLower(anagramWord);
    if checkWord !in stopList && |anagramWord| > 1 {
      var arr := new char[|anagramWord|](k requires 0 <= k < |anagramWord| => anagramWord[k]);
      assert arr[..] == anagramWord;
      InsertionSort(arr, CharLe);
      var wordKey := arr[..];
      emitted := [Pair(wordKey, anagramWord)];
    } else {
      emitted := [];
    }
  }

  /** Every pair the mapper writes has a lowercase word of more than one letter,
      keyed by its sorted letters; and every qualifying token has its pair written. */
  lemma {:induction false} MapOutputSound(tokens: seq<string>, stopList: seq<string>)
    ensures forall p :: p in MapOutput(tokens, stopList) ==>
      AllLower(p.word) && |p.word| > 1 && p.key == Key(p.word) &&
      exists t :: t in tokens && Qualifies(t, stopList) && p.word == Clean(t)
    ensures forall t :: t in tokens && Qualifies(t, stopList) ==>
      Pair(Key(Clean(t)), Clean(t)) in MapOutput(tokens, stopList)
    decreases |tokens|
  {
    if tokens != [] {
      var init, last := tokens[..|tokens| - 1], tokens[|tokens| - 1];
      assert tokens == init + [last];
      MapOutputSound(init, stopList);
      CleanIsLetters(last);
    }
  }

  /** Words that are letter-permutations of each other get the same key, and
      only they do. */
  lemma MapKeysGroupAnagrams(p: Pair, q: Pair, tokens: seq<string>, stopList: seq<string>)
    requires p in MapOutput(tokens, stopList) && q in MapOutput(tokens, stopList)
    ensures p.key == q.key <==> multiset(p.word) == multiset(q.word)
  {
    MapOutputSound(tokens, stopList);
    KeyIffAnagram(p.word, q.word);
  }

  // ---------------------------------------------------------------------------
  // Reducer

  /** `context.write(new Text(String.valueOf(size)), new Text(anagram))`. */
  datatype Output = Output(count: string, anagrams: string)

  /** What the reducer writes for the distinct words of one key, given the
      value its `size` counter holds: nothing unless there is more than one
      distinct word, otherwise the counter and the sorted words joined by ','. */
  ghost function Emit(distinct: set<string>, size: nat): Option<Output> {
    if |distinct| > 1 then Some(Output(ValueOf(size), Join(Ascending(distinct), ","))) else None
  }

  /** `AnagramReducer.reduce` as written. `anagramList.add(val)` puts `val` in
      the set, so `!anagramList.contains(val)` is false right after it and
      `size` is never incremented: the count written is always "0". */
  method ReduceAsWritten(values: seq<string>) returns (written: Option<Output>)
    ensures written == Emit(Elements(values), 0)
  {
    var size := 0;
    var anagramList: set<string> := {};
    for i := 0 to |values|
      invariant anagramList == Elements(values[..i])
      invariant size == 0
    {
      var val := values[i];
      var added := val !in anagramList;
      anagramList := anagramList + {val};
      if added && val !in anagramList {
        size := size + 1;
      }
      assert values[..i + 1] == values[..i] + [val];
    }
    assert values[..|values|] == values;
    if |anagramList| > 1 {
      var anagram := SortAndJoin(anagramList);
      written := Some(Output(ValueOf(size), anagram));
    } else {
      written := None;
    }
  }

  /** `AnagramReducer.reduce` with the counter incremented whenever `add`
      returns true, as the comment beside it and the example output "2
      race,care" say it should be. */
  method Reduce(values: seq<string>) returns (written: Option<Output>)
    ensures written == Emit(Elements(values), |Elements(values)|)
  {
    var size := 0;
    var anagramList: set<string> := {};
    for i := 0 to |values|
      invariant anagramList == Elements(values[..i])
      invariant size == |anagramList|
    {
      var val := values[i];
      var added := val !in anagramList;
      anagramList := anagramList + {val};
      if added {
        size := size + 1;
      }
      assert values[..i + 1] == values[..i] + [val];
    }
    assert values[..|values|] == values;
    if |anagramList| > 1 {
      var anagram := SortAndJoin(anagramList);
      written := Some(Output(ValueOf(size), anagram));
    } else {
      written := None;
    }
  }

  /** The reducer's second half: copy the `HashSet` into an `ArrayList` (in the
      set's own, unspecified, order), `Collections.sort` it, and join the words
      with ','. */
  method SortAndJoin(distinct: set<string>) returns (anagram: string)
    requires |distinct| > 1
    ensures anagram == Join(Ascending(distinct), ",")
  {
    var list := ToList(distinct);
    var arr := new string[|list|](k requires 0 <= k < |list| => list[k]);
    assert arr[..] == list;
    InsertionSort(arr, Le);
    SortedEnumerationIsAscending(list, arr[..], distinct);
    var joined := JoinArray(arr);
    anagram := joined.value;
  }

  /** `new ArrayList<String>(anagramList)`: the set's elements, each once, in
      an order left to the set. */
  method ToList(s: set<string>) returns (list: seq<string>)
    ensures NoDuplicates(list)
    ensures forall x :: x in list <==> x in s
  {
    list := [];
    var remaining := s;
    while remaining != {}
      invariant NoDuplicates(list)
      invariant remaining <= s
      invariant forall x :: x in list <==> x in s && x !in remaining
      decreases |remaining|
    {
      var x :| x in remaining;
      list := list + [x];
      remaining := remaining - {x};
    }
  }

  /** The join loop: `anagram` starts as `null`, takes the first word, and
      then has ',' and each further word appended. */
  method JoinArray(arr: array<string>) returns (anagram: Option<string>)
    ensures anagram == if arr.Length == 0 then None else Some(Join(arr[..], ","))
  {
    anagram := None;
    for j := 0 to arr.Length
      invariant anagram == if j == 0 then None else Some(Join(arr[..j], ","))
    {
      var word := arr[j];
      if anagram == None {
        anagram := Some(word);
        assert arr[..1] == [word];
      } else {
        anagram := Some(anagram.value + "," + word);
        assert arr[..j + 1][..j] == arr[..j];
      }
    }
    assert arr[..arr.Length] == arr[..];
  }

  /** Sorting any duplicate-free enumeration of a set gives its ascending enumeration. */
  lemma SortedEnumerationIsAscending(list: seq<string>, sorted: seq<string>, distinct: set<string>)
    requires NoDuplicates(list)
    requires forall x :: x in list <==> x in distinct
    requires sorted == SortBy(list, Le)
    ensures sorted == Ascending(distinct)
  {
    LeTotalOrder();
    SortBySorted(list, Le);
    PermutationNoDuplicates(list, sorted);
    forall x ensures x in sorted <==> x in list {
      assert x in multiset(sorted) <==> x in multiset(list);
    }
    SortedDistinctIsAscending(sorted, distinct);
  }

  // ---------------------------------------------------------------------------
  // Properties of the reducer's output

  /** Output is written exactly when there is more than one distinct word; its
      count parses back to the counter and its list splits back at ',' into the
      distinct words in ascending order (words never contain ','). */
  lemma EmitProperties(distinct: set<string>, size: nat)
    requires forall w :: w in distinct ==> ',' !in w
    ensures Emit(distinct, size).Some? <==> |distinct| > 1
    ensures Emit(distinct, size).Some? ==>
      ParseDigits(Emit(distinct, size).value.count) == size &&
      Split(Emit(distinct, size).value.anagrams, ',') == Ascending(distinct)
  {
    if |distinct| > 1 {
      ValueOfRoundTrip(size);
      var xs := Ascending(distinct);
      AscendingSpec(distinct);
      assert forall i :: 0 <= i < |xs| ==> xs[i] in distinct;
      SplitJoinRoundTrip(xs, ',');
    }
  }

  /** The corrected reducer's count is the number of distinct words. */
  lemma ReduceCountsDistinct(values: seq<string>)
    requires |Elements(values)| > 1
    ensures Emit(Elements(values), |Elements(values)|).value.count == ValueOf(|Elements(values)|)
    ensures ParseDigits(Emit(Elements(values), |Elements(values)|).value.count) == |Elements(values)|
  {
    ValueOfRoundTrip(|Elements(values)|);
  }

  /** The two reducers disagree on the input of the source's own example:
      as written it outputs "0 care,race", the intended output is "2 care,race". */
  lemma AsWrittenCountIsZero()
    ensures Emit(Elements(["race", "care"]), 0) == Some(Output("0", "care,race"))
    ensures Emit(Elements(["race", "care"]), |Elements(["race", "care"])|) == Some(Output("2", "care,race"))
  {
    ExampleWords();
    ExampleAscending();
    assert Join(["care", "race"], ",") == "care,race" by {
      assert ["care", "race"][..1] == ["care"];
    }
    assert ValueOf(0) == "0" && ValueOf(2) == "2";
  }

  lemma ExampleWords()
    ensures Elements(["race", "care"]) == {"race", "care"}
    ensures |Elements(["race", "care"])| == 2
  {
    assert Elements(["race", "care"]) == {"race", "care"};
    assert "race" != "care" by { assert "race"[0] != "care"[0]; }
  }

  lemma ExampleAscending()
    ensures Ascending({"race", "care"}) == ["care", "race"]
  {
    assert CompareTo("care", "race") < 0 by {
      assert "care"[0] == 'c' && "race"[0] == 'r';
    }
    assert StrictlyAscending(["care", "race"]);
    AscendingUnique(["care", "race"], {"race", "care"});
  }
}
