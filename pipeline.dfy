/** The `AnagramsAdvanced` job end to end, with the framework's part written as
    pure functions on sequences: the map output is split into lanes by the
    partitioner (`LaneOf`, the corrected `getPartition`), each lane is sorted by
    the composite-key comparator, cut into groups of equal `wordKey` by the
    grouping comparator, and each group is reduced. The theorems say what each
    lane writes, and that the set of lines written depends neither on the
    number of lanes nor on whether the combiner runs. */
module Pipeline {
  import opened Wrappers
  import opened JavaString
  import opened Sorting
  import opened Normalise
  import opened TreeSetOrder
  import opened AnagramsAdvanced

  // ---------------------------------------------------------------------------
  // Keys and the words of a key

  function KeysOf(e: set<Record>): set<string> {
    set r | r in e :: r.wordKey
  }

  /** The distinct words the records of `e` carry for the key `k`. */
  function WordsOf(e: set<Record>, k: string): set<string> {
    set r | r in e && r.wordKey == k :: r.word
  }

  lemma KeysOfAdd(x: Record, e: set<Record>)
    ensures KeysOf({x} + e) == {x.wordKey} + KeysOf(e)
  {
  }

  lemma WordsOfAdd(x: Record, e: set<Record>, k: string)
    ensures WordsOf({x} + e, k) == (if x.wordKey == k then {x.word} else {}) + WordsOf(e, k)
  {
  }

  lemma WordsOfUnion(a: set<Record>, b: set<Record>, k: string)
    ensures WordsOf(a + b, k) == WordsOf(a, k) + WordsOf(b, k)
  {
  }

  lemma ElementsCons<T>(s: seq<T>)
    requires s != []
    ensures Elements(s) == {s[0]} + Elements(s[1..])
  {
    assert s == [s[0]] + s[1..];
  }

  // ---------------------------------------------------------------------------
  // Partitioning

  /** The records routed to lane `i` of `n`, in their original order. */
  function Lane(records: seq<Record>, n: int, i: int): (r: seq<Record>)
    requires n > 0
    ensures forall x :: x in r <==> x in records && LaneOf(x.wordKey, n) == i
    decreases |records|
  {
    if records == [] then []
    else
      assert records == [records[0]] + records[1..];
      (if LaneOf(records[0].wordKey, n) == i then [records[0]] else []) + Lane(records[1..], n, i)
  }

  /** A lane holds all the words of each of its keys, and no other key's. */
  lemma LaneWords(records: seq<Record>, n: int, i: int, k: string)
    requires n > 0
    ensures WordsOf(Elements(Lane(records, n, i)), k)
      == if LaneOf(k, n) == i then WordsOf(Elements(records), k) else {}
    ensures k in KeysOf(Elements(Lane(records, n, i))) <==>
      k in KeysOf(Elements(records)) && LaneOf(k, n) == i
  {
    var l := Lane(records, n, i);
    if k in KeysOf(Elements(records)) && LaneOf(k, n) == i {
      var r :| r in Elements(records) && r.wordKey == k;
      assert r in Elements(l);
    }
  }

  // ---------------------------------------------------------------------------
  // Grouping

  /** The values the framework hands one `reduce` call: a key and its words. */
  datatype KeyGroup = KeyGroup(key: string, words: seq<string>)

  /** The length of the run of records at the head of `s` that the grouping
      comparator puts in one group: each record is compared with the one
      before it, and the run ends at the first that compares unequal. */
  function RunLength(s: seq<Record>): (n: nat)
    requires s != []
    ensures 1 <= n <= |s|
    ensures forall j :: 0 <= j < n ==> s[j].wordKey == s[0].wordKey
    ensures n < |s| ==> s[n].wordKey != s[0].wordKey
    decreases |s|
  {
    if |s| > 1 && GroupCompare(s[0], s[1]) == 0 then 1 + RunLength(s[1..]) else 1
  }

  /** The words of a sequence of records, in order. */
  function WordsIn(s: seq<Record>): (r: seq<string>)
    ensures |r| == |s| && forall j :: 0 <= j < |s| ==> r[j] == s[j].word
  {
    seq(|s|, j requires 0 <= j < |s| => s[j].word)
  }

  /** The grouping of a sorted lane: one `reduce` call per maximal run of
      records that the grouping comparator finds equal to their predecessor. */
  function Group(s: seq<Record>): (r: seq<KeyGroup>)
    ensures s == [] <==> r == []
    decreases |s|
  {
    if s == [] then []
    else
      var n := RunLength(s);
      [KeyGroup(s[0].wordKey, WordsIn(s[..n]))] + Group(s[n..])
  }

  function GroupKeys(g: seq<KeyGroup>): (r: seq<string>)
    ensures |r| == |g| && forall i :: 0 <= i < |g| ==> r[i] == g[i].key
  {
    seq(|g|, i requires 0 <= i < |g| => g[i].key)
  }

  /** `g` has one group per key of the records `e`, in strictly ascending key
      order, each holding exactly the words of its key. */
  ghost predicate GroupedCorrectly(e: set<Record>, g: seq<KeyGroup>) {
    && StrictlyAscending(GroupKeys(g))
    && (forall k :: k in GroupKeys(g) <==> k in KeysOf(e))
    && (forall i :: 0 <= i < |g| ==> Elements(g[i].words) == WordsOf(e, g[i].key))
  }

  /** Grouping a stream sorted by the composite key groups it correctly. */
  lemma {:induction false} GroupsOfSorted(s: seq<Record>)
    requires SortedBy(s, RecLe)
    ensures GroupedCorrectly(Elements(s), Group(s))
    decreases |s|
  {
    if s != [] {
      var n := RunLength(s);
      var head, t := s[..n], s[n..];
      assert SortedBy(t, RecLe) by {
        forall i, j | 0 <= i < j < |t| ensures RecLe(t[i], t[j]) {
          assert t[i] == s[n + i] && t[j] == s[n + j];
        }
      }
      GroupsOfSorted(t);
      RunIsWholeKey(s);
      RunSplit(s);
      assert Group(s) == [KeyGroup(s[0].wordKey, WordsIn(head))] + Group(t);
      ConsGroup(s[0].wordKey, WordsIn(head), Group(t), Elements(head), Elements(t));
    }
  }

  /** No record after the head run of a sorted stream has the run's key: all
      of them have greater keys. */
  lemma RunIsWholeKey(s: seq<Record>)
    requires SortedBy(s, RecLe) && s != []
    ensures forall r :: r in Elements(s[RunLength(s)..]) ==> Less(s[0].wordKey, r.wordKey)
  {
    var n := RunLength(s);
    forall r | r in s[n..] ensures Less(s[0].wordKey, r.wordKey) {
      var j :| 0 <= j < |s[n..]| && s[n..][j] == r;
      assert s[n + j] == r;
      RecLeKeys(s[0], s[n + j]);
      if r.wordKey == s[0].wordKey {
        GroupContiguous(s, 0, n, n + j);
      }
    }
  }

  /** The head run and the rest of `s`, as sets of records. */
  lemma RunSplit(s: seq<Record>)
    requires s != []
    ensures Elements(s) == Elements(s[..RunLength(s)]) + Elements(s[RunLength(s)..])
    ensures KeysOf(Elements(s[..RunLength(s)])) == {s[0].wordKey}
    ensures WordsOf(Elements(s[..RunLength(s)]), s[0].wordKey) == Elements(WordsIn(s[..RunLength(s)]))
  {
    var n := RunLength(s);
    ElementsSplit(s, n);
    assert s[..n][0] == s[0];
    var w := WordsIn(s[..n]);
    forall x ensures x in Elements(w) <==> x in WordsOf(Elements(s[..n]), s[0].wordKey) {
      if x in Elements(w) {
        var j :| 0 <= j < |w| && w[j] == x;
        assert s[..n][j] in Elements(s[..n]);
      }
      if x in WordsOf(Elements(s[..n]), s[0].wordKey) {
        var r :| r in Elements(s[..n]) && r.wordKey == s[0].wordKey && r.word == x;
        var j :| 0 <= j < n && s[..n][j] == r;
        assert w[j] == x;
      }
    }
  }

  /** A group for the single key `k0`, placed before a correct grouping of
      records whose keys all exceed `k0`, gives a correct grouping of both. */
  lemma ConsGroup(k0: string, ws: seq<string>, rest: seq<KeyGroup>, head: set<Record>, tail: set<Record>)
    requires GroupedCorrectly(tail, rest)
    requires KeysOf(head) == {k0} && WordsOf(head, k0) == Elements(ws)
    requires forall r :: r in tail ==> Less(k0, r.wordKey)
    ensures GroupedCorrectly(head + tail, [KeyGroup(k0, ws)] + rest)
  {
    var g := [KeyGroup(k0, ws)] + rest;
    var restKeys := GroupKeys(rest);
    forall k | k in restKeys ensures Less(k0, k) {
      assert k in KeysOf(tail);
      var r :| r in tail && r.wordKey == k;
    }
    assert GroupKeys(g) == [k0] + restKeys;
    AscendingCons(k0, restKeys);
    assert KeysOf(head + tail) == KeysOf(head) + KeysOf(tail);
    forall r | r in head ensures r.wordKey == k0 {
      assert r.wordKey in KeysOf(head);
    }
    forall k | k != k0 ensures WordsOf(head + tail, k) == WordsOf(tail, k) {
      WordsOfUnion(head, tail, k);
      assert WordsOf(head, k) == {};
    }
    WordsOfUnion(head, tail, k0);
    assert WordsOf(tail, k0) == {} by {
      forall r | r in tail ensures r.wordKey != k0 {
        assert Less(k0, r.wordKey);
      }
    }
    forall i | 0 <= i < |g| ensures Elements(g[i].words) == WordsOf(head + tail, g[i].key) {
      if i > 0 {
        assert g[i] == rest[i - 1];
        assert restKeys[i - 1] in restKeys;
      }
    }
  }


  // ---------------------------------------------------------------------------
  // One lane

  function Written<T>(o: Option<T>): seq<T> {
    if o.Some? then [o.value] else []
  }

  /** What the reducer writes for a sequence of groups, in order. */
  ghost function Outputs(g: seq<KeyGroup>): seq<AdvOutput>
    decreases |g|
  {
    if g == [] then [] else Written(ReduceSet(Elements(g[0].words))) + Outputs(g[1..])
  }

  /** What the reducer writes for the keys `ks` of the records `e`, in order. */
  ghost function KeyOutputs(ks: seq<string>, e: set<Record>): seq<AdvOutput>
    decreases |ks|
  {
    if ks == [] then [] else Written(ReduceSet(WordsOf(e, ks[0]))) + KeyOutputs(ks[1..], e)
  }

  /** What one reduce task writes: its records sorted, grouped and reduced. */
  ghost function LaneOutput(lane: seq<Record>): seq<AdvOutput> {
    Outputs(Group(SortBy(lane, RecLe)))
  }

  lemma {:induction false} OutputsByKey(g: seq<KeyGroup>, e: set<Record>)
    requires forall i :: 0 <= i < |g| ==> Elements(g[i].words) == WordsOf(e, g[i].key)
    ensures Outputs(g) == KeyOutputs(GroupKeys(g), e)
    decreases |g|
  {
    if g != [] {
      OutputsByKey(g[1..], e);
      assert GroupKeys(g)[1..] == GroupKeys(g[1..]);
    }
  }

  /** A lane writes, for each of its keys in ascending order, what the reducer
      writes for the distinct words of that key. */
  lemma LaneOutputByKey(lane: seq<Record>)
    ensures LaneOutput(lane) == KeyOutputs(Ascending(KeysOf(Elements(lane))), Elements(lane))
  {
    var s := SortBy(lane, RecLe);
    RecLeTotalOrder();
    SortBySorted(lane, RecLe);
    assert Elements(s) == Elements(lane) by {
      forall r ensures r in s <==> r in lane {
        assert r in s <==> r in multiset(s);
      }
    }
    GroupsOfSorted(s);
    OutputsByKey(Group(s), Elements(s));
    AscendingUnique(GroupKeys(Group(s)), KeysOf(Elements(s)));
  }

  /** What a lane writes depends only on the set of its records: neither their
      order nor repetitions matter. */
  lemma LaneOutputSetOnly(a: seq<Record>, b: seq<Record>)
    requires Elements(a) == Elements(b)
    ensures LaneOutput(a) == LaneOutput(b)
  {
    LaneOutputByKey(a);
    LaneOutputByKey(b);
  }

  lemma {:induction false} KeyOutputsMembership(ks: seq<string>, e: set<Record>, o: AdvOutput)
    ensures o in KeyOutputs(ks, e) <==> exists k :: k in ks && ReduceSet(WordsOf(e, k)) == Some(o)
    decreases |ks|
  {
    if ks != [] {
      KeyOutputsMembership(ks[1..], e, o);
      assert forall k :: k in ks <==> k == ks[0] || k in ks[1..];
    }
  }

  // ---------------------------------------------------------------------------
  // The whole job

  /** What each of the `n` reduce tasks writes. */
  ghost function JobOutput(records: seq<Record>, n: int): (r: seq<seq<AdvOutput>>)
    requires n > 0
    ensures |r| == n
  {
    seq(n, i requires 0 <= i < n => LaneOutput(Lane(records, n, i)))
  }

  /** What the combiner writes for a sequence of groups: `Combine` once per
      group, one group after the other. */
  function CombineGroups(g: seq<KeyGroup>): seq<Record>
    decreases |g|
  {
    if g == [] then [] else Pairs(g[0].key, Dedup(g[0].words)) + CombineGroups(g[1..])
  }

  /** The same, with the combiner run once per key on each task's sorted
      records before they are sorted and grouped again for the reducer. */
  ghost function JobOutputCombined(records: seq<Record>, n: int): (r: seq<seq<AdvOutput>>)
    requires n > 0
    ensures |r| == n
  {
    seq(n, i requires 0 <= i < n => LaneOutput(CombineGroups(Group(SortBy(Lane(records, n, i), RecLe)))))
  }

  /** Every line the job writes, whichever task writes it. */
  ghost function JobLines(records: seq<Record>, n: int): set<AdvOutput>
    requires n > 0
  {
    set i, o | 0 <= i < n && o in JobOutput(records, n)[i] :: o
  }

  /** The combiner changes nothing the job writes. */
  lemma CombinerChangesNothing(records: seq<Record>, n: int)
    requires n > 0
    ensures JobOutputCombined(records, n) == JobOutput(records, n)
  {
    forall i | 0 <= i < n
      ensures JobOutputCombined(records, n)[i] == JobOutput(records, n)[i]
    {
      var l := Lane(records, n, i);
      var t := SortBy(l, RecLe);
      SortedElements(l);
      CombineGroupsKeepsRecords(t);
      LaneOutputSetOnly(CombineGroups(Group(t)), l);
    }
  }

  /** Sorting a lane keeps its set of records. */
  lemma SortedElements(l: seq<Record>)
    ensures Elements(SortBy(l, RecLe)) == Elements(l)
  {
    var t := SortBy(l, RecLe);
    SortByPermutes(l, RecLe);
    forall r ensures r in t <==> r in l {
      assert r in t <==> r in multiset(t);
    }
  }

  /** Running the combiner on every group of a stream keeps its set of
      records: it only drops repeated words of a key. */
  lemma {:induction false} CombineGroupsKeepsRecords(s: seq<Record>)
    ensures Elements(CombineGroups(Group(s))) == Elements(s)
    decreases |s|
  {
    if s != [] {
      var n := RunLength(s);
      var head := Pairs(s[0].wordKey, Dedup(WordsIn(s[..n])));
      var rest := CombineGroups(Group(s[n..]));
      CombineGroupsStep(s);
      assert Elements(rest) == Elements(s[n..]) by {
        CombineGroupsKeepsRecords(s[n..]);
      }
      assert Elements(head) == Elements(s[..n]) by {
        RunRecords(s);
      }
      ElementsAppend(head, rest);
      ElementsSplit(s, n);
    }
  }

  lemma CombineGroupsStep(s: seq<Record>)
    requires s != []
    ensures CombineGroups(Group(s)) ==
      Pairs(s[0].wordKey, Dedup(WordsIn(s[..RunLength(s)]))) + CombineGroups(Group(s[RunLength(s)..]))
  {
    var n := RunLength(s);
    assert Group(s) == [KeyGroup(s[0].wordKey, WordsIn(s[..n]))] + Group(s[n..]);
    assert Group(s)[1..] == Group(s[n..]);
  }

  /** The combiner's records for the run at the head of `s` are the run's records. */
  lemma RunRecords(s: seq<Record>)
    requires s != []
    ensures Elements(Pairs(s[0].wordKey, Dedup(WordsIn(s[..RunLength(s)])))) == Elements(s[..RunLength(s)])
  {
    var n := RunLength(s);
    var k, ws := s[0].wordKey, WordsIn(s[..n]);
    forall r ensures r in Pairs(k, Dedup(ws)) <==> r in s[..n] {
      if r in Pairs(k, Dedup(ws)) {
        var i :| 0 <= i < |Dedup(ws)| && Pairs(k, Dedup(ws))[i] == r;
        assert Dedup(ws)[i] in ws;
        var j :| 0 <= j < |ws| && ws[j] == Dedup(ws)[i];
        assert s[..n][j] == r;
      }
      if r in s[..n] {
        var j :| 0 <= j < n && s[..n][j] == r;
        assert ws[j] in Dedup(ws);
        var i :| 0 <= i < |Dedup(ws)| && Dedup(ws)[i] == ws[j];
        assert Pairs(k, Dedup(ws))[i] == r;
      }
    }
  }

  lemma ElementsSplit<T>(s: seq<T>, n: nat)
    requires n <= |s|
    ensures Elements(s) == Elements(s[..n]) + Elements(s[n..])
  {
    forall x ensures x in Elements(s) <==> x in Elements(s[..n]) || x in Elements(s[n..]) {
      if x in Elements(s) {
        var j :| 0 <= j < |s| && s[j] == x;
        if j < n { assert s[..n][j] == x; } else { assert s[n..][j - n] == x; }
      }
    }
  }

  lemma ElementsAppend<T>(a: seq<T>, b: seq<T>)
    ensures Elements(a + b) == Elements(a) + Elements(b)
  {
  }

  /** The keys of `e` the partitioner routes to lane `i` of `n`. */
  function LaneKeys(e: set<Record>, n: int, i: int): set<string>
    requires n > 0
  {
    set k | k in KeysOf(e) && LaneOf(k, n) == i
  }

  /** Lane `i` writes, in ascending key order, the reducer's output for every
      key the partitioner routes to `i`, computed from all of that key's words. */
  lemma LaneOutputIsItsKeys(records: seq<Record>, n: int, i: int)
    requires n > 0 && 0 <= i < n
    ensures JobOutput(records, n)[i] ==
      KeyOutputs(Ascending(LaneKeys(Elements(records), n, i)), Elements(records))
  {
    var l := Lane(records, n, i);
    assert JobOutput(records, n)[i] == LaneOutput(l);
    LaneOutputByKey(l);
    LaneKeysOfLane(records, n, i);
    var ks := Ascending(LaneKeys(Elements(records), n, i));
    AscendingSpec(LaneKeys(Elements(records), n, i));
    KeyOutputsAgree(ks, Elements(l), Elements(records), n, i, records);
  }

  /** The keys present in lane `i` are the keys the partitioner routes there. */
  lemma LaneKeysOfLane(records: seq<Record>, n: int, i: int)
    requires n > 0
    ensures KeysOf(Elements(Lane(records, n, i))) == LaneKeys(Elements(records), n, i)
  {
    forall k ensures k in KeysOf(Elements(Lane(records, n, i))) <==> k in LaneKeys(Elements(records), n, i) {
      LaneWords(records, n, i, k);
    }
  }

  lemma {:induction false} KeyOutputsAgree(ks: seq<string>, el: set<Record>, e: set<Record>,
                                           n: int, i: int, records: seq<Record>)
    requires n > 0
    requires el == Elements(Lane(records, n, i)) && e == Elements(records)
    requires forall k :: k in ks ==> LaneOf(k, n) == i
    ensures KeyOutputs(ks, el) == KeyOutputs(ks, e)
    decreases |ks|
  {
    if ks != [] {
      LaneWords(records, n, i, ks[0]);
      KeyOutputsAgree(ks[1..], el, e, n, i, records);
    }
  }

  /** A line is written exactly when it is the reducer's output for some key of
      the map output, whatever the number of reduce tasks. */
  lemma JobLinesByKey(records: seq<Record>, n: int, o: AdvOutput)
    requires n > 0
    ensures o in JobLines(records, n) <==>
      exists k :: k in KeysOf(Elements(records)) && ReduceSet(WordsOf(Elements(records), k)) == Some(o)
  {
    var e := Elements(records);
    if o in JobLines(records, n) {
      var i :| 0 <= i < n && o in JobOutput(records, n)[i];
      LineComesFromKey(records, n, i, o);
    }
    if exists k :: k in KeysOf(e) && ReduceSet(WordsOf(e, k)) == Some(o) {
      var k :| k in KeysOf(e) && ReduceSet(WordsOf(e, k)) == Some(o);
      KeyLineIsWritten(records, n, k, o);
    }
  }

  /** A line written by lane `i` is the reducer's output for a key of the map output. */
  lemma LineComesFromKey(records: seq<Record>, n: int, i: int, o: AdvOutput)
    requires n > 0 && 0 <= i < n
    requires o in JobOutput(records, n)[i]
    ensures exists k :: k in KeysOf(Elements(records)) && ReduceSet(WordsOf(Elements(records), k)) == Some(o)
  {
    var e := Elements(records);
    var ks := LaneKeys(e, n, i);
    LaneOutputIsItsKeys(records, n, i);
    KeyOutputsMembership(Ascending(ks), e, o);
    AscendingSpec(ks);
    var k :| k in Ascending(ks) && ReduceSet(WordsOf(e, k)) == Some(o);
    assert k in KeysOf(e);
  }

  /** The reducer's output for a key of the map output is written by the
      key's lane. */
  lemma KeyLineIsWritten(records: seq<Record>, n: int, k: string, o: AdvOutput)
    requires n > 0
    requires k in KeysOf(Elements(records)) && ReduceSet(WordsOf(Elements(records), k)) == Some(o)
    ensures o in JobOutput(records, n)[LaneOf(k, n)]
  {
    var e := Elements(records);
    var i := LaneOf(k, n);
    var ks := LaneKeys(e, n, i);
    LaneOutputIsItsKeys(records, n, i);
    AscendingSpec(ks);
    assert k in Ascending(ks);
    KeyOutputsMembership(Ascending(ks), e, o);
  }

  /** The lines written do not depend on the number of reduce tasks. */
  lemma LaneCountChangesNothing(records: seq<Record>, n1: int, n2: int)
    requires n1 > 0 && n2 > 0
    ensures JobLines(records, n1) == JobLines(records, n2)
  {
    forall o ensures o in JobLines(records, n1) <==> o in JobLines(records, n2) {
      JobLinesByKey(records, n1, o);
      JobLinesByKey(records, n2, o);
    }
  }

  // ---------------------------------------------------------------------------
  // From tokens

  /** The distinct anagram class of the key `k` among the qualifying tokens. */
  function AnagramClass(tokens: seq<string>, isStop: string -> bool, k: string): set<string> {
    set t | t in tokens && Qualifies(t, isStop) && Key(Clean(t)) == k :: Clean(t)
  }

  /** The words the map output carries for a key are the key's anagram class. */
  lemma MappedWords(tokens: seq<string>, isStop: string -> bool, k: string)
    ensures WordsOf(Elements(MapOutput(tokens, isStop)), k) == AnagramClass(tokens, isStop, k)
    ensures k in KeysOf(Elements(MapOutput(tokens, isStop))) <==>
      exists t :: t in tokens && Qualifies(t, isStop) && Key(Clean(t)) == k
  {
    MappedWordsOfKey(tokens, isStop, k);
    MappedKeys(tokens, isStop, k);
  }

  lemma MappedWordsOfKey(tokens: seq<string>, isStop: string -> bool, k: string)
    ensures WordsOf(Elements(MapOutput(tokens, isStop)), k) == AnagramClass(tokens, isStop, k)
  {
    MapOutputSound(tokens, isStop);
    var m := MapOutput(tokens, isStop);
    forall w | w in AnagramClass(tokens, isStop, k) ensures w in WordsOf(Elements(m), k) {
      var t :| t in tokens && Qualifies(t, isStop) && Key(Clean(t)) == k && Clean(t) == w;
      assert Record(Key(Clean(t)), Clean(t)) in m;
    }
  }

  lemma MappedKeys(tokens: seq<string>, isStop: string -> bool, k: string)
    ensures k in KeysOf(Elements(MapOutput(tokens, isStop))) <==>
      exists t :: t in tokens && Qualifies(t, isStop) && Key(Clean(t)) == k
  {
    MapOutputSound(tokens, isStop);
    var m := MapOutput(tokens, isStop);
    if exists t :: t in tokens && Qualifies(t, isStop) && Key(Clean(t)) == k {
      var t :| t in tokens && Qualifies(t, isStop) && Key(Clean(t)) == k;
      assert Record(Key(Clean(t)), Clean(t)) in m;
    }
  }

  /** End to end: the job writes a line exactly when it is the reducer's output
      for the anagram class of some qualifying token. */
  lemma EndToEnd(tokens: seq<string>, isStop: string -> bool, n: int, o: AdvOutput)
    requires n > 0
    ensures o in JobLines(MapOutput(tokens, isStop), n) <==>
      exists t :: t in tokens && Qualifies(t, isStop) &&
        ReduceSet(AnagramClass(tokens, isStop, Key(Clean(t)))) == Some(o)
  {
    var m := MapOutput(tokens, isStop);
    JobLinesByKey(m, n, o);
    if o in JobLines(m, n) {
      var k :| k in KeysOf(Elements(m)) && ReduceSet(WordsOf(Elements(m), k)) == Some(o);
      MappedWords(tokens, isStop, k);
      var t :| t in tokens && Qualifies(t, isStop) && Key(Clean(t)) == k;
    }
    if exists t :: t in tokens && Qualifies(t, isStop) &&
         ReduceSet(AnagramClass(tokens, isStop, Key(Clean(t)))) == Some(o) {
      var t :| t in tokens && Qualifies(t, isStop) &&
        ReduceSet(AnagramClass(tokens, isStop, Key(Clean(t)))) == Some(o);
      MappedWords(tokens, isStop, Key(Clean(t)));
    }
  }

  /** An anagram class holds exactly the cleaned qualifying tokens that are
      letter-permutations of one another. */
  lemma AnagramClassIsAnagrams(tokens: seq<string>, isStop: string -> bool, t: string, w: string)
    requires t in tokens && Qualifies(t, isStop)
    ensures w in AnagramClass(tokens, isStop, Key(Clean(t))) <==>
      exists u :: u in tokens && Qualifies(u, isStop) && Clean(u) == w &&
        multiset(w) == multiset(Clean(t))
  {
    forall u | u in tokens && Qualifies(u, isStop) {
      KeyIffAnagram(Clean(u), Clean(t));
    }
  }

  // ---------------------------------------------------------------------------
  // Short words

  /** Among well-formed records every word of a key is as long as the key. */
  lemma WordsAsLongAsKey(e: set<Record>, k: string)
    requires forall r :: r in e ==> WellFormed(r)
    ensures forall w :: w in WordsOf(e, k) ==> |w| == |k|
  {
    forall w | w in WordsOf(e, k) ensures |w| == |k| {
      var r :| r in e && r.wordKey == k && r.word == w;
      KeyIsSortedPermutation(w);
      assert |multiset(w)| == |multiset(k)|;
    }
  }

  /** A key shorter than two letters carries at most one word among well-formed
      records, so the reducer writes nothing for it: the one-letter and empty
      words the mapper can emit never reach the output. */
  lemma ShortKeyNotWritten(e: set<Record>, k: string)
    requires forall r :: r in e ==> WellFormed(r)
    requires |k| < 2
    ensures ReduceSet(WordsOf(e, k)) == None
  {
    WordsAsLongAsKey(e, k);
    forall w | w in WordsOf(e, k) ensures w == k {
      var r :| r in e && r.wordKey == k && r.word == w;
      KeyIsSortedPermutation(w);
      if |w| == 1 {
        assert w[0] in multiset(k);
        assert w == [w[0]] && k == [k[0]];
      }
    }
    if WordsOf(e, k) != {} {
      assert WordsOf(e, k) == {k};
    }
  }

  /** The records the mapper writes are well formed. */
  lemma MapOutputWellFormed(tokens: seq<string>, isStop: string -> bool)
    ensures forall r :: r in Elements(MapOutput(tokens, isStop)) ==> WellFormed(r)
  {
    MapOutputSound(tokens, isStop);
  }

  /** Every word on a line the job writes has at least two letters. */
  lemma WrittenWordsAreLong(tokens: seq<string>, isStop: string -> bool, n: int, o: AdvOutput)
    requires n > 0
    requires o in JobLines(MapOutput(tokens, isStop), n)
    ensures exists k :: (|k| >= 2 && k in KeysOf(Elements(MapOutput(tokens, isStop))) &&
      ReduceSet(WordsOf(Elements(MapOutput(tokens, isStop)), k)) == Some(o) &&
      forall w :: w in WordsOf(Elements(MapOutput(tokens, isStop)), k) ==> |w| >= 2)
  {
    MapOutputWellFormed(tokens, isStop);
    WrittenKeyIsLong(MapOutput(tokens, isStop), n, o);
  }

  /** A line the job writes for well-formed records comes from a key of at
      least two letters, all of whose words have at least two letters. */
  lemma WrittenKeyIsLong(records: seq<Record>, n: int, o: AdvOutput)
    requires n > 0
    requires forall r :: r in Elements(records) ==> WellFormed(r)
    requires o in JobLines(records, n)
    ensures exists k :: (|k| >= 2 && k in KeysOf(Elements(records)) &&
      ReduceSet(WordsOf(Elements(records), k)) == Some(o) &&
      forall w :: w in WordsOf(Elements(records), k) ==> |w| >= 2)
  {
    var e := Elements(records);
    JobLinesByKey(records, n, o);
    var k :| k in KeysOf(e) && ReduceSet(WordsOf(e, k)) == Some(o);
    if |k| < 2 {
      ShortKeyNotWritten(e, k);
    }
    WordsAsLongAsKey(e, k);
    assert |k| >= 2 && k in KeysOf(e) && ReduceSet(WordsOf(e, k)) == Some(o) &&
      forall w :: w in WordsOf(e, k) ==> |w| >= 2;
  }
}
