/** The two ways the jobs render a list of words as one output string:
    `AnagramFinder` joins them with a separator in between, `AnagramsAdvanced`
    writes every word followed by the separator. Both are built left to right,
    one word at a time, as the reducers' loops build them. */
module TextFormat {

  /** `ws[0] + sep + ws[1] + ... + sep + ws[n-1]`; the empty list gives "". */
  function Join(ws: seq<string>, sep: string): string
    decreases |ws|
  {
    if ws == [] then ""
    else if |ws| == 1 then ws[0]
    else Join(ws[..|ws| - 1], sep) + sep + ws[|ws| - 1]
  }

  /** `ws[0] + sep + ws[1] + sep + ... + ws[n-1] + sep`. */
  function Terminated(ws: seq<string>, sep: string): string
    decreases |ws|
  {
    if ws == [] then "" else Terminated(ws[..|ws| - 1], sep) + ws[|ws| - 1] + sep
  }

  lemma TerminatedAppend(ws: seq<string>, w: string, sep: string)
    ensures Terminated(ws + [w], sep) == Terminated(ws, sep) + w + sep
  {
    assert (ws + [w])[..|ws|] == ws;
  }

  /** Every word followed by the separator is the joined list plus one more
      separator: the two formats differ only in the trailing separator. */
  lemma {:induction false} TerminatedIsJoinPlusSeparator(ws: seq<string>, sep: string)
    requires ws != []
    ensures Terminated(ws, sep) == Join(ws, sep) + sep
    decreases |ws|
  {
    if |ws| > 1 {
      TerminatedIsJoinPlusSeparator(ws[..|ws| - 1], sep);
    } else {
      assert ws[..0] == [];
    }
  }

  /** Splits `s` at every occurrence of `c`, keeping empty pieces. */
  function Split(s: string, c: char): (r: seq<string>)
    ensures |r| >= 1
    decreases |s|
  {
    if s == [] then [""]
    else
      var r := Split(s[..|s| - 1], c);
      if s[|s| - 1] == c then r + [""] else r[..|r| - 1] + [r[|r| - 1] + [s[|s| - 1]]]
  }

  /** Appending text without `c` extends the last piece. */
  lemma {:induction false} SplitAppendPiece(p: string, w: string, c: char)
    requires c !in w
    ensures Split(p + w, c) == Split(p, c)[..|Split(p, c)| - 1] + [Split(p, c)[|Split(p, c)| - 1] + w]
    decreases |w|
  {
    if w == [] {
      var rp := Split(p, c);
      assert p + w == p;
      assert rp[|rp| - 1] + w == rp[|rp| - 1];
      assert rp == rp[..|rp| - 1] + [rp[|rp| - 1]];
    } else {
      var w', x := w[..|w| - 1], w[|w| - 1];
      assert w == w' + [x];
      assert x != c;
      assert (p + w)[..|p + w| - 1] == p + w' && (p + w)[|p + w| - 1] == x;
      SplitAppendPiece(p, w', c);
      var rp := Split(p, c);
      var r' := Split(p + w', c);
      assert r' == rp[..|rp| - 1] + [rp[|rp| - 1] + w'];
      assert Split(p + w, c) == r'[..|r'| - 1] + [r'[|r'| - 1] + [x]];
      assert r'[..|r'| - 1] == rp[..|rp| - 1];
      assert rp[|rp| - 1] + w' + [x] == rp[|rp| - 1] + w;
    }
  }

  lemma SplitAppendSeparator(p: string, c: char)
    ensures Split(p + [c], c) == Split(p, c) + [""]
  {
    assert (p + [c])[..|p|] == p;
  }

  /** Joining words that do not contain `c` with `c` can be undone by splitting at `c`. */
  lemma {:induction false} SplitJoinRoundTrip(ws: seq<string>, c: char)
    requires ws != []
    requires forall i :: 0 <= i < |ws| ==> c !in ws[i]
    ensures Split(Join(ws, [c]), c) == ws
    decreases |ws|
  {
    var last := ws[|ws| - 1];
    assert c !in last;
    if |ws| == 1 {
      SplitSingle(last, c);
      assert ws == [last];
    } else {
      var init := ws[..|ws| - 1];
      forall i | 0 <= i < |init| ensures c !in init[i] {
        assert init[i] == ws[i];
      }
      SplitJoinRoundTrip(init, c);
      SplitJoinStep(init, last, c);
      assert ws == init + [last];
    }
  }

  /** A word without `c` splits into itself. */
  lemma SplitSingle(w: string, c: char)
    requires c !in w
    ensures Split(w, c) == [w]
  {
    SplitAppendPiece([], w, c);
    assert [] + w == w;
    assert Split([], c) == [""];
    assert "" + w == w;
  }

  /** The step of `SplitJoinRoundTrip`: one more word after one more separator. */
  lemma SplitJoinStep(init: seq<string>, last: string, c: char)
    requires init != [] && c !in last
    requires Split(Join(init, [c]), c) == init
    ensures Split(Join(init + [last], [c]), c) == init + [last]
  {
    var ws := init + [last];
    assert ws[..|ws| - 1] == init && ws[|ws| - 1] == last;
    var j := Join(init, [c]);
    assert Join(ws, [c]) == (j + [c]) + last;
    SplitAppendSeparator(j, c);
    SplitAppendPiece(j + [c], last, c);
    var s2 := Split(j + [c], c);
    assert s2 == init + [""];
    assert s2[..|s2| - 1] == init && s2[|s2| - 1] + last == last;
  }
}
