/** Which dictionary entries a handful of concrete queries admit, and the
    bridge from such a selection to the ranked result. */
module QuerySelections {
  import opened MorseTable
  import opened Ranking
  import opened Resolver
  import opened ResolverProperties

  /** The query admits exactly the dictionary entries at the indices `ids`,
      listed in increasing index order. */
  predicate SelectsExactly(q: string, ids: seq<int>) {
    && (forall k :: 0 <= k < |ids| ==> 0 <= ids[k] < |Table|)
    && (forall j, k :: 0 <= j < k < |ids| ==> ids[j] < ids[k])
    && (forall i :: 0 <= i < |Table| ==> (Selected(q, Table[i]) <==> i in ids))
  }

  /** The letters of the entries at `ids`, in the order of `ids`. */
  function LettersAt(ids: seq<int>): seq<string>
    requires forall k :: 0 <= k < |ids| ==> 0 <= ids[k] < |Table|
  {
    seq(|ids|, k requires 0 <= k < |ids| => Table[ids[k]].letter)
  }

  /** A query that admits exactly the entries at `ids` resolves to their
      letters in index order, which is the order of decreasing weight. */
  lemma ResolvesToIndices(q: string, ids: seq<int>)
    requires SelectsExactly(q, ids)
    ensures Possibilities(q) == LettersAt(ids)
  {
    IndexOrderIsRank(ids);
    LettersAtAdmitted(q, ids);
    PossibilitiesIsUnique(q, LettersAt(ids));
  }

  /** Letters listed in increasing index order are strictly ranked. */
  lemma IndexOrderIsRank(ids: seq<int>)
    requires forall k :: 0 <= k < |ids| ==> 0 <= ids[k] < |Table|
    requires forall j, k :: 0 <= j < k < |ids| ==> ids[j] < ids[k]
    ensures Ranked(LettersAt(ids))
  {
    var r := LettersAt(ids);
    WeightsByIndex();
    forall j, k | 0 <= j < k < |r|
      ensures WeightOf(r[j]) > WeightOf(r[k])
    {
      WeightOfEntry(Table[ids[j]]);
      WeightOfEntry(Table[ids[k]]);
    }
  }

  lemma LettersAtAdmitted(q: string, ids: seq<int>)
    requires SelectsExactly(q, ids)
    ensures forall l :: l in LettersAt(ids) <==> Admits(q, l)
  {
    forall l | l in LettersAt(ids)
      ensures Admits(q, l)
    {
      ListedIsAdmitted(q, ids, l);
    }
    forall l | Admits(q, l)
      ensures l in LettersAt(ids)
    {
      AdmittedIsListed(q, ids, l);
    }
  }

  lemma ListedIsAdmitted(q: string, ids: seq<int>, l: string)
    requires SelectsExactly(q, ids)
    requires l in LettersAt(ids)
    ensures Admits(q, l)
  {
    var r := LettersAt(ids);
    var k :| 0 <= k < |r| && r[k] == l;
    assert ids[k] in ids;
    assert Table[ids[k]] in Table && Selected(q, Table[ids[k]]);
  }

  lemma AdmittedIsListed(q: string, ids: seq<int>, l: string)
    requires SelectsExactly(q, ids)
    requires Admits(q, l)
    ensures l in LettersAt(ids)
  {
    var e :| e in Table && e.letter == l && Selected(q, e);
    var i := IndexIn(Table, e);
    assert i in ids;
    var k :| 0 <= k < |ids| && ids[k] == i;
    LetterAt(ids, k);
  }

  lemma LetterAt(ids: seq<int>, k: int)
    requires forall k :: 0 <= k < |ids| ==> 0 <= ids[k] < |Table|
    requires 0 <= k < |ids|
    ensures Table[ids[k]].letter in LettersAt(ids)
  {
    assert LettersAt(ids)[k] == Table[ids[k]].letter;
  }

  /** An all-wildcard query admits the codes of its length. */
  lemma AllWildcardSelects(q: string)
    requires forall p :: 0 <= p < |q| ==> q[p] == UnknownSignal
    ensures forall e :: Selected(q, e) <==> |e.code| == |q|
  {
    if |q| > 0 {
      assert q[0] == UnknownSignal;
    }
    WildcardsNeverExact(q);
    assert !HasKnownSignal(q);
  }

  /** A query that is not a code and has a known symbol admits the codes
      that hold its symbols in place and pass the length policy. */
  lemma PartialSelects(q: string)
    requires !IsExactCode(q) && HasKnownSignal(q)
    ensures forall e :: Selected(q, e) <==>
              SignalsInPlace(q, e.code) && (|q| == MaxSignalsLength || |e.code| == |q|)
  {
  }

  /** The bridge used by every concrete resolution: when a query admits
      exactly the entries `keep` accepts, and `keep` accepts exactly the
      entries at the increasing indices `ids`, the query resolves to the
      letters at `ids`. */
  lemma ResolvesBy(q: string, ids: seq<int>, keep: Entry -> bool)
    requires forall e :: Selected(q, e) <==> keep(e)
    requires forall k :: 0 <= k < |ids| ==> 0 <= ids[k] < |Table|
    requires forall j, k :: 0 <= j < k < |ids| ==> ids[j] < ids[k]
    requires forall i :: 0 <= i < |Table| ==> (keep(Table[i]) <==> i in ids)
    ensures Possibilities(q) == LettersAt(ids)
  {
    assert SelectsExactly(q, ids);
    ResolvesToIndices(q, ids);
  }

  // -- Which entries each query admits ------------------------------------

  lemma DotWildcardInPlace(q: string, code: string)
    requires |q| == 2 && q[0] == Dot && q[1] == UnknownSignal
    ensures SignalsInPlace(q, code) <==> 1 <= |code| && code[0] == Dot
  {
    if SignalsInPlace(q, code) {
      assert IsKnown(q[0]);
    }
    if 1 <= |code| && code[0] == Dot {
      forall p | 0 <= p < |q| && IsKnown(q[p])
        ensures p < |code| && code[p] == q[p]
      {
      }
    }
  }

  /** `".?"` admits the two-signal codes that start with a dot. */
  lemma DotWildcardSelects(q: string)
    requires |q| == 2 && q[0] == Dot && q[1] == UnknownSignal
    ensures forall e :: Selected(q, e) <==> |e.code| == 2 && e.code[0] == Dot
  {
    assert q[1] == UnknownSignal;
    WildcardsNeverExact(q);
    assert IsKnown(q[0]);
    PartialSelects(q);
    forall e: Entry
      ensures SignalsInPlace(q, e.code) <==> 1 <= |e.code| && e.code[0] == Dot
    {
      DotWildcardInPlace(q, e.code);
    }
  }

  lemma WildcardDotInPlace(q: string, code: string)
    requires |q| == 2 && q[0] == UnknownSignal && q[1] == Dot
    ensures SignalsInPlace(q, code) <==> 2 <= |code| && code[1] == Dot
  {
    if SignalsInPlace(q, code) {
      assert IsKnown(q[1]);
    }
    if 2 <= |code| && code[1] == Dot {
      forall p | 0 <= p < |q| && IsKnown(q[p])
        ensures p < |code| && code[p] == q[p]
      {
      }
    }
  }

  /** `"?."` admits the two-signal codes that end with a dot. */
  lemma WildcardDotSelects(q: string)
    requires |q| == 2 && q[0] == UnknownSignal && q[1] == Dot
    ensures forall e :: Selected(q, e) <==> |e.code| == 2 && e.code[1] == Dot
  {
    assert q[0] == UnknownSignal;
    WildcardsNeverExact(q);
    assert IsKnown(q[1]);
    PartialSelects(q);
    forall e: Entry
      ensures SignalsInPlace(q, e.code) <==> 2 <= |e.code| && e.code[1] == Dot
    {
      WildcardDotInPlace(q, e.code);
    }
  }

  /** The code starts with two dots. */
  predicate StartsDotDot(code: string) {
    2 <= |code| && code[0] == Dot && code[1] == Dot
  }

  lemma DotDotInPlace(q: string, code: string)
    requires |q| == 3 && q[0] == Dot && q[1] == Dot && q[2] == UnknownSignal
    ensures SignalsInPlace(q, code) <==> StartsDotDot(code)
  {
    if SignalsInPlace(q, code) {
      assert IsKnown(q[0]) && IsKnown(q[1]);
    }
    if StartsDotDot(code) {
      forall p | 0 <= p < |q| && IsKnown(q[p])
        ensures p < |code| && code[p] == q[p]
      {
      }
    }
  }

  /** `"..?"` has length 3, so it admits every code starting with two dots,
      whatever its length. */
  lemma DotDotWildcardSelects(q: string)
    requires |q| == 3 && q[0] == Dot && q[1] == Dot && q[2] == UnknownSignal
    ensures forall e :: Selected(q, e) <==> StartsDotDot(e.code)
  {
    assert q[2] == UnknownSignal;
    WildcardsNeverExact(q);
    assert IsKnown(q[0]);
    PartialSelects(q);
    forall e: Entry
      ensures SignalsInPlace(q, e.code) <==> StartsDotDot(e.code)
    {
      DotDotInPlace(q, e.code);
    }
  }

  // -- Where those entries sit in the dictionary --------------------------

  lemma LengthOneIndices(ids: seq<int>, keep: Entry -> bool)
    requires ids == [0, 1]
    requires forall e :: keep(e) <==> |e.code| == 1
    ensures forall i :: 0 <= i < |Table| ==> (keep(Table[i]) <==> i in ids)
  {
  }

  lemma LengthOneLetters(ids: seq<int>)
    requires ids == [0, 1]
    ensures forall k :: 0 <= k < |ids| ==> 0 <= ids[k] < |Table|
    ensures forall j, k :: 0 <= j < k < |ids| ==> ids[j] < ids[k]
    ensures LettersAt(ids) == ["E", "T"]
  {
  }

  lemma NoIndices(ids: seq<int>, keep: Entry -> bool)
    requires ids == []
    requires forall e :: keep(e) <==> |e.code| == 0
    ensures forall i :: 0 <= i < |Table| ==> (keep(Table[i]) <==> i in ids)
  {
    CodesWellFormed();
  }

  lemma LengthFourIndices(ids: seq<int>, keep: Entry -> bool)
    requires ids == [14, 15, 16, 17, 18, 19, 20, 21, 22, 23, 24, 25]
    requires forall e :: keep(e) <==> |e.code| == 4
    ensures forall i :: 0 <= i < |Table| ==> (keep(Table[i]) <==> i in ids)
  {
  }

  lemma LengthFourLetters(ids: seq<int>)
    requires ids == [14, 15, 16, 17, 18, 19, 20, 21, 22, 23, 24, 25]
    ensures forall k :: 0 <= k < |ids| ==> 0 <= ids[k] < |Table|
    ensures forall j, k :: 0 <= j < k < |ids| ==> ids[j] < ids[k]
    ensures LettersAt(ids) == ["H", "V", "F", "L", "P", "J", "B", "X", "C", "Y", "Z", "Q"]
  {
  }

  lemma DotWildcardIndices(ids: seq<int>, keep: Entry -> bool)
    requires ids == [2, 3]
    requires forall e :: keep(e) <==> |e.code| == 2 && e.code[0] == Dot
    ensures forall i :: 0 <= i < |Table| ==> (keep(Table[i]) <==> i in ids)
  {
  }

  lemma DotWildcardLetters(ids: seq<int>)
    requires ids == [2, 3]
    ensures forall k :: 0 <= k < |ids| ==> 0 <= ids[k] < |Table|
    ensures forall j, k :: 0 <= j < k < |ids| ==> ids[j] < ids[k]
    ensures LettersAt(ids) == ["I", "A"]
  {
  }

  lemma WildcardDotIndices(ids: seq<int>, keep: Entry -> bool)
    requires ids == [2, 4]
    requires forall e :: keep(e) <==> |e.code| == 2 && e.code[1] == Dot
    ensures forall i :: 0 <= i < |Table| ==> (keep(Table[i]) <==> i in ids)
  {
  }

  lemma WildcardDotLetters(ids: seq<int>)
    requires ids == [2, 4]
    ensures forall k :: 0 <= k < |ids| ==> 0 <= ids[k] < |Table|
    ensures forall j, k :: 0 <= j < k < |ids| ==> ids[j] < ids[k]
    ensures LettersAt(ids) == ["I", "N"]
  {
  }

  lemma DotDotShortCodes()
    ensures forall i :: 0 <= i < 14 ==> (StartsDotDot(Table[i].code) <==> i == 2 || i == 6 || i == 7)
  {
  }

  lemma DotDotLongCodes()
    ensures forall i :: 14 <= i < |Table| ==> (StartsDotDot(Table[i].code) <==> i < 17)
  {
  }

  lemma DotDotWildcardIndices(ids: seq<int>, keep: Entry -> bool)
    requires ids == [2, 6, 7, 14, 15, 16]
    requires forall e :: keep(e) <==> StartsDotDot(e.code)
    ensures forall i :: 0 <= i < |Table| ==> (keep(Table[i]) <==> i in ids)
  {
    DotDotShortCodes();
    DotDotLongCodes();
    forall i | 0 <= i < |Table|
      ensures keep(Table[i]) <==> i in ids
    {
      assert keep(Table[i]) <==> StartsDotDot(Table[i].code);
      assert i in ids <==> i == 2 || i == 6 || i == 7 || 14 <= i < 17;
    }
  }

  lemma DotDotWildcardLetters(ids: seq<int>)
    requires ids == [2, 6, 7, 14, 15, 16]
    ensures forall k :: 0 <= k < |ids| ==> 0 <= ids[k] < |Table|
    ensures forall j, k :: 0 <= j < k < |ids| ==> ids[j] < ids[k]
    ensures LettersAt(ids) == ["I", "S", "U", "H", "V", "F"]
  {
  }
}
