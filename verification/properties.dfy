/** Properties of the resolver, each stated for all queries. */
module ResolverProperties {
  import opened MorseTable
  import opened Ranking
  import opened Resolver

  /** Every letter's own code resolves to exactly that letter. */
  lemma ExactMatch(i: nat)
    requires i < |Table|
    ensures Possibilities(Table[i].code) == [Table[i].letter]
  {
    CodesDistinct();
    assert Lookup(Table, Table[i].code) == Some(Table[i]);
  }

  /** No dictionary code is empty or contains a wildcard: a query that is
      empty or holds `?` anywhere is no letter's code. */
  lemma WildcardsNeverExact(q: string)
    requires |q| == 0 || exists p :: 0 <= p < |q| && q[p] == UnknownSignal
    ensures !IsExactCode(q)
  {
    CodesWellFormed();
    forall e | e in Table
      ensures e.code != q
    {
      var i := IndexIn(Table, e);
      assert WellFormedCode(e.code);
      if |q| > 0 {
        var p :| 0 <= p < |q| && q[p] == UnknownSignal;
        if p < |e.code| {
          assert IsSignal(e.code[p]);
        }
      }
    }
  }

  /** A query made only of wildcards (the empty query included) resolves to
      the letters whose code has the query's length. */
  lemma PureWildcard(q: string)
    requires forall p :: 0 <= p < |q| ==> q[p] == UnknownSignal
    ensures forall l :: l in Possibilities(q) <==>
              exists e :: e in Table && e.letter == l && |e.code| == |q|
  {
    if |q| > 0 {
      assert q[0] == UnknownSignal;
    }
    WildcardsNeverExact(q);
  }

  /** Every letter returned, on any branch, has a code that carries each
      known symbol of the query at the same index. */
  lemma PositionalSoundness(q: string, l: string)
    requires l in Possibilities(q)
    ensures exists e :: e in Table && e.letter == l && SignalsInPlace(q, e.code)
  {
    var e :| e in Table && e.letter == l && Selected(q, e);
    SelectedInPlace(q, e);
  }

  /** Whatever branch admits it, an admitted entry holds the query's known
      symbols in place. */
  lemma SelectedInPlace(q: string, e: Entry)
    ensures Selected(q, e) ==> SignalsInPlace(q, e.code)
  {
    if Selected(q, e) && IsExactCode(q) {
      assert e.code == q;
    }
  }

  /** A letter whose code is too short to hold some known position of the
      query is never returned. */
  lemma TooShortRejected(q: string, e: Entry, p: nat)
    requires e in Table
    requires p < |q| && IsKnown(q[p]) && |e.code| <= p
    ensures e.letter !in Possibilities(q)
  {
    assert !SignalsInPlace(q, e.code);
    forall x | x in Table && x.letter == e.letter
      ensures !Selected(q, x)
    {
      LetterDeterminesEntry(x, e);
      SelectedInPlace(q, x);
    }
  }

  /** Distinct dictionary entries have distinct letters. */
  lemma LetterDeterminesEntry(x: Entry, y: Entry)
    requires x in Table && y in Table && x.letter == y.letter
    ensures x == y
  {
    LettersDistinct();
    var i := IndexIn(Table, x);
    var j := IndexIn(Table, y);
  }

  /** Unless the query has length 3, every letter returned has a code of
      exactly the query's length. */
  lemma LengthMatchesQuery(q: string, l: string)
    requires |q| != MaxSignalsLength
    requires l in Possibilities(q)
    ensures exists e :: e in Table && e.letter == l && |e.code| == |q|
  {
    var e :| e in Table && e.letter == l && Selected(q, e);
    SelectedLength(q, e);
  }

  /** Outside length 3, an admitted entry has the query's length. */
  lemma SelectedLength(q: string, e: Entry)
    ensures |q| != MaxSignalsLength && Selected(q, e) ==> |e.code| == |q|
  {
    if Selected(q, e) && IsExactCode(q) {
      assert e.code == q;
    }
  }

  /** A query of length 3 with a known symbol that is not itself a code
      returns every letter whose code holds its known symbols in place,
      whatever that code's length. */
  lemma LengthThreeIgnoresLength(q: string, e: Entry)
    requires |q| == MaxSignalsLength && HasKnownSignal(q) && !IsExactCode(q)
    requires e in Table && SignalsInPlace(q, e.code)
    ensures e.letter in Possibilities(q)
  {
    assert Selected(q, e);
  }

  /** The result is empty exactly when the query admits no entry. */
  lemma EmptyExactlyWhenNothingSelected(q: string)
    ensures Possibilities(q) == [] <==> forall e :: e in Table ==> !Selected(q, e)
  {
    if Possibilities(q) != [] {
      assert Possibilities(q)[0] in Possibilities(q);
    }
    if exists e :: e in Table && Selected(q, e) {
      var e :| e in Table && Selected(q, e);
      assert Admits(q, e.letter);
    }
  }

  /** `Possibilities` is the only strictly ranked listing of the admitted
      letters: any sequence that lists exactly those letters from the most
      to the least likely is its result. */
  lemma PossibilitiesIsUnique(q: string, r: seq<string>)
    requires forall l :: l in r <==> Admits(q, l)
    requires Ranked(r)
    ensures r == Possibilities(q)
  {
    RankedUnique(r, Possibilities(q));
  }

  /** The source collects candidates by iterating its map, whose order is
      unspecified.  Whatever order the dictionary is visited in, and whatever
      the filter, the ranked letters come out the same. */
  lemma IterationOrderIrrelevant(t: seq<Entry>, keep: Entry -> bool)
    requires multiset(t) == multiset(Table)
    ensures OrderedPossibilities(Filter(t, keep)) == OrderedPossibilities(Filter(Table, keep))
  {
    TableIsValid();
    FilterOrderIrrelevant(Table, t, keep);
  }
}
