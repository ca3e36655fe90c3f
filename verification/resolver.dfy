/** The resolver: from a query over `.`, `-` and the wildcard `?` to the
    letters it may stand for, most likely first.  The functions follow the
    source's helpers one by one; `Selected` is an independent statement of
    which dictionary entries a query admits, and `Possibilities` is proved to
    return exactly their letters, strictly ranked. */
module Resolver {
  import opened MorseTable
  import opened Ranking

  const UnknownSignal: char := '?'

  /** A query of exactly this length skips the length check. */
  const MaxSignalsLength: int := 3

  predicate IsKnown(c: char) {
    c != UnknownSignal
  }

  // ---------------------------------------------------------------------
  // Reference definition, stated over the query itself

  /** The query is literally some letter's code. */
  predicate IsExactCode(q: string) {
    exists e :: e in Table && e.code == q
  }

  /** Some position of the query is not a wildcard. */
  predicate HasKnownSignal(q: string) {
    exists p :: 0 <= p < |q| && IsKnown(q[p])
  }

  /** Every known symbol of the query sits at the same index of `code`. */
  predicate SignalsInPlace(q: string, code: string) {
    forall p :: 0 <= p < |q| && IsKnown(q[p]) ==> p < |code| && code[p] == q[p]
  }

  /** Whether the query admits entry `e`: an exact code admits only its own
      entry; an all-wildcard query admits the codes of its length; any other
      query admits the codes that agree with it at every known position and,
      unless the query has length 3, have its length. */
  predicate Selected(q: string, e: Entry) {
    if IsExactCode(q) then e.code == q
    else if !HasKnownSignal(q) then |e.code| == |q|
    else SignalsInPlace(q, e.code) && (|q| == 3 || |e.code| == |q|)
  }

  /** The letters a query admits. */
  predicate Admits(q: string, l: string) {
    exists e :: e in Table && e.letter == l && Selected(q, e)
  }

  // ---------------------------------------------------------------------
  // The source's helpers

  /** Known positions among the first `n` symbols of the query. */
  function KnownPrefix(q: string, n: nat): (m: map<nat, char>)
    requires n <= |q|
    ensures forall p: nat :: p in m <==> p < n && IsKnown(q[p])
    ensures forall p :: p in m ==> m[p] == q[p]
  {
    if n == 0 then map[]
    else if IsKnown(q[n - 1]) then KnownPrefix(q, n - 1)[n - 1 := q[n - 1]]
    else KnownPrefix(q, n - 1)
  }

  /** The source's `getKnownSignalsPositions`: the map from each
      non-wildcard position to its symbol, and whether there is any; when
      there is none the map returned is empty. */
  function KnownSignalsPositions(q: string): (r: (map<nat, char>, bool))
    ensures r.1 <==> HasKnownSignal(q)
    ensures forall p: nat :: p in r.0 <==> p < |q| && IsKnown(q[p])
    ensures forall p :: p in r.0 ==> r.0[p] == q[p]
  {
    var known := KnownPrefix(q, |q|);
    if |known| == 0 then
      (map[], false)
    else
      (known, true)
  }

  /** The source's `hasAllSignalsInPlace`: `code` holds every known symbol
      at its position; a position past the end of `code` fails. */
  function HasAllSignalsInPlace(code: string, known: map<nat, char>): bool {
    forall p | p in known :: p < |code| && code[p] == known[p]
  }

  /** The source's `satisfyInputLength`. */
  function SatisfyInputLength(code: string, limitedLength: int): bool {
    limitedLength == MaxSignalsLength || |code| == limitedLength
  }

  /** The entries of `t` that `keep` accepts, in the order of `t`: the
      source's loops that append each accepted entry to `nodes`. */
  function Filter(t: seq<Entry>, keep: Entry -> bool): (r: seq<Entry>)
    ensures forall e :: e in r <==> e in t && keep(e)
    ensures forall e :: multiset(r)[e] == if keep(e) then multiset(t)[e] else 0
    ensures UniqueWeights(t) ==> UniqueWeights(r)
  {
    if |t| == 0 then
      []
    else
      var rest := Filter(t[1..], keep);
      FilterStep(t, keep, rest);
      if keep(t[0]) then [t[0]] + rest else rest
  }

  lemma FilterStep(t: seq<Entry>, keep: Entry -> bool, rest: seq<Entry>)
    requires |t| > 0
    requires forall e :: e in rest <==> e in t[1..] && keep(e)
    requires forall e :: multiset(rest)[e] == if keep(e) then multiset(t[1..])[e] else 0
    requires UniqueWeights(t[1..]) ==> UniqueWeights(rest)
    ensures var r := if keep(t[0]) then [t[0]] + rest else rest;
      && (forall e :: e in r <==> e in t && keep(e))
      && (forall e :: multiset(r)[e] == if keep(e) then multiset(t)[e] else 0)
      && (UniqueWeights(t) ==> UniqueWeights(r))
  {
    assert t == [t[0]] + t[1..];
    FilterCounts(t, keep, rest);
    if keep(t[0]) {
      FilterHeadWeights(t, rest);
    }
  }

  lemma FilterCounts(t: seq<Entry>, keep: Entry -> bool, rest: seq<Entry>)
    requires |t| > 0
    requires forall e :: multiset(rest)[e] == if keep(e) then multiset(t[1..])[e] else 0
    ensures var r := if keep(t[0]) then [t[0]] + rest else rest;
      forall e :: multiset(r)[e] == if keep(e) then multiset(t)[e] else 0
  {
    assert t == [t[0]] + t[1..];
    assert multiset(t) == multiset{t[0]} + multiset(t[1..]);
    assert multiset([t[0]] + rest) == multiset{t[0]} + multiset(rest);
  }

  lemma FilterHeadWeights(t: seq<Entry>, rest: seq<Entry>)
    requires |t| > 0
    requires forall e :: e in rest ==> e in t[1..]
    requires UniqueWeights(t[1..]) ==> UniqueWeights(rest)
    ensures UniqueWeights(t) ==> UniqueWeights([t[0]] + rest)
  {
    if UniqueWeights(t) {
      var r := [t[0]] + rest;
      forall i, j | 0 <= i < j < |r|
        ensures r[i].weight != r[j].weight
      {
        assert r[j] == rest[j - 1] && r[j] in t[1..];
        var k :| 0 <= k < |t[1..]| && t[1..][k] == r[j];
        assert t[k + 1] == r[j];
        if i > 0 {
          assert r[i] == rest[i - 1];
        }
      }
    }
  }

  /** Filtering two orderings of the same entries (with distinct weights)
      and ranking the survivors gives the same letters in the same order. */
  lemma FilterOrderIrrelevant(s: seq<Entry>, t: seq<Entry>, keep: Entry -> bool)
    requires multiset(s) == multiset(t)
    requires UniqueWeights(s)
    ensures OrderedPossibilities(Filter(s, keep)) == OrderedPossibilities(Filter(t, keep))
  {
    PermutationKeepsUniqueWeights(s, t);
    var a := Filter(s, keep);
    var b := Filter(t, keep);
    assert multiset(a) == multiset(b) by {
      forall e
        ensures multiset(a)[e] == multiset(b)[e]
      {
      }
    }
    SortIgnoresInputOrder(a, b);
  }

  /** The letters of the dictionary entries `keep` accepts, most likely
      first: the collect-then-rank pattern both lookup helpers share. */
  function RankedSelection(keep: Entry -> bool): (r: seq<string>)
    ensures forall l :: l in r <==> exists e :: e in Table && e.letter == l && keep(e)
    ensures Ranked(r)
  {
    WeightsUnique();
    OrderedPossibilities(Filter(Table, keep))
  }

  /** The source's `getSignalsPossibilitiesWithInputLength`: the letters of
      every code of the given length, most likely first. */
  function SignalsWithInputLength(inputLength: int): (r: seq<string>)
    ensures forall l :: l in r <==> exists e :: e in Table && e.letter == l && |e.code| == inputLength
    ensures Ranked(r)
  {
    var keep := (e: Entry) => |e.code| == inputLength;
    assert forall e :: keep(e) <==> |e.code| == inputLength;
    RankedSelection(keep)
  }

  /** The source's `getSignalsPossibilitiesFromKnownSignalPosition`: the
      letters of every code that holds the known symbols in place and passes
      the length policy, most likely first. */
  function SignalsFromKnownSignalPositions(known: map<nat, char>, inputLength: int): (r: seq<string>)
    ensures forall l :: l in r <==>
              exists e :: e in Table && e.letter == l &&
                HasAllSignalsInPlace(e.code, known) && SatisfyInputLength(e.code, inputLength)
    ensures Ranked(r)
  {
    RankedSelection((e: Entry) => HasAllSignalsInPlace(e.code, known) && SatisfyInputLength(e.code, inputLength))
  }

  /** The source's `Possibilities`: an exact code resolves to its own
      letter; otherwise an all-wildcard query resolves by length alone and
      any other query by its known positions and the length policy.  The
      result lists exactly the letters the query admits, strictly ranked by
      weight (so without duplicates). */
  function Possibilities(signals: string): (r: seq<string>)
    ensures forall l :: l in r <==> Admits(signals, l)
    ensures Ranked(r)
  {
    match Lookup(Table, signals)
    case Some(e) =>
      ExactBranch(signals, e);
      [e.letter]
    case None =>
      var inputLength := |signals|;
      var (known, hasKnown) := KnownSignalsPositions(signals);
      if !hasKnown then
        WildcardBranch(signals);
        SignalsWithInputLength(inputLength)
      else
        KnownBranch(signals);
        SignalsFromKnownSignalPositions(known, inputLength)
  }

  lemma ExactBranch(q: string, e: Entry)
    requires e in Table && e.code == q
    ensures forall l :: l in [e.letter] <==> Admits(q, l)
  {
    assert Selected(q, e);
    forall l | Admits(q, l)
      ensures l == e.letter
    {
      var x :| x in Table && x.letter == l && Selected(q, x);
      CodeDeterminesEntry(x, e);
    }
  }

  /** Distinct dictionary entries have distinct codes. */
  lemma CodeDeterminesEntry(x: Entry, y: Entry)
    requires x in Table && y in Table && x.code == y.code
    ensures x == y
  {
    CodesDistinct();
    var i := IndexIn(Table, x);
    var j := IndexIn(Table, y);
  }

  lemma WildcardBranch(q: string)
    requires !IsExactCode(q) && !HasKnownSignal(q)
    ensures forall l :: Admits(q, l) <==> exists e :: e in Table && e.letter == l && |e.code| == |q|
  {
  }

  lemma KnownBranch(q: string)
    requires !IsExactCode(q) && HasKnownSignal(q)
    ensures var known := KnownSignalsPositions(q).0;
      forall l :: Admits(q, l) <==>
        exists e :: e in Table && e.letter == l &&
          HasAllSignalsInPlace(e.code, known) && SatisfyInputLength(e.code, |q|)
  {
    forall e | e in Table
      ensures HasAllSignalsInPlace(e.code, KnownSignalsPositions(q).0) <==> SignalsInPlace(q, e.code)
    {
      KnownPositionsAgree(q, e.code);
    }
  }

  /** Checking a code against the map of known positions is the same as
      checking it against the query's non-wildcard symbols. */
  lemma KnownPositionsAgree(q: string, code: string)
    ensures HasAllSignalsInPlace(code, KnownSignalsPositions(q).0) <==> SignalsInPlace(q, code)
  {
    var known := KnownSignalsPositions(q).0;
    if SignalsInPlace(q, code) {
      forall p | p in known
        ensures p < |code| && code[p] == known[p]
      {
      }
    }
    if HasAllSignalsInPlace(code, known) {
      forall p | 0 <= p < |q| && IsKnown(q[p])
        ensures p < |code| && code[p] == q[p]
      {
        assert p in known;
      }
    }
  }
}
