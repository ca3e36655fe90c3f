/** Ranking of the collected dictionary entries: the source sorts them by
    decreasing weight and keeps only their letters.  The source's sort is an
    unstable library sort; here it is an insertion sort whose result is
    proved sorted and a permutation of its input, and proved to be the only
    such arrangement once weights are distinct. */
module Ranking {
  import opened MorseTable

  /** Non-increasing by weight. */
  predicate Descending(s: seq<Entry>) {
    forall i, j :: 0 <= i < j < |s| ==> s[i].weight >= s[j].weight
  }

  /** Strictly decreasing by weight (and so free of duplicates). */
  predicate StrictlyDescending(s: seq<Entry>) {
    forall i, j :: 0 <= i < j < |s| ==> s[i].weight > s[j].weight
  }

  /** Letters listed from the most to the least likely, with no ties. */
  predicate Ranked(r: seq<string>) {
    forall j, k :: 0 <= j < k < |r| ==> WeightOf(r[j]) > WeightOf(r[k])
  }

  /** The letters of a sequence of entries, position by position. */
  function Letters(s: seq<Entry>): (r: seq<string>)
    ensures |r| == |s|
    ensures forall k :: 0 <= k < |s| ==> r[k] == s[k].letter
  {
    if |s| == 0 then [] else [s[0].letter] + Letters(s[1..])
  }

  /** Puts `e` into the descending sequence `s` in front of the first entry
      that does not outweigh it. */
  function Insert(e: Entry, s: seq<Entry>): (r: seq<Entry>)
    requires Descending(s)
    ensures Descending(r)
    ensures multiset(r) == multiset(s) + multiset{e}
    ensures StrictlyDescending(s) && (forall x :: x in s ==> x.weight != e.weight) ==>
              StrictlyDescending(r)
  {
    if |s| == 0 || s[0].weight <= e.weight then
      InsertFront(e, s);
      [e] + s
    else
      var rest := Insert(e, s[1..]);
      assert s == [s[0]] + s[1..];
      InsertBehind(e, s, rest);
      [s[0]] + rest
  }

  /** `e` belongs in front of `s`. */
  lemma InsertFront(e: Entry, s: seq<Entry>)
    requires Descending(s)
    requires |s| == 0 || s[0].weight <= e.weight
    ensures Descending([e] + s)
    ensures StrictlyDescending(s) && (forall x :: x in s ==> x.weight != e.weight) ==>
              StrictlyDescending([e] + s)
  {
    if |s| > 0 {
      HeadIsHeaviest(s);
    }
    PrependKeepsOrder(e, s);
  }

  /** `e` belongs behind the head of `s`, inside `rest`. */
  lemma InsertBehind(e: Entry, s: seq<Entry>, rest: seq<Entry>)
    requires Descending(s) && |s| > 0 && s[0].weight > e.weight
    requires Descending(rest) && multiset(rest) == multiset(s[1..]) + multiset{e}
    requires StrictlyDescending(s[1..]) && (forall x :: x in s[1..] ==> x.weight != e.weight) ==>
               StrictlyDescending(rest)
    ensures Descending([s[0]] + rest)
    ensures StrictlyDescending(s) && (forall x :: x in s ==> x.weight != e.weight) ==>
              StrictlyDescending([s[0]] + rest)
  {
    HeadIsHeaviest(s);
    SameElements(rest, s[1..] + [e]);
    assert forall y :: y in rest ==> y in s[1..] || y == e by {
      forall y | y in rest
        ensures y in s[1..] || y == e
      {
        assert y in s[1..] + [e];
      }
    }
    PrependKeepsOrder(s[0], rest);
  }

  /** The head of a descending sequence weighs at least as much as every
      entry of it, and strictly more than the others when it is strict. */
  lemma HeadIsHeaviest(s: seq<Entry>)
    requires Descending(s) && |s| > 0
    ensures forall y :: y in s ==> y.weight <= s[0].weight
    ensures StrictlyDescending(s) ==> forall y :: y in s[1..] ==> y.weight < s[0].weight
  {
    if StrictlyDescending(s) {
      forall y | y in s[1..]
        ensures y.weight < s[0].weight
      {
        var j :| 0 <= j < |s[1..]| && s[1..][j] == y;
        assert s[j + 1] == y;
      }
    }
  }

  /** Sequences with the same multiset of elements have the same elements. */
  lemma SameElements(a: seq<Entry>, b: seq<Entry>)
    requires multiset(a) == multiset(b)
    ensures forall x :: x in a <==> x in b
  {
    forall x
      ensures x in a <==> x in b
    {
      assert x in a <==> x in multiset(a);
      assert x in b <==> x in multiset(b);
    }
  }

  /** An entry at least as heavy as everything in a descending sequence may
      be put in front of it, and strict order survives a strictly heavier one. */
  lemma PrependKeepsOrder(x: Entry, rest: seq<Entry>)
    requires Descending(rest)
    requires forall y :: y in rest ==> y.weight <= x.weight
    ensures Descending([x] + rest)
    ensures StrictlyDescending(rest) && (forall y :: y in rest ==> y.weight < x.weight) ==>
              StrictlyDescending([x] + rest)
  {
    var r := [x] + rest;
    forall i, j | 0 <= i < j < |r|
      ensures r[i].weight >= r[j].weight
    {
      assert r[j] == rest[j - 1];
      if i > 0 {
        assert r[i] == rest[i - 1];
      }
    }
    if StrictlyDescending(rest) && (forall y :: y in rest ==> y.weight < x.weight) {
      forall i, j | 0 <= i < j < |r|
        ensures r[i].weight > r[j].weight
      {
        assert r[j] == rest[j - 1];
        if i > 0 {
          assert r[i] == rest[i - 1];
        }
      }
    }
  }

  /** Inserting an entry adds exactly its letter to the letters. */
  lemma {:induction false} InsertLetters(e: Entry, s: seq<Entry>)
    requires Descending(s)
    ensures multiset(Letters(Insert(e, s))) == multiset(Letters(s)) + multiset{e.letter}
    decreases |s|
  {
    if |s| == 0 || s[0].weight <= e.weight {
      assert Insert(e, s) == [e] + s;
      LettersCons(e, s);
    } else {
      DescendingTail(s);
      var rest := Insert(e, s[1..]);
      assert Insert(e, s) == [s[0]] + rest;
      InsertLetters(e, s[1..]);
      LettersCons(s[0], rest);
      LettersCons(s[0], s[1..]);
      DropHead(s);
    }
  }

  lemma DescendingTail(s: seq<Entry>)
    requires Descending(s) && |s| > 0
    ensures Descending(s[1..])
  {
  }

  lemma LettersCons(x: Entry, s: seq<Entry>)
    ensures Letters([x] + s) == [x.letter] + Letters(s)
    ensures multiset(Letters([x] + s)) == multiset{x.letter} + multiset(Letters(s))
  {
    assert ([x] + s)[1..] == s;
  }

  /** Insertion sort by decreasing weight. */
  function SortByWeight(s: seq<Entry>): (r: seq<Entry>)
    ensures Descending(r)
    ensures multiset(r) == multiset(s)
    ensures UniqueWeights(s) ==> StrictlyDescending(r)
  {
    if |s| == 0 then
      []
    else
      var sorted := SortByWeight(s[1..]);
      SortStep(s, sorted);
      Insert(s[0], sorted)
  }

  lemma SortStep(s: seq<Entry>, sorted: seq<Entry>)
    requires |s| > 0 && multiset(sorted) == multiset(s[1..])
    ensures multiset(s) == multiset(sorted) + multiset{s[0]}
    ensures UniqueWeights(s) ==>
              UniqueWeights(s[1..]) && forall x :: x in sorted ==> x.weight != s[0].weight
  {
    assert s == [s[0]] + s[1..];
    SameElements(sorted, s[1..]);
    if UniqueWeights(s) {
      forall x | x in sorted
        ensures x.weight != s[0].weight
      {
        var j :| 0 <= j < |s[1..]| && s[1..][j] == x;
        assert s[j + 1] == x;
      }
    }
  }

  lemma {:induction false} SortLetters(s: seq<Entry>)
    ensures multiset(Letters(SortByWeight(s))) == multiset(Letters(s))
    decreases |s|
  {
    if |s| > 0 {
      SortLetters(s[1..]);
      InsertLetters(s[0], SortByWeight(s[1..]));
      assert Letters(s) == [s[0].letter] + Letters(s[1..]);
    }
  }

  /** The source's `getOrderedPossibilities`: the letters of `nodes`, most
      likely first.  The result is a permutation of the letters of `nodes`;
      when `nodes` are dictionary entries with distinct weights the letters
      come out strictly ranked. */
  function OrderedPossibilities(nodes: seq<Entry>): (r: seq<string>)
    ensures multiset(r) == multiset(Letters(nodes))
    ensures forall l :: l in r <==> exists e :: e in nodes && e.letter == l
    ensures (forall e :: e in nodes ==> e in Table) && UniqueWeights(nodes) ==> Ranked(r)
  {
    SortLetters(nodes);
    SortedLettersFacts(nodes);
    Letters(SortByWeight(nodes))
  }

  lemma SortedLettersFacts(nodes: seq<Entry>)
    ensures forall l :: l in Letters(SortByWeight(nodes)) <==> exists e :: e in nodes && e.letter == l
    ensures (forall e :: e in nodes ==> e in Table) && UniqueWeights(nodes) ==>
              Ranked(Letters(SortByWeight(nodes)))
  {
    var sorted := SortByWeight(nodes);
    SameElements(sorted, nodes);
    LettersMembership(sorted);
    if (forall e :: e in nodes ==> e in Table) && UniqueWeights(nodes) {
      RankedFromStrict(sorted);
    }
  }

  /** A letter occurs in `Letters(s)` exactly when some entry of `s` has it. */
  lemma LettersMembership(s: seq<Entry>)
    ensures forall l :: l in Letters(s) <==> exists e :: e in s && e.letter == l
  {
    forall l | l in Letters(s)
      ensures exists e :: e in s && e.letter == l
    {
      var k :| 0 <= k < |s| && Letters(s)[k] == l;
      assert s[k] in s;
    }
  }

  /** Dictionary entries in strictly descending weight order have strictly
      ranked letters. */
  lemma RankedFromStrict(s: seq<Entry>)
    requires StrictlyDescending(s)
    requires forall e :: e in s ==> e in Table
    ensures Ranked(Letters(s))
  {
    forall j, k | 0 <= j < k < |Letters(s)|
      ensures WeightOf(Letters(s)[j]) > WeightOf(Letters(s)[k])
    {
      WeightOfEntry(s[j]);
      WeightOfEntry(s[k]);
    }
  }

  /** Two strictly descending arrangements of the same entries coincide:
      with distinct weights there is exactly one ranked order. */
  lemma {:induction false} StrictlyDescendingUnique(a: seq<Entry>, b: seq<Entry>)
    requires StrictlyDescending(a) && StrictlyDescending(b)
    requires multiset(a) == multiset(b)
    ensures a == b
    decreases |a|
  {
    assert |a| == |multiset(a)| == |multiset(b)| == |b|;
    if |a| > 0 {
      StrictHeadsAgree(a, b);
      StrictTail(a);
      StrictTail(b);
      DropHead(a);
      DropHead(b);
      StrictlyDescendingUnique(a[1..], b[1..]);
    }
  }

  /** Two strictly descending arrangements of the same entries start with
      the same, heaviest, entry. */
  lemma StrictHeadsAgree(a: seq<Entry>, b: seq<Entry>)
    requires StrictlyDescending(a) && StrictlyDescending(b)
    requires multiset(a) == multiset(b)
    requires |a| > 0 && |b| > 0
    ensures a[0] == b[0]
  {
    SameElements(a, b);
    HeadIsHeaviest(a);
    HeadIsHeaviest(b);
    assert a[0] in b && b[0] in a;
  }

  lemma StrictTail(s: seq<Entry>)
    requires StrictlyDescending(s) && |s| > 0
    ensures StrictlyDescending(s[1..])
  {
  }

  lemma DropHead(s: seq<Entry>)
    requires |s| > 0
    ensures s == [s[0]] + s[1..]
    ensures multiset(s[1..]) == multiset(s) - multiset{s[0]}
  {
    assert s == [s[0]] + s[1..];
  }

  /** Sorting forgets the order of its input: two orderings of the same
      entries (each with distinct weights) sort to the same sequence.  This
      is why the unspecified iteration order of the source's map never shows
      in its results. */
  lemma SortIgnoresInputOrder(a: seq<Entry>, b: seq<Entry>)
    requires multiset(a) == multiset(b)
    requires UniqueWeights(a) && UniqueWeights(b)
    ensures SortByWeight(a) == SortByWeight(b)
  {
    StrictlyDescendingUnique(SortByWeight(a), SortByWeight(b));
  }

  /** Two strictly ranked letter sequences with the same letters coincide. */
  lemma {:induction false} RankedUnique(a: seq<string>, b: seq<string>)
    requires Ranked(a) && Ranked(b)
    requires forall l :: l in a <==> l in b
    ensures a == b
    decreases |a|
  {
    SameLettersBothEmpty(a, b);
    if |a| > 0 {
      RankedHeadsAgree(a, b);
      RankedTailsAgree(a, b);
      RankedUnique(a[1..], b[1..]);
      SameHeadSameTail(a, b);
    }
  }

  lemma SameLettersBothEmpty(a: seq<string>, b: seq<string>)
    requires forall l :: l in a <==> l in b
    ensures |a| == 0 <==> |b| == 0
  {
    if |a| > 0 {
      assert a[0] in b;
    }
    if |b| > 0 {
      assert b[0] in a;
    }
  }

  lemma SameHeadSameTail(a: seq<string>, b: seq<string>)
    requires |a| > 0 && |b| > 0 && a[0] == b[0] && a[1..] == b[1..]
    ensures a == b
  {
    assert a == [a[0]] + a[1..];
    assert b == [b[0]] + b[1..];
  }

  /** The head of a ranked sequence is its heaviest letter, so two ranked
      sequences with the same letters start alike. */
  lemma RankedHeadsAgree(a: seq<string>, b: seq<string>)
    requires Ranked(a) && Ranked(b)
    requires forall l :: l in a <==> l in b
    requires |a| > 0
    ensures |b| > 0 && a[0] == b[0]
  {
    assert a[0] in a;
    var k :| 0 <= k < |b| && b[k] == a[0];
    assert b[0] in b;
    var m :| 0 <= m < |a| && a[m] == b[0];
    assert k == 0;
  }

  lemma RankedTailsAgree(a: seq<string>, b: seq<string>)
    requires Ranked(a) && Ranked(b)
    requires forall l :: l in a <==> l in b
    requires |a| > 0 && |b| > 0 && a[0] == b[0]
    ensures Ranked(a[1..]) && Ranked(b[1..])
    ensures forall l :: l in a[1..] <==> l in b[1..]
  {
    forall l
      ensures l in a[1..] <==> l in b[1..]
    {
      if l in a[1..] {
        var j :| 1 <= j < |a| && a[j] == l;
        assert WeightOf(a[0]) > WeightOf(l);
        assert l in b;
      }
      if l in b[1..] {
        var j :| 1 <= j < |b| && b[j] == l;
        assert WeightOf(b[0]) > WeightOf(l);
        assert l in a;
      }
    }
  }


  /** Reordering a sequence with pairwise distinct weights keeps them
      pairwise distinct. */
  lemma PermutationKeepsUniqueWeights(s: seq<Entry>, t: seq<Entry>)
    requires multiset(s) == multiset(t)
    requires UniqueWeights(s)
    ensures UniqueWeights(t)
  {
    SameElements(s, t);
    forall i, j | 0 <= i < j < |t|
      ensures t[i].weight != t[j].weight
    {
      assert t[i] in s && t[j] in s;
      var a :| 0 <= a < |s| && s[a] == t[i];
      var b :| 0 <= b < |s| && s[b] == t[j];
      if a == b {
        TwiceCounted(t, i, j);
        CountedOnce(s, a);
      }
    }
  }

  /** An element found at two indices is counted at least twice. */
  lemma TwiceCounted(t: seq<Entry>, i: nat, j: nat)
    requires i < j < |t| && t[i] == t[j]
    ensures multiset(t)[t[i]] >= 2
  {
    assert t == t[..j] + t[j..];
    assert t[..j][i] == t[i];
    assert t[j..][0] == t[i];
    assert multiset(t) == multiset(t[..j]) + multiset(t[j..]);
  }

  /** In a sequence with distinct weights each element occurs once. */
  lemma CountedOnce(s: seq<Entry>, a: nat)
    requires a < |s| && UniqueWeights(s)
    ensures multiset(s)[s[a]] == 1
  {
    var e := s[a];
    assert s == s[..a] + [e] + s[a + 1..];
    assert e !in s[..a];
    assert e !in s[a + 1..];
    assert multiset(s) == multiset(s[..a]) + multiset{e} + multiset(s[a + 1..]);
  }
}
