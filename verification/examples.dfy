/** Concrete resolutions: the three calls the source's entry point makes,
    and a few more that pin down the edge cases (the empty query, a length-4
    all-wildcard query, the length-3 rule). */
module ResolverExamples {
  import opened MorseTable
  import opened Resolver
  import opened QuerySelections

  /** `Possibilities("?")` is `["E", "T"]`: the one-signal letters. */
  lemma SingleWildcardExample()
    ensures Possibilities("?") == ["E", "T"]
  {
    var q := "?";
    var ids: seq<int> := [0, 1];
    var keep := (e: Entry) => |e.code| == 1;
    AllWildcardSelects(q);
    LengthOneIndices(ids, keep);
    LengthOneLetters(ids);
    ResolvesBy(q, ids, keep);
  }

  /** The empty query resolves to nothing. */
  lemma EmptyQueryExample()
    ensures Possibilities("") == []
  {
    var q := "";
    var ids: seq<int> := [];
    var keep := (e: Entry) => |e.code| == 0;
    AllWildcardSelects(q);
    NoIndices(ids, keep);
    ResolvesBy(q, ids, keep);
  }

  /** `Possibilities("????")` is every letter with a four-signal code, most
      likely first. */
  lemma FourWildcardsExample()
    ensures Possibilities("????") == ["H", "V", "F", "L", "P", "J", "B", "X", "C", "Y", "Z", "Q"]
  {
    var q := "????";
    var ids: seq<int> := [14, 15, 16, 17, 18, 19, 20, 21, 22, 23, 24, 25];
    var keep := (e: Entry) => |e.code| == 4;
    AllWildcardSelects(q);
    LengthFourIndices(ids, keep);
    LengthFourLetters(ids);
    ResolvesBy(q, ids, keep);
  }

  /** `Possibilities(".?")` is `["I", "A"]`. */
  lemma DotWildcardExample()
    ensures Possibilities(".?") == ["I", "A"]
  {
    var q := ".?";
    var ids: seq<int> := [2, 3];
    var keep := (e: Entry) => |e.code| == 2 && e.code[0] == Dot;
    DotWildcardSelects(q);
    DotWildcardIndices(ids, keep);
    DotWildcardLetters(ids);
    ResolvesBy(q, ids, keep);
  }

  /** `Possibilities("?.")` is `["I", "N"]`. */
  lemma WildcardDotExample()
    ensures Possibilities("?.") == ["I", "N"]
  {
    var q := "?.";
    var ids: seq<int> := [2, 4];
    var keep := (e: Entry) => |e.code| == 2 && e.code[1] == Dot;
    WildcardDotSelects(q);
    WildcardDotIndices(ids, keep);
    WildcardDotLetters(ids);
    ResolvesBy(q, ids, keep);
  }

  /** A length-3 query skips the length check: `Possibilities("..?")` holds
      the two-signal I and the four-signal H, V and F next to S and U. */
  lemma DotDotWildcardExample()
    ensures Possibilities("..?") == ["I", "S", "U", "H", "V", "F"]
  {
    var q := "..?";
    var ids: seq<int> := [2, 6, 7, 14, 15, 16];
    var keep := (e: Entry) => StartsDotDot(e.code);
    DotDotWildcardSelects(q);
    DotDotWildcardIndices(ids, keep);
    DotDotWildcardLetters(ids);
    ResolvesBy(q, ids, keep);
  }
}
