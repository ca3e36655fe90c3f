/** The fixed dictionary of the resolver: the Morse code of each of the 26
    Latin letters together with the letter and a priority weight (higher
    weight = more likely letter).  The source keeps it in a hash map keyed by
    code; here it is a sequence of entries, so the map's key uniqueness
    becomes the `DistinctCodes` invariant proved below. */
module MorseTable {

  datatype Option<T> = None | Some(value: T)

  /** One dictionary record: a code over `.` and `-`, the letter it encodes
      (a one-character string, as in the source) and the letter's weight. */
  datatype Entry = Entry(code: string, letter: string, weight: int)

  const Dot: char := '.'
  const Dash: char := '-'

  /** The dictionary, in the order the source writes it down.  That order
      is by decreasing weight (the entry at index i weighs 100 - i) and, as it
      happens, also the shortlex order of the codes (see `ShortlexKey`). */
  const Table: seq<Entry> := Rows()

  function Rows(): seq<Entry> {
    seq(26, i => Row(i))
  }

  /** Row `i` of the dictionary literal. */
  function Row(i: int): Entry {
    if i == 0 then Entry(".", "E", 100)
    else if i == 1 then Entry("-", "T", 99)
    else if i == 2 then Entry("..", "I", 98)
    else if i == 3 then Entry(".-", "A", 97)
    else if i == 4 then Entry("-.", "N", 96)
    else if i == 5 then Entry("--", "M", 95)
    else if i == 6 then Entry("...", "S", 94)
    else if i == 7 then Entry("..-", "U", 93)
    else if i == 8 then Entry(".-.", "R", 92)
    else if i == 9 then Entry(".--", "W", 91)
    else if i == 10 then Entry("-..", "D", 90)
    else if i == 11 then Entry("-.-", "K", 89)
    else if i == 12 then Entry("--.", "G", 88)
    else if i == 13 then Entry("---", "O", 87)
    else if i == 14 then Entry("....", "H", 86)
    else if i == 15 then Entry("...-", "V", 85)
    else if i == 16 then Entry("..-.", "F", 84)
    else if i == 17 then Entry(".-..", "L", 83)
    else if i == 18 then Entry(".--.", "P", 82)
    else if i == 19 then Entry(".---", "J", 81)
    else if i == 20 then Entry("-...", "B", 80)
    else if i == 21 then Entry("-..-", "X", 79)
    else if i == 22 then Entry("-.-.", "C", 78)
    else if i == 23 then Entry("-.--", "Y", 77)
    else if i == 24 then Entry("--..", "Z", 76)
    else Entry("--.-", "Q", 75)
  }

  /** Each index of the dictionary is one of its 26 rows; a proof about
      every entry goes through this case split. */
  lemma RowAt(i: int)
    requires 0 <= i < |Table|
    ensures Table[i] == Row(i)
    ensures i == 0 || i == 1 || i == 2 || i == 3 || i == 4 || i == 5 || i == 6 || i == 7 ||
            i == 8 || i == 9 || i == 10 || i == 11 || i == 12 || i == 13 || i == 14 || i == 15 ||
            i == 16 || i == 17 || i == 18 || i == 19 || i == 20 || i == 21 || i == 22 || i == 23 ||
            i == 24 || i == 25
  {
  }

  predicate IsSignal(c: char) {
    c == Dot || c == Dash
  }

  /** A code is one to four signals long and made of dots and dashes only. */
  predicate WellFormedCode(code: string) {
    && 1 <= |code| <= 4
    && forall k :: 0 <= k < |code| ==> IsSignal(code[k])
  }

  predicate DistinctCodes(t: seq<Entry>) {
    forall i, j :: 0 <= i < j < |t| ==> t[i].code != t[j].code
  }

  predicate DistinctLetters(t: seq<Entry>) {
    forall i, j :: 0 <= i < j < |t| ==> t[i].letter != t[j].letter
  }

  predicate UniqueWeights(t: seq<Entry>) {
    forall i, j :: 0 <= i < j < |t| ==> t[i].weight != t[j].weight
  }

  /** Everything the resolver relies on about its dictionary. */
  predicate ValidTable(t: seq<Entry>) {
    && (forall i :: 0 <= i < |t| ==> WellFormedCode(t[i].code))
    && DistinctCodes(t)
    && DistinctLetters(t)
    && UniqueWeights(t)
  }

  /** The source's map lookup `morseDichotomicCodeMap[signals]`: the entry
      whose code is `code`, if there is one. */
  function Lookup(t: seq<Entry>, code: string): (r: Option<Entry>)
    ensures r.Some? ==> r.value in t && r.value.code == code
    ensures r.None? ==> forall i :: 0 <= i < |t| ==> t[i].code != code
    ensures DistinctCodes(t) ==>
              forall i :: 0 <= i < |t| && t[i].code == code ==> r == Some(t[i])
  {
    if |t| == 0 then None
    else if t[0].code == code then Some(t[0])
    else Lookup(t[1..], code)
  }

  /** The first position of `e` in `t`. */
  function IndexIn(t: seq<Entry>, e: Entry): (i: nat)
    requires e in t
    ensures i < |t| && t[i] == e
  {
    if t[0] == e then 0 else 1 + IndexIn(t[1..], e)
  }

  /** The weight the dictionary `t` gives to `letter` (0 for a non-letter). */
  function WeightIn(t: seq<Entry>, letter: string): (w: int)
    ensures DistinctLetters(t) ==>
              forall i :: 0 <= i < |t| && t[i].letter == letter ==> w == t[i].weight
  {
    if |t| == 0 then 0
    else if t[0].letter == letter then t[0].weight
    else WeightIn(t[1..], letter)
  }

  /** The rank key of a letter of the fixed dictionary. */
  function WeightOf(letter: string): int {
    WeightIn(Table, letter)
  }

  /** Each dictionary letter ranks with its entry's weight. */
  lemma WeightOfEntry(e: Entry)
    requires e in Table
    ensures WeightOf(e.letter) == e.weight
  {
    LettersDistinct();
    var i := IndexIn(Table, e);
  }

  /** Shortlex key of a code of at most four signals: the length first, then
      the signals read as a binary number with the dash as 1. */
  function ShortlexKey(code: string): int {
    16 * |code| + 8 * DashBit(code, 0) + 4 * DashBit(code, 1) + 2 * DashBit(code, 2) + DashBit(code, 3)
  }

  function DashBit(code: string, k: nat): int {
    if k < |code| && code[k] == Dash then 1 else 0
  }

  predicate KeyStep(i: nat)
    requires i + 1 < |Table|
  {
    ShortlexKey(Table[i].code) < ShortlexKey(Table[i + 1].code)
  }

  // The table is checked in four slices so that each proof stays small.
  lemma KeyStepsFirst()
    ensures forall i :: 0 <= i < 7 ==> KeyStep(i)
  {
    forall i | 0 <= i < 7
      ensures KeyStep(i)
    {
      RowAt(i);
      RowAt(i + 1);
    }
  }

  lemma KeyStepsSecond()
    ensures forall i :: 7 <= i < 13 ==> KeyStep(i)
  {
    forall i | 7 <= i < 13
      ensures KeyStep(i)
    {
      RowAt(i);
      RowAt(i + 1);
    }
  }

  lemma KeyStepsThird()
    ensures forall i :: 13 <= i < 19 ==> KeyStep(i)
  {
    forall i | 13 <= i < 19
      ensures KeyStep(i)
    {
      RowAt(i);
      RowAt(i + 1);
    }
  }

  lemma KeyStepsFourth()
    ensures forall i :: 19 <= i < 25 ==> KeyStep(i)
  {
    forall i | 19 <= i < 25
      ensures KeyStep(i)
    {
      RowAt(i);
      RowAt(i + 1);
    }
  }

  /** Proof device for `CodesDistinct`: in the order this model lists them,
      the codes are strictly increasing in shortlex order, so no code occurs
      twice.  The order itself means nothing in the source's map literal. */
  lemma {:induction false} KeysAscending(i: nat, j: nat)
    requires i < j < |Table|
    ensures ShortlexKey(Table[i].code) < ShortlexKey(Table[j].code)
    decreases j - i
  {
    KeyStepsFirst();
    KeyStepsSecond();
    KeyStepsThird();
    KeyStepsFourth();
    assert KeyStep(j - 1);
    if i < j - 1 {
      KeysAscending(i, j - 1);
    }
  }

  /** The invariants of the source's dictionary literal: 26 entries, codes
      of one to four dots and dashes, pairwise distinct codes and letters,
      and pairwise distinct weights between 75 and 100. */
  lemma TableIsValid()
    ensures |Table| == 26
    ensures ValidTable(Table)
    ensures forall i :: 0 <= i < |Table| ==> Table[i].weight == 100 - i
    ensures forall i :: 0 <= i < |Table| ==> 75 <= Table[i].weight <= 100
    ensures forall i :: 0 <= i < |Table| ==> |Table[i].letter| == 1
  {
    CodesWellFormed();
    CodesDistinct();
    LettersDistinct();
    WeightsByIndex();
    WeightsUnique();
  }

  lemma CodesWellFormed()
    ensures forall i :: 0 <= i < |Table| ==> WellFormedCode(Table[i].code)
  {
    forall i | 0 <= i < |Table|
      ensures WellFormedCode(Table[i].code)
    {
      RowAt(i);
    }
  }

  lemma WeightsByIndex()
    ensures forall i :: 0 <= i < |Table| ==> Table[i].weight == 100 - i
  {
    forall i | 0 <= i < |Table|
      ensures Table[i].weight == 100 - i
    {
      RowAt(i);
    }
  }

  lemma WeightsUnique()
    ensures UniqueWeights(Table)
  {
    WeightsByIndex();
  }

  lemma CodesDistinct()
    ensures DistinctCodes(Table)
  {
    forall i, j | 0 <= i < j < |Table|
      ensures Table[i].code != Table[j].code
    {
      KeysAscending(i, j);
    }
  }

  lemma LettersDistinct()
    ensures forall i :: 0 <= i < |Table| ==> |Table[i].letter| == 1
    ensures DistinctLetters(Table)
  {
    forall i | 0 <= i < |Table|
      ensures |Table[i].letter| == 1 && LetterRank(Table[i].letter[0]) == i
    {
      RowAt(i);
    }
  }

  /** The row of each letter, read off the dictionary: the inverse that
      makes the letters pairwise distinct. */
  function LetterRank(c: char): int {
    match c
    case 'E' => 0   case 'T' => 1   case 'I' => 2   case 'A' => 3
    case 'N' => 4   case 'M' => 5   case 'S' => 6   case 'U' => 7
    case 'R' => 8   case 'W' => 9   case 'D' => 10  case 'K' => 11
    case 'G' => 12  case 'O' => 13  case 'H' => 14  case 'V' => 15
    case 'F' => 16  case 'L' => 17  case 'P' => 18  case 'J' => 19
    case 'B' => 20  case 'X' => 21  case 'C' => 22  case 'Y' => 23
    case 'Z' => 24  case 'Q' => 25  case _ => -1
  }

}
