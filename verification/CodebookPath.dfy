/** The whole way of a code vector: search, build_code, transmission, decode. */
module CodebookPath {
  import opened FixedPoint
  import opened RatioSearch
  import opened PulseStages
  import opened PulseCoding
  import Exhaustive = TwoPulseSearch
  import Outcome = SearchOutcome
  import Greedy = GreedySearch
  import opened Modes
  import Stream = BitStream

  /** The decoder rebuilds the code vector that the encoder built for codvec v. */
  ghost predicate Survives(book: Book, v: seq<Pos>, dnSign: Corr)
    requires book.Valid() && |v| == book.Pulses()
  {
    IsCode(Decoded(Positions(book, IndexWord(book, v, |v|)), SignWord(book, v, dnSign, |v|), |v|), v, dnSign)
  }

  lemma LegalSurvives(book: Book, v: seq<Pos>, dnSign: Corr)
    requires Legal(book, v)
    ensures Survives(book, v, dnSign)
  {
    hide Decoded, Positions, IndexWord, SignWord, IsCode;
    CodeRoundTrip(book, v, dnSign);
  }

  /** The three- and four-pulse codebooks survive coding whatever the search saw. */
  lemma GreedyPath(book: Greedy.Book, dn: Corr, dn2: Corr, rr: Matrix, dnSign: Corr)
    ensures var v := Greedy.Search(book, dn, dn2, rr).tag;
            var code := if book.ThreePulses? then Bits14 else Bits17;
            |v| == code.Pulses() && Legal(code, v) && Survives(code, v, dnSign)
  {
    hide Greedy.Search, Survives;
    Greedy.SearchFillsEverySlot(book, dn, dn2, rr);
    LegalSurvives(if book.ThreePulses? then Bits14 else Bits17, Greedy.Search(book, dn, dn2, rr).tag, dnSign);
  }

  function ExhaustiveTracks(book: Book): (tracks: Exhaustive.Tracks)
    requires book.Valid() && book.Pulses() == 2
    ensures Exhaustive.ValidTracks(tracks)
  {
    if book.Bits11? then Exhaustive.Tracks11() else Exhaustive.Tracks9(book.subNr)
  }

  lemma PairIsLegal(book: Book, c: nat, u: nat, v: nat)
    requires book.Valid() && book.Pulses() == 2
    requires c < |ExhaustiveTracks(book)| && u < 8 && v < 8
    ensures var p := Exhaustive.PairAt(ExhaustiveTracks(book), c, u, v); Legal(book, [p.0, p.1])
  {
    var tracks := ExhaustiveTracks(book);
    OnTrack(u, tracks[c].0);
    OnTrack(v, tracks[c].1);
  }

  /** The codvec of the exhaustive search. */
  function Searched(book: Book, dn: Corr, rr: Matrix): (v: seq<Pos>)
    requires book.Valid() && book.Pulses() == 2
    ensures |v| == 2
  {
    var w := Exhaustive.Search(dn, rr, ExhaustiveTracks(book)).tag;
    [w.0, w.1]
  }

  /** The two-pulse codebooks, with any energies: the searched codvec is legal, and so
      survives coding, exactly when some group's outcome can replace the start value. */
  lemma ExhaustivePath(book: Book, dn: Corr, rr: Matrix, dnSign: Corr)
    requires book.Valid() && book.Pulses() == 2
    ensures Legal(book, Searched(book, dn, rr)) <==> Outcome.SomeGroupEnters(dn, rr, ExhaustiveTracks(book))
    ensures Legal(book, Searched(book, dn, rr)) ==> Survives(book, Searched(book, dn, rr), dnSign)
    ensures !Legal(book, Searched(book, dn, rr)) ==> Searched(book, dn, rr) == [0, 1]
  {
    hide Exhaustive.Search, Survives, Outcome.SomeGroupEnters, Legal;
    var c, u, v := Outcome.PresetExactly(dn, rr, ExhaustiveTracks(book));
    if Outcome.SomeGroupEnters(dn, rr, ExhaustiveTracks(book)) {
      PairIsLegal(book, c, u, v);
      LegalSurvives(book, Searched(book, dn, rr), dnSign);
    } else {
      PresetIsNotLegal(book, dnSign);
    }
  }

  /** With non-negative energies that means that some tried pair has a ratio at all. */
  lemma ProperExhaustivePath(book: Book, dn: Corr, rr: Matrix, dnSign: Corr)
    requires book.Valid() && book.Pulses() == 2
    requires Exhaustive.EnergiesNonNegative(dn, rr, ExhaustiveTracks(book))
    ensures Legal(book, Searched(book, dn, rr)) <==> !Exhaustive.NoViablePair(dn, rr, ExhaustiveTracks(book))
    ensures !Exhaustive.NoViablePair(dn, rr, ExhaustiveTracks(book)) ==> Survives(book, Searched(book, dn, rr), dnSign)
  {
    hide Exhaustive.Search, Survives, Exhaustive.NoViablePair, Exhaustive.EnergiesNonNegative, Legal;
    var d, x, y := Exhaustive.SearchIsOptimal(dn, rr, ExhaustiveTracks(book));
    if Exhaustive.NoViablePair(dn, rr, ExhaustiveTracks(book)) {
      PresetIsNotLegal(book, dnSign);
    } else {
      PairIsLegal(book, d, x, y);
      LegalSurvives(book, Searched(book, dn, rr), dnSign);
    }
  }

  /** Without any correlation and energy no pair has a ratio, and the preset comes back. */
  lemma SilenceReturnsPreset(book: Book, dn: Corr, rr: Matrix)
    requires book.Valid() && book.Pulses() == 2
    requires forall i :: 0 <= i < 40 ==> dn[i] == 0
    requires forall i, j :: 0 <= i < 40 && 0 <= j < 40 ==> rr[i][j] == 0
    ensures Searched(book, dn, rr) == [0, 1] && !Legal(book, Searched(book, dn, rr))
  {
    hide Exhaustive.Search, Exhaustive.PairScore, Legal;
    var tracks := ExhaustiveTracks(book);
    assert NoInput(dn, rr);
    forall c: nat, u: nat, v: nat | c < |tracks| && u < 8 && v < 8
      ensures Exhaustive.PairScore(dn, rr, Exhaustive.PairAt(tracks, c, u, v)) == Score(0, 0)
    {
      SilentPair(dn, rr, Exhaustive.PairAt(tracks, c, u, v));
    }
    var _, _, _ := Exhaustive.SearchIsOptimal(dn, rr, tracks);
    PresetIsNotLegal(book, dn);
  }

  predicate NoInput(dn: Corr, rr: Matrix) {
    && (forall i :: 0 <= i < 40 ==> dn[i] == 0)
    && forall i, j :: 0 <= i < 40 && 0 <= j < 40 ==> rr[i][j] == 0
  }

  lemma SilentPair(dn: Corr, rr: Matrix, p: (Pos, Pos))
    requires NoInput(dn, rr)
    ensures var s := Exhaustive.PairScore(dn, rr, p); s.sq == 0 && s.alp == 0
  {
    hide PulseStages.Energy;
    PairEnergyIs(rr, p.0, p.1);
  }

  // ----- through the serial stream -----

  /** The widths of a codebook's position and sign parameters. */
  function FieldWidths(book: Book): (nat, nat) {
    match book case Bits9(_) => (7, 2) case Bits11 => (9, 2) case Bits14 => (11, 3) case Bits17 => (13, 4)
  }

  /** The codebook of a mode in the given subframe, for the modes that have one of these. */
  predicate Uses(m: Mode, subframe: nat, book: Book) {
    match m
    case MR475 => book == Bits9(subframe)
    case MR515 => book == Bits9(subframe)
    case MR59 => book.Bits11?
    case MR67 => book.Bits14?
    case MR74 => book.Bits17?
    case MR795 => book.Bits17?
    case _ => false
  }

  /** Where the position parameter of a subframe stands in the parameter vector; the sign
      parameter follows it. */
  function CodeField(m: Mode, subframe: nat): nat
    requires subframe < 4
  {
    match m
    case MR475 => (if subframe == 0 then 4 else if subframe == 1 then 8 else if subframe == 2 then 11 else 15)
    case MR795 => 4 + 5 * subframe
    case _ => 4 + 4 * subframe
  }

  /** The mode tables have exactly the room the codebooks need. */
  lemma FieldsMatchTable(m: Mode, subframe: nat, book: Book)
    requires subframe < 4 && Uses(m, subframe, book)
    ensures book.Valid() && CodeField(m, subframe) + 1 < |Stream.Widths(m)|
    ensures Stream.Widths(m)[CodeField(m, subframe)] == FieldWidths(book).0
    ensures Stream.Widths(m)[CodeField(m, subframe) + 1] == FieldWidths(book).1
  {
    hide Stream.Widths;
    match m
    case MR475 => Row475(subframe);
    case MR795 => Row795(subframe);
    case _ => RowsOfFour(m, subframe);
  }

  lemma Row475(subframe: nat)
    requires subframe < 4
    ensures var at := CodeField(MR475, subframe);
            var widths := Stream.Widths(MR475);
            at + 1 < |widths| && widths[at] == 7 && widths[at + 1] == 2
  {
  }

  lemma Row795(subframe: nat)
    requires subframe < 4
    ensures var widths := Stream.Widths(MR795);
            5 + 5 * subframe < |widths| && widths[4 + 5 * subframe] == 13 && widths[5 + 5 * subframe] == 4
  {
  }

  lemma RowsOfFour(m: Mode, subframe: nat)
    requires subframe < 4 && (m.MR515? || m.MR59? || m.MR67? || m.MR74?)
    ensures var at, widths := 4 + 4 * subframe, Stream.Widths(m);
            && at + 1 < |widths|
            && (m.MR515? ==> widths[at] == 7 && widths[at + 1] == 2)
            && (m.MR59? ==> widths[at] == 9 && widths[at + 1] == 2)
            && (m.MR67? ==> widths[at] == 11 && widths[at + 1] == 3)
            && (m.MR74? ==> widths[at] == 13 && widths[at + 1] == 4)
  {
    hide Stream.Widths;
    match m
    case MR515 => Row515(subframe);
    case MR59 => Row59(subframe);
    case MR67 => Row67(subframe);
    case MR74 => Row74(subframe);
  }

  lemma Row515(subframe: nat)
    requires subframe < 4
    ensures var at, widths := 4 + 4 * subframe, Stream.Widths(MR515);
            at + 1 < |widths| && widths[at] == 7 && widths[at + 1] == 2
  {
  }

  lemma Row59(subframe: nat)
    requires subframe < 4
    ensures var at, widths := 4 + 4 * subframe, Stream.Widths(MR59);
            at + 1 < |widths| && widths[at] == 9 && widths[at + 1] == 2
  {
  }

  lemma Row67(subframe: nat)
    requires subframe < 4
    ensures var at, widths := 4 + 4 * subframe, Stream.Widths(MR67);
            at + 1 < |widths| && widths[at] == 11 && widths[at + 1] == 3
  {
  }

  lemma Row74(subframe: nat)
    requires subframe < 4
    ensures var at, widths := 4 + 4 * subframe, Stream.Widths(MR74);
            at + 1 < |widths| && widths[at] == 13 && widths[at + 1] == 4
  {
  }

  lemma WordsFitFields(book: Book, v: seq<Pos>, dnSign: Corr)
    requires Legal(book, v)
    ensures 0 <= IndexWord(book, v, |v|) < Pow2(FieldWidths(book).0)
    ensures 0 <= SignWord(book, v, dnSign, |v|) < Pow2(FieldWidths(book).1)
  {
    hide IndexWord, SignWord, Positions, Decoded, IsCode, Slotted;
    IndexRoundTrip(book, v);
    CodeRoundTrip(book, v, dnSign);
    assert Pow2(7) == 128;
    assert Pow2(9) == 512;
    assert Pow2(11) == 2048;
    assert Pow2(13) == 8192;
  }

  /** A legal code vector survives build_code, Prm2bits, the stream, Bits2prm and the
      decoder, in every mode and subframe, whatever the other parameters are and whatever
      follows the frame. */
  lemma CodeSurvivesStream(m: Mode, subframe: nat, book: Book, v: seq<Pos>, dnSign: Corr,
                           prm: seq<Word16>, more: seq<Word16>)
    requires subframe < 4 && Uses(m, subframe, book) && Legal(book, v)
    requires |prm| == |Stream.Widths(m)| > CodeField(m, subframe) + 1
    requires prm[CodeField(m, subframe)] == IndexWord(book, v, |v|)
    requires prm[CodeField(m, subframe) + 1] == SignWord(book, v, dnSign, |v|)
    ensures var back := Stream.Parsed(Stream.Widths(m), Stream.Serialised(Stream.Widths(m), prm) + more);
            IsCode(Decoded(Positions(book, back[CodeField(m, subframe)]), back[CodeField(m, subframe) + 1], |v|),
                   v, dnSign)
  {
    hide IndexWord, SignWord, Positions, Decoded, IsCode, Legal, CodeField, Uses, FieldWidths,
      Stream.Widths, Stream.Parsed, Stream.Serialised, Stream.Kept;
    var at := CodeField(m, subframe);
    FieldsMatchTable(m, subframe, book);
    WordsFitFields(book, v, dnSign);
    Stream.ParseAfterSerialise(Stream.Widths(m), prm, more);
    Stream.KeptWhole(prm[at], Stream.Widths(m)[at]);
    Stream.KeptWhole(prm[at + 1], Stream.Widths(m)[at + 1]);
    CodeRoundTrip(book, v, dnSign);
  }
}
