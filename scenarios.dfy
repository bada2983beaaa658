/**
 * Concrete selections from the view state's test suite, derived from the
 * general contracts of ConditionalSize.
 */
module ConditionalSizeScenarios {
  import opened Wrappers
  import opened ConditionalSize

  function Opt(width: real, height: real, tag: string): SizeOption<string> {
    SizeOption(Size(width, height), tag)
  }

  /** `o` outranks every other option in `options` that passes the filter. */
  predicate Outranks<C(==)>(o: SizeOption<C>, options: seq<SizeOption<C>>, available: Size, enforceAspect: bool) {
    forall p :: p in options && Eligible(p, available, enforceAspect) && p != o ==> RanksBefore(o.size, p.size, available)
  }

  lemma OutranksConcat<C>(o: SizeOption<C>, a: seq<SizeOption<C>>, b: seq<SizeOption<C>>, available: Size, enforceAspect: bool)
    requires Outranks(o, a, available, enforceAspect) && Outranks(o, b, available, enforceAspect)
    ensures Outranks(o, a + b, available, enforceAspect)
  {
  }

  /** The winner of a size-keyed literal whose other eligible options it outranks. */
  lemma WinnerOf<C(!new)>(options: seq<SizeOption<C>>, enforceAspect: bool, available: Size, o: SizeOption<C>)
    requires SizeKeyed(options) && o in options && Eligible(o, available, enforceAspect)
    requires Outranks(o, options, available, enforceAspect)
    ensures BestOption(Init(OptionSet(options), enforceAspect), available) == Some(o)
  {
    OptionSetOfSizeKeyed(options);
    StrictWinnerIsChosen(Init(options, enforceAspect), available, o);
  }

  /** A size-keyed literal none of whose options passes the filter gives nothing. */
  lemma NoneOf<C(!new)>(options: seq<SizeOption<C>>, enforceAspect: bool, available: Size)
    requires SizeKeyed(options)
    requires forall p :: p in options ==> !Eligible(p, available, enforceAspect)
    ensures BestOption(Init(OptionSet(options), enforceAspect), available) == None
  {
    OptionSetOfSizeKeyed(options);
  }

  /** Five squares, 200 to 600 points wide. */
  function Squares(): seq<SizeOption<string>> {
    [Opt(200.0, 200.0, "200"), Opt(300.0, 300.0, "300"), Opt(400.0, 400.0, "400"),
     Opt(500.0, 500.0, "500"), Opt(600.0, 600.0, "600")]
  }

  /** Five portrait options, 200x300 to 600x700. */
  function Portraits(): seq<SizeOption<string>> {
    [Opt(200.0, 300.0, "200x300"), Opt(300.0, 400.0, "300x400"), Opt(400.0, 500.0, "400x500"),
     Opt(500.0, 600.0, "500x600"), Opt(600.0, 700.0, "600x700")]
  }

  /** Five landscape options, 301x200 to 701x600. */
  function Landscapes(): seq<SizeOption<string>> {
    [Opt(301.0, 200.0, "301x200"), Opt(401.0, 300.0, "401x300"), Opt(501.0, 400.0, "501x400"),
     Opt(601.0, 500.0, "601x500"), Opt(701.0, 600.0, "701x600")]
  }

  function VerticalAndHorizontal(): seq<SizeOption<string>> {
    [Opt(200.0, 400.0, "vertical"), Opt(400.0, 200.0, "horizontal")]
  }

  /** No landscape option has the size of a portrait option. */
  lemma PortraitsAndLandscapesAreSizeKeyed()
    ensures SizeKeyed(Portraits() + Landscapes())
  {
  }

  /** All squares fit 800x600; the largest is chosen. */
  lemma FitsAllSizesPickTheLargest()
    ensures BestOption(Init(OptionSet(Squares()), false), Size(800.0, 600.0)) == Some(Opt(600.0, 600.0, "600"))
  {
    assert SizeKeyed(Squares());
    var available, winner := Size(800.0, 600.0), Opt(600.0, 600.0, "600");
    assert Outranks(winner, Squares(), available, false);
    WinnerOf(Squares(), false, available, winner);
  }

  /** 600x600 is one point too tall for 800x599. */
  lemma DoesNotFitLargestBecauseOfHeight()
    ensures BestOption(Init(OptionSet(Squares()), false), Size(800.0, 599.0)) == Some(Opt(500.0, 500.0, "500"))
  {
    assert SizeKeyed(Squares());
    var available, winner := Size(800.0, 599.0), Opt(500.0, 500.0, "500");
    assert Outranks(winner, Squares(), available, false);
    WinnerOf(Squares(), false, available, winner);
  }

  /** 600x600 is one point too wide for 599x600. */
  lemma DoesNotFitLargestBecauseOfWidth()
    ensures BestOption(Init(OptionSet(Squares()), false), Size(599.0, 600.0)) == Some(Opt(500.0, 500.0, "500"))
  {
    assert SizeKeyed(Squares());
    var available, winner := Size(599.0, 600.0), Opt(500.0, 500.0, "500");
    assert Outranks(winner, Squares(), available, false);
    WinnerOf(Squares(), false, available, winner);
  }

  /** The squares in another literal order. */
  function ShuffledSquares(): seq<SizeOption<string>> {
    [Opt(300.0, 300.0, "300"), Opt(600.0, 600.0, "600"), Opt(400.0, 400.0, "400"),
     Opt(200.0, 200.0, "200"), Opt(500.0, 500.0, "500")]
  }

  /** In 599x499 neither 500x500 nor 600x600 fits; 400x400 is chosen whatever the literal order. */
  lemma DoesNotFitLargestBecauseOfBothDimensions()
    ensures BestOption(Init(OptionSet(ShuffledSquares()), false), Size(599.0, 499.0)) == Some(Opt(400.0, 400.0, "400"))
  {
    assert SizeKeyed(ShuffledSquares());
    var available, winner := Size(599.0, 499.0), Opt(400.0, 400.0, "400");
    assert Outranks(winner, ShuffledSquares(), available, false);
    WinnerOf(ShuffledSquares(), false, available, winner);
  }

  /** Nothing is 199 points wide or less. */
  lemma NoneWhenNoMatchBecauseOfWidth()
    ensures BestOption(Init(OptionSet(Squares()), false), Size(199.0, 600.0)) == None
  {
    assert SizeKeyed(Squares());
    assert forall p :: p in Squares() ==> !Eligible(p, Size(199.0, 600.0), false);
    NoneOf(Squares(), false, Size(199.0, 600.0));
  }

  /** Nothing is 199 points tall or less. */
  lemma NoneWhenNoMatchBecauseOfHeight()
    ensures BestOption(Init(OptionSet(Squares()), false), Size(800.0, 199.0)) == None
  {
    assert SizeKeyed(Squares());
    assert forall p :: p in Squares() ==> !Eligible(p, Size(800.0, 199.0), false);
    NoneOf(Squares(), false, Size(800.0, 199.0));
  }

  /** Nothing fits 199x199. */
  lemma NoneWhenNoMatchBecauseOfBothDimensions()
    ensures BestOption(Init(OptionSet(Squares()), false), Size(199.0, 199.0)) == None
  {
    assert SizeKeyed(Squares());
    assert forall p :: p in Squares() ==> !Eligible(p, Size(199.0, 199.0), false);
    NoneOf(Squares(), false, Size(199.0, 199.0));
  }

  /** In 400x200 only the horizontal option fits (aspect not enforced). */
  lemma PicksCorrectAspectHorizontal()
    ensures BestOption(Init(OptionSet(VerticalAndHorizontal()), false), Size(400.0, 200.0)) == Some(Opt(400.0, 200.0, "horizontal"))
  {
    assert SizeKeyed(VerticalAndHorizontal());
    var available, winner := Size(400.0, 200.0), Opt(400.0, 200.0, "horizontal");
    assert Outranks(winner, VerticalAndHorizontal(), available, false);
    WinnerOf(VerticalAndHorizontal(), false, available, winner);
  }

  /** In 200x400 only the vertical option fits (aspect not enforced). */
  lemma PicksCorrectAspectVertical()
    ensures BestOption(Init(OptionSet(VerticalAndHorizontal()), false), Size(200.0, 400.0)) == Some(Opt(200.0, 400.0, "vertical"))
  {
    assert SizeKeyed(VerticalAndHorizontal());
    var available, winner := Size(200.0, 400.0), Opt(200.0, 400.0, "vertical");
    assert Outranks(winner, VerticalAndHorizontal(), available, false);
    WinnerOf(VerticalAndHorizontal(), false, available, winner);
  }

  /** Equal pixel counts in vertical space: the taller option wins. */
  lemma HeightDecidesInVerticalSpace()
    ensures BestOption(Init(OptionSet(VerticalAndHorizontal()), false), Size(720.0, 1080.0)) == Some(Opt(200.0, 400.0, "vertical"))
  {
    assert SizeKeyed(VerticalAndHorizontal());
    var available, winner := Size(720.0, 1080.0), Opt(200.0, 400.0, "vertical");
    assert Outranks(winner, VerticalAndHorizontal(), available, false);
    WinnerOf(VerticalAndHorizontal(), false, available, winner);
  }

  /** Equal pixel counts in horizontal space: the wider option wins. */
  lemma WidthDecidesInHorizontalSpace()
    ensures BestOption(Init(OptionSet(VerticalAndHorizontal()), false), Size(1080.0, 720.0)) == Some(Opt(400.0, 200.0, "horizontal"))
  {
    assert SizeKeyed(VerticalAndHorizontal());
    var available, winner := Size(1080.0, 720.0), Opt(400.0, 200.0, "horizontal");
    assert Outranks(winner, VerticalAndHorizontal(), available, false);
    WinnerOf(VerticalAndHorizontal(), false, available, winner);
  }

  /** Four options of one size, with different content states. */
  function SameSize(): seq<SizeOption<string>> {
    [Opt(200.0, 400.0, "1"), Opt(200.0, 400.0, "2"), Opt(200.0, 400.0, "3"), Opt(200.0, 400.0, "4")]
  }

  /** The option set of four same-size options holds only the first. */
  lemma SameSizeOptionSet()
    ensures OptionSet(SameSize()) == [Opt(200.0, 400.0, "1")]
  {
    var literal := SameSize();
    assert forall k :: 0 <= k < |literal| ==> literal[k].size == Size(200.0, 400.0);
    forall z | z in SizesOf(literal) ensures z == Size(200.0, 400.0) {
      var k :| 0 <= k < |literal| && literal[k].size == z;
    }
    assert literal[0].size in SizesOf(literal);
    assert SizesOf(literal) == {Size(200.0, 400.0)};
    OptionSetCount(literal);
    var s := OptionSet(literal);
    assert s[0] in s;
    var i :| 0 <= i < |literal| && literal[i] == s[0] && FirstOfItsSize(literal, i);
    assert literal[0].size == literal[i].size;
    assert i == 0;
    assert s == [s[0]];
  }

  /** Four options of one size make an option set of one, and the kept option is chosen. */
  lemma SameSizeOptionsCollapse()
    ensures |OptionSet(SameSize())| == 1
    ensures BestOption(Init(OptionSet(SameSize()), false), Size(400.0, 400.0)) == Some(Opt(200.0, 400.0, "1"))
  {
    SameSizeOptionSet();
    StrictWinnerIsChosen(Init([Opt(200.0, 400.0, "1")], false), Size(400.0, 400.0), Opt(200.0, 400.0, "1"));
  }

  /** With aspect enforced, all portrait options fit 800x1080 and the largest is chosen. */
  lemma EnforcedAspectFitsAllSizesPickTheLargest()
    ensures BestOption(Init(OptionSet(Portraits()), true), Size(800.0, 1080.0)) == Some(Opt(600.0, 700.0, "600x700"))
  {
    assert SizeKeyed(Portraits());
    var available, winner := Size(800.0, 1080.0), Opt(600.0, 700.0, "600x700");
    assert Outranks(winner, Portraits(), available, true);
    WinnerOf(Portraits(), true, available, winner);
  }

  /** With aspect enforced, portrait options are never chosen for landscape space. */
  lemma EnforcedAspectMismatchGivesNone()
    ensures BestOption(Init(OptionSet(Portraits()), true), Size(1080.0, 800.0)) == None
  {
    assert SizeKeyed(Portraits());
    OptionSetOfSizeKeyed(Portraits());
    var available := Size(1080.0, 800.0);
    assert !IsVertical(available);
    assert forall o :: o in Portraits() ==> IsVertical(o.size);
    AspectMismatchGivesNone(Init(Portraits(), true), available);
  }

  /** With aspect enforced, only portrait options compete in portrait space. */
  lemma EnforcedAspectPicksLargestOfDesiredAspect()
    ensures BestOption(Init(OptionSet(Portraits() + Landscapes()), true), Size(800.0, 1080.0)) == Some(Opt(600.0, 700.0, "600x700"))
  {
    PortraitsAndLandscapesAreSizeKeyed();
    var available, winner := Size(800.0, 1080.0), Opt(600.0, 700.0, "600x700");
    assert Outranks(winner, Portraits(), available, true);
    assert Outranks(winner, Landscapes(), available, true);
    OutranksConcat(winner, Portraits(), Landscapes(), available, true);
    WinnerOf(Portraits() + Landscapes(), true, available, winner);
  }

  /** Without aspect enforcement, the landscape option with most pixels wins in portrait space. */
  lemma UnenforcedAspectPicksLargestOfAnyAspect()
    ensures BestOption(Init(OptionSet(Portraits() + Landscapes()), false), Size(800.0, 1080.0)) == Some(Opt(701.0, 600.0, "701x600"))
  {
    PortraitsAndLandscapesAreSizeKeyed();
    var available, winner := Size(800.0, 1080.0), Opt(701.0, 600.0, "701x600");
    assert Outranks(winner, Portraits(), available, false);
    assert Outranks(winner, Landscapes(), available, false);
    OutranksConcat(winner, Portraits(), Landscapes(), available, false);
    WinnerOf(Portraits() + Landscapes(), false, available, winner);
  }
}
