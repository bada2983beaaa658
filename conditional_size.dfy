/**
 * Best-fit size selection for a conditional-size view.
 *
 * A view state holds a set of options, each pairing a size with a content
 * state. Given the size a parent offers, the selector keeps the options
 * that fit (and, when asked, whose portrait/landscape class matches the
 * offered space), ranks them by pixel count and then by the dimension the
 * offered space favours, and returns the top of that ranking, if any.
 */
module ConditionalSize {
  import opened Wrappers

  /** A two-dimensional size. Dimensions are real numbers. */
  datatype Size = Size(width: real, height: real)

  /**
   * An option of the view state. Two options are the same option when their
   * sizes are equal, whatever their content states (see SameOption).
   */
  datatype SizeOption<C> = SizeOption(size: Size, contentState: C)

  /**
   * The view state: its options in the set's iteration order (no two of
   * them share a size, see SizeKeyed) and whether aspect is enforced.
   */
  datatype ConditionalSizeViewState<C> = ConditionalSizeViewState(options: seq<SizeOption<C>>, enforceAspect: bool)

  // ---------------------------------------------------------------------------
  // Option identity: equality and hashing look at the size only.
  // ---------------------------------------------------------------------------

  /** `Option.==`: only the sizes are compared. */
  predicate SameOption<C>(a: SizeOption<C>, b: SizeOption<C>) {
    a.size == b.size
  }

  /** `Option.hash(into:)`: the hasher is fed the width, then the height. */
  function HashInput<C>(o: SizeOption<C>): (h: seq<real>)
    ensures |h| == 2
  {
    [o.size.width, o.size.height]
  }

  /** Hashable's requirement: equal options feed the hasher equal input. */
  lemma SameOptionSameHash<C>(a: SizeOption<C>, b: SizeOption<C>)
    ensures SameOption(a, b) <==> HashInput(a) == HashInput(b)
  {
  }

  /** A set of options holds at most one option per size. */
  predicate SizeKeyed<C>(options: seq<SizeOption<C>>) {
    forall i, j :: 0 <= i < |options| && 0 <= j < |options| && options[i].size == options[j].size ==> i == j
  }

  predicate HasSize<C>(options: seq<SizeOption<C>>, z: Size) {
    exists i :: 0 <= i < |options| && options[i].size == z
  }

  /** The distinct sizes occurring in a list of options. */
  function SizesOf<C>(options: seq<SizeOption<C>>): set<Size> {
    set i | 0 <= i < |options| :: options[i].size
  }

  lemma SizesOfAppend<C>(options: seq<SizeOption<C>>, o: SizeOption<C>)
    ensures SizesOf(options + [o]) == SizesOf(options) + {o.size}
  {
    var s := options + [o];
    assert s[|options|] == o;
    forall z | z in SizesOf(options) ensures z in SizesOf(s) {
      var i :| 0 <= i < |options| && options[i].size == z;
      assert s[i] == options[i];
    }
  }

  /** True when `options[i]` is the first option in the list with its size. */
  predicate FirstOfItsSize<C>(options: seq<SizeOption<C>>, i: int)
    requires 0 <= i < |options|
  {
    forall j :: 0 <= j < i ==> options[j].size != options[i].size
  }

  /**
   * The option set built from an array literal of options: an option whose
   * size is already present is not inserted again, so the first option of
   * each size is the one kept.
   */
  function OptionSet<C(==,!new)>(literal: seq<SizeOption<C>>): (s: seq<SizeOption<C>>)
    ensures SizeKeyed(s)
    ensures SizesOf(s) == SizesOf(literal)
    ensures forall o :: o in s ==> exists i :: 0 <= i < |literal| && literal[i] == o && FirstOfItsSize(literal, i)
  {
    if literal == [] then []
    else
      var prefix := literal[..|literal| - 1];
      var last := literal[|literal| - 1];
      var s := OptionSet(prefix);
      assert literal == prefix + [last];
      SizesOfAppend(prefix, last);
      if HasSize(s, last.size) then
        assert last.size in SizesOf(s);
        s
      else
        var s' := s + [last];
        SizesOfAppend(s, last);
        assert FirstOfItsSize(literal, |literal| - 1) by {
          forall j | 0 <= j < |literal| - 1 ensures literal[j].size != last.size {
            assert prefix[j] == literal[j];
            assert literal[j].size in SizesOf(prefix);
          }
        }
        forall o | o in s
          ensures exists i :: 0 <= i < |literal| && literal[i] == o && FirstOfItsSize(literal, i)
        {
          var i :| 0 <= i < |prefix| && prefix[i] == o && FirstOfItsSize(prefix, i);
          assert literal[i] == o;
          assert FirstOfItsSize(literal, i) by {
            forall j | 0 <= j < i ensures literal[j].size != literal[i].size {
              assert prefix[j] == literal[j];
            }
          }
        }
        s'
  }

  /** A size-keyed list of options has as many entries as distinct sizes. */
  lemma {:induction false} SizeKeyedCount<C>(options: seq<SizeOption<C>>)
    requires SizeKeyed(options)
    ensures |SizesOf(options)| == |options|
  {
    if options != [] {
      var prefix := options[..|options| - 1];
      var last := options[|options| - 1];
      assert SizeKeyed(prefix) by {
        forall i, j | 0 <= i < |prefix| && 0 <= j < |prefix| && prefix[i].size == prefix[j].size ensures i == j {
          assert options[i] == prefix[i] && options[j] == prefix[j];
        }
      }
      SizeKeyedCount(prefix);
      assert options == prefix + [last];
      SizesOfAppend(prefix, last);
      forall i | 0 <= i < |prefix| ensures prefix[i].size != last.size {
        assert options[i] == prefix[i];
      }
    }
  }

  /** The number of options in an option set is the number of distinct sizes given. */
  lemma OptionSetCount<C(!new)>(literal: seq<SizeOption<C>>)
    ensures |OptionSet(literal)| == |SizesOf(literal)|
  {
    SizeKeyedCount(OptionSet(literal));
  }

  /** Options of pairwise different sizes all go into the option set, in order. */
  lemma {:induction false} OptionSetOfSizeKeyed<C(!new)>(literal: seq<SizeOption<C>>)
    requires SizeKeyed(literal)
    ensures OptionSet(literal) == literal
  {
    if literal != [] {
      var n := |literal| - 1;
      var prefix := literal[..n];
      assert SizeKeyed(prefix) by {
        forall i, j | 0 <= i < n && 0 <= j < n && prefix[i].size == prefix[j].size ensures i == j {
          assert literal[i] == prefix[i] && literal[j] == prefix[j];
        }
      }
      OptionSetOfSizeKeyed(prefix);
      forall i | 0 <= i < n ensures prefix[i].size != literal[n].size {
        assert literal[i] == prefix[i];
      }
      assert literal == prefix + [literal[n]];
    }
  }

  /**
   * `init(options:enforceAspect:)`: stores both, unchanged. The options come
   * as a set, so they hold one option per size. Swift's default for
   * `enforceAspect` is `false`; here callers pass it explicitly.
   */
  function Init<C>(options: seq<SizeOption<C>>, enforceAspect: bool): (st: ConditionalSizeViewState<C>)
    requires SizeKeyed(options)
    ensures SizeKeyed(st.options)
    ensures st.options == options && st.enforceAspect == enforceAspect
  {
    ConditionalSizeViewState(options, enforceAspect)
  }

  // ---------------------------------------------------------------------------
  // The filter.
  // ---------------------------------------------------------------------------

  /** Portrait or square: at least as tall as wide. */
  predicate IsVertical(z: Size) {
    z.height >= z.width
  }

  predicate Fits(z: Size, available: Size) {
    z.height <= available.height && z.width <= available.width
  }

  /** The filter of `bestOption(for:)`: fits both ways and, if enforced, has the matching aspect. */
  predicate Eligible<C>(o: SizeOption<C>, available: Size, enforceAspect: bool) {
    Fits(o.size, available) && (!enforceAspect || IsVertical(o.size) == IsVertical(available))
  }

  /** The options that pass the filter, in their original order. */
  function Filter<C(==,!new)>(options: seq<SizeOption<C>>, available: Size, enforceAspect: bool): (r: seq<SizeOption<C>>)
    ensures forall o :: o in r <==> o in options && Eligible(o, available, enforceAspect)
    ensures |r| <= |options|
  {
    if options == [] then []
    else
      var rest := Filter(options[1..], available, enforceAspect);
      assert forall o :: o in options <==> o == options[0] || o in options[1..];
      if Eligible(options[0], available, enforceAspect) then [options[0]] + rest else rest
  }

  // ---------------------------------------------------------------------------
  // The ranking.
  // ---------------------------------------------------------------------------

  function Pixels(z: Size): real {
    z.height * z.width
  }

  /**
   * The comparator handed to `sorted(by:)`: `a` ranks before `b` when it has
   * more pixels or, at equal pixel counts, when it is taller (offered space
   * vertical or square) or wider (offered space horizontal).
   */
  predicate RanksBefore(a: Size, b: Size, available: Size) {
    if Pixels(a) != Pixels(b) then Pixels(a) > Pixels(b)
    else if IsVertical(available) then a.height > b.height
    else a.width > b.width
  }

  /**
   * The comparator is a strict weak ordering, as `sorted(by:)` requires:
   * irreflexive, transitive, and incomparability is transitive.
   */
  lemma RanksBeforeIsStrictWeakOrder(a: Size, b: Size, c: Size, available: Size)
    ensures !RanksBefore(a, a, available)
    ensures RanksBefore(a, b, available) ==> !RanksBefore(b, a, available)
    ensures RanksBefore(a, b, available) && RanksBefore(b, c, available) ==> RanksBefore(a, c, available)
    ensures !RanksBefore(a, b, available) && !RanksBefore(b, c, available) ==> !RanksBefore(a, c, available)
  {
  }

  /** No later element ranks before an earlier one. */
  predicate Ranked<C>(s: seq<SizeOption<C>>, available: Size) {
    forall i, j :: 0 <= i < j < |s| ==> !RanksBefore(s[j].size, s[i].size, available)
  }

  /** Prepending an element that no later element ranks before keeps a sequence ranked. */
  lemma RankedCons<C>(h: SizeOption<C>, t: seq<SizeOption<C>>, available: Size)
    requires Ranked(t, available)
    requires forall k :: 0 <= k < |t| ==> !RanksBefore(t[k].size, h.size, available)
    ensures Ranked([h] + t, available)
  {
    var r := [h] + t;
    forall i, j | 0 <= i < j < |r| ensures !RanksBefore(r[j].size, r[i].size, available) {
      assert r[j] == t[j - 1];
      if 0 < i { assert r[i] == t[i - 1]; }
    }
  }

  /** Inserts `x` before the first element that does not rank before it. */
  function Insert<C(==,!new)>(x: SizeOption<C>, s: seq<SizeOption<C>>, available: Size): (r: seq<SizeOption<C>>)
    requires Ranked(s, available)
    ensures multiset(r) == multiset(s) + multiset{x}
    ensures forall y :: y in r ==> y == x || y in s
    ensures Ranked(r, available)
  {
    if s == [] then [x]
    else if RanksBefore(s[0].size, x.size, available) then
      assert s == [s[0]] + s[1..];
      var tail := Insert(x, s[1..], available);
      forall k | 0 <= k < |tail| ensures !RanksBefore(tail[k].size, s[0].size, available) {
        assert tail[k] in tail;
        if tail[k] != x {
          var m :| 0 <= m < |s| - 1 && s[1..][m] == tail[k];
          assert s[m + 1] == tail[k];
        }
      }
      RankedCons(s[0], tail, available);
      [s[0]] + tail
    else
      forall k | 0 <= k < |s| ensures !RanksBefore(s[k].size, x.size, available) {
        RanksBeforeIsStrictWeakOrder(s[k].size, s[0].size, x.size, available);
      }
      RankedCons(x, s, available);
      [x] + s
  }

  /** `sorted(by:)`: a stable insertion sort under RanksBefore. */
  function Sorted<C(==,!new)>(s: seq<SizeOption<C>>, available: Size): (r: seq<SizeOption<C>>)
    ensures multiset(r) == multiset(s)
    ensures Ranked(r, available)
  {
    if s == [] then []
    else
      assert s == [s[0]] + s[1..];
      Insert(s[0], Sorted(s[1..], available), available)
  }

  // ---------------------------------------------------------------------------
  // The selector.
  // ---------------------------------------------------------------------------

  /**
   * The reference definition of a best option: it is one of the options,
   * it passes the filter, and no option that passes the filter ranks
   * before it.
   */
  predicate IsBest<C(==,!new)>(o: SizeOption<C>, st: ConditionalSizeViewState<C>, available: Size) {
    && o in st.options
    && Eligible(o, available, st.enforceAspect)
    && forall p :: p in st.options && Eligible(p, available, st.enforceAspect) ==> !RanksBefore(p.size, o.size, available)
  }

  /** `bestOption(for:)`: filter, sort, take the first. */
  function BestOption<C(==,!new)>(st: ConditionalSizeViewState<C>, available: Size): (r: Option<SizeOption<C>>)
    ensures r.None? <==> forall o :: o in st.options ==> !Eligible(o, available, st.enforceAspect)
    ensures r.Some? ==> IsBest(r.value, st, available)
  {
    var eligible := Filter(st.options, available, st.enforceAspect);
    var ranked := Sorted(eligible, available);
    if |ranked| == 0 then
      assert multiset(eligible) == multiset{};
      assert forall o :: o in st.options ==> o !in eligible;
      None
    else
      var top := ranked[0];
      assert top in multiset(ranked);
      assert top in eligible;
      forall p | p in st.options && Eligible(p, available, st.enforceAspect)
        ensures !RanksBefore(p.size, top.size, available)
      {
        assert p in multiset(ranked);
        var j :| 0 <= j < |ranked| && ranked[j] == p;
        if j == 0 {
          RanksBeforeIsStrictWeakOrder(p.size, p.size, p.size, available);
        }
      }
      Some(top)
  }

  // ---------------------------------------------------------------------------
  // Properties of the selector.
  // ---------------------------------------------------------------------------

  /** A returned option fits the offered space in both dimensions. */
  lemma BestOptionFits<C(!new)>(st: ConditionalSizeViewState<C>, available: Size)
    ensures BestOption(st, available).Some? ==>
      var o := BestOption(st, available).value;
      o.size.height <= available.height && o.size.width <= available.width
  {
  }

  /** With aspect enforced, a returned option's aspect class is the offered space's. */
  lemma BestOptionMatchesAspect<C(!new)>(st: ConditionalSizeViewState<C>, available: Size)
    requires st.enforceAspect
    ensures BestOption(st, available).Some? ==>
      (BestOption(st, available).value.size.height >= BestOption(st, available).value.size.width)
      == (available.height >= available.width)
  {
  }

  /** With aspect enforced, fitting options all of the wrong aspect class give nothing. */
  lemma AspectMismatchGivesNone<C(!new)>(st: ConditionalSizeViewState<C>, available: Size)
    requires st.enforceAspect
    requires forall o :: o in st.options && Fits(o.size, available) ==> IsVertical(o.size) != IsVertical(available)
    ensures BestOption(st, available) == None
  {
  }

  /** The result is absent exactly when no option passes the filter, and is otherwise one of the options. */
  lemma BestOptionIsMember<C(!new)>(st: ConditionalSizeViewState<C>, available: Size)
    ensures BestOption(st, available) == None <==> (forall o :: o in st.options ==> !Eligible(o, available, st.enforceAspect))
    ensures BestOption(st, available).Some? ==> BestOption(st, available).value in st.options
  {
  }

  /** The returned option has at least as many pixels as every option that passes the filter. */
  lemma BestOptionHasMostPixels<C(!new)>(st: ConditionalSizeViewState<C>, available: Size, p: SizeOption<C>)
    requires p in st.options && Eligible(p, available, st.enforceAspect)
    ensures BestOption(st, available).Some?
    ensures Pixels(BestOption(st, available).value.size) >= Pixels(p.size)
  {
  }

  /**
   * Among options that pass the filter and have as many pixels as the
   * result, the result is the tallest when the offered space is vertical
   * or square, and the widest otherwise.
   */
  lemma BestOptionBreaksTiesByOrientation<C(!new)>(st: ConditionalSizeViewState<C>, available: Size, p: SizeOption<C>)
    requires p in st.options && Eligible(p, available, st.enforceAspect)
    requires BestOption(st, available).Some?
    requires Pixels(p.size) == Pixels(BestOption(st, available).value.size)
    ensures available.height >= available.width ==> BestOption(st, available).value.size.height >= p.size.height
    ensures available.height < available.width ==> BestOption(st, available).value.size.width >= p.size.width
  {
  }

  /**
   * The ranking pins the result down up to genuine ties: any two best
   * options have the same pixel count and the same deciding dimension, and
   * when that pixel count is not zero they have the same size, so in a
   * size-keyed option set they are the same option.
   */
  lemma {:induction false} BestIsUniqueUpToTies<C(!new)>(st: ConditionalSizeViewState<C>, available: Size, a: SizeOption<C>, b: SizeOption<C>)
    requires IsBest(a, st, available) && IsBest(b, st, available)
    ensures Pixels(a.size) == Pixels(b.size)
    ensures IsVertical(available) ==> a.size.height == b.size.height
    ensures !IsVertical(available) ==> a.size.width == b.size.width
    ensures Pixels(a.size) != 0.0 ==> a.size == b.size
    ensures Pixels(a.size) != 0.0 && SizeKeyed(st.options) ==> a == b
  {
    assert !RanksBefore(a.size, b.size, available) && !RanksBefore(b.size, a.size, available);
    if Pixels(a.size) != 0.0 {
      if IsVertical(available) {
        SameFactor(a.size.height, a.size.width, b.size.width);
      } else {
        SameFactor(a.size.width, a.size.height, b.size.height);
        assert a.size.height * a.size.width == a.size.width * a.size.height;
        assert b.size.height * b.size.width == b.size.width * b.size.height;
      }
      if SizeKeyed(st.options) {
        var i :| 0 <= i < |st.options| && st.options[i] == a;
        var j :| 0 <= j < |st.options| && st.options[j] == b;
      }
    }
  }

  /**
   * An option that passes the filter and strictly outranks every other
   * option passing the filter is the one returned.
   */
  lemma StrictWinnerIsChosen<C(!new)>(st: ConditionalSizeViewState<C>, available: Size, o: SizeOption<C>)
    requires o in st.options && Eligible(o, available, st.enforceAspect)
    requires forall p :: p in st.options && Eligible(p, available, st.enforceAspect) && p != o ==> RanksBefore(o.size, p.size, available)
    ensures BestOption(st, available) == Some(o)
  {
  }

  /** Cancelling a non-zero common factor. */
  lemma SameFactor(k: real, x: real, y: real)
    requires k * x == k * y && k * x != 0.0
    ensures x == y
  {
    assert k != 0.0;
    assert k * (x - y) == 0.0;
  }

  /**
   * Two options of zero height tie completely in vertical offered space:
   * both are best, so the ranking alone does not decide between them.
   */
  lemma ZeroHeightOptionsTie()
    ensures var st := ConditionalSizeViewState([SizeOption(Size(5.0, 0.0), "a"), SizeOption(Size(7.0, 0.0), "b")], false);
      && SizeKeyed(st.options)
      && IsBest(st.options[0], st, Size(10.0, 10.0))
      && IsBest(st.options[1], st, Size(10.0, 10.0))
  {
  }
}
