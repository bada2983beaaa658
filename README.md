# UIExtensions core: best-fit size selection and last-good-value memoization

This project models two small pieces of logic in the UIExtensions Swift library and proves their properties in Dafny.

**Conditional size view state** (`conditional_size.dfy`, module `ConditionalSize`). A `ConditionalSizeViewState` holds a set of options. Each option pairs a size with a content state. Options are identified by size alone: their `==` and `hash(into:)` look only at width and height. So the set holds at most one option per size. `bestOption(for:)` works in three steps:

- It keeps the options that fit the offered size in height and in width.
- When `enforceAspect` is set, it also keeps only options whose portrait-or-square versus landscape class matches the offered size.
- It sorts the survivors with a comparator and returns the first. The comparator puts more pixels first. At equal pixels it puts the taller option first when the offered space is vertical or square, and the wider one first otherwise.

In the model, the Swift `Set<Option>` is a sequence of options in the set's iteration order. The predicate `SizeKeyed` says no two of them share a size. `OptionSet` builds such a set from an array literal, the way the size-only `==` makes a Swift set literal drop repeated sizes. `BestOption` has the same shape as the source: `Filter`, then `Sorted` (a stable insertion sort under the source's comparator, `RanksBefore`), then the first element. Its contract is stated against an independent definition, `IsBest`: an option is best if it is one of the options, passes the filter, and no option that passes the filter ranks before it. All sixteen concrete scenarios of the library's test suite for this type are proved in `scenarios.dfy` (module `ConditionalSizeScenarios`), one lemma each, and every one of them uses the options the test writes and the state `init` builds from them.

**Memoized presenters** (`presenter.dfy`, module `Presenter`; `presenter_with_input.dfy`, module `PresenterWithInput`). `memoizedHandleState()` wraps a presenter (state to view model) in a closure that captures a mutable `lastValue: ViewModel?`. A non-empty view model is stored and returned. An empty one is replaced by the stored value, if there is one. The closure is the class `Presenter.Memoized`: the wrapped presenter and the view model type's `.empty` are constants, `lastValue` is a field, and `Call` is one invocation. The ghost field `seen` records the states passed so far. `Valid()` says that `lastValue` is always `LastGood` of the presenter's results on `seen`, meaning its most recent non-empty result. `PresenterWithInput.MemoizedHandleState` applies `handleState(input:)` once and builds the same closure around the result. The source's two closure bodies are identical, so the model has one class.

`Wrappers` (`wrappers.dfy`) holds the `Option` type, which models Swift's optionals.

## Model

| member | source | states |
|---|---|---|
| ConditionalSize.SameOption | Sources/UIExtensions/Components/SwiftUI/Pure/ConditionalSizeViewState.swift:25-27 | two options are equal when their sizes are equal; the content state is not compared |
| ConditionalSize.HashInput | Sources/UIExtensions/Components/SwiftUI/Pure/ConditionalSizeViewState.swift:19-22 | the hasher is fed exactly two values, the width and then the height |
| ConditionalSize.SameOptionSameHash | Sources/UIExtensions/Components/SwiftUI/Pure/ConditionalSizeViewState.swift:19-28 | two options are equal exactly when the hasher is fed the same width and height for both, so equality and hashing agree and ignore the content state |
| ConditionalSize.OptionSet | Sources/UIExtensions/Components/SwiftUI/Pure/ConditionalSizeViewState.swift:12-28 | a set literal of options holds at most one option per size, has exactly the literal's sizes, and keeps only an option that was the first of its size in the literal |
| ConditionalSize.OptionSetCount | Tests/UIExtensionsTests/ConditionalSizeViewTests.swift:107-119 | the option set's count is the number of distinct sizes in the literal |
| ConditionalSize.OptionSetOfSizeKeyed | Sources/UIExtensions/Components/SwiftUI/Pure/ConditionalSizeViewState.swift:12-28 | a literal whose sizes are pairwise different goes into the set whole and unchanged |
| ConditionalSize.SizeKeyedCount | Sources/UIExtensions/Components/SwiftUI/Pure/ConditionalSizeViewState.swift:12-13 | a set with one option per size has as many options as distinct sizes |
| ConditionalSize.Init | Sources/UIExtensions/Components/SwiftUI/Pure/ConditionalSizeViewState.swift:31-37 | the view state keeps the given options and aspect flag unchanged; the options are a set, so they hold one option per size; the Swift default `enforceAspect = false` is passed explicitly by callers |
| ConditionalSize.Eligible | Sources/UIExtensions/Components/SwiftUI/Pure/ConditionalSizeViewState.swift:41-48 | an option passes the filter when it fits in height and width and, if aspect is enforced, its `height >= width` agrees with the offered size's |
| ConditionalSize.Filter | Sources/UIExtensions/Components/SwiftUI/Pure/ConditionalSizeViewState.swift:40-49 | an option survives the filter exactly when it is one of the options, fits in height and width, and, if aspect is enforced, has the offered space's aspect class |
| ConditionalSize.RanksBefore | Sources/UIExtensions/Components/SwiftUI/Pure/ConditionalSizeViewState.swift:50-72 | `a` ranks before `b` when it has more pixels; at equal pixels, when it is taller in vertical or square offered space, and wider otherwise |
| ConditionalSize.RanksBeforeIsStrictWeakOrder | Sources/UIExtensions/Components/SwiftUI/Pure/ConditionalSizeViewState.swift:50-72 | the sort comparator (pixels first, then height or width by the offered orientation) is irreflexive, asymmetric and transitive, and its incomparability is transitive, so it is a valid `sorted(by:)` ordering |
| ConditionalSize.Insert | Sources/UIExtensions/Components/SwiftUI/Pure/ConditionalSizeViewState.swift:50-72 | inserting into a ranked sequence adds exactly that one element and keeps the sequence ranked |
| ConditionalSize.Sorted | Sources/UIExtensions/Components/SwiftUI/Pure/ConditionalSizeViewState.swift:50-72 | the sorted options are a permutation of the filtered ones, and no option ranks before an earlier one |
| ConditionalSize.BestOption | Sources/UIExtensions/Components/SwiftUI/Pure/ConditionalSizeViewState.swift:39-74 | the result is nil exactly when no option passes the filter; otherwise it is a best option: one of the options, passing the filter, outranked by no option that passes the filter |
| ConditionalSize.BestOptionFits | Sources/UIExtensions/Components/SwiftUI/Pure/ConditionalSizeViewState.swift:42-43 | a returned option is no taller and no wider than the offered size |
| ConditionalSize.BestOptionMatchesAspect | Sources/UIExtensions/Components/SwiftUI/Pure/ConditionalSizeViewState.swift:44-48 | with aspect enforced, a returned option has `height >= width` exactly when the offered size does |
| ConditionalSize.AspectMismatchGivesNone | Sources/UIExtensions/Components/SwiftUI/Pure/ConditionalSizeViewState.swift:44-48 | with aspect enforced, if every option that fits has the other aspect class, the result is nil |
| ConditionalSize.BestOptionIsMember | Sources/UIExtensions/Components/SwiftUI/Pure/ConditionalSizeViewState.swift:40-73 | the result is nil exactly when no option passes the filter, and otherwise the result is one of the options |
| ConditionalSize.BestOptionHasMostPixels | Sources/UIExtensions/Components/SwiftUI/Pure/ConditionalSizeViewState.swift:57-62 | if any option passes the filter, there is a result, and its `height * width` is at least that of every option passing the filter |
| ConditionalSize.BestOptionBreaksTiesByOrientation | Sources/UIExtensions/Components/SwiftUI/Pure/ConditionalSizeViewState.swift:64-70 | among options that pass the filter and have the result's pixel count, the result has the greatest height when the offered space is vertical or square, and the greatest width otherwise |
| ConditionalSize.BestIsUniqueUpToTies | Sources/UIExtensions/Components/SwiftUI/Pure/ConditionalSizeViewState.swift:11-13 | any two best options have equal pixel counts and equal deciding dimensions; if the pixel count is non-zero they have the same size, and in a set with one option per size they are the same option |
| ConditionalSize.StrictWinnerIsChosen | Sources/UIExtensions/Components/SwiftUI/Pure/ConditionalSizeViewState.swift:50-73 | an option that passes the filter and strictly outranks every other option that passes is the one returned |
| ConditionalSize.ZeroHeightOptionsTie | Sources/UIExtensions/Components/SwiftUI/Pure/ConditionalSizeViewState.swift:57-70 | two zero-height options of different widths tie completely in square offered space: both are best, so the ranking alone does not choose between them |
| ConditionalSizeScenarios.FitsAllSizesPickTheLargest | Tests/UIExtensionsTests/ConditionalSizeViewTests.swift:7-19 | squares 200 to 600 in 800x600 give the 600 option |
| ConditionalSizeScenarios.DoesNotFitLargestBecauseOfHeight | Tests/UIExtensionsTests/ConditionalSizeViewTests.swift:21-33 | the same squares in 800x599 give the 500 option |
| ConditionalSizeScenarios.DoesNotFitLargestBecauseOfWidth | Tests/UIExtensionsTests/ConditionalSizeViewTests.swift:35-47 | the same squares in 599x600 give the 500 option |
| ConditionalSizeScenarios.DoesNotFitLargestBecauseOfBothDimensions | Tests/UIExtensionsTests/ConditionalSizeViewTests.swift:49-61 | the squares in another literal order in 599x499 give the 400 option |
| ConditionalSizeScenarios.PicksCorrectAspectHorizontal | Tests/UIExtensionsTests/ConditionalSizeViewTests.swift:63-72 | 200x400 and 400x200 in 400x200 give the horizontal option |
| ConditionalSizeScenarios.PicksCorrectAspectVertical | Tests/UIExtensionsTests/ConditionalSizeViewTests.swift:74-83 | 200x400 and 400x200 in 200x400 give the vertical option |
| ConditionalSizeScenarios.NoneWhenNoMatchBecauseOfWidth | Tests/UIExtensionsTests/ConditionalSizeViewTests.swift:121-133 | the same squares in 199x600 give nil |
| ConditionalSizeScenarios.NoneWhenNoMatchBecauseOfHeight | Tests/UIExtensionsTests/ConditionalSizeViewTests.swift:135-147 | the same squares in 800x199 give nil |
| ConditionalSizeScenarios.NoneWhenNoMatchBecauseOfBothDimensions | Tests/UIExtensionsTests/ConditionalSizeViewTests.swift:149-161 | the same squares in 199x199 give nil |
| ConditionalSizeScenarios.HeightDecidesInVerticalSpace | Tests/UIExtensionsTests/ConditionalSizeViewTests.swift:85-94 | 200x400 and 400x200 in 720x1080 give the vertical option |
| ConditionalSizeScenarios.WidthDecidesInHorizontalSpace | Tests/UIExtensionsTests/ConditionalSizeViewTests.swift:96-105 | 200x400 and 400x200 in 1080x720 give the horizontal option |
| ConditionalSizeScenarios.SameSizeOptionsCollapse | Tests/UIExtensionsTests/ConditionalSizeViewTests.swift:107-119 | four 200x400 options make a set of one, and 400x400 gives the first of them |
| ConditionalSizeScenarios.EnforcedAspectFitsAllSizesPickTheLargest | Tests/UIExtensionsTests/ConditionalSizeViewTests.swift:166-178 | with aspect enforced, portrait options 200x300 to 600x700 in 800x1080 give 600x700 |
| ConditionalSizeScenarios.EnforcedAspectMismatchGivesNone | Tests/UIExtensionsTests/ConditionalSizeViewTests.swift:180-192 | with aspect enforced, portrait options in 1080x800 give nil |
| ConditionalSizeScenarios.EnforcedAspectPicksLargestOfDesiredAspect | Tests/UIExtensionsTests/ConditionalSizeViewTests.swift:194-214 | with aspect enforced, portrait and landscape options in 800x1080 give 600x700 |
| ConditionalSizeScenarios.UnenforcedAspectPicksLargestOfAnyAspect | Tests/UIExtensionsTests/ConditionalSizeViewTests.swift:216-236 | without aspect enforcement, the same options in 800x1080 give 701x600 |
| Presenter.Applied | Sources/UIExtensions/Presentation/Presenter.swift:55-59 | the presenter's results on successive states, one per state, in order |
| Presenter.LastGood | Sources/UIExtensions/Presentation/Presenter.swift:61-76 | the last good value is never `.empty` and is one of the results; there is none exactly when every result was `.empty` |
| Presenter.LastGoodAppend | Sources/UIExtensions/Presentation/Presenter.swift:61-77 | a non-empty result becomes the last good value; an empty result leaves it unchanged |
| Presenter.LastGoodIsMostRecent | Sources/UIExtensions/Presentation/Presenter.swift:57-79 | the last good value is `v` exactly when some result is the non-empty `v` and every later result is `.empty` |
| Presenter.LastGoodPersists | Sources/UIExtensions/Presentation/Presenter.swift:57-79 | once there is a last good value, there is one after any further results |
| Presenter.ShownNeverEmptyAfterGood | Sources/UIExtensions/Presentation/Presenter.swift:57-79 | once the closure has shown a non-empty view model, it never shows `.empty` again |
| Presenter.Memoized.Valid | Sources/UIExtensions/Presentation/Presenter.swift:57-79 | the captured `lastValue` is the most recent non-empty result of the presenter over all calls so far, or nil if there is none |
| Presenter.Memoized.constructor | Sources/UIExtensions/Presentation/Presenter.swift:53-55 | a new closure wraps the given presenter and starts with `lastValue` nil |
| Presenter.Memoized.Call | Sources/UIExtensions/Presentation/Presenter.swift:57-79 | a non-empty result is returned unchanged and replaces `lastValue`; an empty result leaves `lastValue` unchanged and returns it, or `.empty` if it is nil; the output is always the last good result of all calls so far, and never `.empty` once `lastValue` is set |
| Presenter.MemoizedHandleState | Sources/UIExtensions/Presentation/Presenter.swift:51-80 | each call returns a newly allocated closure over `handleState` with `lastValue` nil |
| Presenter.ClosuresAreIndependent | Sources/UIExtensions/Presentation/Presenter.swift:53 | two closures do not share `lastValue`: each one's first call returns the presenter's own result |
| PresenterWithInput.MemoizedHandleState | Sources/UIExtensions/Presentation/PresenterWithInput.swift:55-84 | each call returns a newly allocated closure with `lastValue` nil, around the presenter `handleState(input)` bound at construction |
| PresenterWithInput.CallTwice | Sources/UIExtensions/Presentation/PresenterWithInput.swift:59-83 | both calls use the presenter bound to `input`; the first returns its result unchanged, and the second returns its own result unless that is `.empty`, in which case it returns the first call's output |
| PresenterWithInput.ClosuresAreIndependent | Sources/UIExtensions/Presentation/PresenterWithInput.swift:57 | closures built by separate calls for the same input do not share `lastValue` |

## Left out

- Floating point: `CGFloat` dimensions are modelled as real numbers. NaN, infinities and rounding in `height * width` are not modelled.
- Which option wins a genuine tie is not promised. `BestOption`'s contract says only "best under the ranking". The model's insertion sort happens to keep the earliest option in iteration order, but Swift leaves both the `Set` iteration order and the stability of `sorted(by:)` unspecified. A genuine tie needs equal pixels and an equal deciding dimension; with distinct sizes that happens only at zero pixels (`ZeroHeightOptionsTie`).
- OptionSet: when sizes repeat, the model keeps the first option of each size. The test suite observes this, but it is the Swift set initialiser's behaviour, not something this code decides. The contract states exactly that policy.
- The default argument `enforceAspect: Bool = false` of `init` is not modelled as a default; `Init` takes the flag explicitly and the scenarios pass `false` where the tests omit it.
- Idempotence of `bestOption(for:)` gets no lemma of its own. The view state is an immutable value and `BestOption` is a function, so repeated calls with the same size give the same result by construction.
- `viewModel(store:)` and `viewModel(input:store:)` are left out. They forward to the reactive-store framework (`store.projection`, `asObservableViewModel`), and that framework is not part of this model.
- The `handleState`/`handleState(input:)` functions are parameters (total functions from state to view model). `Emptyable`'s `.empty` is a parameter value of the view model type.
- `handleEvent` and the `emptyViewModel` default are left out. They are used only by the store bindings.
- The SwiftUI view `ConditionalSizeView`, its geometry reader and the rest of the library's SwiftUI/UIKit components are left out. They are rendering plumbing with no logic of their own.
