# Hyprland decision logic, verified

A Dafny model of the parts of the Hyprland compositor that decide things with plain integers, strings
and reals: which workspace a string such as `r+2`, `m-1`, `empty` or `r~3` means, where a dragged window
snaps, which workspaces a selector such as `w[tv2-4] m[DP-1]` matches, how a control request is split,
flagged and dispatched, and a few smaller algorithms around them.

| module | what it is about |
|---|---|
| `Ids`, `RelativeWorkspace`, `RelativeLaws` | the `r` family of workspace moves: guess-and-correct code, the plain enumeration, and when they agree |
| `WorkspaceMoves` | the cyclic `m`/`e` moves in mixed signedness, and the `empty` search |
| `Names`, `NameLaws` | config names of workspaces, their resolution, and their use as selectors |
| `Selector`, `SelectorLaws` | the selector scanner, a selector syntax with printer and meaning, and their agreement |
| `Snap` | `performSnap`: window loop, monitor edges, ratio repair |
| `HyprCtl`, `HyprCtlLaws`, `Client`, `SocketWrite` | request flags, batches, recursive dispatch, the client's argument loop, the partial-write loop |
| `DamageTick` | damage batching of an animation tick |
| `ConfigTree`, `BraceMatch` | the Lua stub generator's class tree and its brace scanner |
| `JsonEscape`, `ErrorText` | JSON string escaping, the error overlay's text |
| `Text` | blanks, searching, decimal numbers |

Code that changes things step by step is written as methods with loops (a class for `CHyprCtl`, whose
fields a request updates). Each method is proved equal to a specification function or to an outright
property, and the lemmas say what those functions mean against an independent notion: the enumeration of
valid ids, a printed syntax tree, the list of joined commands, the naive per-variable damage.
`dafny verify dfyconfig.toml` checks everything.

## What the proofs found

The code is modelled as written. Where it does less than its comments or neighbouring branches promise,
there is an exact condition:

- `r+k` from a named workspace keeps the count made for the first prediction when it crosses into the
  numbered ones (`src/helpers/MiscFunctions.cpp:294-299` and `319-324`), so it overshoots by the number of
  forbidden ids between the workspace and its guess; one open special workspace is enough
  (`SeamOvershoots`). `ForwardAgreesWithListing` gives the condition under which it is right.
- `r-k` inside the named list always lands on the last named workspace, whatever k is, because the result
  of the named branch is overridden (`src/helpers/MiscFunctions.cpp:345-352`); past the start of the list
  it returns a negative number computed from the list's length alone (`BackwardInsideNamed`,
  `BackwardPastNamed`).
- `r-k` with too few valid ids below reaches the right named workspace only under `CrossesBackRight`; with 2
  forbidden, `r-2` from 3 stops at 1 (`StopsAtOne`).
- From a forbidden workspace `r-k` looks for the (k+1)-th valid id below (`BackwardFromForbidden` says where it
  ends for every k). When at least k valid ids lie below, it is right exactly when k is their number and 1 is
  one of them (`ForbiddenIsRight`); when every id up to the start is forbidden it even goes up
  (`ForbiddenGoesUp`).
- The comment at `src/helpers/MiscFunctions.cpp:356` says that everything below the search start is
  invalid. The fallback yields the least valid id exactly when no valid id lies up to and including that
  start (`BackwardFallbackIsLeast`); with 1 and 3 forbidden, `r-2` from 4 stays on 4 though 2 is valid
  (`FallbackMissesLeast`).
- `successWrite` reports failure although every byte was delivered exactly when the write behind a stall of 21
  full buffers takes the rest (`src/debug/HyprCtl.cpp:2173-2178`, `SocketWrite.Late`; `LateDelivery` is such a
  socket).
- A command without a flag prefix but with a slash in a later word has the letters of its first word read
  as flags: `keyword x /path` in a batch triggers a full reload (`KeywordPathReloads`,
  `src/debug/HyprCtl.cpp:2065-2092`).
- A flag given twice to the client is an unknown option (`hyprctl/src/main.cpp:414-465`).
- With the special id -2 in use, the next special id handed out is -1, the invalid one (`NewSpecialId`).
- The stub generator's class tree loses a route exactly when another one meets its end behind the same class
  names (`ReachedExactly`); `a_b.x` and `a__b.x` do (`CollidingRoutes`).
- A config name resolves to its workspace except when its id exceeds an int, where `std::stoi` throws; as a
  selector it also fails for names with trailing blanks, which are trimmed away.
- The error overlay drops a shown line if it is the only one that fits and is empty (`DisplayAddsUp`).

## Model

| member | source | states |
|---|---|---|
| `RelativeWorkspace.Collect` | src/helpers/MiscFunctions.cpp:233-263 | the forbidden ids are exactly those of special or foreign workspaces and of enabled rules bound to another monitor; the named list is ascending, negative, and exactly the named workspaces of the focused monitor |
| `RelativeWorkspace.ResolveAbsolute` | src/helpers/MiscFunctions.cpp:265-281 | for every int n, `r~n` is the n-th place of "named workspaces, then valid positive ids", 0 when there is no such place |
| `RelativeWorkspace.CountForbidden` | src/helpers/MiscFunctions.cpp:294-299 | iterating the ordered set from its upper bound counts exactly the forbidden ids of the interval, also when it is empty |
| `RelativeWorkspace.LeaveNamed` | src/helpers/MiscFunctions.cpp:301-331 | in wrapping size_t arithmetic: the move stays in the named list exactly when the mathematical index does, otherwise it continues at the seam with the old count plus the new one |
| `RelativeWorkspace.WalkDown` | src/helpers/MiscFunctions.cpp:337-344 | the walk reaches the need-th valid id below if there is one, otherwise stops at 1 with exactly the missing number of steps left |
| `RelativeWorkspace.WalkUp` | src/helpers/MiscFunctions.cpp:362-370 | the walk reaches the need-th valid id above if that is below INT32_MAX, otherwise stops just below it |
| `RelativeWorkspace.SearchBack` | src/helpers/MiscFunctions.cpp:335-370 | backward walk with its fallbacks to the named list (size_t wrap included) and to the upward search |
| `RelativeWorkspace.ResolveRelative` | src/helpers/MiscFunctions.cpp:282-372 | all of `r+k` and `r-k`, for every active id and every k, lands where the plain walks of `Relative` land |
| `RelativeLaws.EveryTargetHasOnePlace` | src/helpers/MiscFunctions.cpp:265-281 | the enumeration of `r~n` is strictly increasing and its places are exactly the named workspaces and the valid positive ids |
| `RelativeLaws.GuessAndCorrect` | src/helpers/MiscFunctions.cpp:284-299 | going to a + k and on by the forbidden ids passed is going up k valid ids, for every finite forbidden set |
| `RelativeLaws.ForwardFromPositive` | src/helpers/MiscFunctions.cpp:284-370 | `r+k` from a non-negative workspace is the k-th valid id above it if and only if no correction is needed or that id is below INT32_MAX |
| `RelativeLaws.ForwardStopsBelowLimit` | src/helpers/MiscFunctions.cpp:363-369 | otherwise the walk ends on 2147483646, or on the guess if that is beyond |
| `RelativeLaws.ForwardInsideNamed` | src/helpers/MiscFunctions.cpp:302-331 | inside the named list `r+k` moves exactly k places |
| `RelativeLaws.ForwardFromUnlisted` | src/helpers/MiscFunctions.cpp:305-331 | from a negative workspace that is not listed `r+k` counts from before the first named one |
| `RelativeLaws.ForwardAcrossSeam` | src/helpers/MiscFunctions.cpp:315-325 | across the seam `r+k` overshoots by exactly the forbidden ids the first prediction counted |
| `RelativeLaws.ForwardAgreesWithListing` | src/helpers/MiscFunctions.cpp:265-370 | `r+k` from the answer of `r~n` is the answer of `r~(n+k)` if and only if the seam is not crossed or was crossed with no such miscount |
| `RelativeLaws.SeamOvershoots` | src/helpers/MiscFunctions.cpp:294-325 | a concrete family where agreement fails: with one special workspace open, `r+1` from the only named workspace skips workspace 1 |
| `RelativeLaws.ForwardMovesCompose` | src/helpers/MiscFunctions.cpp:284-370 | `r+j` then `r+k` is `r+(j+k)` |
| `RelativeLaws.BackwardFromPositive` | src/helpers/MiscFunctions.cpp:288-344 | `r-k` from a valid positive workspace is the k-th valid id below it whenever one exists |
| `RelativeLaws.BackwardFromForbidden` | src/helpers/MiscFunctions.cpp:288-371 | from a forbidden workspace, for every k: `r-k` is the (k+1)-th valid id below if there is one, otherwise 1, a named workspace or the first valid id above the guess, by an exact case split |
| `RelativeLaws.ForbiddenIsRight` | src/helpers/MiscFunctions.cpp:288-371 | with at least k valid ids below, it is the k-th one if and only if k is their number and 1 is valid (or nothing can move at all) |
| `RelativeLaws.ForbiddenGoesUp` | src/helpers/MiscFunctions.cpp:294-370 | with all ids up to the active one forbidden and none named, `r-k` goes to the next id above, for every k |
| `RelativeLaws.BackwardAcrossSeam` | src/helpers/MiscFunctions.cpp:336-361 | with too few valid ids below, the right named workspace is reached if and only if `CrossesBackRight` |
| `RelativeLaws.BackwardRunsOut` | src/helpers/MiscFunctions.cpp:336-370 | where `r-k` ends for every k larger than the number of valid ids below, by an exact case split |
| `RelativeLaws.BackwardPastAll` | src/helpers/MiscFunctions.cpp:345-352 | farther back than the named list is long it ends on the last named workspace, the wrapped index being clamped |
| `RelativeLaws.StopsAtOne` | src/helpers/MiscFunctions.cpp:336-352 | an input where it is not: with 2 forbidden, `r-2` from 3 ends on 1 instead of the named workspace |
| `RelativeLaws.BackwardAgreesWithListing` | src/helpers/MiscFunctions.cpp:265-371 | `r-k` from the answer of `r~n` is the answer of `r~(n-k)`: the exact condition for every place and every k < n |
| `RelativeLaws.BackwardInsideNamed` | src/helpers/MiscFunctions.cpp:326-352 | inside the named list `r-k` ends on the last named workspace |
| `RelativeLaws.BackwardPastNamed` | src/helpers/MiscFunctions.cpp:313-325 | past the start of the named list the result is n - k - size, a negative number |
| `RelativeLaws.BackwardStaysValid` | src/helpers/MiscFunctions.cpp:336-371 | for every k, `r-k` from a valid positive workspace ends on a named workspace or on a valid positive id not above the start |
| `RelativeLaws.BackwardFallbackIsLeast` | src/helpers/MiscFunctions.cpp:353-370 | the upward fallback finds the first valid id above the guess; it is the least valid id if and only if none lies at or below the guess |
| `RelativeLaws.FallbackMissesLeast` | src/helpers/MiscFunctions.cpp:353-370 | an input where one does: with 1 and 3 forbidden, `r-2` from 4 stays on 4 while 2 is valid |
| `RelativeLaws.ForwardThenBackward` | src/helpers/MiscFunctions.cpp:284-370 | `r+k` then `r-k` returns to a valid positive start |
| `RelativeLaws.BackwardThenForward` | src/helpers/MiscFunctions.cpp:284-370 | `r-k` then `r+k` returns to it too, whenever k valid ids exist below |
| `Ids.NthAboveCounts` | src/helpers/MiscFunctions.cpp:362-370 | the id reached by walking up k valid ids is valid and exactly k valid ids lie in between |
| `Ids.NthAboveUnique` | src/helpers/MiscFunctions.cpp:362-370 | it is the only id with that property |
| `Ids.NthBelowCounts` | src/helpers/MiscFunctions.cpp:337-344 | the same counting characterisation downwards |
| `Ids.NthBelowUnique` | src/helpers/MiscFunctions.cpp:337-344 | and its uniqueness |
| `WorkspaceMoves.ReduceOffset` | src/helpers/MiscFunctions.cpp:424 | the signed offset reduced in size_t and cut back to int is congruent to k modulo the size and smaller than it, for every int but INT_MIN |
| `WorkspaceMoves.Sanitize` | src/helpers/MiscFunctions.cpp:438-443 | the mixed signed and unsigned correction is the mathematical remainder, in bounds |
| `WorkspaceMoves.ResolveCyclic` | src/helpers/MiscFunctions.cpp:398-446 | `m+k`/`e+k` from place i of the sorted list is its element at i + k, one list length less or more when that is past either end; from an unlisted workspace, element k counted from the first |
| `WorkspaceMoves.CyclicPlace` | src/helpers/MiscFunctions.cpp:423-443 | for every k the index is i + k less any multiple of the length that brings it in bounds |
| `WorkspaceMoves.CyclicMovesCompose` | src/helpers/MiscFunctions.cpp:423-443 | cyclic moves add up and opposite moves cancel |
| `WorkspaceMoves.CyclicTour` | src/helpers/MiscFunctions.cpp:423-443 | as many single steps as there are workspaces visit each exactly once |
| `WorkspaceMoves.ResolveNth` | src/helpers/MiscFunctions.cpp:412-421 | `m~n` is the workspace with exactly n - 1 smaller ones, clamped to the ends |
| `WorkspaceMoves.ResolveEmpty` | src/helpers/MiscFunctions.cpp:149-176 | the least id above the start that is neither forbidden nor occupied, found within (number of blocked ids) + 1 steps; -1 when there is none below LONG_MAX; from a negative start the id is positive if and only if every id up to 0 is blocked |
| `Names.QueryName` | src/state/WorkspaceQueryCore.cpp:48-63 | the first live workspace with the name, inert ones skipped |
| `Names.NewSpecialId` | src/state/WorkspaceQueryCore.cpp:70-81 | the id handed out is above every live special id and just behind one of them (or -98), and is a usable one if and only if -2 (or a higher id) is not taken by a special workspace |
| `Names.NextNamedId` | src/state/WorkspaceQueryCore.cpp:83-99 | the id handed out is at most -1337, differs from every live workspace's and every persistent rule's, and is the next one below an id in use |
| `Names.ConfigNameResolves` | src/desktop/Workspace.cpp:109-118 | resolving a workspace's config name gives back its id, in any table with distinct ids and names; an id above INT_MAX throws |
| `Names.OffsetResolves` | src/helpers/MiscFunctions.cpp:449-459 | `+k` and `-k` count from the active workspace, never below 1; invalid without a focused monitor |
| `Names.NumberResolves` | src/helpers/MiscFunctions.cpp:460-461 | a number is that id, 1 for 0, and throws above 2147483647 |
| `NameLaws.ConfigNameVerdict` | src/desktop/Workspace.cpp:109-137 | the verdict of every workspace on a config name used as a selector |
| `NameLaws.ConfigNameSelects` | src/desktop/Workspace.cpp:109-137 | it selects that workspace and no other exactly for names without trailing blank and ids within int |
| `NameLaws.NumericSelector` | src/desktop/Workspace.cpp:126-132 | a numeric selector is matched by exactly the workspace it resolves to: n, 1 for 0, or max(active - k, 1) for -k; none for -k without a focused monitor |
| `NameLaws.BlankSelector` | src/desktop/Workspace.cpp:121-124 | a blank selector matches everything |
| `JsonEscape.EscapeJsonStrings` | src/helpers/MiscFunctions.cpp:85-105 | for every byte string the output decodes to the input by section 7 of RFC 8259 |
| `JsonEscape.DecodeEscape` | src/helpers/MiscFunctions.cpp:85-105 | escaped text is legal JSON string content and decoding undoes escaping |
| `JsonEscape.EscapeIsInjective` | src/helpers/MiscFunctions.cpp:85-105 | different inputs have different outputs |
| `Snap.SnapLow` | src/layout/LayoutManager.cpp:186-193 | in move mode the size is kept, otherwise the far edge |
| `Snap.SnapToWindow` | src/layout/LayoutManager.cpp:234-283 | the loop body keeps the invariant of the loop: at most one gap spent on an axis, and one more a newly set flag; only named edges snap, onto lines of windows seen; and the drag stays untouched exactly when this window is out of reach |
| `Snap.StepInCoordinates` | src/layout/LayoutManager.cpp:242-282 | what one window does to an unsnapped drag, in coordinates: beside it on an axis if the ranges overlap on the other, as they are or once x has snapped; flush with it if it is touched on the other axis, also by a snap just made; else nothing |
| `Snap.StepsAppend` | src/layout/LayoutManager.cpp:233-283 | windows act one after another in list order |
| `Snap.LastWindowWins` | src/layout/LayoutManager.cpp:233-251 | of two windows with close far edges the later one in the list gets the edge |
| `Snap.OthersDoNotMatter` | src/layout/LayoutManager.cpp:234-236 | a window that is the dragged one, elsewhere, unmapped, override-redirect or below a fullscreen one can be taken out of the list |
| `Snap.ReachExact` | src/layout/LayoutManager.cpp:242-282 | one window leaves an unsnapped dragged window alone exactly when none of its lines is within reach |
| `Snap.StepKeeps` | src/layout/LayoutManager.cpp:242-282 | one window spends at most one gap, plus one for a newly set flag, and snaps only onto its own lines |
| `Snap.SnapToWindows` | src/layout/LayoutManager.cpp:224-284 | for any number n of windows: total pull on an axis at most (n + 2) gaps, only named edges move, each onto a line of a window that takes part; untouched iff none is in reach; the result is that of the windows' steps in order |
| `Snap.SnapToScreen` | src/layout/LayoutManager.cpp:295-322 | the monitor edges of one axis: the work area's line where space is reserved and it is near, otherwise the physical edge's (`LowTarget`, `HighTarget`), the low edge before the high one; snaps iff a line is near; a resized edge that ends near a monitor line is on one |
| `Snap.TargetIsNear` | src/layout/LayoutManager.cpp:298-322 | the line so chosen is within reach exactly when any line of that side is |
| `Snap.WindowsThenMonitor` | src/layout/LayoutManager.cpp:224-323 | the result is that of the monitor alone on the box the windows alone have made |
| `Snap.RestoreRatio` | src/layout/LayoutManager.cpp:329-343 | after a snap the ratio is that of the begin size, the snapped axis is unchanged, and the other one keeps the edge opposite to the dragged one |
| `Snap.PerformSnap` | src/layout/LayoutManager.cpp:197-347 | move: a rigid translation by at most (n + 2) window gaps + 2 monitor gaps; resize: unnamed edges fixed, named ones where they were or, within that pull, on a snap line; force ratio: the ratio holds after any snap and the edges opposite to a dragged corner stay. It snaps exactly when some line is within reach: then a named edge of the resulting box is on a snap line, otherwise the box is unchanged. With one other window, and with the monitor alone, the box is given outright in coordinates |
| `Selector.GetWindowCount` | src/desktop/Workspace.cpp:429-452 | the number of targets meeting the three optional filters |
| `Selector.GetGroups` | src/desktop/Workspace.cpp:454-473 | the number of groups of the workspace meeting them |
| `Selector.ReadFlags` | src/desktop/Workspace.cpp:261-287 | the flag loop splits off exactly the leading flags, each taken once |
| `Selector.CutOne` | src/desktop/Workspace.cpp:141-160 | one scanner step: a blank, a property up to the next closing bracket, or no bracket at all |
| `Selector.Scan` | src/desktop/Workspace.cpp:141-392 | the index loop, which jumps behind each bracket, accepts exactly what the scan over texts accepts |
| `Selector.InterpretWindows` | src/desktop/Workspace.cpp:252-353 | `w[...]` with its flags, single number or range |
| `Selector.MatchesStaticSelector` | src/desktop/Workspace.cpp:120-397 | the verdict on any text, over all branches |
| `SelectorLaws.ConcatIsAnd` | src/desktop/Workspace.cpp:141-392 | the scanner is a homomorphism from concatenation at a token boundary to "and", for any reading of the properties |
| `SelectorLaws.FlagsRead` | src/desktop/Workspace.cpp:266-287 | printed flags, in any order, are read back as themselves |
| `SelectorLaws.CountMeans` | src/desktop/Workspace.cpp:304-312 | the count for the flags read is the cardinality of the windows, or groups, with those properties |
| `SelectorLaws.TermMeans` | src/desktop/Workspace.cpp:162-386 | a printed term evaluates to its meaning, for each of the eight kinds |
| `SelectorLaws.TrimIgnored` | src/desktop/Workspace.cpp:121-160 | blanks at either end never change the scanner's verdict, even on malformed texts |
| `SelectorLaws.PrintedEvaluates` | src/desktop/Workspace.cpp:139-392 | a printed list of terms evaluates to the conjunction of the terms' meanings, whatever blanks stand between them |
| `SelectorLaws.PrintedSelectorMatches` | src/desktop/Workspace.cpp:120-397 | the whole matching function on a printed non-empty selector is that conjunction |
| `SelectorLaws.SpellingsMean` | src/desktop/Workspace.cpp:202-250 | `s[...]` and `n[...]` take on/yes/true, off/no/false and numbers; a number other than 0 and 1 is never `n` |
| `SelectorLaws.MatchedForm` | src/desktop/Workspace.cpp:141-160 | conversely a matching text begins with one of the six letters and a bracketed argument that holds, and the rest matches |
| `SelectorLaws.MatchedRange` | src/desktop/Workspace.cpp:162-200 | `r[...]` matches only on two numbers around a dash that enclose the id |
| `HyprCtl.ReadFlags` | src/debug/HyprCtl.cpp:2059-2093 | the flag loop: letters before the first slash, or before the first blank if that comes earlier, and the remaining request |
| `HyprCtl.CHyprCtl.GetReply` | src/debug/HyprCtl.cpp:2058-2158 | reply, handler calls in order, reloads and request parameters of a request, batches nested to any depth; terminates since inner requests are shorter |
| `HyprCtl.CHyprCtl.DispatchPieces` | src/debug/HyprCtl.cpp:1308-1326 | the bracket loop runs the pieces of the batch in order and nothing else |
| `HyprCtl.CHyprCtl.DispatchBatch` | src/debug/HyprCtl.cpp:1305-1329 | the batch's replies joined, the last delimiter cut off |
| `HyprCtlLaws.SplitUndoesJoin` | src/debug/HyprCtl.cpp:1306-1326 | joining commands whose brackets sum to zero and that have no bare semicolon, then splitting, gives them back in order |
| `HyprCtlLaws.PiecesAreCommands` | src/debug/HyprCtl.cpp:1306-1326 | conversely every piece of any text is such a command |
| `HyprCtlLaws.SplitIsStable` | src/debug/HyprCtl.cpp:1306-1326 | splitting is a normal form |
| `HyprCtlLaws.BatchRunsEach` | src/debug/HyprCtl.cpp:1305-1329 | a batch of joined commands runs exactly those, trimmed, in order, each with its own flags, and replies with their replies separated by the delimiter |
| `HyprCtlLaws.FlagsThenBody` | src/debug/HyprCtl.cpp:2064-2093 | flags, a slash and any text: the server sees exactly those flags and that text |
| `HyprCtlLaws.FirstWordLeaks` | src/debug/HyprCtl.cpp:2065-2092 | without a prefix, letters of the first word become flags when a slash follows later |
| `HyprCtlLaws.KeywordPathReloads` | src/debug/HyprCtl.cpp:2065-2158 | running `keyword` with its handler executes it once, with the request as written, and reloads everything if and only if the value contains a slash |
| `HyprCtlLaws.ArrivesPlain` | src/debug/HyprCtl.cpp:2065-2092 | exactly when a request runs as written and without flags |
| `HyprCtlLaws.ExactAnswers` | src/debug/HyprCtl.cpp:2097-2106 | a registered exact command of that name with a non-empty reply is run once, alone, with the flags of the request, and everything is reloaded if and only if `r` is one of them |
| `HyprCtlLaws.InexactAnswers` | src/debug/HyprCtl.cpp:2108-2117 | otherwise the first inexact command whose name begins the request is, after the silent exact one if there is one |
| `HyprCtlLaws.UnknownExactly` | src/debug/HyprCtl.cpp:2119-2122 | the reply is `unknown request` if and only if neither answers, and then nothing is reloaded |
| `HyprCtlLaws.PlainIsUnflagged` | src/debug/HyprCtl.cpp:2064-2093 | a request without a slash is run as with an empty flag prefix |
| `SocketWrite.SuccessWrite` | src/debug/HyprCtl.cpp:2166-2199 | for every sequence of write outcomes: the peer has exactly the bytes the socket took, in order; true if and only if all are taken before an attempt that is broken or follows 21 full buffers, otherwise it fails at the first such attempt; it fails with everything delivered if and only if that attempt ends a stall and takes the rest; at most 21 attempts a byte plus one |
| `SocketWrite.SentNext` | src/debug/HyprCtl.cpp:2173-2195 | each attempt takes what it reports, at most what is left |
| `SocketWrite.LateDelivery` | src/debug/HyprCtl.cpp:2170-2178 | a buffer full for a number of attempts and then free: the write succeeds if and only if there are at most 20, and fails with everything delivered if and only if there are exactly 21 |
| `Client.ParseArguments` | hyprctl/src/main.cpp:399-481 | the loop reads the arguments as tokens: usage exactly when one is refused or no words remain; otherwise the flags are the letters given, each once, and the request is the words |
| `Client.TypedArguments` | hyprctl/src/main.cpp:406-481 | on argument lists as typed, literal options, words, -i with its instance, --batch and --: usage if and only if a flag is repeated or there are no words; otherwise the request is the words joined by blanks, in order, those behind --batch in a batch, and the flags are the letters of the options |
| `Client.UnknownOption` | hyprctl/src/main.cpp:428-466 | any other option, and -i with nothing behind it, ends in the usage |
| `Client.TypedArrives` | hyprctl/src/main.cpp:406-481 | the server reads exactly the words typed, joined by blanks, and each flag if and only if one of its options was typed |
| `Client.PlainBatch` | hyprctl/src/main.cpp:340-350 | a batch that is not JSON is sent as typed |
| `Client.FlagsSurviveTheTrip` | hyprctl/src/main.cpp:412-481 | the server sees json, reload, all and config exactly when they were given, and the words unchanged, slashes included |
| `Client.JsonBatchArrives` | hyprctl/src/main.cpp:340-350 | running a JSON batch runs every balanced command as itself, in order, in JSON mode and with no other flag, each handler getting just that, and replies with the replies separated by the delimiter |
| `DamageTick.CollectOwners` | src/animation/AnimationManager.cpp:194-256 | one record per distinct owner that has a monitor, none for others, and in it exactly the policies its variables ask for |
| `DamageTick.OwnerIs` | src/animation/AnimationManager.cpp:195-247 | the owner of a live variable is its window, else its workspace, else its layer |
| `DamageTick.DamagePass` | src/animation/AnimationManager.cpp:266-277 | the calls of a pass, record by record |
| `DamageTick.PassHasNoRepeats` | src/animation/AnimationManager.cpp:266-340 | no damage call is made twice in a pass, and none for an owner without record |
| `DamageTick.BatchingIsFaithful` | src/animation/AnimationManager.cpp:84-101 | a part of a window is damaged in a pass exactly when some variable asks for it or for the entire window |
| `DamageTick.OthersAreFaithful` | src/animation/AnimationManager.cpp:266-336 | workspaces and layers: damaged before the change exactly when animated (a workspace on its monitor), after it exactly when some variable asks for the entire one |
| `ConfigTree.BuildTree` | meta/generateLuaStubs.py:292-315 | the two loops perform the assignments of all routes, in order |
| `ConfigTree.RoutesAreReached` | meta/generateLuaStubs.py:292-315 | walking the tree along a route reaches that route's type, unless a route ends where another goes on or ends differently |
| `ConfigTree.ReachedExactly` | meta/generateLuaStubs.py:292-315 | all routes are reached if and only if that never happens, places being compared by class names and segment |
| `ConfigTree.LeafHasOneRoute` | meta/generateLuaStubs.py:292-315 | every leaf is the end of exactly one route and carries its type, when no place where a route ends belongs to another route |
| `ConfigTree.FaithfulExactly` | meta/generateLuaStubs.py:292-315 | routes reached and leaves unique, both together, if and only if that condition holds |
| `ConfigTree.ClassOfInjective` | meta/generateLuaStubs.py:305-308 | a class name belongs to one path when siblings keep different names |
| `ConfigTree.ConfigTreeIsFaithful` | meta/generateLuaStubs.py:277-315 | it does for every dictionary in which no route is, or begins, another one and sibling classes keep different names |
| `ConfigTree.SegmentsAreMembers` | meta/generateLuaStubs.py:300-314 | every segment of a route is a member of the class named by the segments before it: of class type up to the last, which has the value's type |
| `ConfigTree.ClassIsDotted` | meta/generateLuaStubs.py:296-308 | class names are the segments' names, each behind a dot |
| `ConfigTree.PascalOfWords` | meta/generateLuaStubs.py:277-280 | lower-case words joined by underscores become words with capital first letters; `opengl` becomes `OpenGL` |
| `ConfigTree.CollidingSiblings` | meta/generateLuaStubs.py:277-315 | two sibling segments with one class name: the later route's type is found at the end of the earlier one |
| `ConfigTree.CollidingRoutes` | meta/generateLuaStubs.py:277-315 | the dictionary of `a_b.x` and `a__b.x` is such a case, though prefix-free |
| `BraceMatch.FindMatchingBrace` | meta/generateLuaStubs.py:30-64 | called on an open brace: the index is the one that ends a well-formed block beginning there, and the error means that no block does |
| `BraceMatch.BlockStops` | meta/generateLuaStubs.py:36-62 | the scanner passes everything inside a printed block, braces in literals and escaped quotes included, and stops at its last brace |
| `BraceMatch.StopIsBlock` | meta/generateLuaStubs.py:36-62 | conversely whatever it stops in is a printed block |
| `BraceMatch.PlainBlocks` | meta/generateLuaStubs.py:57-62 | without quotes a block is a text whose braces balance at its end and not before |
| `BraceMatch.QuotedBlock` | meta/generateLuaStubs.py:39-55 | between quotes of either kind nothing counts but that quote and the backslash, which hides the character behind it |
| `ErrorText.TakeFirstNLines` | src/errorOverlay/Overlay.cpp:20-37 | the first n lines: a prefix that ends at a line's end and has n lines, or the whole text |
| `ErrorText.FirstLinesUnique` | src/errorOverlay/Overlay.cpp:20-37 | there is only one such prefix |
| `ErrorText.BuildVisibleText` | src/errorOverlay/Overlay.cpp:39-52 | the whole text if it fits, otherwise its first `limit` lines and behind them, on a line of its own, "(k more...)" with k + limit the number of lines of the text |
| `ErrorText.DisplayAddsUp` | src/errorOverlay/Overlay.cpp:39-52 | the number read off the last line of a shortened text and the limit add up to the line count; above it stand `limit` lines, if and only if it is not the case that one line fits and the text begins with a newline |

## Left out

- The `prev`, `next` and no-monitor branches of `getWorkspaceIDNameFromString`, the result names and the
  auto-id mark: lookups and forwarding.
- The float step of `getPlusMinusKeywordResult`: the offset is taken as the int it yields.
- WorkspaceMoves.ResolveEmpty: the letters behind `empty` are not parsed; `emptym` is a non-empty forbidden set
  and `emptyn` a start at the active workspace. Open workspaces count as occupied when they hold windows.
- The int counter of skipped workspaces is unbounded here; it cannot overflow with fewer than 2^31 forbidden ids.
- WorkspaceMoves.ResolveCyclic: needs a non-empty list, since the code divides by its size, and k above
  INT_MIN, whose negation is undefined in C++.
- WorkspaceMoves.ResolveNth: needs a non-empty list; on an empty one the code indexes out of range.
- Workspace, rule and monitor objects are records of the fields read; ordered sets and sorted vectors are
  ascending sequences.
- Snap.PerformSnap: coordinates are reals instead of doubles; the position and size written through
  references are an in- and an out-parameter; the edge bits of the corner are records; gap settings are
  non-negative, as their config range says; the begin size is non-zero in force-ratio mode, since the code
  divides by it; the early return for an unmapped window is not modelled.
- Selector.MatchesStaticSelector: `trim`, `isNumber`, `parseInt` and `std::stoi` are small specifications
  (blanks, decimal digits, ranges), and the monitor lookup is a finite map. Window counts are unbounded.
- Selector.GetWindowCount: null targets are not in the list, and a workspace without a layout space has an
  empty one.
- HyprCtl.CHyprCtl.GetReply: handlers are a pure function of the call they get, so a handler that registers
  commands or issues requests of its own is not captured; what a full reload does is counted, not
  modelled; replies are shorter than an int.
- SocketWrite.SuccessWrite: a successful write takes at least one byte; with zero the loop would never end.
  Sleeping is left out.
- Client.ParseArguments: the later choice of subcommand, instance selection, `--help` texts, the hyprpaper
  and hyprsunset requests and the retry of `writeAll` after a signal are left out.
- DamageTick.CollectOwners: weak pointers are ids, a flag set through a pointer is an update of the record;
  boxes, motion blur, blur buffers and frame scheduling are left out.
- ConfigTree.BuildTree: `capitalize` is ASCII; emitting the classes is string templates.
- BraceMatch.FindMatchingBrace: comments and raw strings of C++ are plain characters to the scanner, and so
  they are here.
- `merge_node` of the stub generator: a union of method sets by path, an easy member.
- JsonEscape.EscapeJsonStrings: bytes above 0x7F pass unchanged, as in the code; whether they are valid
  UTF-8 is not checked. Surrogate pairs, which are never produced, are illegal to the decoder.
- Rendering, input devices, configuration parsing, sockets, logging, timers and the long JSON templates of
  the control socket: I/O and forwarding.
