# Guardian: verified models of its decision logic

Guardian tells customers whether a version is affected by an advisory, how an attacker gets from the
internet to something that matters, and which requests and jobs it lets through. This project models
the code that makes those decisions and proves what it promises, for all inputs and, where state is
kept, for all runs. It verifies with Dafny 4.11: `dafny verify dfyconfig.toml`.

| Subject | Modules | Main results |
|---|---|---|
| Version comparison | `Text`, `Order`, `Debian`, `DebianLaws`, `Rpm`, `RpmLaws`, `Evr`, `VersionKeys`, `Versioning`, `VersionLaws` | the two hand-written index loops compute lexicographic token orders; `compare` is a total preorder, and a version fits that order exactly when it is not a blank one of a distribution |
| Affected ranges | `EventRange`, `EventOrder`, `Constraint`, `ConstraintLaws` | event streams in order are unions of intervals exactly when nothing is introduced behind a last-affected event, and out of order exactly the "settled" streams are read as documented; constraints pick convex sets, less what `!=` names |
| Attack graph | `Sorting`, `TreeVisit`, `PathSearch`, `AttackGraph`, `Exposure`, `GraphMeaning`, `Reach` | the explicit-stack search returns exactly the simple paths; removing a node removes exactly the paths through it; breadth-first reach is shortest distance |
| Attack chains | `AttackChains`, `ChainScore`, `BuildChains`, `ChainMeaning` | exactly the legal chains, each once exactly when no self-loop is met; at most six steps; the ranking cut keeps the best |
| Rate limiter | `RateLimit`, `RateRuns` | over any run at most the ceiling in any window; agreement with a log that forgets nothing; when the retry advice is exact |
| Keyset paging | `Keyset`, `Paging` | over changing tables no row twice, none missed, in order |
| Signed jobs | `Replay`, `JobSigning` | authenticity; at most two acceptances of a nonce; single use exactly for jobs accepted in their last second |
| Body limit | `BodyLimit` | never more than the limit handed on; one refusal or none, against any application |

Code that changes state is modelled as classes and methods with loops, each proved against a function
of the old state or the inputs; the theorems are then about those functions. Strings are compared by
character code and are ASCII where a digit or letter is meant. Integers are unbounded, times are real
numbers, ratios are exact. `hide` statements keep definitions a proof does not need out of its way.

Where the code does less than its documentation says, the code is modelled and the difference is a theorem:

- `compare` is documented as an order; in a distribution each blank version lies on a cycle with "~" and "1"
  (`Versioning.BlankMakesCycle`), and a version compares transitively with all non-blank ones exactly when it
  is not such a blank one (`Versioning.FitsExactlyWhenOrdered`).
- RPM's tilde is documented to sort before anything; behind a separator it is dropped
  (`Rpm.TildeSuffix` says exactly when it counts).
- Event streams are said to be put in version order; only the beginning of time is moved
  (`EventOrder.RangeKeepsPromiseExactly` says exactly which streams are read as promised).
- A stream is documented to be a union of intervals, the latest event deciding; a last-affected event also
  hides every interval behind it (`EventRange.IntervalsExactly` says exactly when the answer is interval membership).
- A signed job is documented to run at most once; it can run twice
  (`JobSigning.SingleUseExactly`, `JobSigning.ReplayInLastSecond`, `JobSigning.NeverThreeTimes`).
- Verification is documented to refuse with its own error; a timestamp without a time zone makes it raise
  another one, for a signed job too (`JobSigning.CrashesExactly`, `JobSigning.SignedWithoutZoneCrashes`).
- The body limit is documented to answer 413 on every path; an application that swallows the overflow
  and sends nothing leaves the client without an answer (`BodyLimit.RefusalShownExactly`).
- Truncation is documented to be reported; with a path cap below 1 the path search returns nothing and does
  not say it was cut short (`Exposure.SearchPaths`).

## Model

| member | source | states |
|---|---|---|
| Debian.Collation | packages/core/src/guardian_core/versioning.py:241-249 | a tilde weighs less than the end of a run, letters more than the end, everything else more than letters |
| Debian.ComparePart | packages/core/src/guardian_core/versioning.py:252-278 | the two-index loop with its early returns terminates and computes the lexicographic order of the two token lists |
| Debian.SkipRuns | packages/core/src/guardian_core/versioning.py:256-262 | the inner run loop decides two non-digit runs by weight, the end weighing 0, or ends behind both |
| Debian.SkipZeros | packages/core/src/guardian_core/versioning.py:263-266 | skipping leading zeros changes neither where the number ends nor its value |
| Debian.CompareNumbers | packages/core/src/guardian_core/versioning.py:267-277 | first difference plus leftover digits equals comparison of the numeric values, at any length |
| Debian.Antisymmetric | packages/core/src/guardian_core/versioning.py:252-278 | swapping the parts flips the sign |
| Debian.Transitive | packages/core/src/guardian_core/versioning.py:252-278 | the order is transitive |
| Debian.TieMeansSameTokens | packages/core/src/guardian_core/versioning.py:278 | 0 exactly when the token lists agree: leading zeros ignored, a missing number counted as 0 |
| Debian.TildeSuffix | packages/core/src/guardian_core/versioning.py:242-244 | for all parts, appending a tilde and anything makes the part earlier |
| DebianLaws.SmallerNumberIsEarlier | packages/core/src/guardian_core/versioning.py:252-278 | behind any common front that is not cut inside a number the smaller number is earlier, whatever follows |
| DebianLaws.EarlierCharacterIsEarlier | packages/core/src/guardian_core/versioning.py:241-262 | where two parts first differ in characters that are no digits: a tilde first, then letters, then the others, by character code |
| DebianLaws.EndOfRun | packages/core/src/guardian_core/versioning.py:256-262 | a run that ends is earlier than one that goes on, but later than one that goes on with a tilde |
| Rpm.ComparePart | packages/core/src/guardian_core/versioning.py:327-372 | the loop terminates and computes the order of token lists that each part yields on its own, tilde < end < letters < digits |
| Rpm.CompareNumbers | packages/core/src/guardian_core/versioning.py:346-358 | comparing stripped digit runs by length and then text compares their values at any size |
| Rpm.StripZeros | packages/core/src/guardian_core/versioning.py:354 | stripping leading zeros, with "0" for nothing left, keeps the value |
| Rpm.Antisymmetric | packages/core/src/guardian_core/versioning.py:327-372 | swapping the parts flips the sign |
| Rpm.Transitive | packages/core/src/guardian_core/versioning.py:327-372 | the order is transitive |
| Rpm.TieMeansSameTokens | packages/core/src/guardian_core/versioning.py:370-371 | 0 exactly when the tokens are the same |
| Rpm.TildeSuffix | packages/core/src/guardian_core/versioning.py:328-343 | a tilde suffix makes a part earlier if and only if the part ends with a letter, a digit or a tilde that counts |
| Rpm.TildeAfterSeparatorIsDropped | packages/core/src/guardian_core/versioning.py:340-343 | "1.~rc" is above "1." |
| RpmLaws.SmallerNumberIsEarlier | packages/core/src/guardian_core/versioning.py:346-358 | behind any common front that is not cut inside a number the smaller number is earlier, whatever follows |
| RpmLaws.EarlierWordIsEarlier | packages/core/src/guardian_core/versioning.py:359-369 | behind any common front that is not cut inside a word the word that comes first as text is earlier |
| RpmLaws.LettersBeforeDigits | packages/core/src/guardian_core/versioning.py:346-361 | where one part goes on with a letter and the other with a digit the letter is earlier |
| RpmLaws.LongerIsLater | packages/core/src/guardian_core/versioning.py:344-372 | a part that goes on with a letter or digit, behind separators or not, is later than one that ends |
| Order.TextOrder | packages/core/src/guardian_core/versioning.py:357-369 | text comparison decides by the first character that differs, a proper prefix first |
| Text.StripExactly | packages/core/src/guardian_core/versioning.py:388 | stripping takes the whitespace off both ends, all of it and nothing else |
| Evr.ParsePlain | packages/core/src/guardian_core/versioning.py:314-324 | a version without colon and dash is epoch 0, all upstream |
| Evr.ParseFull | packages/core/src/guardian_core/versioning.py:314-324 | the epoch precedes the first colon, the revision follows the last dash |
| Evr.ParsePartly | packages/core/src/guardian_core/versioning.py:314-324 | without a dash no revision, without a number before the first colon no epoch |
| Evr.CompareByLoops | packages/core/src/guardian_core/versioning.py:291-298 | epoch, then upstream, then revision, by the scheme's own loop |
| Evr.Antisymmetric | packages/core/src/guardian_core/versioning.py:281-308 | the lift over epoch, upstream and revision is antisymmetric |
| Evr.Transitive | packages/core/src/guardian_core/versioning.py:281-308 | and transitive |
| VersionKeys.TrimRelease | packages/core/src/guardian_core/versioning.py:142-144 | the trimming loop drops exactly the trailing zeros, keeping one component |
| VersionKeys.TrimmedOrderIsPaddedOrder | packages/core/src/guardian_core/versioning.py:141-144 | comparing trimmed releases equals numeric comparison with zero padding, so 1.0 is 1.0.0 |
| Order.PaddedFirstDifference | packages/core/src/guardian_core/versioning.py:141-166 | the first component that differs, missing ones read as 0, decides between two releases |
| VersionKeys.EpochThenRelease | packages/core/src/guardian_core/versioning.py:136-166 | the epoch decides first, then the zero-padded releases |
| VersionKeys.SameVersionExactly | packages/core/src/guardian_core/versioning.py:136-166 | two PEP 440 versions tie exactly when they agree up to trailing zeros and spellings of the pre-release letter |
| VersionKeys.PhasesAreOrdered | packages/core/src/guardian_core/versioning.py:157-166 | within one epoch and release: dev-only, pre-releases, final, post-releases |
| VersionKeys.DevBuildIsBelow | packages/core/src/guardian_core/versioning.py:157-166 | a dev build of anything sorts below it |
| VersionKeys.ReleaseOutranksPreRelease | packages/core/src/guardian_core/versioning.py:178-182 | no pre-release outranks every pre-release of the release (section 11 of SemVer 2.0.0) |
| VersionKeys.IdentifierPrecedence | packages/core/src/guardian_core/versioning.py:183-189 | numeric identifiers compare as numbers and rank below text (section 11 of SemVer 2.0.0) |
| VersionKeys.MoreIdentifiersOutrankFewer | packages/core/src/guardian_core/versioning.py:183-189 | with equal earlier identifiers the longer list outranks |
| VersionKeys.FallbackBelowParsed | packages/core/src/guardian_core/versioning.py:376-381 | a key built for an unparsed version is below every key with a release |
| VersionKeys.KeyAntisymmetric | packages/core/src/guardian_core/versioning.py:408-414 | comparing tuple keys is antisymmetric wherever it does not raise |
| VersionKeys.KeyTransitive | packages/core/src/guardian_core/versioning.py:408-414 | and transitive for keys of one ecosystem |
| Versioning.FallbackExactly | packages/core/src/guardian_core/versioning.py:410-419 | comparing two keys of an ecosystem raises TypeError exactly for a blank version against another in Debian or RPM |
| Versioning.UnparsedBelowParsed | packages/core/src/guardian_core/versioning.py:136-139 | in the PyPI and SemVer families versions that are blank or that the pattern rejects sort below those it accepts |
| Versioning.CompareAntisymmetric | packages/core/src/guardian_core/versioning.py:408-419 | compare flips its sign when its arguments are swapped, for all strings and ecosystems |
| Versioning.CompareTransitive | packages/core/src/guardian_core/versioning.py:408-419 | compare is transitive in every ecosystem, on all strings, and on non-blank ones in Debian and RPM |
| Versioning.BlankMakesCycle | packages/core/src/guardian_core/versioning.py:388-390 | in Debian and RPM any blank version, "~" and "1" form a cycle |
| Versioning.FitsExactlyWhenOrdered | packages/core/src/guardian_core/versioning.py:388-419 | a version compares transitively together with all non-blank ones if and only if it is not a blank version of Debian or RPM |
| VersionLaws.PypiOrder | packages/core/src/guardian_core/versioning.py:136-166 | two versions that match PEP 440 compare as that standard orders them: epoch, padded release, phase, pre-release letter and number, post and dev number |
| VersionLaws.PreReleasesAreOrdered | packages/core/src/guardian_core/versioning.py:133-155 | alpha, then beta, then release candidates, however spelled and whatever their numbers |
| VersionLaws.SemVerOrder | packages/core/src/guardian_core/versioning.py:178-202 | two versions that match SemVer compare by padded release, then pre-release identifiers, in all of its ecosystems (section 11 of SemVer 2.0.0, case aside) |
| VersionLaws.IncompatibleIsDropped | packages/core/src/guardian_core/versioning.py:193-195 | the Go suffix is dropped in any case, and nothing else is |
| VersionLaws.MavenOrder | packages/core/src/guardian_core/versioning.py:214-236 | Maven versions compare by their numbers, then by their qualifier |
| VersionLaws.DistributionOrder | packages/core/src/guardian_core/versioning.py:281-324 | Debian and RPM versions written in full compare by epoch, then upstream, then revision, each part by the distribution's loop |
| VersionLaws.PlainOrder | packages/core/src/guardian_core/versioning.py:281-324 | without colon and dash a version is all upstream |
| VersionLaws.TokensDecide | packages/core/src/guardian_core/versioning.py:376-406 | where neither version has a pattern to match, their tokens decide one by one |
| VersionLaws.TokensAdd | packages/core/src/guardian_core/versioning.py:379-380 | the tokens of a text are its numbers and words in order, separators dropped |
| VersionLaws.TokenOrder | packages/core/src/guardian_core/versioning.py:379-380 | numbers compare by value, words by text, and any number is below any word |
| EventRange.ScanStream | packages/core/src/guardian_core/versioning.py:486-493 | the first loop: affected when a reached introduction has no reached fix or limit behind it in the stream |
| EventRange.InEventRange | packages/core/src/guardian_core/versioning.py:459-502 | both loops, for any stream: open at the end, and not beyond a last-affected version |
| EventRange.NotBothPassedAndUnreached | packages/core/src/guardian_core/versioning.py:492-493 | the last-affected branch of the first loop can never run |
| EventRange.BeginningAffectsAll | packages/core/src/guardian_core/versioning.py:444-446 | introduced at "0" or "" and nothing else affects every version of every ecosystem |
| EventRange.SingleRanges | packages/core/src/guardian_core/versioning.py:459-502 | one introduction affects from there on; with a fix or limit up to it; with a last-affected event up to and including it |
| EventRange.AscendingAnswer | packages/core/src/guardian_core/versioning.py:459-502 | for ascending streams in which a fix behind a last-affected event stands above it: true exactly when the version is in an interval [introduced, fixed) or [introduced, last_affected] and above no last-affected event |
| EventRange.AscendingMeansIntervals | packages/core/src/guardian_core/versioning.py:459-502 | for those with nothing introduced behind a last-affected event: true exactly when the version is in an interval |
| EventRange.IntervalsExactly | packages/core/src/guardian_core/versioning.py:459-502 | for ascending streams with different kinds at different versions: the answer is interval membership for every version if and only if nothing is introduced behind a last-affected event |
| EventRange.LastAffectedHidesLater | packages/core/src/guardian_core/versioning.py:494-501 | an introduction behind a last-affected event does not affect its own version |
| EventRange.EarlyLastAffectedHidesLater | packages/core/src/guardian_core/versioning.py:494-501 | in a stream of versions 1, 2 and 3 the last-affected event at 2 hides the interval that begins at 3 |
| EventOrder.IntroductionBehindItsFix | packages/core/src/guardian_core/versioning.py:451-456 | an introduction listed behind its fix marks every fixed version as affected, against the documented answer |
| EventOrder.UnorderedStreamIsMisread | packages/core/src/guardian_core/versioning.py:451-456 | so with fixed 2 listed before introduced 1 version 3 counts as affected |
| EventOrder.RangeKeepsPromiseExactly | packages/core/src/guardian_core/versioning.py:459-502 | for any stream, ordered or not, every version gets the documented answer if and only if each introduction, fix or limit not above a last-affected event is of one kind with the last one listed at or before it |
| EventOrder.LastAffectedNeverCloses | packages/core/src/guardian_core/versioning.py:485-493 | dropping the last-affected events from a stream leaves the first loop's answer as it is |
| Constraint.SatisfiesConstraint | packages/core/src/guardian_core/versioning.py:505-546 | the loop with its early returns: at least one clause, and every clause holds |
| ConstraintLaws.ComparisonsMean | packages/core/src/guardian_core/versioning.py:520-532 | from the text of the constraint: what each of >, >=, <, <=, !=, =, == and a bare bound demands |
| ConstraintLaws.CaretMeans | packages/core/src/guardian_core/versioning.py:533-545 | "^" on dotted numbers: at least the bound, below the next value of the first number |
| ConstraintLaws.CompatibleOne | packages/core/src/guardian_core/versioning.py:533-545 | "~>" on one number is like "^" |
| ConstraintLaws.CompatibleTwo | packages/core/src/guardian_core/versioning.py:533-545 | "~>" on two numbers: below the next value of the first |
| ConstraintLaws.CompatibleMore | packages/core/src/guardian_core/versioning.py:533-545 | "~>" on more numbers: what is before the last two stays, the one before the last goes up by one |
| ConstraintLaws.ClausesAdd | packages/core/src/guardian_core/versioning.py:508-511 | a clause in front of others adds its condition to theirs |
| ConstraintLaws.MalformedNeverMatches | packages/core/src/guardian_core/versioning.py:512-519 | what satisfies anything is an operator and a bound that begins like a version |
| ConstraintLaws.BlankNeverMatches | packages/core/src/guardian_core/versioning.py:508-510 | a constraint of commas and blanks satisfies nothing |
| Constraint.ClauseOrderIsIrrelevant | packages/core/src/guardian_core/versioning.py:508-511 | the answer depends only on which clauses there are |
| Constraint.SatisfyingVersionsAreConvex | packages/core/src/guardian_core/versioning.py:505-546 | between two satisfying versions exactly those fail that a != clause names, compatible-release ceilings included |
| Constraint.SplitRejoins | packages/core/src/guardian_core/versioning.py:508 | the pieces hold no comma and rejoin to the constraint |
| Constraint.ToTextReads | packages/core/src/guardian_core/versioning.py:543 | the text of the increased component reads back as its number |
| AttackGraph.BuildAdjacency | packages/core/src/guardian_core/attack_graph.py:156-172 | neighbours are exactly the nodes linked by an edge of the relations, without repetition, in node order |
| AttackGraph.PushChildren | packages/core/src/guardian_core/attack_graph.py:227-231 | pushing in reverse leaves exactly the depth-first visit of the extensions to be done first |
| AttackGraph.NewlyVisited | packages/core/src/guardian_core/attack_graph.py:221-222 | the visit never comes to a path twice, so the seen set excludes nothing |
| AttackGraph.SearchSource | packages/core/src/guardian_core/attack_graph.py:211-231 | the stack loop follows the depth-first visit; what it found are the hits of the visited prefix; when it stops early and why |
| AttackGraph.Enumerate | packages/core/src/guardian_core/attack_graph.py:193-234 | over all sources: a prefix of the full visit, all of it unless truncated, at most max_paths results, in the final order |
| AttackGraph.EnumerationIsExact | packages/core/src/guardian_core/attack_graph.py:193-234 | results are distinct, sorted, all simple paths from a source to a target within the depth, and every such path when nothing was cut |
| AttackGraph.SourceVisitsListed | packages/core/src/guardian_core/attack_graph.py:205-231 | paths are visited in lexicographic node order, each before its extensions |
| Exposure.SearchPaths | packages/core/src/guardian_core/attack_graph.py:238-257 | stated on nodes and edges: the results are those among the first paths in lexicographic node order that end where wanted; distinct, sorted, complete when not truncated; truncated exactly when the results reach their cap or there are more paths on the way than the budget |
| Exposure.ExposurePaths | packages/core/src/guardian_core/attack_graph.py:238-245 | exactly the internet-facing to sensitive paths over reachability relations, cut short exactly as above |
| Exposure.AttackPaths | packages/core/src/guardian_core/attack_graph.py:248-257 | exactly the internet-facing to finding paths over attack relations, cut short exactly as above |
| GraphMeaning.ExposurePathMeans | packages/core/src/guardian_core/attack_graph.py:28-33 | exposure paths run over resolves_to and hosts edges, no node twice, to a node with exposure 50 or more, shadow state, high criticality or a high finding |
| GraphMeaning.AttackPathMeans | packages/core/src/guardian_core/attack_graph.py:28-33 | attack paths run over serves and exposes edges too, to a finding |
| GraphMeaning.PathOrderMeans | packages/core/src/guardian_core/attack_graph.py:233 | shorter paths first, paths of one length by the canonical keys of their nodes |
| GraphMeaning.NodeOrderMeans | packages/core/src/guardian_core/attack_graph.py:66-67 | nodes by type, then canonical key, then identifier |
| Exposure.PathsWithout | packages/core/src/guardian_core/attack_graph.py:339-345 | the paths of the graph without a node are the paths that avoid it |
| Exposure.CutIsExact | packages/core/src/guardian_core/attack_graph.py:335-345 | deleting a node leaves exactly total minus paths_cut paths, those not through it |
| Exposure.CutsOfSearchAddUp | packages/core/src/guardian_core/attack_graph.py:351-354 | over all nodes paths_cut sums to the number of nodes on all paths |
| Exposure.CutTable | packages/core/src/guardian_core/attack_graph.py:351-354 | the nested loops map each node on a path, and no other, to the paths through it |
| Exposure.RankNodes | packages/core/src/guardian_core/attack_graph.py:356-359 | all nodes on paths, most paths cut first, ties in node order |
| Exposure.Chokepoints | packages/core/src/guardian_core/attack_graph.py:335-370 | the first top nodes of the ranking by paths cut, ties in node order, each with its exact count, share and up to three cut paths |
| Reach.WithinMeansConnected | packages/core/src/guardian_core/attack_graph.py:275 | being within n hops is having a walk of at most n hops |
| Reach.Expand | packages/core/src/guardian_core/attack_graph.py:294-301 | queues each unvisited neighbour once, up to the node cap |
| Reach.Search | packages/core/src/guardian_core/attack_graph.py:281-303 | the queue loop finds only nodes within the depth, and all of them when not truncated |
| Reach.ReachableFrom | packages/core/src/guardian_core/attack_graph.py:272-305 | not truncated: exactly the other nodes whose shortest distance is at most the depth; truncated exactly when as many as the cap were found, and then the nearest ones |
| Reach.BlastRadiusOf | packages/core/src/guardian_core/attack_graph.py:308-332 | the affected nodes are reachable ones, exactly those when not truncated and else the nearest; the sensitive ones among them; truncated exactly when either search was; and the path count is that of the paths through the root |
| Reach.ScoresAdd | packages/core/src/guardian_core/attack_graph.py:320 | the weighted impact is the sum of the nodes' exposure scores |
| AttackChains.ExpandLaws | packages/core/src/guardian_core/attack_paths.py:65-75 | expansion is inflationary, idempotent, monotone, and distributes over union |
| ChainMeaning.HeldExactly | packages/core/src/guardian_core/attack_paths.py:60-75 | what is held after a chain: network access, what some step grants, and data access if some step grants code execution |
| ChainMeaning.UsableExactly | packages/core/src/guardian_core/attack_paths.py:397-407 | a finding is usable when all it needs is held so and it gives something that is not |
| ChainMeaning.ProfileOf | packages/core/src/guardian_core/attack_paths.py:190-211 | the profile of the finding's CWE, else of its category |
| ChainMeaning.ExploitsRaiseReliability | packages/core/src/guardian_core/attack_paths.py:203-210 | known exploitation and more mature exploits never make a step less reliable |
| AttackChains.NetworkAlwaysHeld | packages/core/src/guardian_core/attack_paths.py:391-392 | network access is always held, so the movement guard always passes |
| AttackChains.CanFollow | packages/core/src/guardian_core/attack_paths.py:397-407 | the three tests pass exactly for usable findings; the used set decides nothing |
| AttackChains.Walk | packages/core/src/guardian_core/attack_paths.py:382-409 | the recursion appends exactly the depth-first visit of legal continuations and ends because the missing capabilities shrink |
| AttackChains.Extend | packages/core/src/guardian_core/attack_paths.py:375-418 | exactly the legal chains of two steps up to max_length from a start |
| ChainMeaning.ChainsInOrder | packages/core/src/guardian_core/attack_paths.py:382-409 | chains are found each before its continuations, and these in the order their steps are tried |
| ChainMeaning.NextInOrder | packages/core/src/guardian_core/attack_paths.py:387-395 | own findings are tried first, then those of reachable assets by asset |
| AttackChains.NoFindingTwice | packages/core/src/guardian_core/attack_paths.py:379 | no legal chain uses a finding twice |
| AttackChains.AtMostSixSteps | packages/core/src/guardian_core/attack_paths.py:404-409 | no legal chain has more than six steps, whatever max_length is |
| AttackChains.EachChainOnce | packages/core/src/guardian_core/attack_paths.py:387-395 | each chain is returned once if and only if no legal chain within the length can step inside an asset that lists itself as reachable |
| AttackChains.NoSelfLoopsMeansOnce | packages/core/src/guardian_core/attack_paths.py:387-395 | without self-loops each chain is returned once |
| ChainScore.ScoresAreBounded | packages/core/src/guardian_core/attack_paths.py:260-284 | likelihood from 1 to 99, impact and score from 0 to 100 |
| ChainScore.LongerIsLessLikely | packages/core/src/guardian_core/attack_paths.py:270-273 | one more step never raises the likelihood, rounding included |
| ChainScore.ImpactGrows | packages/core/src/guardian_core/attack_paths.py:275-278 | more granted capabilities never lower the impact |
| ChainScore.LikelihoodIs | packages/core/src/guardian_core/attack_paths.py:270-273 | the product of the reliabilities in percent, to the nearest whole, at least 1 |
| ChainScore.ImpactIs | packages/core/src/guardian_core/attack_paths.py:275-278 | the worst granted capability, moved by the criticality of the asset, from 0 to 100 |
| ChainScore.WeightsAreRanked | packages/core/src/guardian_core/attack_paths.py:249-257 | code execution is worst, then privileges, credentials, movement, data, network |
| ChainScore.ScoreIs | packages/core/src/guardian_core/attack_paths.py:280-283 | two fifths likelihood and three fifths impact to the nearest whole, less 5 per further step up to 15 |
| ChainScore.ScoreGrows | packages/core/src/guardian_core/attack_paths.py:280-283 | more likelihood or impact never lowers the score, more steps alone never raise it |
| ChainMeaning.RankMeans | packages/core/src/guardian_core/attack_paths.py:356-363 | the score is computed from every step's reliability, everything granted, and the asset the chain ends on |
| BuildChains.Group | packages/core/src/guardian_core/attack_paths.py:326-332 | the loop groups exactly the usable findings by asset and lists the others |
| BuildChains.Enumerate | packages/core/src/guardian_core/attack_paths.py:339-353 | the nested loops with break flags collect the first chains in order, up to the cap, and say whether there were more |
| BuildChains.ChainsFromMembers | packages/core/src/guardian_core/attack_paths.py:341-345 | what there is to enumerate is exactly the legal chains from a startable finding on an entry asset |
| ChainMeaning.AttackChainMeans | packages/core/src/guardian_core/attack_paths.py:339-418 | in terms of profiles alone: a chain starts on an entry asset with a finding that needs at most the network, each step stays or follows an edge, finds all it needs, and gives something new |
| ChainMeaning.CodeThenCredential | packages/core/src/guardian_core/attack_paths.py:56-59 | code injection on an entry asset and then the credential in its data is a chain |
| BuildChains.Build | packages/core/src/guardian_core/attack_paths.py:305-372 | the result is the head of the ranking of legal, bounded-score chains, higher scores first, then longer ones, then by findings; what is kept ranks at or above what is not; the ranking holds all of them unless there are more than the enumeration cap, and the result is truncated exactly then or when the ranking exceeds the output cap |
| RateLimit.SlidingWindowLimiter.constructor | services/api/src/guardian_api/ratelimit.py:90-95 | an empty table |
| RateLimit.SlidingWindowLimiter.Hit | services/api/src/guardian_api/ratelimit.py:97-133 | answer and new table in full, for every branch; a given ceiling overrides the limiter's own; the table stays what all calls since the last reset make of an empty one |
| RateLimit.SlidingWindowLimiter.Check | services/api/src/guardian_api/ratelimit.py:135-155 | answer and new table in full: eviction may run, nothing is recorded; the same tie to all calls |
| RateLimit.SlidingWindowLimiter.EvictExpired | services/api/src/guardian_api/ratelimit.py:157-166 | deletes exactly the keys whose newest timestamp has left the window |
| RateLimit.SlidingWindowLimiter.Reset | services/api/src/guardian_api/ratelimit.py:168-170 | an empty table |
| RateRuns.PreparedRepresents | services/api/src/guardian_api/ratelimit.py:157-166 | eviction takes nothing that is inside the window |
| RateRuns.StepRepresents | services/api/src/guardian_api/ratelimit.py:97-155 | each call keeps the table in step with the unbounded log |
| RateRuns.AnswersAsTheLog | services/api/src/guardian_api/ratelimit.py:97-155 | over any run every answer is the unbounded log's, except in a crowded table, where failing closed or open decides |
| RateRuns.CrowdedExactly | services/api/src/guardian_api/ratelimit.py:116-126 | crowded means an untracked key and a full table of live keys |
| RateRuns.TableIsBounded | services/api/src/guardian_api/ratelimit.py:116-121 | the table never exceeds its maximum |
| RateRuns.HitsAreSpaced | services/api/src/guardian_api/ratelimit.py:97-133 | any c + 1 consecutive allowed hits of a disciplined key span at least a window |
| RateRuns.AtMostCeilingPerWindow | services/api/src/guardian_api/ratelimit.py:87-88 | at most c allowed hits in any window of length W, over any run on any keys |
| RateRuns.AllowedExactly | services/api/src/guardian_api/ratelimit.py:97-133 | such a key is let through exactly when the table is not crowded and fewer than c of its hits were let through in the last window |
| RateRuns.CheckChangesNothing | services/api/src/guardian_api/ratelimit.py:137-142 | check answers what hit would, and a hit after it does what it would have done |
| RateRuns.AllowedFrom | services/api/src/guardian_api/ratelimit.py:127-130 | a refused tracked key is allowed exactly from the expiry of the hit that makes room |
| RateRuns.RetryIsExact | services/api/src/guardian_api/ratelimit.py:128-130 | the retry advice is exact if and only if that hit is as old as the oldest live one |
| RateRuns.ConstantCeilingRetryIsExact | services/api/src/guardian_api/ratelimit.py:128-130 | with a constant ceiling the advice is exact at any point of any run |
| Keyset.Paginate | services/api/src/guardian_api/pagination.py:70-83 | the page, whether there is more, and the next cursor |
| Keyset.PageFacts | services/api/src/guardian_api/pagination.py:57-83 | a page is the ordered head of what lies strictly behind the cursor, full whenever there is more, and there is more exactly when more rows than the limit lie behind; the rest lies strictly behind its last row |
| Keyset.FinishedRun | services/api/src/guardian_api/pagination.py:8-13 | over a finished run with rows coming and going: in order, no row twice, only rows present when asked, every row present throughout |
| Paging.FilterIsStrictlyAfter | services/api/src/guardian_api/workbench.py:165-188 | the four-way condition is exactly "strictly after" in the sort order, and only equal keys tie |
| Paging.FindingsAreKeyset | services/api/src/guardian_api/workbench.py:165-188 | the workbench order is total and its filter fits it |
| Paging.WorseSeverityFirst | services/api/src/guardian_api/workbench.py:28-47 | a worse severity comes first whatever else differs, unlisted ones last |
| Paging.WithinSeverity | services/api/src/guardian_api/workbench.py:153-168 | within a severity the higher risk, then the newer, then the smaller identifier |
| Paging.UnlistedAreAlike | services/api/src/guardian_api/workbench.py:28-47 | severities that are not listed rank alike |
| Paging.PageSize | services/api/src/guardian_api/workbench.py:191-194 | a request from 1 to 200 is met, more becomes 200, none or less 50 |
| Paging.NewestFirstIsKeyset | services/api/src/guardian_api/pagination.py:57-67 | newest first is total and the pair comparison fits it |
| Paging.NewerFirst | services/api/src/guardian_api/pagination.py:57-67 | the newer row first, of two created together the larger identifier |
| Paging.FindingsRun | services/api/src/guardian_api/workbench.py:8-10 | a finished run over the findings reads everything present throughout exactly once, in order |
| Paging.NewestFirstRun | services/api/src/guardian_api/pagination.py:8-13 | the same for the other lists |
| Paging.StableTableIsReadToTheEnd | services/api/src/guardian_api/pagination.py:57-83 | on an unchanged table following the cursors ends |
| Replay.LocalStore.ReserveNonce | packages/common/src/guardian_common/replay.py:48-58 | answer and new dictionary in full, sweep included |
| Replay.LocalStore.Sweep | packages/common/src/guardian_common/replay.py:50-53 | deletes exactly the expired entries |
| Replay.LocalAgrees | packages/common/src/guardian_common/replay.py:48-77 | one reservation answers and reserves as the shared store would |
| Replay.LocalRefinesShared | packages/common/src/guardian_common/replay.py:48-77 | over any run in one process the fallback answers as the shared store would |
| JobSigning.SharedStore.SetIfAbsent | packages/common/src/guardian_common/replay.py:61-73 | the atomic reservation: true on first use until expiry |
| JobSigning.VerifyJob | packages/common/src/guardian_common/job_signing.py:93-134 | the checks in order; verdict and store in full; only a screened envelope reserves |
| JobSigning.CrashesExactly | packages/common/src/guardian_common/job_signing.py:93-134 | verification raises a foreign exception exactly for a readable envelope whose expiry has no time zone, or whose issue time has none and whose expiry is not past; nothing is reserved then |
| JobSigning.SignedWithoutZoneCrashes | packages/common/src/guardian_common/job_signing.py:93-134 | a properly signed job with a zoneless expiry is such an envelope |
| JobSigning.SignedJobIsAccepted | packages/common/src/guardian_common/job_signing.py:80-134 | a signed job with a free nonce is accepted exactly from one minute before its issue to its expiry |
| JobSigning.OnlySignedReserves | packages/common/src/guardian_common/job_signing.py:117-131 | only a signed, unexpired envelope with a free nonce changes the store: a forged one never does |
| JobSigning.GenuineJobIsAccepted | packages/common/src/guardian_common/job_signing.py:93-134 | in every run a dispatched job is accepted within its lifetime, whatever forgeries came before, unless its own envelope was verified before |
| JobSigning.ReasonsExactly | packages/common/src/guardian_common/job_signing.py:108-131 | which check refuses which envelope |
| JobSigning.AcceptedWasSigned | packages/common/src/guardian_common/job_signing.py:72-90 | in every run an accepted job was signed before by the dispatcher with that nonce and expiry |
| JobSigning.ReplaysAreApart | packages/common/src/guardian_common/job_signing.py:122-131 | two reservations of one nonce are at least max(1, floor(expires - now)) of the first apart |
| JobSigning.SecondIsInLastSecond | packages/common/src/guardian_common/job_signing.py:122-131 | a second acceptance falls into the last second of validity |
| JobSigning.NeverThreeTimes | packages/common/src/guardian_common/job_signing.py:122-131 | no nonce is accepted three times |
| JobSigning.ReplayAcceptedWhen | packages/common/src/guardian_common/job_signing.py:112-131 | straight after an acceptance, exactly when the same envelope is accepted again |
| JobSigning.SingleUseExactly | packages/common/src/guardian_common/replay.py:3-8 | single use holds if and only if less than a second of validity was left at the first acceptance |
| JobSigning.ReplayInLastSecond | packages/common/src/guardian_common/job_signing.py:125 | a run of three events in which two workers accept one job |
| BodyLimit.Middleware.CountingReceive | services/api/src/guardian_api/bodylimit.py:67-78 | counters, flags and what is handed on, in full |
| BodyLimit.Middleware.WatchingSend | services/api/src/guardian_api/bodylimit.py:80-94 | flags and what the client is sent, in full |
| BodyLimit.Middleware.Conclude | services/api/src/guardian_api/bodylimit.py:96-105 | an escaped sentinel becomes the refusal, or is raised on behind a started response |
| BodyLimit.Middleware.Reject | services/api/src/guardian_api/bodylimit.py:107-118 | the two messages of the refusal |
| BodyLimit.HandedNeverExceedsLimit | services/api/src/guardian_api/bodylimit.py:67-78 | the body bytes handed to the application never exceed the limit, whatever it does |
| BodyLimit.HonestRequestIsUntouched | services/api/src/guardian_api/bodylimit.py:46-105 | within the limit the application is handed all the client sent, and the client all the application sent, in order |
| BodyLimit.OversizedDeclarationIsRefused | services/api/src/guardian_api/bodylimit.py:53-61 | a declared length beyond the limit is refused at once, whatever the application would do |
| BodyLimit.WithoutOverflowIsForwarded | services/api/src/guardian_api/bodylimit.py:80-94 | without an overflow before the response the client is sent exactly what the application sent |
| BodyLimit.OverflowExactly | services/api/src/guardian_api/bodylimit.py:67-77 | the overflow is noted exactly when the bytes exceed the limit at some moment before the response begins |
| BodyLimit.SentinelExactly | services/api/src/guardian_api/bodylimit.py:67-78 | a piece is replaced by the sentinel exactly when the bytes with it exceed the limit |
| BodyLimit.OverflowShowsOnlyRefusal | services/api/src/guardian_api/bodylimit.py:80-105 | from an overflow before any response start on, the client is sent the refusal once or nothing |
| BodyLimit.RefusalShownExactly | services/api/src/guardian_api/bodylimit.py:80-105 | it is sent if and only if the application sends something or lets the sentinel out |
| BodyLimit.AtMostOneRefusal | services/api/src/guardian_api/bodylimit.py:46-105 | a refusal is sent at most once, never behind a response start, and nothing follows it |

## Left out

- Versioning.CompareTransitive: the PEP 440 and SemVer patterns and the Maven tokeniser are parameters, so what the regular-expression engine captures is not modelled; the result holds whatever they capture.
- Debian.ComparePart: Unicode digits and letters outside ASCII are not modelled; there the RPM loop need not terminate.
- VersionKeys.IdentifierPrecedence: the code compares identifiers without regard to case, which SemVer does not; the model follows the code.
- EventRange.IntervalsExactly: where events of different kinds share a version, whether some version is misread depends on which versions there are in between; InEventRange gives the answer for each version and EventOrder.RangeKeepsPromiseExactly the streams read as promised.
- EventRange.InEventRange: events that are not dictionaries are dropped before the model starts, as the code drops them.
- Exposure.Chokepoints: the share of paths cut is an exact ratio instead of a floating-point number.
- ChainScore.ScoresAreBounded: likelihood is an exact ratio rounded half to even; floating-point rounding is not modelled.
- AttackChains.Extend: the profile tables are parameters and steps carry the finding instead of copies of its title, severity and rationale; a set of reachable assets is given as a list of its elements.
- RateRuns.AtMostCeilingPerWindow: assumes a clock that does not go back and no reset in between; thread interleaving inside the lock is one atomic step.
- Keyset.FinishedRun: a row is its sort key, which is assumed not to change while pages are read; base64 and JSON of cursors are ideal encodings.
- JobSigning.VerifyJob: signatures are ideal and cannot be forged, canonical serialisation is injective, and one clock serves workers and store; keys and their configuration are not modelled.
- JobSigning.NeverThreeTimes: like SecondIsInLastSecond it idealises the dispatcher's random draw of nonces as one that never repeats; without that two jobs may share a nonce, and only AcceptedWasSigned and ReplaysAreApart hold.
- Replay.LocalStore.ReserveNonce: the choice between the shared store and the local fallback is configuration; in production only the shared store is trusted.
- BodyLimit.Middleware.Conclude: failures of the client's own channel are not modelled.
- Drift classification, `paths_to`, `version_affected`, ecosystem aliases and `describe`: single-branch code that would only add easy members.
- SQL, HTTP routing, Celery, the web console and the command-line tools: behaviour of libraries and user interfaces.
