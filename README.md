# A verified model of `Find` (antikirra/find)

`Find` is a lazy recursive filesystem walker. `Find::in($directory)` binds it to a
readable root directory. Fluent setters then configure it: a soft limit (the most
successful results), a hard limit (an entry-count bound), files-only or
directories-only, and an extension allow-list. `find($closure)` walks the leaves
depth-first, skips entries the filters reject, passes the rest through the optional
closure, and yields `realPath => result` until a limit stops it.

The model has five modules:

- `Wrappers`: `Option`, and the `Result`/`Error` that stand for the PHP exceptions.
- `Extensions`: the `withExtensions` pipeline. `array_filter` drops `""` and `"0"`. `strtolower` lower-cases ASCII. `array_unique(array_merge(...))` keeps first occurrences, in order.
- `Configuration`: the object's fields as a `Config` value, with one pure function per setter. It also has the invariant those setters keep (`Valid`) and `Chain`, a fluent chain of calls that stops at the first exception.
- `Walk`: the specification of one run of `find`. It defines the filters, the pairs yielded when no limit intervenes (`Emitted`), where the loop stops (`ExaminedFrom`, `Examined`), and the limit lemmas.
- `Finder`: class `Find`. Its fields are updated in place by the setter methods, each proved to match its `Configuration` function. `Find.Find` is the `foreach` loop with `continue`/`break`. It is proved to produce `Emitted` over the first `Examined` entries.

Inputs that come from outside the object are parameters:

- The iterator's enumeration is a `seq<Entry>` fixed at construction.
- The root check (`is_dir && is_readable`) is a boolean.
- The closure is an optional function. It returns a value and that value's PHP truthiness.

Three points where the code's behaviour is easy to misread. The model follows the code:

- `directoriesOnly()` rejects only a files-only object. It accepts one that already has extensions (Find.php:112-121), although `withExtensions()` rejects the reverse order. `Walk.DirectoriesOnlyMakesExtensionsInert` shows that the kept extensions then reject nothing.
- The hard limit reads as a bound on the number of entries visited. It is not one: the three `continue`s (Find.php:152, 156, 160) skip the hard-limit test at Find.php:173, so the test runs only after an entry that passed the filters. `Walk.HardLimitCanBeExceeded` exhibits a walk that examines 3 entries under a hard limit of 1. What the code does guarantee is proved instead: at most `hardLimit` pairs are yielded (`HardLimitBound`), and the walk stops at the first passing entry at or past the limit (`HardLimitStops`).
- The two limit setters test the other limit by PHP truthiness (`$this->hardLimit && ...`), while `find` tests `null !==`. `Configuration.Truthy` and `Option.Some?` keep the two apart.

## Model

| member | source | states |
|---|---|---|
| Extensions.LowerIsNormal | Find.php:130 | `strtolower` yields a string with no upper-case ASCII letter, leaves lower-case strings unchanged, and maps a string to a falsy one exactly when it was falsy |
| Extensions.Normalize | Find.php:129-130 | every kept item is non-falsy and lower case; every non-falsy input item appears lower-cased; nothing else appears |
| Extensions.Unique | Find.php:131 | `array_unique` keeps exactly the values of its input and has no duplicates |
| Extensions.UniqueOfDistinct | Find.php:131 | a list without duplicates is unchanged by `array_unique` |
| Extensions.UniqueAbsorbs | Find.php:131 | appending values already present to a duplicate-free list leaves `array_unique` of it equal to that list |
| Extensions.UniquePrefix | Find.php:131 | `array_unique` of a list starts with `array_unique` of any prefix of that list (first occurrences keep their order) |
| Extensions.Merge | Find.php:129-131 | the merged extensions keep every old one, contain each new non-falsy item lower-cased, hold nothing else, have no duplicates, and start with the old list when it was duplicate-free |
| Extensions.MergeIdempotent | Find.php:129-131 | merging the same list a second time changes nothing |
| Extensions.MergeKeepsNormal | Find.php:129-131 | merging into normalised extensions leaves them all non-falsy and lower case |
| Configuration.InitialIsValid | Find.php:15-35 | the field defaults satisfy the invariant |
| Configuration.WithSoftLimit | Find.php:61-74 | fails with InvalidArgument exactly when the limit is not positive or exceeds a set hard limit; on success only the soft limit changes; the invariant (positive limits, soft at most hard, exclusive type filter, normalised distinct extensions) is preserved |
| Configuration.WithHardLimit | Find.php:80-93 | fails with InvalidArgument exactly when the limit is not positive or is below a set soft limit; on success only the hard limit changes; the invariant is preserved |
| Configuration.FilesOnly | Find.php:98-107 | fails exactly when directories-only is set; otherwise sets only files-only; the invariant is preserved |
| Configuration.DirectoriesOnly | Find.php:112-121 | fails exactly when files-only is set, whatever extensions are registered; otherwise sets only directories-only; the invariant is preserved |
| Configuration.WithExtensions | Find.php:123-134 | fails exactly when directories-only is set; otherwise changes only the extensions, which become a duplicate-free superset of the old ones holding each new non-falsy item lower-cased and nothing else; the invariant is preserved |
| Configuration.WithExtensionsIdempotent | Find.php:123-134 | applying the same extensions twice gives the same configuration as applying them once |
| Configuration.ChainKeepsValid | Find.php:61-134 | any chain of setter calls that succeeds, started from a valid configuration, ends in a valid one |
| Configuration.ReachableIsValid | Find.php:15-134 | every configuration a successful chain builds from a new object is valid, so soft is at most hard and files-only and directories-only are never both set |
| Configuration.TypeFiltersConflict | Find.php:98-121 | after files-only succeeds, directories-only fails, and after directories-only succeeds, files-only fails |
| Configuration.LimitOrderExamples | Find.php:61-93 | soft limit 5 then hard limit 3 fails; hard limit 10 then soft limit 5 succeeds with both set |
| Configuration.ExtensionsExample | Find.php:123-134 | `["JPG", "jpg", ""]` then `["png"]` leaves exactly `["jpg", "png"]` |
| Walk.FilteredPasses | Find.php:151-161 | the entries that reach the closure all pass the type and extension tests, come from the listing, and include every passing entry |
| Walk.PositionsAreSelected | Find.php:148-165 | the positions of the yielded entries are strictly increasing (each entry at most once, in listing order) and are exactly the positions of the entries that pass the filters and whose result is truthy |
| Walk.YieldedInOrder | Find.php:163-167 | the k-th yielded pair is `realPath => result` of the entry at the k-th such position |
| Walk.ExaminedFromFirstStop | Find.php:148-176 | resuming at any position, the walk examines entries up to and including the first stopping position, or all of them; no earlier position stops it |
| Walk.ExaminedIsFirstStop | Find.php:165-175 | the number of examined entries is at most one past any stopping position, and a walk that ends early ends right after a stopping position |
| Walk.StopFollowsPassingEntry | Find.php:149-175 | a walk that ends before the listing does ends right after an entry that passed the filters; entries rejected by a filter never trigger a limit |
| Walk.BelowSoftLimit | Find.php:165-170 | before the stopping position fewer than `softLimit` pairs have been yielded |
| Walk.SoftLimitBound | Find.php:165-170 | with a soft limit, at most `softLimit` pairs are yielded |
| Walk.SoftLimitStopsAtLastYield | Find.php:165-170 | once `softLimit` pairs are yielded, the last examined entry is the one that produced the last pair, so nothing further is examined |
| Walk.SoftLimitExact | Find.php:165-170 | without a hard limit, a listing with at least `softLimit` selected entries yields exactly `softLimit` pairs |
| Walk.BelowHardLimit | Find.php:149-175 | before the stopping position fewer than `hardLimit` pairs have been yielded |
| Walk.HardLimitBound | Find.php:149-175 | with a hard limit, at most `hardLimit` pairs are yielded |
| Walk.HardLimitStops | Find.php:173-175 | the walk stops at the latest after the first passing entry whose 1-based position reaches `hardLimit`; that entry is still examined |
| Walk.HardLimitStopsExactly | Find.php:165-175 | without a soft limit, when entry `j` is the first passing entry at or past the hard limit, exactly `j + 1` entries are examined, so entry `j` is examined and its pair produced |
| Walk.WalkGuarantees | Find.php:149-175 | a run hands the closure only passing entries, yields at most `softLimit` and at most `hardLimit` pairs on a valid configuration, and ends early only right after a passing entry |
| Walk.HardLimitCanBeExceeded | Find.php:149-175 | under files-only with hard limit 1, two leading directories do not stop the walk: 3 entries are examined |
| Walk.SmallListingFullyExamined | Find.php:148-176 | without a soft limit, a listing no longer than the hard limit (or with no hard limit) is examined to the end |
| Walk.NoClosureYieldsFiltered | Find.php:163-167 | without a closure, every examined entry that passes the filters is yielded, in order, with the file info itself as value |
| Walk.DirectoriesIgnoreExtensions | Find.php:159 | a non-file entry passes exactly when it passes the type test; extensions are never checked for it |
| Walk.DirectoriesOnlyMakesExtensionsInert | Find.php:112-121 | under directories-only, extensions kept from before reject nothing that is not both a file and a directory |
| Finder.Find.constructor | Find.php:40-47 | a new object binds the given listing, has the default fields, and is valid |
| Finder.Find.In | Find.php:40-55 | fails with a runtime error exactly when the root is not a readable directory; otherwise returns a fresh object with default fields |
| Finder.Find.WithSoftLimit | Find.php:61-74 | succeeds exactly when `Configuration.WithSoftLimit` does; on success the fields become its result, on failure they are unchanged; validity is preserved |
| Finder.Find.WithHardLimit | Find.php:80-93 | succeeds exactly when `Configuration.WithHardLimit` does; on success the fields become its result, on failure they are unchanged; validity is preserved |
| Finder.Find.FilesOnly | Find.php:98-107 | succeeds exactly when `Configuration.FilesOnly` does; on success the fields become its result, on failure they are unchanged |
| Finder.Find.DirectoriesOnly | Find.php:112-121 | succeeds exactly when `Configuration.DirectoriesOnly` does; on success the fields become its result, on failure they are unchanged |
| Finder.Find.WithExtensions | Find.php:123-134 | succeeds exactly when `Configuration.WithExtensions` does; on success the fields become its result, on failure they are unchanged |
| Finder.Find.Find | Find.php:140-177 | examines exactly `Examined` entries, yields exactly `Emitted` over them, and hands the closure exactly the examined entries that pass the filters, in order; on a valid object it yields at most `softLimit` and at most `hardLimit` pairs, and a walk that ends early ends right after a passing entry |

## Left out

- The filesystem test in the constructor (`is_dir`, `is_readable`) is a boolean input to `Find.In`.
- `RecursiveDirectoryIterator` and `RecursiveIteratorIterator` (leaves only, depth-first, unreadable subdirectories skipped) are not modelled. Their enumeration is the listing. Each call of `find` walks the same listing, so the filesystem is assumed not to change between calls.
- `getRealPath()` and `getExtension()` are fields of `Entry`. `getRealPath()` returning `false` for a vanished entry is not modelled.
- The closure's body is an abstract function value. A closure that calls the object's setters during the walk, or that throws, is not modelled.
- Generator laziness is not modelled. The result is the whole sequence of pairs plus the number of entries examined. A caller that stops consuming early sees a prefix of it. In PHP the loop reads the limit, type and extension fields only as values are pulled, so a setter called after `find()` and before or between pulls changes the rest of the walk; `Finder.Find.Find` fixes the configuration at the call.
- `strtolower` is ASCII lower-casing, which matches PHP 8.2 and later. Locale-dependent lower-casing in older PHP is not modelled.
- Setter arguments are modelled as PHP strings (extensions) and integers (limits). Non-string array items and non-integer limits are not modelled.
- Configuration.WithExtensions: the argument is modelled as a list, so array keys are lost. With string keys, `array_merge` (Find.php:131) lets a later value replace one registered earlier under the same key (`['k' => 'jpg']` then `['k' => 'png']` leaves only `png`). For such input PHP does not keep the superset promise this contract states. For list arguments (integer keys) the contract is exact.
- Extensions.Merge: same as `Configuration.WithExtensions`. It merges lists, not keyed arrays, so the string-key overwrite of `array_merge` is not modelled.
- Exceptions become a failure result (`Result.Err`, or `ok == false` on the methods) with the fields unchanged. The fluent `return $this` is not modelled.
