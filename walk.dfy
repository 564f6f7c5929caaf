/** What one run of `find` produces from the entries the directory iterator
    enumerates: which entries pass the filters, which pairs are yielded, and
    after how many entries the generator stops. These functions specify the
    loop in `Finder.Find.Find`; the lemmas state the limit behaviour. */
module Walk {
  import opened Wrappers
  import opened Extensions
  import opened Configuration

  /** One leaf as the recursive iterator delivers it: `getRealPath()`,
      `isFile()`, `isDir()` and `getExtension()`. */
  datatype Entry = Entry(realPath: string, isFile: bool, isDir: bool, extension: string)

  /** What the closure returns, together with PHP's truthiness of it. */
  datatype Outcome<V> = Outcome(value: V, truthy: bool)

  /** The value of a yielded pair: the file info itself, or the closure's result. */
  datatype Value<V> = FileInfo(entry: Entry) | Returned(result: V)

  /** A yielded `key => value` pair. */
  datatype Pair<V> = Pair(key: string, value: Value<V>)

  type Closure<V> = Option<Entry -> Outcome<V>>

  /** The files-only and directories-only tests. */
  predicate TypeAllows(c: Config, e: Entry) {
    (c.filesOnly ==> e.isFile) && (c.directoriesOnly ==> e.isDir)
  }

  /** The extension test; it only ever looks at files. */
  predicate ExtensionAllows(c: Config, e: Entry) {
    |c.extensions| == 0 || !e.isFile || Lower(e.extension) in c.extensions
  }

  /** An entry that reaches the closure: it passes all three `continue` tests. */
  predicate Passes(c: Config, e: Entry) {
    TypeAllows(c, e) && ExtensionAllows(c, e)
  }

  /** The closure's result, or the entry itself (an object, always truthy). */
  function Transform<V>(f: Closure<V>, e: Entry): Outcome<Value<V>> {
    match f
    case None => Outcome(FileInfo(e), true)
    case Some(g) => var o := g(e); Outcome(Returned(o.value), o.truthy)
  }

  /** An entry that is yielded when the loop reaches it. */
  predicate Selected<V>(c: Config, f: Closure<V>, e: Entry) {
    Passes(c, e) && Transform(f, e).truthy
  }

  function PairOf<V>(f: Closure<V>, e: Entry): Pair<V> {
    Pair(e.realPath, Transform(f, e).value)
  }

  /** The entries, in order, that pass the filters. */
  function Filtered(c: Config, es: seq<Entry>): seq<Entry> {
    if es == [] then []
    else
      var n := |es| - 1;
      var rest := Filtered(c, es[..n]);
      if Passes(c, es[n]) then rest + [es[n]] else rest
  }

  /** The entries that reach the closure all pass the filters, come from
      the listing, and include every passing entry. */
  lemma {:induction false} FilteredPasses(c: Config, es: seq<Entry>)
    ensures |Filtered(c, es)| <= |es|
    ensures forall x :: x in Filtered(c, es) ==> x in es && Passes(c, x)
    ensures forall j :: 0 <= j < |es| && Passes(c, es[j]) ==> es[j] in Filtered(c, es)
  {
    if es != [] {
      var n := |es| - 1;
      FilteredPasses(c, es[..n]);
      assert forall j :: 0 <= j < n ==> es[..n][j] == es[j];
    }
  }

  /** The pairs yielded for `es` when no limit intervenes. */
  function Emitted<V>(c: Config, f: Closure<V>, es: seq<Entry>): seq<Pair<V>> {
    if es == [] then []
    else
      var n := |es| - 1;
      var rest := Emitted(c, f, es[..n]);
      if Selected(c, f, es[n]) then rest + [PairOf(f, es[n])] else rest
  }

  lemma EmittedStep<V>(c: Config, f: Closure<V>, es: seq<Entry>, i: nat)
    requires i < |es|
    ensures Emitted(c, f, es[..i + 1])
         == if Selected(c, f, es[i]) then Emitted(c, f, es[..i]) + [PairOf(f, es[i])] else Emitted(c, f, es[..i])
  {
    assert es[..i + 1][..i] == es[..i];
  }

  lemma FilteredStep(c: Config, es: seq<Entry>, i: nat)
    requires i < |es|
    ensures Filtered(c, es[..i + 1])
         == if Passes(c, es[i]) then Filtered(c, es[..i]) + [es[i]] else Filtered(c, es[..i])
  {
    assert es[..i + 1][..i] == es[..i];
  }

  /** The positions, in the listing, of the entries that are yielded. */
  function Positions<V>(c: Config, f: Closure<V>, es: seq<Entry>): seq<nat> {
    if es == [] then []
    else
      var n := |es| - 1;
      var rest := Positions(c, f, es[..n]);
      if Selected(c, f, es[n]) then rest + [n] else rest
  }

  /** The positions are exactly those of the selected entries, each once, in
      increasing order. */
  lemma {:induction false} PositionsAreSelected<V>(c: Config, f: Closure<V>, es: seq<Entry>)
    ensures forall k :: 0 <= k < |Positions(c, f, es)| ==>
      Positions(c, f, es)[k] < |es| && Selected(c, f, es[Positions(c, f, es)[k]])
    ensures forall k, l :: 0 <= k < l < |Positions(c, f, es)| ==> Positions(c, f, es)[k] < Positions(c, f, es)[l]
    ensures forall j: nat :: j < |es| && Selected(c, f, es[j]) ==> j in Positions(c, f, es)
  {
    if es != [] {
      var n := |es| - 1;
      PositionsAreSelected(c, f, es[..n]);
      assert forall j :: 0 <= j < n ==> es[..n][j] == es[j];
    }
  }

  /** The yielded pairs are, in order, the pairs of the entries at those positions. */
  lemma {:induction false} YieldedInOrder<V>(c: Config, f: Closure<V>, es: seq<Entry>)
    ensures |Positions(c, f, es)| == |Emitted(c, f, es)|
    ensures forall k :: 0 <= k < |Positions(c, f, es)| ==>
      Positions(c, f, es)[k] < |es| && Emitted(c, f, es)[k] == PairOf(f, es[Positions(c, f, es)[k]])
  {
    if es != [] {
      var n := |es| - 1;
      YieldedInOrder(c, f, es[..n]);
      assert forall j :: 0 <= j < n ==> es[..n][j] == es[j];
    }
  }

  /** The loop breaks right after the entry at (0-based) position `j`: it
      passed the filters and either was the soft-limit-th success or sits
      at a 1-based position at or past the hard limit. */
  predicate StopsAfter<V>(c: Config, f: Closure<V>, es: seq<Entry>, j: nat)
    requires j < |es|
  {
    && Passes(c, es[j])
    && (|| (Transform(f, es[j]).truthy && c.softLimit.Some? && |Emitted(c, f, es[..j + 1])| >= c.softLimit.value)
        || (c.hardLimit.Some? && j + 1 >= c.hardLimit.value))
  }

  /** The number of entries examined when the walk resumes at position `i`:
      one past the first stopping position, or all of them. */
  function ExaminedFrom<V>(c: Config, f: Closure<V>, es: seq<Entry>, i: nat): (n: nat)
    requires i <= |es|
    ensures i <= n <= |es|
    decreases |es| - i
  {
    if i == |es| then |es|
    else if StopsAfter(c, f, es, i) then i + 1
    else ExaminedFrom(c, f, es, i + 1)
  }

  /** Resuming at `i`, the walk examines entries up to and including the
      first stopping position, or all of them. */
  lemma {:induction false} ExaminedFromFirstStop<V>(c: Config, f: Closure<V>, es: seq<Entry>, i: nat)
    requires i <= |es|
    ensures ExaminedFrom(c, f, es, i) < |es| ==>
      i < ExaminedFrom(c, f, es, i) && StopsAfter(c, f, es, ExaminedFrom(c, f, es, i) - 1)
    ensures forall j: nat :: i <= j < ExaminedFrom(c, f, es, i) - 1 ==> !StopsAfter(c, f, es, j)
    decreases |es| - i
  {
    if i < |es| && !StopsAfter(c, f, es, i) {
      ExaminedFromFirstStop(c, f, es, i + 1);
    }
  }

  /** The number of entries `find` pulls from the iterator. */
  function Examined<V>(c: Config, f: Closure<V>, es: seq<Entry>): nat {
    ExaminedFrom(c, f, es, 0)
  }

  /** Examining stops at the first stopping position and nowhere else. */
  lemma ExaminedIsFirstStop<V>(c: Config, f: Closure<V>, es: seq<Entry>)
    ensures Examined(c, f, es) <= |es|
    ensures Examined(c, f, es) < |es| ==> 0 < Examined(c, f, es) && StopsAfter(c, f, es, Examined(c, f, es) - 1)
    ensures forall j: nat :: j < |es| && StopsAfter(c, f, es, j) ==> Examined(c, f, es) <= j + 1
  {
    ExaminedFromFirstStop(c, f, es, 0);
  }

  /** The walk never stops right after an entry a filter rejected: the
      `continue`s skip both limit tests. */
  lemma StopFollowsPassingEntry<V>(c: Config, f: Closure<V>, es: seq<Entry>)
    ensures Examined(c, f, es) < |es| ==>
      0 < Examined(c, f, es) && Passes(c, es[Examined(c, f, es) - 1])
  {
    ExaminedIsFirstStop(c, f, es);
  }

  /** Before the stopping position fewer than `softLimit` pairs were yielded. */
  lemma {:induction false} BelowSoftLimit<V>(c: Config, f: Closure<V>, es: seq<Entry>, i: nat)
    requires Valid(c) && c.softLimit.Some?
    requires i < Examined(c, f, es) || i == 0
    requires i <= |es|
    ensures |Emitted(c, f, es[..i])| < c.softLimit.value
  {
    if i > 0 {
      BelowSoftLimit(c, f, es, i - 1);
      EmittedStep(c, f, es, i - 1);
      ExaminedFromFirstStop(c, f, es, 0);
      assert !StopsAfter(c, f, es, i - 1);
    }
  }

  /** With a soft limit, at most `softLimit` pairs are yielded. */
  lemma SoftLimitBound<V>(c: Config, f: Closure<V>, es: seq<Entry>)
    requires Valid(c) && c.softLimit.Some?
    ensures |Emitted(c, f, es[..Examined(c, f, es)])| <= c.softLimit.value
  {
    var n := Examined(c, f, es);
    if n > 0 {
      BelowSoftLimit(c, f, es, n - 1);
      EmittedStep(c, f, es, n - 1);
    }
  }

  /** Right after the `softLimit`-th yield nothing more is examined: when the
      limit is reached, the last examined entry is the one that reached it. */
  lemma SoftLimitStopsAtLastYield<V>(c: Config, f: Closure<V>, es: seq<Entry>)
    requires Valid(c) && c.softLimit.Some?
    requires |Emitted(c, f, es[..Examined(c, f, es)])| == c.softLimit.value
    ensures 0 < Examined(c, f, es)
    ensures Selected(c, f, es[Examined(c, f, es) - 1])
    ensures |Emitted(c, f, es[..Examined(c, f, es) - 1])| == c.softLimit.value - 1
  {
    var n := Examined(c, f, es);
    assert n != 0;
    BelowSoftLimit(c, f, es, n - 1);
    EmittedStep(c, f, es, n - 1);
  }

  /** Without a hard limit, a listing with at least `softLimit` selected
      entries yields exactly `softLimit` pairs. */
  lemma SoftLimitExact<V>(c: Config, f: Closure<V>, es: seq<Entry>)
    requires Valid(c) && c.softLimit.Some? && c.hardLimit.None?
    requires |Emitted(c, f, es)| >= c.softLimit.value
    ensures |Emitted(c, f, es[..Examined(c, f, es)])| == c.softLimit.value
  {
    var n := Examined(c, f, es);
    SoftLimitBound(c, f, es);
    ExaminedIsFirstStop(c, f, es);
    if n == |es| {
      assert es[..n] == es;
    }
  }

  /** Before the stopping position, every passing entry sat before the hard
      limit, so no more than `hardLimit - 1` pairs were yielded. */
  lemma {:induction false} BelowHardLimit<V>(c: Config, f: Closure<V>, es: seq<Entry>, i: nat)
    requires Valid(c) && c.hardLimit.Some?
    requires i < Examined(c, f, es) || i == 0
    requires i <= |es|
    ensures |Emitted(c, f, es[..i])| <= i
    ensures |Emitted(c, f, es[..i])| < c.hardLimit.value
  {
    if i > 0 {
      BelowHardLimit(c, f, es, i - 1);
      EmittedStep(c, f, es, i - 1);
      ExaminedFromFirstStop(c, f, es, 0);
      assert !StopsAfter(c, f, es, i - 1);
    }
  }

  /** With a hard limit, at most `hardLimit` pairs are yielded. */
  lemma HardLimitBound<V>(c: Config, f: Closure<V>, es: seq<Entry>)
    requires Valid(c) && c.hardLimit.Some?
    ensures |Emitted(c, f, es[..Examined(c, f, es)])| <= c.hardLimit.value
  {
    var n := Examined(c, f, es);
    if n > 0 {
      BelowHardLimit(c, f, es, n - 1);
      EmittedStep(c, f, es, n - 1);
    }
  }

  /** The walk stops at the latest after the first passing entry whose
      1-based position reaches the hard limit. */
  lemma HardLimitStops<V>(c: Config, f: Closure<V>, es: seq<Entry>, j: nat)
    requires c.hardLimit.Some?
    requires j < |es| && Passes(c, es[j]) && j + 1 >= c.hardLimit.value
    ensures Examined(c, f, es) <= j + 1
  {
    assert StopsAfter(c, f, es, j);
    ExaminedIsFirstStop(c, f, es);
  }

  /** Without a soft limit, the first passing entry at or past the hard limit
      is the last one examined, so its pair is still produced. */
  lemma HardLimitStopsExactly<V>(c: Config, f: Closure<V>, es: seq<Entry>, j: nat)
    requires c.softLimit.None? && c.hardLimit.Some?
    requires j < |es| && Passes(c, es[j]) && j + 1 >= c.hardLimit.value
    requires forall i :: 0 <= i < j && Passes(c, es[i]) ==> i + 1 < c.hardLimit.value
    ensures Examined(c, f, es) == j + 1
  {
    HardLimitStops(c, f, es, j);
    ExaminedIsFirstStop(c, f, es);
  }

  /** What one run guarantees, in terms of the number of entries it examines. */
  lemma WalkGuarantees<V>(c: Config, f: Closure<V>, es: seq<Entry>)
    ensures forall e :: e in Filtered(c, es[..Examined(c, f, es)]) ==> Passes(c, e)
    ensures Valid(c) && c.softLimit.Some? ==> |Emitted(c, f, es[..Examined(c, f, es)])| <= c.softLimit.value
    ensures Valid(c) && c.hardLimit.Some? ==> |Emitted(c, f, es[..Examined(c, f, es)])| <= c.hardLimit.value
    ensures Examined(c, f, es) < |es| ==> 0 < Examined(c, f, es) && Passes(c, es[Examined(c, f, es) - 1])
  {
    FilteredPasses(c, es[..Examined(c, f, es)]);
    StopFollowsPassingEntry(c, f, es);
    if Valid(c) && c.softLimit.Some? {
      SoftLimitBound(c, f, es);
    }
    if Valid(c) && c.hardLimit.Some? {
      HardLimitBound(c, f, es);
    }
  }

  /** Entries that fail the filters do not trigger the hard limit: two
      leading directories under a files-only walk with a hard limit of 1 are
      both examined, and the file at position 3 stops the walk. */
  lemma HardLimitCanBeExceeded()
    ensures var c := Initial.(filesOnly := true, hardLimit := Some(1));
            var es := [Entry("/r/a", false, true, ""), Entry("/r/b", false, true, ""),
                       Entry("/r/c.txt", true, false, "txt"), Entry("/r/d.txt", true, false, "txt")];
            Examined<int>(c, None, es) == 3 > c.hardLimit.value
  {
  }

  /** A hard limit never truncates a listing no longer than it (when no soft limit is set). */
  lemma SmallListingFullyExamined<V>(c: Config, f: Closure<V>, es: seq<Entry>)
    requires c.softLimit.None?
    requires c.hardLimit.None? || |es| <= c.hardLimit.value
    ensures Examined(c, f, es) == |es|
  {
    ExaminedIsFirstStop(c, f, es);
  }

  /** Without a closure every passing examined entry is yielded, with the
      file info itself as the value. */
  lemma {:induction false} NoClosureYieldsFiltered<V>(c: Config, es: seq<Entry>)
    ensures |Emitted<V>(c, None, es)| == |Filtered(c, es)|
    ensures forall k :: 0 <= k < |Filtered(c, es)| ==>
      Emitted<V>(c, None, es)[k] == Pair(Filtered(c, es)[k].realPath, FileInfo(Filtered(c, es)[k]))
  {
    if es != [] {
      NoClosureYieldsFiltered<V>(c, es[..|es| - 1]);
    }
  }

  /** Extensions are never checked against a directory. */
  lemma DirectoriesIgnoreExtensions(c: Config, e: Entry)
    requires !e.isFile
    ensures Passes(c, e) <==> TypeAllows(c, e)
  {
  }

  /** `directoriesOnly()` keeps extensions registered before it, but they
      then reject nothing: a directory is never a file. */
  lemma DirectoriesOnlyMakesExtensionsInert(c: Config, e: Entry)
    requires c.directoriesOnly
    requires !(e.isFile && e.isDir)
    ensures Passes(c, e) <==> Passes(c.(extensions := []), e)
  {
  }
}
