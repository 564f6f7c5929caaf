/** The configuration held by a `Find` object, and what each fluent setter
    does to it. A setter either fails with `InvalidArgument` (the PHP
    exception) or yields the new configuration. */
module Configuration {
  import opened Wrappers
  import opened Extensions

  /** `null` limits are `None`; the two `?bool` flags are only ever `null` or `true`. */
  datatype Config = Config(
    softLimit: Option<int>,
    hardLimit: Option<int>,
    filesOnly: bool,
    directoriesOnly: bool,
    extensions: seq<string>)

  /** The fields as a freshly constructed object has them. */
  const Initial := Config(None, None, false, false, [])

  /** PHP truthiness of a `?int` field: set and not zero. */
  predicate Truthy(limit: Option<int>) {
    limit.Some? && limit.value != 0
  }

  predicate LimitsOrdered(c: Config) {
    c.softLimit.Some? && c.hardLimit.Some? ==> c.softLimit.value <= c.hardLimit.value
  }

  predicate TypeFilterExclusive(c: Config) {
    !(c.filesOnly && c.directoriesOnly)
  }

  /** The invariant every configuration reachable through the setters keeps. */
  predicate Valid(c: Config) {
    && (c.softLimit.Some? ==> c.softLimit.value > 0)
    && (c.hardLimit.Some? ==> c.hardLimit.value > 0)
    && LimitsOrdered(c)
    && TypeFilterExclusive(c)
    && NoDuplicates(c.extensions)
    && (forall x :: x in c.extensions ==> Normal(x))
  }

  lemma InitialIsValid()
    ensures Valid(Initial)
  {
  }

  /** `withSoftLimit($limit)`. */
  function WithSoftLimit(c: Config, limit: int): (r: Result<Config>)
    ensures r.Err? <==> limit <= 0 || (Truthy(c.hardLimit) && limit > c.hardLimit.value)
    ensures r.Err? ==> r.error == InvalidArgument
    ensures r.Ok? ==> r.value.softLimit == Some(limit) && r.value.(softLimit := c.softLimit) == c
    ensures Valid(c) && r.Ok? ==> Valid(r.value)
  {
    if limit <= 0 then Err(InvalidArgument)
    else if Truthy(c.hardLimit) && limit > c.hardLimit.value then Err(InvalidArgument)
    else Ok(c.(softLimit := Some(limit)))
  }

  /** `withHardLimit($limit)`. */
  function WithHardLimit(c: Config, limit: int): (r: Result<Config>)
    ensures r.Err? <==> limit <= 0 || (Truthy(c.softLimit) && limit < c.softLimit.value)
    ensures r.Err? ==> r.error == InvalidArgument
    ensures r.Ok? ==> r.value.hardLimit == Some(limit) && r.value.(hardLimit := c.hardLimit) == c
    ensures Valid(c) && r.Ok? ==> Valid(r.value)
  {
    if limit <= 0 then Err(InvalidArgument)
    else if Truthy(c.softLimit) && limit < c.softLimit.value then Err(InvalidArgument)
    else Ok(c.(hardLimit := Some(limit)))
  }

  /** `filesOnly()`. */
  function FilesOnly(c: Config): (r: Result<Config>)
    ensures r.Err? <==> c.directoriesOnly
    ensures r.Err? ==> r.error == InvalidArgument
    ensures r.Ok? ==> r.value.filesOnly && r.value.(filesOnly := c.filesOnly) == c
    ensures Valid(c) && r.Ok? ==> Valid(r.value)
  {
    if c.directoriesOnly then Err(InvalidArgument) else Ok(c.(filesOnly := true))
  }

  /** `directoriesOnly()`. As written it rejects only a files-only
      configuration; extensions already registered are kept. */
  function DirectoriesOnly(c: Config): (r: Result<Config>)
    ensures r.Err? <==> c.filesOnly
    ensures r.Err? ==> r.error == InvalidArgument
    ensures r.Ok? ==> r.value.directoriesOnly && r.value.(directoriesOnly := c.directoriesOnly) == c
    ensures Valid(c) && r.Ok? ==> Valid(r.value)
  {
    if c.filesOnly then Err(InvalidArgument) else Ok(c.(directoriesOnly := true))
  }

  /** `withExtensions($extensions)`. */
  function WithExtensions(c: Config, items: seq<string>): (r: Result<Config>)
    ensures r.Err? <==> c.directoriesOnly
    ensures r.Err? ==> r.error == InvalidArgument
    ensures r.Ok? ==> r.value.(extensions := c.extensions) == c
    ensures r.Ok? ==> forall x :: x in c.extensions ==> x in r.value.extensions
    ensures r.Ok? ==> forall i :: 0 <= i < |items| && !Falsy(items[i]) ==> Lower(items[i]) in r.value.extensions
    ensures r.Ok? ==> forall x :: x in r.value.extensions ==>
      x in c.extensions || exists i :: 0 <= i < |items| && !Falsy(items[i]) && x == Lower(items[i])
    ensures r.Ok? ==> NoDuplicates(r.value.extensions)
    ensures Valid(c) && r.Ok? ==> Valid(r.value)
  {
    if c.directoriesOnly then Err(InvalidArgument)
    else
      var merged := Merge(c.extensions, items);
      assert Valid(c) ==> forall x :: x in merged ==> Normal(x) by {
        if Valid(c) { MergeKeepsNormal(c.extensions, items); }
      }
      Ok(c.(extensions := merged))
  }

  /** Registering the same extensions a second time changes nothing. */
  lemma WithExtensionsIdempotent(c: Config, items: seq<string>)
    requires WithExtensions(c, items).Ok?
    ensures WithExtensions(WithExtensions(c, items).value, items) == WithExtensions(c, items)
  {
    MergeIdempotent(c.extensions, items);
  }

  /** One call of the fluent interface. */
  datatype Call =
    | SoftLimit(limit: int)
    | HardLimit(limit: int)
    | OnlyFiles
    | OnlyDirectories
    | Extensions(items: seq<string>)

  function Step(c: Config, call: Call): Result<Config> {
    match call
    case SoftLimit(n) => WithSoftLimit(c, n)
    case HardLimit(n) => WithHardLimit(c, n)
    case OnlyFiles => FilesOnly(c)
    case OnlyDirectories => DirectoriesOnly(c)
    case Extensions(items) => WithExtensions(c, items)
  }

  /** A chain `->a()->b()->...`: the first exception ends the chain. */
  function Chain(c: Config, calls: seq<Call>): Result<Config>
    decreases |calls|
  {
    if calls == [] then Ok(c)
    else
      match Step(c, calls[0])
      case Err(e) => Err(e)
      case Ok(next) => Chain(next, calls[1..])
  }

  /** Whatever chain of setters succeeds, the configuration it builds is
      valid: both limits positive, soft at most hard, never files-only and
      directories-only together, extensions normalised and distinct. */
  lemma {:induction false} ChainKeepsValid(c: Config, calls: seq<Call>)
    requires Valid(c)
    ensures Chain(c, calls).Ok? ==> Valid(Chain(c, calls).value)
    decreases |calls|
  {
    if calls != [] {
      match Step(c, calls[0])
      case Err(_) =>
      case Ok(next) => ChainKeepsValid(next, calls[1..]);
    }
  }

  /** Every configuration a chain of calls can build from a new object is valid. */
  lemma ReachableIsValid(calls: seq<Call>)
    ensures Chain(Initial, calls).Ok? ==> Valid(Chain(Initial, calls).value)
  {
    ChainKeepsValid(Initial, calls);
  }

  /** Files-only and directories-only exclude each other in either order. */
  lemma TypeFiltersConflict(c: Config)
    ensures FilesOnly(c).Ok? ==> DirectoriesOnly(FilesOnly(c).value).Err?
    ensures DirectoriesOnly(c).Ok? ==> FilesOnly(DirectoriesOnly(c).value).Err?
  {
  }

  /** A soft limit of 5 cannot be followed by a hard limit of 3; a hard
      limit of 10 followed by a soft limit of 5 is accepted. */
  lemma LimitOrderExamples()
    ensures Chain(Initial, [SoftLimit(5), HardLimit(3)]) == Err(InvalidArgument)
    ensures Chain(Initial, [HardLimit(10), SoftLimit(5)]) == Ok(Initial.(softLimit := Some(5), hardLimit := Some(10)))
  {
    assert [SoftLimit(5), HardLimit(3)][1..] == [HardLimit(3)];
    assert [HardLimit(10), SoftLimit(5)][1..] == [SoftLimit(5)];
  }

  /** `["JPG", "jpg", ""]` then `["png"]` leaves exactly `["jpg", "png"]`. */
  lemma ExtensionsExample()
    ensures Chain(Initial, [Extensions(["JPG", "jpg", ""]), Extensions(["png"])])
         == Ok(Initial.(extensions := ["jpg", "png"]))
  {
    var c1 := Initial.(extensions := ["jpg"]);
    var c2 := Initial.(extensions := ["jpg", "png"]);
    ExtensionsExampleSteps();
    var rest := [Extensions(["png"])];
    assert rest[1..] == [];
    assert Chain(c1, rest) == Ok(c2);
    var calls := [Extensions(["JPG", "jpg", ""])] + rest;
    assert calls[1..] == rest;
  }

  lemma ExtensionsExampleSteps()
    ensures Step(Initial, Extensions(["JPG", "jpg", ""])) == Ok(Initial.(extensions := ["jpg"]))
    ensures Step(Initial.(extensions := ["jpg"]), Extensions(["png"])) == Ok(Initial.(extensions := ["jpg", "png"]))
  {
    MergeExamples();
    StepIsSetter(Initial, Extensions(["JPG", "jpg", ""]));
    StepIsSetter(Initial.(extensions := ["jpg"]), Extensions(["png"]));
  }

  lemma StepIsSetter(c: Config, call: Call)
    requires call.Extensions?
    ensures Step(c, call) == WithExtensions(c, call.items)
  {
  }

  lemma MergeExamples()
    ensures Merge([], ["JPG", "jpg", ""]) == ["jpg"]
    ensures Merge(["jpg"], ["png"]) == ["jpg", "png"]
  {
    NormalizeExamples();
    assert ([] + ["jpg", "jpg"])[..1] == ["jpg"];
    assert ["jpg"][..0] == [];
    assert (["jpg"] + ["png"])[..1] == ["jpg"];
  }

  lemma NormalizeExamples()
    ensures Normalize(["JPG", "jpg", ""]) == ["jpg", "jpg"]
    ensures Normalize(["png"]) == ["png"]
  {
    LowerExamples();
    assert ["JPG", "jpg", ""][..2] == ["JPG", "jpg"];
    assert ["JPG", "jpg"][..1] == ["JPG"];
    assert ["JPG"][..0] == [];
    assert ["png"][..0] == [];
  }

  lemma LowerExamples()
    ensures Lower("JPG") == "jpg" && Lower("jpg") == "jpg" && Lower("png") == "png"
  {
  }
}
