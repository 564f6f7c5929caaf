/** The `Find` object: its configuration fields, updated in place by the
    fluent setters, and the `find` loop over the entries its directory
    iterator enumerates. */
module Finder {
  import opened Wrappers
  import opened Extensions
  import opened Configuration
  import opened Walk

  class Find {
    /** The leaves the recursive directory iterator over the root enumerates, depth-first. */
    const listing: seq<Entry>

    var softLimit: Option<int>
    var hardLimit: Option<int>
    var filesOnly: bool
    var directoriesOnly: bool
    var extensions: seq<string>

    /** The configuration the fields hold. */
    function State(): Config
      reads this
    {
      Config(softLimit, hardLimit, filesOnly, directoriesOnly, extensions)
    }

    constructor (listing: seq<Entry>)
      ensures this.listing == listing
      ensures State() == Initial
      ensures Valid(State())
    {
      this.listing := listing;
      softLimit, hardLimit := None, None;
      filesOnly, directoriesOnly := false, false;
      extensions := [];
      InitialIsValid();
    }

    /** `Find::in($directory)`: the root must be a readable directory. */
    static method In(rootIsReadableDirectory: bool, listing: seq<Entry>) returns (r: Result<Find>)
      ensures r.Err? <==> !rootIsReadableDirectory
      ensures r.Err? ==> r.error == RuntimeError
      ensures r.Ok? ==> fresh(r.value) && r.value.listing == listing && r.value.State() == Initial
    {
      if !rootIsReadableDirectory {
        return Err(RuntimeError);
      }
      var find := new Find(listing);
      r := Ok(find);
    }

    method WithSoftLimit(limit: int) returns (ok: bool)
      modifies this
      ensures ok <==> Configuration.WithSoftLimit(old(State()), limit).Ok?
      ensures State() == if ok then Configuration.WithSoftLimit(old(State()), limit).value else old(State())
      ensures Valid(old(State())) ==> Valid(State())
    {
      if limit <= 0 {
        return false;
      }
      if hardLimit.Some? && hardLimit.value != 0 && limit > hardLimit.value {
        return false;
      }
      softLimit := Some(limit);
      ok := true;
    }

    method WithHardLimit(limit: int) returns (ok: bool)
      modifies this
      ensures ok <==> Configuration.WithHardLimit(old(State()), limit).Ok?
      ensures State() == if ok then Configuration.WithHardLimit(old(State()), limit).value else old(State())
      ensures Valid(old(State())) ==> Valid(State())
    {
      if limit <= 0 {
        return false;
      }
      if softLimit.Some? && softLimit.value != 0 && limit < softLimit.value {
        return false;
      }
      hardLimit := Some(limit);
      ok := true;
    }

    method FilesOnly() returns (ok: bool)
      modifies this
      ensures ok <==> Configuration.FilesOnly(old(State())).Ok?
      ensures State() == if ok then Configuration.FilesOnly(old(State())).value else old(State())
      ensures Valid(old(State())) ==> Valid(State())
    {
      if directoriesOnly {
        return false;
      }
      filesOnly := true;
      ok := true;
    }

    method DirectoriesOnly() returns (ok: bool)
      modifies this
      ensures ok <==> Configuration.DirectoriesOnly(old(State())).Ok?
      ensures State() == if ok then Configuration.DirectoriesOnly(old(State())).value else old(State())
      ensures Valid(old(State())) ==> Valid(State())
    {
      if filesOnly {
        return false;
      }
      directoriesOnly := true;
      ok := true;
    }

    method WithExtensions(items: seq<string>) returns (ok: bool)
      modifies this
      ensures ok <==> Configuration.WithExtensions(old(State()), items).Ok?
      ensures State() == if ok then Configuration.WithExtensions(old(State()), items).value else old(State())
      ensures Valid(old(State())) ==> Valid(State())
    {
      if directoriesOnly {
        return false;
      }
      extensions := Merge(extensions, items);
      ok := true;
    }

    /** `find($closure)`: the pairs yielded, the number of entries pulled from
        the iterator, and the entries handed to the closure, in order. */
    method Find<V>(closure: Closure<V>) returns (pairs: seq<Pair<V>>, examined: nat, invoked: seq<Entry>)
      ensures examined == Examined(State(), closure, listing)
      ensures pairs == Emitted(State(), closure, listing[..examined])
      ensures invoked == if closure.Some? then Filtered(State(), listing[..examined]) else []
      ensures forall e :: e in invoked ==> Passes(State(), e)
      ensures Valid(State()) && softLimit.Some? ==> |pairs| <= softLimit.value
      ensures Valid(State()) && hardLimit.Some? ==> |pairs| <= hardLimit.value
      ensures examined < |listing| ==> 0 < examined && Passes(State(), listing[examined - 1])
    {
      ghost var c := State();
      var iteration := 0;
      var success := 0;
      pairs, invoked := [], [];
      while iteration < |listing|
        invariant iteration <= |listing|
        invariant pairs == Emitted(c, closure, listing[..iteration])
        invariant success == |pairs|
        invariant invoked == if closure.Some? then Filtered(c, listing[..iteration]) else []
        invariant Examined(c, closure, listing) == ExaminedFrom(c, closure, listing, iteration)
      {
        var fileInfo := listing[iteration];
        EmittedStep(c, closure, listing, iteration);
        FilteredStep(c, listing, iteration);
        iteration := iteration + 1;

        if filesOnly && !fileInfo.isFile {
          continue;
        }
        if directoriesOnly && !fileInfo.isDir {
          continue;
        }
        if |extensions| > 0 && fileInfo.isFile && Lower(fileInfo.extension) !in extensions {
          continue;
        }

        var value: Value<V>, truthy: bool;
        if closure.Some? {
          var outcome := closure.value(fileInfo);
          value, truthy := Returned(outcome.value), outcome.truthy;
          invoked := invoked + [fileInfo];
        } else {
          value, truthy := FileInfo(fileInfo), true;
        }

        if truthy {
          success := success + 1;
          pairs := pairs + [Pair(fileInfo.realPath, value)];
          if softLimit.Some? && success >= softLimit.value {
            break;
          }
        }

        if hardLimit.Some? && iteration >= hardLimit.value {
          break;
        }
      }
      examined := iteration;

      WalkGuarantees(c, closure, listing);
    }
  }
}
