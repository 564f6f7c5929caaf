/** The normalisation that `withExtensions` applies to its argument:
    `array_filter` (drop falsy items), `array_map('strtolower', ...)`,
    and `array_unique(array_merge(...))` against the extensions already held. */
module Extensions {

  /** A string PHP's `array_filter` drops: the two falsy strings. */
  predicate Falsy(s: string) {
    s == "" || s == "0"
  }

  /** ASCII lower-casing of one character, as `strtolower` does. */
  function LowerChar(ch: char): char {
    if 'A' <= ch <= 'Z' then (ch as int - 'A' as int + 'a' as int) as char else ch
  }

  function Lower(s: string): string {
    seq(|s|, i requires 0 <= i < |s| => LowerChar(s[i]))
  }

  predicate IsLower(s: string) {
    forall i :: 0 <= i < |s| ==> !('A' <= s[i] <= 'Z')
  }

  /** An extension as stored after normalisation. */
  predicate Normal(s: string) {
    !Falsy(s) && IsLower(s)
  }

  predicate NoDuplicates(s: seq<string>) {
    forall i, j :: 0 <= i < j < |s| ==> s[i] != s[j]
  }

  /** Lower-casing yields a lower-case string, and keeps a string falsy
      exactly when it was falsy. */
  lemma LowerIsNormal(s: string)
    ensures IsLower(Lower(s))
    ensures Falsy(Lower(s)) <==> Falsy(s)
    ensures IsLower(s) ==> Lower(s) == s
  {
  }

  /** `array_map('strtolower', array_filter(items))`. */
  function Normalize(items: seq<string>): (r: seq<string>)
    ensures forall x :: x in r ==> Normal(x)
    ensures forall i :: 0 <= i < |items| && !Falsy(items[i]) ==> Lower(items[i]) in r
    ensures forall x :: x in r ==> exists i :: 0 <= i < |items| && !Falsy(items[i]) && x == Lower(items[i])
  {
    if items == [] then []
    else
      var n := |items| - 1;
      var rest := Normalize(items[..n]);
      assert forall i :: 0 <= i < n ==> items[..n][i] == items[i];
      if Falsy(items[n]) then rest
      else
        LowerIsNormal(items[n]);
        rest + [Lower(items[n])]
  }

  /** `array_unique`: keeps the first occurrence of every value, in order. */
  function Unique(s: seq<string>): (r: seq<string>)
    ensures forall x :: x in r <==> x in s
    ensures NoDuplicates(r)
    ensures |r| <= |s|
  {
    if s == [] then []
    else
      var n := |s| - 1;
      var rest := Unique(s[..n]);
      assert forall x :: x in s <==> x in s[..n] || x == s[n];
      if s[n] in rest then rest else rest + [s[n]]
  }

  /** A list without duplicates is its own `array_unique`. */
  lemma {:induction false} UniqueOfDistinct(s: seq<string>)
    requires NoDuplicates(s)
    ensures Unique(s) == s
  {
    if s != [] {
      var n := |s| - 1;
      assert NoDuplicates(s[..n]);
      UniqueOfDistinct(s[..n]);
      assert s[n] !in s[..n];
      assert s[..n] + [s[n]] == s;
    }
  }

  /** Appending values that are already present changes nothing. */
  lemma {:induction false} UniqueAbsorbs(s: seq<string>, t: seq<string>)
    requires NoDuplicates(s)
    requires forall x :: x in t ==> x in s
    ensures Unique(s + t) == s
  {
    if t == [] {
      assert s + t == s;
      UniqueOfDistinct(s);
    } else {
      var m := |t| - 1;
      assert (s + t)[..|s + t| - 1] == s + t[..m];
      assert (s + t)[|s + t| - 1] == t[m];
      assert t[m] in t;
      UniqueAbsorbs(s, t[..m]);
    }
  }

  /** `array_unique` of a longer list starts with `array_unique` of its prefix. */
  lemma {:induction false} UniquePrefix(s: seq<string>, t: seq<string>)
    ensures |Unique(s)| <= |Unique(s + t)|
    ensures Unique(s + t)[..|Unique(s)|] == Unique(s)
  {
    if t == [] {
      assert s + t == s;
    } else {
      var m := |t| - 1;
      assert (s + t)[..|s + t| - 1] == s + t[..m];
      UniquePrefix(s, t[..m]);
    }
  }

  /** `array_unique(array_merge(have, array_map('strtolower', array_filter(items))))`. */
  function Merge(have: seq<string>, items: seq<string>): (r: seq<string>)
    ensures forall x :: x in have ==> x in r
    ensures forall i :: 0 <= i < |items| && !Falsy(items[i]) ==> Lower(items[i]) in r
    ensures forall x :: x in r ==> x in have || exists i :: 0 <= i < |items| && !Falsy(items[i]) && x == Lower(items[i])
    ensures NoDuplicates(r)
    ensures NoDuplicates(have) ==> |have| <= |r| && r[..|have|] == have
  {
    var r := Unique(have + Normalize(items));
    UniquePrefix(have, Normalize(items));
    assert NoDuplicates(have) ==> Unique(have) == have by {
      if NoDuplicates(have) { UniqueOfDistinct(have); }
    }
    r
  }

  /** Adding the same list twice gives the same extensions as adding it once. */
  lemma MergeIdempotent(have: seq<string>, items: seq<string>)
    ensures Merge(Merge(have, items), items) == Merge(have, items)
  {
    var once := Merge(have, items);
    UniqueAbsorbs(once, Normalize(items));
  }

  /** Normalised lists stay normalised: every merged value is non-falsy and lower case. */
  lemma MergeKeepsNormal(have: seq<string>, items: seq<string>)
    requires forall x :: x in have ==> Normal(x)
    ensures forall x :: x in Merge(have, items) ==> Normal(x)
  {
  }
}
