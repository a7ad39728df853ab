// JoinPathsMojo: join the configured paths with the platform's path
// separator and publish the result as a Maven project property, refusing to
// overwrite a property that already holds something else.

module JoinPaths {
  import opened Strings

  // ------------------------------------------------------------------
  // String.join
  // ------------------------------------------------------------------

  /** String.join(separator, paths): the separator goes between consecutive paths only. */
  function Join(separator: string, paths: seq<string>): (r: string)
    decreases |paths|
  {
    if paths == [] then ""
    else if |paths| == 1 then paths[0]
    else paths[0] + separator + Join(separator, paths[1..])
  }

  /**
   * Joining is appending path by path, as String.join's StringJoiner does: a
   * further path adds the separator and that path to what was joined so far.
   */
  lemma {:induction false} JoinAppend(separator: string, paths: seq<string>, p: string)
    ensures paths == [] ==> Join(separator, paths + [p]) == p
    ensures paths != [] ==> Join(separator, paths + [p]) == Join(separator, paths) + separator + p
    decreases |paths|
  {
    var all := paths + [p];
    if |paths| == 1 {
      assert all[1..] == [p];
    } else if |paths| > 1 {
      assert all[1..] == paths[1..] + [p];
      JoinAppend(separator, paths[1..], p);
    }
  }

  /** The total length of the paths. */
  function TotalLength(paths: seq<string>): nat
    decreases |paths|
  {
    if paths == [] then 0 else |paths[0]| + TotalLength(paths[1..])
  }

  /** The joined text holds every path and one separator per gap between two of them. */
  lemma {:induction false} JoinLength(separator: string, paths: seq<string>)
    requires paths != []
    ensures |Join(separator, paths)| == TotalLength(paths) + (|paths| - 1) * |separator|
    decreases |paths|
  {
    if |paths| > 1 {
      JoinLength(separator, paths[1..]);
    } else {
      assert paths[1..] == [];
    }
  }

  /** The pieces of `s` between the occurrences of `c`, as String.split would give them with all empty pieces kept. */
  function Split(s: string, c: char): (r: seq<string>)
    ensures |r| >= 1
    decreases |s|
  {
    if s == [] then [""]
    else
      var rest := Split(s[1..], c);
      if s[0] == c then [""] + rest else [[s[0]] + rest[0]] + rest[1..]
  }

  /** A piece free of the separator, then the separator: the piece comes off the front. */
  lemma {:induction false} SplitPiece(a: string, c: char, t: string)
    requires c !in a
    ensures Split(a + [c] + t, c) == [a] + Split(t, c)
    decreases |a|
  {
    if a == [] {
      assert a + [c] + t == [c] + t;
      assert ([c] + t)[1..] == t;
    } else {
      var s := a + [c] + t;
      assert s[0] == a[0] && s[1..] == a[1..] + [c] + t;
      SplitPiece(a[1..], c, t);
      assert [a[0]] + a[1..] == a;
    }
  }

  /** Text free of the separator is one piece. */
  lemma {:induction false} SplitWhole(a: string, c: char)
    requires c !in a
    ensures Split(a, c) == [a]
    decreases |a|
  {
    if a != [] {
      SplitWhole(a[1..], c);
      assert [a[0]] + a[1..] == a;
    }
  }

  /**
   * With a one-character separator that no path contains, splitting the
   * joined text gives the paths back: the join loses nothing.
   */
  lemma {:induction false} SplitJoin(c: char, paths: seq<string>)
    requires paths != []
    requires forall k :: 0 <= k < |paths| ==> c !in paths[k]
    ensures Split(Join([c], paths), c) == paths
    decreases |paths|
  {
    if |paths| == 1 {
      SplitWhole(paths[0], c);
    } else {
      var rest := paths[1..];
      assert forall k :: 0 <= k < |rest| ==> c !in rest[k] by {
        forall k | 0 <= k < |rest| ensures c !in rest[k] {
          assert rest[k] == paths[k + 1];
        }
      }
      SplitJoin(c, rest);
      SplitPiece(paths[0], c, Join([c], rest));
      assert [paths[0]] + rest == paths;
    }
  }

  // ------------------------------------------------------------------
  // The project's properties
  // ------------------------------------------------------------------

  /** The project's Properties object, updated in place. */
  class Properties {
    var values: map<string, string>

    constructor (values: map<string, string>)
      ensures this.values == values
    {
      this.values := values;
    }

    /** getProperty: the value, or null when the property is not set. */
    function GetProperty(name: string): (r: Option<string>)
      reads this
      ensures r.Some? <==> name in values
      ensures r.Some? ==> r.value == values[name]
    {
      if name in values then Some(values[name]) else None
    }

    /** setProperty: the one property now holds `value`. */
    method SetProperty(name: string, value: string)
      modifies this
      ensures values == old(values)[name := value]
    {
      values := values[name := value];
    }
  }

  /** How execute() ends: the property is set, or a MojoExecutionException, or a NullPointerException for a missing paths array. */
  datatype JoinOutcome = Joined | PropertyExists(propertyName: string, existingValue: string) | NullPaths

  /**
   * The conflict rule: a property already set to another value stops the
   * execution and stays as it was; otherwise it ends up holding the joined
   * value, and no other property changes.
   */
  function Publish(values: map<string, string>, name: string, result: string): (r: (JoinOutcome, map<string, string>))
    ensures r.0.Joined? <==> name !in values || values[name] == result
    ensures r.0.Joined? ==> name in r.1 && r.1[name] == result
    ensures !r.0.Joined? ==> r.0 == PropertyExists(name, values[name]) && r.1 == values
    ensures forall k :: k != name ==> (k in r.1 <==> k in values) && (k in values ==> r.1[k] == values[k])
  {
    if name in values && values[name] != result then (PropertyExists(name, values[name]), values)
    else (Joined, values[name := result])
  }

  /** Running the goal again with the same configuration succeeds and changes nothing more. */
  lemma {:induction false} PublishTwice(values: map<string, string>, name: string, result: string)
    requires Publish(values, name, result).0.Joined?
    ensures Publish(Publish(values, name, result).1, name, result) == (Joined, Publish(values, name, result).1)
  {
    var once := Publish(values, name, result).1;
    assert once[name := result] == once;
  }

  /** A property already set to the joined value is left exactly as it was. */
  lemma {:induction false} PublishSame(values: map<string, string>, name: string, result: string)
    requires name in values && values[name] == result
    ensures Publish(values, name, result) == (Joined, values)
  {
    assert values[name := result] == values;
  }

  /**
   * execute(): join the paths, then apply the conflict rule to the project's
   * properties; only the property named `propertyName` can change.
   */
  method Execute(paths: Option<seq<string>>, propertyName: string, separator: string, properties: Properties)
    returns (outcome: JoinOutcome)
    modifies properties
    ensures paths.None? ==> outcome == NullPaths && properties.values == old(properties.values)
    ensures paths.Some? ==>
      (outcome, properties.values) == Publish(old(properties.values), propertyName, Join(separator, paths.value))
  {
    if paths.None? {
      return NullPaths;
    }
    var result := Join(separator, paths.value);
    var existingValue := properties.GetProperty(propertyName);
    if existingValue.Some? && existingValue.value != result {
      return PropertyExists(propertyName, existingValue.value);
    }
    properties.SetProperty(propertyName, result);
    outcome := Joined;
  }
}
