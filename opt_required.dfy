/**
 * The required-option tracker. Each required long name maps to a flag: `true`
 * right after it was declared, `false` once an option with that long name was
 * registered, and `true` again once parsing saw it on the command line.
 */
module OptRequired {
  import opened Wrappers
  import opened GoStrings
  import opened OptNames
  import opened FlagSet

  /** Some required name is still `true`: declared but not registered (or already seen). */
  predicate Pending(required: map<string, bool>)
  {
    exists k :: k in required && required[k]
  }

  /** The long name a short one stands for; "" (Go's zero value) when it is not a short name. */
  function ShortTarget(shToLong: map<string, string>, f: string): string
  {
    if f in shToLong then shToLong[f] else ""
  }

  /**
   * The required name credited when flag `f` was set: `f` itself when it is
   * required, otherwise its `ShortTarget` when that is required. For a flag
   * that is no short alias the target is "", so a required "" is credited.
   */
  function Credit(required: map<string, bool>, shToLong: map<string, string>, f: string): (r: Option<string>)
    ensures r.Some? ==> r.value in required
    ensures f in required ==> r == Some(f)
    ensures f !in required ==> (r.Some? <==> ShortTarget(shToLong, f) in required)
    ensures f !in required && r.Some? ==> r.value == ShortTarget(shToLong, f)
  {
    if f in required then Some(f)
    else if ShortTarget(shToLong, f) in required then Some(ShortTarget(shToLong, f))
    else None
  }

  /** The required names that the flags set on the command line account for. */
  function Satisfied(required: map<string, bool>, shToLong: map<string, string>, setNames: set<string>): (r: set<string>)
    ensures r <= required.Keys
  {
    set f | f in setNames && Credit(required, shToLong, f).Some? :: Credit(required, shToLong, f).value
  }

  /**
   * A required name is satisfied exactly when it was set under its own name,
   * or through a short name that is not itself required and stands for it.
   */
  lemma SatisfiedIff(required: map<string, bool>, shToLong: map<string, string>, setNames: set<string>, name: string)
    ensures name in Satisfied(required, shToLong, setNames) <==>
              name in required &&
              (name in setNames ||
               exists f :: f in setNames && f !in required && ShortTarget(shToLong, f) == name)
  {
    if name in required && name !in setNames {
      if f :| f in setNames && f !in required && ShortTarget(shToLong, f) == name {
        assert Credit(required, shToLong, f) == Some(name);
      }
    }
  }

  /** Adding set names can only satisfy more required names. */
  lemma SatisfiedMonotone(required: map<string, bool>, shToLong: map<string, string>, a: set<string>, b: set<string>)
    requires a <= b
    ensures Satisfied(required, shToLong, a) <= Satisfied(required, shToLong, b)
  {
  }

  /** Visiting one more set name credits at most one more required name. */
  lemma SatisfiedAdd(required: map<string, bool>, shToLong: map<string, string>, seen: set<string>, f: string)
    ensures var c := Credit(required, shToLong, f);
            Satisfied(required, shToLong, seen + {f}) ==
              Satisfied(required, shToLong, seen) + (if c.Some? then {c.value} else {})
  {
  }

  /** The required map after parsing: every satisfied name is `true` again, nothing else changes. */
  function MarkSeen(required: map<string, bool>, sat: set<string>): (r: map<string, bool>)
    ensures r.Keys == required.Keys
    ensures forall k :: k in r ==> r[k] == (k in sat || required[k])
  {
    map k | k in required :: if k in sat then true else required[k]
  }

  /** Marking one more satisfied name is one more update to `true`. */
  lemma MarkSeenAdd(required: map<string, bool>, sat: set<string>, c: string)
    requires c in required
    ensures MarkSeen(required, sat)[c := true] == MarkSeen(required, sat + {c})
  {
  }

  /**
   * After a parse that satisfied every required name, the tracker holds
   * `true` everywhere, so the check made at the start of a second parse fails.
   */
  lemma SecondParsePanics(required: map<string, bool>, shToLong: map<string, string>, setNames: set<string>)
    requires Satisfied(required, shToLong, setNames) == required.Keys
    requires required != map[]
    ensures Pending(MarkSeen(required, Satisfied(required, shToLong, setNames)))
  {
    var k :| k in required;
    assert MarkSeen(required, Satisfied(required, shToLong, setNames))[k];
  }

  /** Go compares the sizes; since the satisfied names are required names, that is set equality. */
  lemma SameSizeIsAll(sat: set<string>, names: set<string>)
    requires sat <= names
    ensures |sat| == |names| <==> sat == names
  {
    if |sat| == |names| {
      var rest := names - sat;
      assert names == sat + rest;
      assert |names| == |sat| + |rest|;
    }
  }

  const MissingPrefix := "required option(s) is missing: "

  /** Each name with its dash prefix. */
  function Dashed(names: seq<string>): (r: seq<string>)
    ensures |r| == |names|
    ensures forall i :: 0 <= i < |names| ==> r[i] == Dashes(names[i]) + names[i]
  {
    if names == [] then [] else [Dashes(names[0]) + names[0]] + Dashed(names[1..])
  }

  /** The error text for the required names that were not satisfied. */
  ghost function MissingText(names: set<string>, sat: set<string>): string
  {
    MissingPrefix + Join(Dashed(SortSet(names - sat)), ", ")
  }

  /** The elements of `xs` that are not in `drop`, in their order. */
  function Filter(xs: seq<string>, drop: set<string>): seq<string>
  {
    if xs == [] then []
    else if xs[0] in drop then Filter(xs[1..], drop)
    else [xs[0]] + Filter(xs[1..], drop)
  }

  /** Filtering keeps exactly the elements not dropped, and keeps a sorted sequence sorted. */
  lemma {:induction false} FilterProps(xs: seq<string>, drop: set<string>)
    ensures Elems(Filter(xs, drop)) == Elems(xs) - drop
    ensures StrictlySorted(xs) ==> StrictlySorted(Filter(xs, drop))
  {
    if xs != [] {
      var rest := Filter(xs[1..], drop);
      FilterProps(xs[1..], drop);
      assert xs == [xs[0]] + xs[1..];
      assert Elems(xs) == {xs[0]} + Elems(xs[1..]);
      if xs[0] !in drop {
        assert Elems([xs[0]] + rest) == {xs[0]} + Elems(rest);
        if StrictlySorted(xs) {
          forall k | k in rest ensures Less(xs[0], k) {
            assert k in Elems(xs[1..]);
            var j :| 0 <= j < |xs[1..]| && xs[1..][j] == k;
            assert Less(xs[0], xs[j + 1]);
          }
          PrependSorted(xs[0], rest);
        }
      }
    }
  }

  /** Filtering the sorted required names gives the sorted missing names. */
  lemma FilterSorted(names: set<string>, sat: set<string>)
    ensures Filter(SortSet(names), sat) == SortSet(names - sat)
  {
    FilterProps(SortSet(names), sat);
    SortedUnique(Filter(SortSet(names), sat), SortSet(names - sat));
  }

  /**
   * With two required names of which only the first was given, the error
   * names exactly the second one.
   */
  lemma OneOfTwoMissing(a: string, b: string)
    requires a != b
    ensures MissingText({a, b}, {a}) == MissingPrefix + Dashes(b) + b
  {
    assert {a, b} - {a} == {b};
    var s := SortSet({b});
    assert |s| == 1 && s[0] in Elems(s);
    assert s == [b];
  }

  /** Filtering one more element at the end. */
  lemma {:induction false} FilterSnoc(xs: seq<string>, x: string, drop: set<string>)
    ensures Filter(xs + [x], drop) == Filter(xs, drop) + (if x in drop then [] else [x])
  {
    if xs == [] {
      assert xs + [x] == [x];
      assert [x][1..] == [];
    } else {
      assert (xs + [x])[1..] == xs[1..] + [x];
      FilterSnoc(xs[1..], x, drop);
    }
  }

  /** Dashing one more name at the end. */
  lemma DashedSnoc(names: seq<string>, x: string)
    ensures Dashed(names + [x]) == Dashed(names) + [Dashes(x) + x]
  {
  }

  /**
   * The error a parse ends with, if any: the help request, the flag
   * library's own error, or the list of required names that the set flags
   * did not account for.
   */
  ghost function ParseError(outcome: ParseOutcome, required: map<string, bool>, shToLong: map<string, string>): (e: Option<Error>)
    ensures outcome.Help? ==> e == Some(ErrHelp)
    ensures outcome.Failed? ==> e == Some(ErrText(outcome.msg))
  {
    match outcome
    case Help => Some(ErrHelp)
    case Failed(msg) => Some(ErrText(msg))
    case Parsed(names) =>
      var sat := Satisfied(required, shToLong, names);
      if sat == required.Keys then None else Some(ErrText(MissingText(required.Keys, sat)))
  }

  /**
   * A parse ends without error exactly when the command line was accepted
   * and every required name was set, under its own name or through its
   * short alias; otherwise a missing-options error lists, sorted and
   * dashed, exactly the required names that were not.
   */
  lemma ParseErrorIff(required: map<string, bool>, shToLong: map<string, string>, names: set<string>)
    ensures var sat := Satisfied(required, shToLong, names);
            (ParseError(Parsed(names), required, shToLong) == None <==>
              forall k :: k in required ==>
                k in names || exists f :: f in names && f !in required && ShortTarget(shToLong, f) == k) &&
            (sat != required.Keys ==>
              ParseError(Parsed(names), required, shToLong) ==
                Some(ErrText(MissingPrefix + Join(Dashed(SortSet(required.Keys - sat)), ", "))))
  {
    var sat := Satisfied(required, shToLong, names);
    forall k | k in required
      ensures k in sat <==> k in names || exists f :: f in names && f !in required && ShortTarget(shToLong, f) == k
    {
      SatisfiedIff(required, shToLong, names, k);
    }
  }
}
