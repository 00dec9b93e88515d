/**
 * The registration tables of the option parser as one value: the flag table,
 * the short-to-long links, the registry of long names, the registration order
 * with the separator marks, the required names, the separator counter and the
 * display style. Adding separators is described here as a function of these
 * tables, and its properties are proved about that function.
 */
module OptRegistry {
  import opened Wrappers
  import opened OptTypes
  import opened FlagSet
  import opened OptNames
  import opened OptUsage

  datatype Registry = Registry(
    flags: map<string, Flag>,
    shToLong: map<string, string>,
    longOpts: map<string, OptDescr>,
    orderedList: seq<string>,
    isSep: seq<bool>,
    required: map<string, bool>,
    sepIndex: nat,
    style: Style)

  /** What rendering reads from the tables. */
  function ViewOf(g: Registry): View
  {
    View(g.flags, g.longOpts, g.required.Keys, g.style)
  }

  /** Every entry is a defined flag, and every option entry is registered. */
  predicate RegValid(g: Registry)
  {
    Members(g.orderedList, g.isSep, ViewOf(g))
  }

  /** In addition, the separators are numbered in order and the counter is past the last one. */
  predicate RegSynced(g: Registry)
  {
    RegValid(g) && Layout(g.orderedList, g.isSep, ViewOf(g)) && g.sepIndex == CountSeps(g.isSep)
  }

  /** No option entry carries the separator key expected at its position. */
  predicate RegNoClash(g: Registry)
  {
    |g.isSep| == |g.orderedList| && NoClash(g.orderedList, g.isSep)
  }

  /** Every entry of the order, printed as its kind says. */
  function UsageLines(g: Registry): string
    requires RegValid(g)
  {
    Lines(g.orderedList, g.isSep, ViewOf(g))
  }

  /**
   * Consistent tables with no option posing as a separator print every
   * entry as its kind says, without a crash, and leave the counter at the
   * number of separators.
   */
  lemma SyncedRenders(g: Registry)
    requires RegSynced(g) && RegNoClash(g)
    ensures RenderSteps(g.orderedList, ViewOf(g)) == Rendered(UsageLines(g), g.sepIndex, false)
  {
    RenderMatchesLines(g.orderedList, g.isSep, ViewOf(g));
  }

  /** The layout conditions survive tables that only grow. */
  lemma LayoutGrows(entries: seq<string>, isSep: seq<bool>, v0: View, v1: View)
    requires Layout(entries, isSep, v0)
    requires v0.flags.Keys <= v1.flags.Keys && v0.longOpts.Keys <= v1.longOpts.Keys
    ensures Layout(entries, isSep, v1)
  {
  }

  /**
   * A separator added after the counter was pushed one past the last
   * separator gets a key the next rendering does not expect. That key has
   * no option record, so the next rendering crashes.
   */
  lemma SkippedKeyCrashes(g: Registry, text: string)
    requires RegSynced(g) && RegNoClash(g)
    requires SepKey(g.sepIndex + 1) !in g.longOpts
    requires SepRound(g.(sepIndex := g.sepIndex + 1), text).1.None?
    ensures var h := SepRound(g.(sepIndex := g.sepIndex + 1), text).0;
            RenderSteps(h.orderedList, ViewOf(h)).crashed
  {
    var k := SepKey(g.sepIndex + 1);
    var h := SepRound(g.(sepIndex := g.sepIndex + 1), text).0;
    LayoutGrows(g.orderedList, g.isSep, ViewOf(g), ViewOf(h));
    RenderMatchesLines(g.orderedList, g.isSep, ViewOf(h));
    assert h.orderedList[..|h.orderedList| - 1] == g.orderedList;
    if k == SepKey(g.sepIndex) {
      SepKeyInjective(g.sepIndex + 1, g.sepIndex);
    }
    assert k != "" by {
      assert |Decimal.NatToDecimal(g.sepIndex + 1)| > 0;
    }
  }

  /**
   * One separator: it is registered under the empty name (which marks a
   * required empty name as added), its place in the order gets the next
   * separator key, and the key is defined with the text as usage. When the
   * flag table already holds the key, the definition fails and the key is
   * reported.
   */
  function SepRound(g: Registry, text: string): (Registry, Option<string>)
  {
    var key := SepKey(g.sepIndex);
    var h := g.(longOpts := g.longOpts["" := OptDescr(TSeparator, "")],
                orderedList := g.orderedList + [key],
                isSep := g.isSep + [true],
                required := if "" in g.required then g.required["" := false] else g.required,
                sepIndex := g.sepIndex + 1);
    if key in g.flags then (h, Some(key)) else (h.(flags := g.flags[key := Flag(text, "")]), None)
  }

  /** Separator rounds, one per text, stopping at the first that fails. */
  function AddSeps(g: Registry, texts: seq<string>): (Registry, Option<string>)
  {
    if texts == [] then (g, None)
    else
      var prev := AddSeps(g, texts[..|texts| - 1]);
      if prev.1.Some? then prev else SepRound(prev.0, texts[|texts| - 1])
  }

  /** One more text after a round that succeeded is one more round. */
  lemma AddSepsSnoc(g: Registry, texts: seq<string>, i: nat)
    requires i < |texts| && AddSeps(g, texts[..i]).1.None?
    ensures AddSeps(g, texts[..i + 1]) == SepRound(AddSeps(g, texts[..i]).0, texts[i])
  {
    assert texts[..i + 1][..i] == texts[..i];
  }

  /** After a failed round, the remaining texts change nothing. */
  lemma {:induction false} AddSepsStops(g: Registry, texts: seq<string>, i: nat)
    requires i <= |texts| && AddSeps(g, texts[..i]).1.Some?
    ensures AddSeps(g, texts) == AddSeps(g, texts[..i])
  {
    if i < |texts| {
      var n := |texts| - 1;
      assert texts[..n][..i] == texts[..i];
      AddSepsStops(g, texts[..n], i);
    } else {
      assert texts[..i] == texts;
    }
  }

  /** Appending a defined entry keeps the tables consistent, given the new tables only grow. */
  lemma KeepsLayoutAfterAppend(entries: seq<string>, isSep: seq<bool>, e: string, sep: bool, v0: View, v1: View)
    requires v0.flags.Keys <= v1.flags.Keys && v0.longOpts.Keys <= v1.longOpts.Keys
    requires e in v1.flags && (!sep ==> e in v1.longOpts)
    ensures Members(entries, isSep, v0) ==> Members(entries + [e], isSep + [sep], v1)
    ensures Layout(entries, isSep, v0) && (sep ==> e == SepKey(CountSeps(isSep))) ==>
              Layout(entries + [e], isSep + [sep], v1)
    ensures CountSeps(isSep + [sep]) == CountSeps(isSep) + if sep then 1 else 0
  {
    CountSepsSnoc(isSep, sep);
    if Members(entries, isSep, v0) {
      MembersAppend(entries, isSep, e, sep, v0, v1);
    }
    if Layout(entries, isSep, v0) && (sep ==> e == SepKey(CountSeps(isSep))) {
      LayoutAppend(entries, isSep, e, sep, v0, v1);
    }
  }

  /** Registering one more option entry keeps the tables consistent, given the tables only grow. */
  lemma AppendKeeps(g: Registry, h: Registry, e: string)
    requires h.orderedList == g.orderedList + [e] && h.isSep == g.isSep + [false]
    requires g.flags.Keys <= h.flags.Keys && g.longOpts.Keys <= h.longOpts.Keys
    requires e in h.flags && e in h.longOpts && h.sepIndex == g.sepIndex
    ensures RegValid(g) ==> RegValid(h)
    ensures RegSynced(g) ==> RegSynced(h)
  {
    KeepsLayoutAfterAppend(g.orderedList, g.isSep, e, false, ViewOf(g), ViewOf(h));
  }

  lemma CountSepsSnoc(isSep: seq<bool>, sep: bool)
    ensures CountSeps(isSep + [sep]) == CountSeps(isSep) + if sep then 1 else 0
  {
    assert (isSep + [sep])[..|isSep + [sep]| - 1] == isSep;
  }

  lemma MembersAppend(entries: seq<string>, isSep: seq<bool>, e: string, sep: bool, v0: View, v1: View)
    requires v0.flags.Keys <= v1.flags.Keys && v0.longOpts.Keys <= v1.longOpts.Keys
    requires e in v1.flags && (!sep ==> e in v1.longOpts)
    requires Members(entries, isSep, v0)
    ensures Members(entries + [e], isSep + [sep], v1)
  {
    var es, ss := entries + [e], isSep + [sep];
    forall i | 0 <= i < |es| ensures es[i] in v1.flags && (!ss[i] ==> es[i] in v1.longOpts) {
      if i < |entries| {
        assert es[i] == entries[i] && ss[i] == isSep[i];
      }
    }
  }

  lemma LayoutAppend(entries: seq<string>, isSep: seq<bool>, e: string, sep: bool, v0: View, v1: View)
    requires v0.flags.Keys <= v1.flags.Keys && v0.longOpts.Keys <= v1.longOpts.Keys
    requires e in v1.flags && (!sep ==> e in v1.longOpts)
    requires Layout(entries, isSep, v0) && (sep ==> e == SepKey(CountSeps(isSep)))
    ensures Layout(entries + [e], isSep + [sep], v1)
  {
    MembersAppend(entries, isSep, e, sep, v0, v1);
    var es, ss := entries + [e], isSep + [sep];
    assert ss[..|entries|] == isSep;
    forall i | 0 <= i < |es| && ss[i] ensures es[i] == SepKey(CountSeps(ss[..i])) {
      if i < |entries| {
        assert es[i] == entries[i] && ss[i] == isSep[i] && ss[..i] == isSep[..i];
      }
    }
  }

  /**
   * A separator round keeps every entry defined and registered, as long as it
   * does not fail, and keeps the separators numbered in order.
   */
  lemma SepRoundKeeps(g: Registry, text: string)
    ensures SepRound(g, text).1.None? && RegValid(g) ==> RegValid(SepRound(g, text).0)
    ensures SepRound(g, text).1.None? && RegSynced(g) ==> RegSynced(SepRound(g, text).0)
  {
    if SepRound(g, text).1.None? {
      KeepsLayoutAfterAppend(g.orderedList, g.isSep, SepKey(g.sepIndex), true, ViewOf(g), ViewOf(SepRound(g, text).0));
    }
  }

  /** Separator rounds that all succeed keep the tables consistent. */
  lemma {:induction false} AddSepsKeeps(g: Registry, texts: seq<string>)
    requires AddSeps(g, texts).1.None?
    ensures RegValid(g) ==> RegValid(AddSeps(g, texts).0)
    ensures RegSynced(g) ==> RegSynced(AddSeps(g, texts).0)
  {
    if texts != [] {
      var n := |texts| - 1;
      var prev := AddSeps(g, texts[..n]);
      AddSepsKeeps(g, texts[..n]);
      SepRoundKeeps(prev.0, texts[n]);
    }
  }

  /** Keys of the separators numbered `start`, `start + 1`, ..., `start + n - 1`. */
  function SepKeys(start: nat, n: nat): (r: seq<string>)
    ensures |r| == n
    ensures forall j :: 0 <= j < n ==> r[j] == SepKey(start + j)
  {
    if n == 0 then [] else SepKeys(start, n - 1) + [SepKey(start + n - 1)]
  }

  /** The flag table after the separators numbered from `start` defined their keys, with their text as usage and no default. */
  function WithSepFlags(flags: map<string, Flag>, start: nat, texts: seq<string>): map<string, Flag>
  {
    if texts == [] then flags
    else
      var n := |texts| - 1;
      WithSepFlags(flags, start, texts[..n])[SepKey(start + n) := Flag(texts[n], "")]
  }

  /** A separator key past the ones defined so far is in the table exactly when it was there before. */
  lemma {:induction false} SepKeyFresh(flags: map<string, Flag>, start: nat, texts: seq<string>, k: nat)
    requires k >= start + |texts|
    ensures SepKey(k) in WithSepFlags(flags, start, texts) <==> SepKey(k) in flags
  {
    if texts != [] {
      var n := |texts| - 1;
      SepKeyFresh(flags, start, texts[..n], k);
      if SepKey(k) == SepKey(start + n) {
        SepKeyInjective(k, start + n);
      }
    }
  }

  /** The first of `n` separator keys numbered from `start` that is already a flag. */
  function FirstTaken(start: nat, n: nat, flags: map<string, Flag>): (r: Option<nat>)
    ensures r.Some? ==> r.value < n
  {
    if n == 0 then None
    else if FirstTaken(start, n - 1, flags).Some? then FirstTaken(start, n - 1, flags)
    else if SepKey(start + n - 1) in flags then Some(n - 1)
    else None
  }

  /** `FirstTaken` finds a taken key, and none before it; when it finds none, none of the keys is taken. */
  lemma {:induction false} FirstTakenIsFirst(start: nat, n: nat, flags: map<string, Flag>)
    ensures var r := FirstTaken(start, n, flags);
            (r.Some? ==> SepKey(start + r.value) in flags) &&
            (r.Some? ==> forall k :: start <= k < start + r.value ==> SepKey(k) !in flags) &&
            (r.None? ==> forall k :: start <= k < start + n ==> SepKey(k) !in flags)
  {
    if n > 0 {
      FirstTakenIsFirst(start, n - 1, flags);
    }
  }

  /** `n` copies of `b`. */
  function Repeat(b: bool, n: nat): (r: seq<bool>)
    ensures |r| == n && forall j :: 0 <= j < n ==> r[j] == b
  {
    if n == 0 then [] else Repeat(b, n - 1) + [b]
  }

  lemma SepKeysSnoc(start: nat, n: nat)
    ensures SepKeys(start, n + 1) == SepKeys(start, n) + [SepKey(start + n)]
  {
  }

  lemma RepeatSnoc(b: bool, n: nat)
    ensures Repeat(b, n + 1) == Repeat(b, n) + [b]
  {
  }

  lemma AppendOne<T>(a: seq<T>, b: seq<T>, x: T)
    ensures a + b + [x] == a + (b + [x])
  {
  }

  /**
   * The rounds place one entry per text up to and including the first that
   * fails, advancing the counter by one each; a failure reports the key of
   * the last entry placed.
   */
  lemma {:induction false} AddSepsCount(g: Registry, texts: seq<string>)
    ensures var res := AddSeps(g, texts);
            var placed := res.0.sepIndex - g.sepIndex;
            0 <= placed <= |texts| &&
            (res.1.None? ==> placed == |texts|) &&
            (res.1.Some? ==> placed >= 1 && res.1 == Some(SepKey(res.0.sepIndex - 1)))
  {
    if texts != [] {
      AddSepsCount(g, texts[..|texts| - 1]);
    }
  }

  /** Every placed entry is the next separator key, marked as a separator. */
  lemma {:induction false} AddSepsOrder(g: Registry, texts: seq<string>)
    ensures var h := AddSeps(g, texts).0;
            h.sepIndex >= g.sepIndex &&
            h.orderedList == g.orderedList + SepKeys(g.sepIndex, h.sepIndex - g.sepIndex) &&
            h.isSep == g.isSep + Repeat(true, h.sepIndex - g.sepIndex)
  {
    if texts != [] {
      var n := |texts| - 1;
      var prev := AddSeps(g, texts[..n]);
      AddSepsOrder(g, texts[..n]);
      if prev.1.None? {
        assert AddSeps(g, texts).0 == SepRound(prev.0, texts[n]).0;
        OrderRound(g, prev.0, texts[n]);
      }
    }
  }

  /** One more round after the entries placed so far places the next key. */
  lemma OrderRound(g: Registry, p: Registry, text: string)
    requires p.sepIndex >= g.sepIndex
    requires p.orderedList == g.orderedList + SepKeys(g.sepIndex, p.sepIndex - g.sepIndex)
    requires p.isSep == g.isSep + Repeat(true, p.sepIndex - g.sepIndex)
    ensures var h := SepRound(p, text).0;
            h.sepIndex >= g.sepIndex &&
            h.orderedList == g.orderedList + SepKeys(g.sepIndex, h.sepIndex - g.sepIndex) &&
            h.isSep == g.isSep + Repeat(true, h.sepIndex - g.sepIndex)
  {
    var m := p.sepIndex - g.sepIndex;
    var h := SepRound(p, text).0;
    assert h.sepIndex - g.sepIndex == m + 1;
    assert h.orderedList == p.orderedList + [SepKey(g.sepIndex + m)];
    assert h.isSep == p.isSep + [true];
    SepKeysSnoc(g.sepIndex, m);
    RepeatSnoc(true, m);
    AppendOne(g.orderedList, SepKeys(g.sepIndex, m), SepKey(g.sepIndex + m));
    AppendOne(g.isSep, Repeat(true, m), true);
  }

  /** Every placed entry but a failed one has defined its key with its text. */
  lemma {:induction false} AddSepsFlags(g: Registry, texts: seq<string>)
    ensures var res := AddSeps(g, texts);
            var defined := res.0.sepIndex - g.sepIndex - (if res.1.Some? then 1 else 0);
            0 <= defined <= |texts| &&
            res.0.flags == WithSepFlags(g.flags, g.sepIndex, texts[..defined])
  {
    AddSepsCount(g, texts);
    if texts != [] {
      var n := |texts| - 1;
      var prev := AddSeps(g, texts[..n]);
      AddSepsFlags(g, texts[..n]);
      AddSepsCount(g, texts[..n]);
      var d := prev.0.sepIndex - g.sepIndex;
      if prev.1.Some? {
        assert texts[..n][..d - 1] == texts[..d - 1];
      } else {
        assert texts[..n][..d] == texts[..d];
        FlagsRound(g, texts);
      }
    }
  }

  /** The step of `AddSepsFlags` after a prefix whose rounds all succeeded. */
  lemma FlagsRound(g: Registry, texts: seq<string>)
    requires texts != []
    requires var prev := AddSeps(g, texts[..|texts| - 1]);
             prev.1.None? && prev.0.sepIndex == g.sepIndex + |texts| - 1 &&
             prev.0.flags == WithSepFlags(g.flags, g.sepIndex, texts[..|texts| - 1])
    ensures var res := AddSeps(g, texts);
            var defined := res.0.sepIndex - g.sepIndex - (if res.1.Some? then 1 else 0);
            0 <= defined <= |texts| &&
            res.0.flags == WithSepFlags(g.flags, g.sepIndex, texts[..defined])
  {
    var n := |texts| - 1;
    var prev := AddSeps(g, texts[..n]);
    var r := SepRound(prev.0, texts[n]);
    assert AddSeps(g, texts) == r;
    if r.1.None? {
      assert r.0.flags == prev.0.flags[SepKey(g.sepIndex + n) := Flag(texts[n], "")];
      assert texts[..n + 1] == texts;
      assert texts[..n + 1][..n] == texts[..n];
    } else {
      assert r.0.flags == prev.0.flags;
      assert r.0.sepIndex - g.sepIndex - 1 == n;
    }
  }

  /**
   * The empty name is registered as a separator once any entry is placed, and
   * a required empty name is then marked as added; the short links and the
   * style do not change.
   */
  lemma {:induction false} AddSepsOthers(g: Registry, texts: seq<string>)
    ensures var h := AddSeps(g, texts).0;
            h.shToLong == g.shToLong && h.style == g.style &&
            h.longOpts == (if h.sepIndex == g.sepIndex then g.longOpts else g.longOpts["" := OptDescr(TSeparator, "")]) &&
            h.required == (if h.sepIndex != g.sepIndex && "" in g.required then g.required["" := false] else g.required)
  {
    if texts != [] {
      var n := |texts| - 1;
      var prev := AddSeps(g, texts[..n]);
      AddSepsOthers(g, texts[..n]);
      AddSepsOrder(g, texts[..n]);
      if prev.1.None? {
        var h := SepRound(prev.0, texts[n]).0;
        assert AddSeps(g, texts).0 == h;
        assert h.sepIndex != g.sepIndex;
        assert h.longOpts == prev.0.longOpts["" := OptDescr(TSeparator, "")];
        UpdateTwice(g.longOpts, "", OptDescr(TSeparator, ""));
        UpdateTwice(g.required, "", false);
      } else {
        assert AddSeps(g, texts) == prev;
      }
    }
  }

  lemma UpdateTwice<K, V>(m: map<K, V>, k: K, v: V)
    ensures m[k := v][k := v] == m[k := v]
  {
  }

  /**
   * The rounds fail exactly at the first of the separator keys numbered from
   * the counter that the flag table already held.
   */
  lemma {:induction false} AddSepsFailure(g: Registry, texts: seq<string>)
    ensures var res := AddSeps(g, texts);
            var taken := FirstTaken(g.sepIndex, |texts|, g.flags);
            res.1 == (if taken.Some? then Some(SepKey(g.sepIndex + taken.value)) else None) &&
            res.0.sepIndex == g.sepIndex + (if taken.Some? then taken.value + 1 else |texts|)
  {
    if texts != [] {
      var n := |texts| - 1;
      var prev := AddSeps(g, texts[..n]);
      AddSepsFailure(g, texts[..n]);
      if prev.1.None? {
        FailureRound(g, texts);
      } else {
        assert AddSeps(g, texts) == prev;
        assert FirstTaken(g.sepIndex, n + 1, g.flags) == FirstTaken(g.sepIndex, n, g.flags);
      }
    }
  }

  /** The step of `AddSepsFailure` after a prefix whose rounds all succeeded. */
  lemma FailureRound(g: Registry, texts: seq<string>)
    requires texts != []
    requires var n := |texts| - 1;
             var prev := AddSeps(g, texts[..n]);
             prev.1.None? && FirstTaken(g.sepIndex, n, g.flags).None? && prev.0.sepIndex == g.sepIndex + n
    ensures var res := AddSeps(g, texts);
            var taken := FirstTaken(g.sepIndex, |texts|, g.flags);
            res.1 == (if taken.Some? then Some(SepKey(g.sepIndex + taken.value)) else None) &&
            res.0.sepIndex == g.sepIndex + (if taken.Some? then taken.value + 1 else |texts|)
  {
    var n := |texts| - 1;
    var prev := AddSeps(g, texts[..n]);
    AddSepsFlags(g, texts[..n]);
    assert texts[..n][..n] == texts[..n];
    SepKeyFresh(g.flags, g.sepIndex, texts[..n], g.sepIndex + n);
    var key := SepKey(g.sepIndex + n);
    assert key in prev.0.flags <==> key in g.flags;
    var r := SepRound(prev.0, texts[n]);
    SepRoundOutcome(prev.0, texts[n]);
    assert AddSeps(g, texts) == r;
    if key in g.flags {
      assert FirstTaken(g.sepIndex, n + 1, g.flags) == Some(n);
    } else {
      assert FirstTaken(g.sepIndex, n + 1, g.flags) == None;
    }
  }

  /** A round fails exactly when its key is already a flag, and it always advances the counter by one. */
  lemma SepRoundOutcome(g: Registry, text: string)
    ensures SepRound(g, text).1 == (if SepKey(g.sepIndex) in g.flags then Some(SepKey(g.sepIndex)) else None)
    ensures SepRound(g, text).0.sepIndex == g.sepIndex + 1
  {
  }
}
