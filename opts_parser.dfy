/**
 * The option parser object: a flag table wrapped with a registry of long and
 * short names, the registration order, required names, separators and
 * display settings. Panics and the process exit are returned as outcomes;
 * the output stream is a string the object appends to.
 */
module OptsParser {
  import opened Wrappers
  import opened GoStrings
  import opened OptTypes
  import opened FlagSet
  import opened OptNames
  import opened OptRequired
  import opened OptUsage
  import opened OptRegistry

  const LsJoinDefault := ", "

  /** What a panic carries: a refusal by the parser, a redefined flag name, or a nil dereference. */
  datatype Panic = OptsPanic(reason: Reason) | Redefined(name: string) | NilDereference

  /** How a call ends: it returns (with an error, for `Parse`), panics, or exits the process. */
  datatype Outcome = Returned(err: Option<Error>) | Panicked(panic: Panic) | Exited(code: int)

  /** The names, sorted as `sort.Strings` orders them: each is inserted in order. */
  method SortedNames(names: set<string>) returns (opts: seq<string>)
    ensures opts == SortSet(names)
  {
    opts := [];
    var rest := names;
    while rest != {}
      invariant rest <= names && StrictlySorted(opts)
      invariant Elems(opts) == names - rest
      decreases |rest|
    {
      var k :| k in rest;
      InsertStep(names, rest, opts, k);
      opts := Insert(k, opts);
      rest := rest - {k};
    }
    SortedUnique(opts, SortSet(names));
  }

  /** Moving one name from the rest into the sorted part keeps the loop's invariants. */
  lemma InsertStep(names: set<string>, rest: set<string>, opts: seq<string>, k: string)
    requires rest <= names && StrictlySorted(opts) && Elems(opts) == names - rest && k in rest
    ensures k !in opts
    ensures Elems(Insert(k, opts)) == names - (rest - {k})
    ensures |rest - {k}| < |rest|
  {
    assert k !in Elems(opts);
    assert names - (rest - {k}) == (names - rest) + {k};
  }

  /** The names not in `sat`, in the order given, each with its dash prefix. */
  method MissingList(opts: seq<string>, sat: set<string>) returns (notSet: seq<string>)
    ensures notSet == Dashed(Filter(opts, sat))
  {
    notSet := [];
    var i := 0;
    while i < |opts|
      invariant 0 <= i <= |opts|
      invariant notSet == Dashed(Filter(opts[..i], sat))
    {
      var opt := opts[i];
      FilterSnoc(opts[..i], opt, sat);
      assert opts[..i + 1] == opts[..i] + [opt];
      if opt !in sat {
        DashedSnoc(Filter(opts[..i], sat), opt);
        notSet := notSet + [Dashes(opt) + opt];
      } else {
        assert Filter(opts[..i], sat) + [] == Filter(opts[..i], sat);
      }
      i := i + 1;
    }
    assert opts[..i] == opts;
  }

  class Parser {
    var name: string
    var flags: map<string, Flag>
    var shToLong: map<string, string>
    var longOpts: map<string, OptDescr>
    var orderedList: seq<string>
    var required: map<string, bool>
    var generalDescr: string
    var sepIndex: nat
    var lsJoinStr: string
    var shortFirst: bool
    var usageOnFail: bool
    /** Set when a usage call returned instead of exiting. */
    var usageTriggered: bool
    /** When set, a usage call returns instead of exiting the process. */
    var usageNotExits: bool
    /** Everything written to the flag table's output so far. */
    var output: string
    /** For each entry of `orderedList`, whether it is a separator. */
    ghost var isSep: seq<bool>

    /** What rendering reads. */
    function View(): View
      reads this`flags, this`longOpts, this`required, this`lsJoinStr, this`shortFirst
    {
      OptUsage.View(flags, longOpts, required.Keys, Style(lsJoinStr, shortFirst))
    }

    /** The registration tables. */
    ghost function Reg(): Registry
      reads this
    {
      Registry(flags, shToLong, longOpts, orderedList, isSep, required, sepIndex, Style(lsJoinStr, shortFirst))
    }

    /** Every entry is a defined flag, and every option entry is registered. */
    ghost predicate Valid()
      reads this
    {
      RegValid(Reg())
    }

    /** In addition, the separators are numbered in order and the counter is past the last one. */
    ghost predicate Synced()
      reads this
    {
      RegSynced(Reg())
    }

    /** A parser with the given name, nothing registered, and every given name required and not yet added. */
    constructor (name: string, requiredNames: seq<string>)
      ensures this.name == name && flags == map[] && shToLong == map[] && longOpts == map[]
      ensures orderedList == [] && isSep == [] && generalDescr == "" && sepIndex == 0
      ensures lsJoinStr == LsJoinDefault && !shortFirst && usageOnFail
      ensures !usageTriggered && !usageNotExits && output == ""
      ensures required.Keys == set k | k in requiredNames
      ensures forall k :: k in required ==> required[k]
      ensures Synced()
    {
      var req: map<string, bool> := map[];
      var i := 0;
      while i < |requiredNames|
        invariant 0 <= i <= |requiredNames|
        invariant req.Keys == set k | k in requiredNames[..i]
        invariant forall k :: k in req ==> req[k]
      {
        req := req[requiredNames[i] := true];
        assert requiredNames[..i + 1] == requiredNames[..i] + [requiredNames[i]];
        i := i + 1;
      }
      assert requiredNames[..i] == requiredNames;
      this.name := name;
      flags := map[];
      shToLong := map[];
      longOpts := map[];
      orderedList := [];
      isSep := [];
      required := req;
      generalDescr := "";
      sepIndex := 0;
      lsJoinStr := LsJoinDefault;
      shortFirst := false;
      usageOnFail := true;
      usageTriggered := false;
      usageNotExits := false;
      output := "";
    }

    method SetGeneralDescr(descr: string) returns (p: Parser)
      modifies this`generalDescr
      ensures generalDescr == descr && p == this
    {
      generalDescr := descr;
      p := this;
    }

    method SetLongShortJoinStr(join: string) returns (p: Parser)
      modifies this`lsJoinStr
      ensures lsJoinStr == join && p == this
    {
      lsJoinStr := join;
      p := this;
    }

    method SetShortFirst(v: bool) returns (p: Parser)
      modifies this`shortFirst
      ensures shortFirst == v && p == this
    {
      shortFirst := v;
      p := this;
    }

    method SetUsageOnFail(v: bool) returns (p: Parser)
      modifies this`usageOnFail
      ensures usageOnFail == v && p == this
    {
      usageOnFail := v;
      p := this;
    }

    /** Defines the long name, then the short one if present, in the flag table; a name already there panics. */
    method DefineNames(n: OptName, usage: string, defValue: string) returns (o: Outcome)
      modifies this`flags
      ensures if n.long in old(flags) then
                o == Panicked(Redefined(n.long)) && flags == old(flags)
              else if n.hasShort && (n.short in old(flags) || n.short == n.long) then
                o == Panicked(Redefined(n.short)) && flags == old(flags)[n.long := Flag(usage, defValue)]
              else
                o == Returned(None) &&
                flags == (if n.hasShort then old(flags)[n.long := Flag(usage, defValue)][n.short := Flag(usage, defValue)]
                          else old(flags)[n.long := Flag(usage, defValue)])
    {
      var d := Define(flags, n.long, usage, defValue);
      if d.None? {
        return Panicked(Redefined(n.long));
      }
      flags := d.value;
      if n.hasShort {
        var ds := Define(flags, n.short, usage, defValue);
        if ds.None? {
          return Panicked(Redefined(n.short));
        }
        flags := ds.value;
      }
      o := Returned(None);
    }

    /**
     * Checks a specifier and, when it passes, registers its long name: the
     * registry entry, the next place in the order, the short-to-long link when
     * there is a short name, and the "added" mark when the name is required.
     * A refused specifier changes nothing.
     */
    method ParseOptName(t: OptType, optName: string, usage: string) returns (r: Result<OptName, Reason>)
      modifies this`longOpts, this`orderedList, this`isSep, this`shToLong, this`required
      ensures var c := CheckName(t, SplitName(optName), optName, usage);
              c.Some? ==> r == Err(c.value) && longOpts == old(longOpts) && orderedList == old(orderedList) &&
                          isSep == old(isSep) && shToLong == old(shToLong) && required == old(required)
      ensures var n := SplitName(optName);
              CheckName(t, n, optName, usage).None? ==>
                r == Ok(n) &&
                longOpts == old(longOpts)[n.long := OptDescr(t, n.short)] &&
                orderedList == old(orderedList) + [n.long] &&
                isSep == old(isSep) + [t == TSeparator]
      ensures var n := SplitName(optName);
              CheckName(t, n, optName, usage).None? ==>
                shToLong == (if n.hasShort then old(shToLong)[n.short := n.long] else old(shToLong)) &&
                required == (if n.long in old(required) then old(required)[n.long := false] else old(required))
    {
      var n := SplitName(optName);
      var c := CheckName(t, n, optName, usage);
      if c.Some? {
        return Err(c.value);
      }
      ghost var lo := longOpts;
      longOpts := longOpts[n.long := OptDescr(t, "")];
      orderedList := orderedList + [n.long];
      isSep := isSep + [t == TSeparator];
      if n.hasShort {
        shToLong := shToLong[n.short := n.long];
        ShortUpdate(lo, n.long, t, n.short);
        longOpts := longOpts[n.long := longOpts[n.long].(short := n.short)];
      }
      if n.long in required {
        required := required[n.long := false];
      }
      r := Ok(n);
    }

    /**
     * Registers an option of value type `t` under the long name and, when
     * given, the short one; both are defined in the flag table with the same
     * usage and default. A refused specifier panics before anything changes;
     * a name the flag table already holds panics after the registry was
     * updated (and, for the short name, after the long one was defined).
     */
    method Add(t: OptType, optName: string, usage: string, defValue: string) returns (o: Outcome)
      requires t.IsValueType()
      modifies this`longOpts, this`orderedList, this`isSep, this`shToLong, this`required, this`flags
      ensures var n := SplitName(optName);
              var c := CheckName(t, n, optName, usage);
              if c.Some? then
                o == Panicked(OptsPanic(c.value)) && longOpts == old(longOpts) && orderedList == old(orderedList) &&
                isSep == old(isSep) && shToLong == old(shToLong) && required == old(required) && flags == old(flags)
              else
                longOpts == old(longOpts)[n.long := OptDescr(t, n.short)] &&
                orderedList == old(orderedList) + [n.long] &&
                isSep == old(isSep) + [false] &&
                shToLong == (if n.hasShort then old(shToLong)[n.short := n.long] else old(shToLong)) &&
                required == (if n.long in old(required) then old(required)[n.long := false] else old(required)) &&
                (if n.long in old(flags) then
                   o == Panicked(Redefined(n.long)) && flags == old(flags)
                 else if n.hasShort && n.short in old(flags) then
                   o == Panicked(Redefined(n.short)) && flags == old(flags)[n.long := Flag(usage, defValue)]
                 else
                   o == Returned(None) &&
                   flags == (if n.hasShort then old(flags)[n.long := Flag(usage, defValue)][n.short := Flag(usage, defValue)]
                             else old(flags)[n.long := Flag(usage, defValue)]))
      ensures old(Valid()) ==> Valid()
      ensures old(Synced()) ==> Synced()
    {
      var r := ParseOptName(t, optName, usage);
      if r.Err? {
        return Panicked(OptsPanic(r.error));
      }
      var n := r.value;
      o := DefineNames(n, usage, defValue);
      AppendKeeps(old(Reg()), Reg(), n.long);
    }

    /** Hands out the key of the next separator and advances the counter. */
    method NextSep() returns (key: string)
      modifies this`sepIndex
      ensures key == SepKey(old(sepIndex)) && sepIndex == old(sepIndex) + 1
    {
      key := SepKey(sepIndex);
      sepIndex := sepIndex + 1;
    }

    /**
     * Adds one separator entry per text: each is registered under the empty
     * name, then its place in the order is given the next separator key, and
     * that key is defined as a flag whose usage is the text. A key the flag
     * table already holds panics with the entry in place but undefined.
     */
    method AddSeparator(texts: seq<string>) returns (o: Outcome)
      modifies this`longOpts, this`orderedList, this`isSep, this`shToLong, this`required, this`flags, this`sepIndex
      ensures var res := AddSeps(old(Reg()), texts);
              Reg() == res.0 && o == (if res.1.Some? then Panicked(Redefined(res.1.value)) else Returned(None))
      ensures o.Returned? && old(Valid()) ==> Valid()
      ensures o.Returned? && old(Synced()) ==> Synced()
    {
      ghost var g0 := Reg();
      var i := 0;
      while i < |texts|
        invariant 0 <= i <= |texts|
        invariant AddSeps(g0, texts[..i]) == (Reg(), None)
        invariant lsJoinStr == old(lsJoinStr) && shortFirst == old(shortFirst)
      {
        ghost var g := Reg();
        var taken := AddOneSeparator(texts[i]);
        AddSepsSnoc(g0, texts, i);
        if taken.Some? {
          AddSepsStops(g0, texts, i + 1);
          return Panicked(Redefined(taken.value));
        }
        i := i + 1;
      }
      assert texts[..i] == texts;
      AddSepsKeeps(g0, texts);
      o := Returned(None);
    }

    /**
     * One round of the separator loop: the result names the key when defining
     * it panicked because the flag table already held it.
     */
    method AddOneSeparator(text: string) returns (taken: Option<string>)
      modifies this`longOpts, this`orderedList, this`isSep, this`shToLong, this`required, this`flags, this`sepIndex
      ensures (Reg(), taken) == SepRound(old(Reg()), text)
    {
      SplitLongOnly("");
      var _ := ParseOptName(TSeparator, "", text);
      var sep := NextSep();
      orderedList := orderedList[..|orderedList| - 1] + [sep];
      var d := Define(flags, sep, text, "");
      if d.None? {
        taken := Some(sep);
      } else {
        flags := d.value;
        taken := None;
      }
    }

    /**
     * Visits the names set on the command line and credits each to the
     * required name it stands for, marking it as seen; the result is the set
     * of credited names.
     */
    method RequiredSet(setNames: set<string>) returns (rqSet: set<string>)
      modifies this`required
      ensures rqSet == Satisfied(old(required), shToLong, setNames)
      ensures required == MarkSeen(old(required), rqSet)
    {
      if |required| == 0 {
        assert required == MarkSeen(required, {});
        return {};
      }
      rqSet := {};
      var rest := setNames;
      while rest != {}
        invariant rest <= setNames
        invariant rqSet == Satisfied(old(required), shToLong, setNames - rest)
        invariant required == MarkSeen(old(required), rqSet)
        decreases |rest|
      {
        var f :| f in rest;
        ghost var seen := setNames - rest;
        SatisfiedAdd(old(required), shToLong, seen, f);
        assert setNames - (rest - {f}) == seen + {f};
        var target := if f in shToLong then shToLong[f] else "";
        if f in required {
          MarkSeenAdd(old(required), rqSet, f);
          required := required[f := true];
          rqSet := rqSet + {f};
        } else if target in required {
          MarkSeenAdd(old(required), rqSet, target);
          required := required[target := true];
          rqSet := rqSet + {target};
        }
        rest := rest - {f};
      }
    }

    /**
     * Parses the command line, whose result the flag library reports as
     * `outcome`. A required name that was never registered panics first.
     * A library error, or required names left unset, becomes the returned
     * error, printed with the usage text first when usage-on-fail is on;
     * that usage call may crash, or exit the process.
     */
    method Parse(outcome: ParseOutcome) returns (o: Outcome)
      modifies this`required, this`output, this`sepIndex, this`usageTriggered
      ensures Pending(old(required)) ==>
                (exists k :: k in old(required) && old(required)[k] && o == Panicked(OptsPanic(RequiredNotAdded(k)))) &&
                required == old(required) && output == old(output) && sepIndex == old(sepIndex) &&
                usageTriggered == old(usageTriggered)
      ensures !Pending(old(required)) ==>
                required == (if outcome.Parsed? then MarkSeen(old(required), Satisfied(old(required), shToLong, outcome.setNames))
                             else old(required))
      ensures var e := ParseError(outcome, old(required), shToLong);
              !Pending(old(required)) && (e.None? || !usageOnFail) ==>
                o == Returned(e) && output == old(output) && sepIndex == old(sepIndex) && usageTriggered == old(usageTriggered)
      ensures var e := ParseError(outcome, old(required), shToLong);
              var rs := RenderSteps(orderedList, old(View()));
              !Pending(old(required)) && e.Some? && usageOnFail ==>
                output == old(output) + UsageHead([e.value], name, generalDescr) + rs.text &&
                sepIndex == rs.next + 1 &&
                o == (if rs.crashed then Panicked(NilDereference) else if usageNotExits then Returned(e) else Exited(1)) &&
                usageTriggered == (if rs.crashed then old(usageTriggered) else usageNotExits || old(usageTriggered))
    {
      if exists k :: k in required && required[k] {
        var k :| k in required && required[k];
        return Panicked(OptsPanic(RequiredNotAdded(k)));
      }
      o := ParseRegistered(outcome);
    }

    /** `Parse` once every required name has been registered. */
    method ParseRegistered(outcome: ParseOutcome) returns (o: Outcome)
      requires !Pending(required)
      modifies this`required, this`output, this`sepIndex, this`usageTriggered
      ensures required == (if outcome.Parsed? then MarkSeen(old(required), Satisfied(old(required), shToLong, outcome.setNames))
                           else old(required))
      ensures var e := ParseError(outcome, old(required), shToLong);
              (e.None? || !usageOnFail) ==>
                o == Returned(e) && output == old(output) && sepIndex == old(sepIndex) && usageTriggered == old(usageTriggered)
      ensures var e := ParseError(outcome, old(required), shToLong);
              var rs := RenderSteps(orderedList, old(View()));
              e.Some? && usageOnFail ==>
                output == old(output) + UsageHead([e.value], name, generalDescr) + rs.text &&
                sepIndex == rs.next + 1 &&
                o == (if rs.crashed then Panicked(NilDereference) else if usageNotExits then Returned(e) else Exited(1)) &&
                usageTriggered == (if rs.crashed then old(usageTriggered) else usageNotExits || old(usageTriggered))
    {
      ghost var v0 := View();
      var e := ParseErr(outcome);
      assert View() == v0;
      o := Report(e);
    }

    /** Hands back the error, printing the usage text first when usage-on-fail is on. */
    method Report(e: Option<Error>) returns (o: Outcome)
      modifies this`output, this`sepIndex, this`usageTriggered
      ensures (e.None? || !usageOnFail) ==>
                o == Returned(e) && output == old(output) && sepIndex == old(sepIndex) && usageTriggered == old(usageTriggered)
      ensures var rs := RenderSteps(orderedList, old(View()));
              e.Some? && usageOnFail ==>
                output == old(output) + UsageHead([e.value], name, generalDescr) + rs.text &&
                sepIndex == rs.next + 1 &&
                o == (if rs.crashed then Panicked(NilDereference) else if usageNotExits then Returned(e) else Exited(1)) &&
                usageTriggered == (if rs.crashed then old(usageTriggered) else usageNotExits || old(usageTriggered))
    {
      o := Returned(e);
      if e.Some? && usageOnFail {
        var u := Usage([e.value]);
        if !u.Returned? {
          o := u;
        }
      }
    }

    /**
     * The error part of `Parse`: the library's error, or, after a parse that
     * succeeded, the missing required names, sorted and dashed.
     */
    method ParseErr(outcome: ParseOutcome) returns (e: Option<Error>)
      modifies this`required
      ensures e == ParseError(outcome, old(required), shToLong)
      ensures required == (if outcome.Parsed? then MarkSeen(old(required), Satisfied(old(required), shToLong, outcome.setNames))
                           else old(required))
    {
      match outcome {
        case Help =>
          e := Some(ErrHelp);
        case Failed(msg) =>
          e := Some(ErrText(msg));
        case Parsed(setNames) =>
          var rqSet := RequiredSet(setNames);
          SameSizeIsAll(rqSet, old(required).Keys);
          if |rqSet| == |required| {
            return None;
          }
          var opts := SortedNames(required.Keys);
          var notSet := MissingList(opts, rqSet);
          FilterSorted(required.Keys, rqSet);
          e := Some(ErrText(MissingPrefix + Join(notSet, ", ")));
      }
    }

    /**
     * Prints the usage text: the error line for the first error unless it is
     * the help request, the header, the general description, then every entry
     * in order with separators recognised by their expected keys. Then the
     * process exits with status 1, unless the test switch says to return.
     */
    method Usage(errs: seq<Error>) returns (o: Outcome)
      modifies this`output, this`sepIndex, this`usageTriggered
      ensures output == old(output) + UsageHead(errs, name, generalDescr) + RenderSteps(orderedList, old(View())).text
      ensures sepIndex == RenderSteps(orderedList, old(View())).next + 1
      ensures o.Panicked? <==> RenderSteps(orderedList, old(View())).crashed
      ensures o.Panicked? ==> o == Panicked(NilDereference) && usageTriggered == old(usageTriggered)
      ensures !o.Panicked? ==> o == (if usageNotExits then Returned(None) else Exited(1))
      ensures !o.Panicked? ==> usageTriggered == (usageNotExits || old(usageTriggered))
      ensures old(Synced()) && RegNoClash(old(Reg())) ==>
                !o.Panicked? && sepIndex == old(sepIndex) + 1 &&
                output == old(output) + UsageHead(errs, name, generalDescr) + UsageLines(old(Reg()))
    {
      ghost var g := Reg();
      if RegSynced(g) && RegNoClash(g) {
        SyncedRenders(g);
        assert View() == ViewOf(g);
      }
      output := output + UsageHead(errs, name, generalDescr);
      var crashed := PrintEntries();
      if crashed {
        return Panicked(NilDereference);
      }
      if !usageNotExits {
        return Exited(1);
      }
      usageTriggered := true;
      o := Returned(None);
    }

    /**
     * The loop of `Usage`: every entry in order, the separator counter
     * restarted at zero, until an entry the tables do not hold.
     */
    method PrintEntries() returns (crashed: bool)
      modifies this`output, this`sepIndex
      ensures output == old(output) + RenderSteps(orderedList, old(View())).text
      ensures sepIndex == RenderSteps(orderedList, old(View())).next + 1
      ensures crashed == RenderSteps(orderedList, old(View())).crashed
    {
      var v := View();
      ghost var out0 := output;
      sepIndex := 0;
      var nextSep := NextSep();
      var i := 0;
      ghost var rs := Rendered("", 0, false);
      while i < |orderedList|
        invariant 0 <= i <= |orderedList|
        invariant rs == RenderSteps(orderedList[..i], v) && !rs.crashed
        invariant output == out0 + rs.text && nextSep == SepKey(rs.next) && sepIndex == rs.next + 1
      {
        var opt := orderedList[i];
        RenderOneMore(orderedList, i, v);
        var piece;
        piece, nextSep, crashed := UsageEntry(opt, nextSep, rs, v);
        if crashed {
          UsageCrashes(orderedList, i, v);
          return;
        }
        AppendAssoc(out0, rs.text, piece);
        rs := Step(rs, opt, v);
        output := output + piece;
        i := i + 1;
      }
      assert orderedList[..i] == orderedList;
      crashed := false;
    }

    /**
     * One entry of the usage loop: a separator is recognised by the expected
     * key, which then advances; it prints its text, an option prints its
     * description, and an entry the tables do not hold crashes the loop.
     */
    method UsageEntry(opt: string, nextSep: string, ghost r: Rendered, ghost v: View)
      returns (piece: string, nextSep': string, crashed: bool)
      requires v == View() && !r.crashed
      requires nextSep == SepKey(r.next) && sepIndex == r.next + 1
      modifies this`sepIndex
      ensures var a := Step(r, opt, v);
              crashed == a.crashed && (!crashed ==> a.text == r.text + piece) &&
              nextSep' == SepKey(a.next) && sepIndex == a.next + 1
    {
      nextSep' := nextSep;
      piece := "";
      crashed := false;
      if opt == nextSep {
        nextSep' := NextSep();
        if opt !in flags {
          crashed := true;
          return;
        }
        piece := SepLine(flags[opt].usage);
      } else {
        if opt !in flags || opt !in longOpts {
          crashed := true;
          return;
        }
        piece := DescrLongOpt(opt, flags[opt], longOpts[opt], View());
      }
    }

    /** Recording the short half after the tag is recording both at once. */
    static lemma ShortUpdate(m: map<string, OptDescr>, k: string, t: OptType, short: string)
      ensures var m1 := m[k := OptDescr(t, "")];
              m1[k := m1[k].(short := short)] == m[k := OptDescr(t, short)]
    {
    }

    /** The rendering of one more entry is one more step. */
    static lemma RenderOneMore(entries: seq<string>, i: nat, v: View)
      requires i < |entries|
      ensures RenderSteps(entries[..i + 1], v) == Step(RenderSteps(entries[..i], v), entries[i], v)
    {
      assert entries[..i + 1][..i] == entries[..i];
    }

    /** A crash at entry `i` is the outcome of the whole rendering. */
    static lemma UsageCrashes(entries: seq<string>, i: nat, v: View)
      requires i < |entries| && RenderSteps(entries[..i + 1], v).crashed
      ensures RenderSteps(entries, v) == RenderSteps(entries[..i + 1], v)
    {
      CrashSticks(entries[..i + 1], entries[i + 1..], v);
      assert entries[..i + 1] + entries[i + 1..] == entries;
    }
  }
}
