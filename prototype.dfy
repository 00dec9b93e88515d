/**
 * The earlier single-file prototype of the option parser. It keeps the same
 * tables as the library (long names with their descriptions, short-to-long
 * aliases, the registration order and the flag table) but checks less: only
 * the length of a short name is validated, types are free-form tag strings of
 * which four are supported, and the usage text prints the short form on a
 * line of its own before the long form.
 */
module Prototype {
  import opened Wrappers
  import opened GoStrings
  import opened FlagSet

  const BoolTag := "bool"
  const StringTag := "string"
  const IntTag := "int"
  const FloatTag := "float"

  /** The tags the prototype knows how to define in the flag table. */
  predicate Supported(optType: string)
  {
    optType == BoolTag || optType == StringTag || optType == IntTag || optType == FloatTag
  }

  /** What the prototype records for a long name: its tag and its short alias, or "". */
  datatype ProtoDescr = ProtoDescr(optType: string, short: string)

  /** Why a call panicked. */
  datatype ProtoPanic =
    | BadShort(optName: string)
    | Unsupported(long: string, optType: string)
    | Redefined(flagName: string)
    | NilDereference
  {
    /** The text the prototype panics with for the two checks it makes itself. */
    function Message(): string
      requires BadShort? || Unsupported?
    {
      match this
      case BadShort(n) => "Invalid option description \"" + n + "\" - length of short option must be == 1"
      case Unsupported(l, t) => "Cannot add argument \"" + l + "\" with unsupported type \"" + t + "\""
    }
  }

  datatype ProtoOutcome = Done | Panicked(reason: ProtoPanic)

  /** The prototype's tables. */
  datatype ProtoTables = ProtoTables(
    shToLong: map<string, string>,
    longOpts: map<string, ProtoDescr>,
    orderedList: seq<string>,
    flags: map<string, Flag>)

  /** Every listed name is a defined flag and has a description. */
  predicate Listed(entries: seq<string>, t: ProtoTables)
  {
    forall i :: 0 <= i < |entries| ==> entries[i] in t.flags && entries[i] in t.longOpts
  }

  predicate TablesValid(t: ProtoTables)
  {
    Listed(t.orderedList, t)
  }

  /**
   * One registration. A short half of any length but one byte panics before
   * anything is recorded. Otherwise the description, the order and the alias
   * are recorded first; then an unsupported tag panics, and a supported one
   * defines the long name and then the short one, either of which panics if
   * the name is already defined. `dflt` is the default value as the flag
   * table prints it.
   */
  function AddOptSpec(t: ProtoTables, optName: string, optType: string, usage: string, dflt: string): (ProtoTables, ProtoOutcome)
  {
    var c := Cut(optName, '|');
    if c.found && ByteLen(c.after) != 1 then (t, Panicked(BadShort(optName)))
    else
      var long := c.before;
      var t1 := Record(t, c, optType);
      if !Supported(optType) then (t1, Panicked(Unsupported(long, optType)))
      else match Define(t1.flags, long, usage, dflt)
        case None => (t1, Panicked(Redefined(long)))
        case Some(f1) =>
          if !c.found then (t1.(flags := f1), Done)
          else match Define(f1, c.after, usage, dflt)
            case None => (t1.(flags := f1), Panicked(Redefined(c.after)))
            case Some(f2) => (t1.(flags := f2), Done)
  }

  /** The recording step: the description under the long half, the order, and the alias when a short half is present. */
  function Record(t: ProtoTables, c: CutResult, optType: string): ProtoTables
  {
    t.(longOpts := t.longOpts[c.before := ProtoDescr(optType, if c.found then c.after else "")],
       orderedList := t.orderedList + [c.before],
       shToLong := if c.found then t.shToLong[c.after := c.before] else t.shToLong)
  }

  /** The hint after an option's name: a bool takes an optional `=true|false`, any other tag its name. */
  function Hint(optType: string): string
  {
    if optType == BoolTag then "[=true|false]" else " " + optType
  }

  /** The hint tells a bool from every other tag. */
  lemma HintIff(optType: string)
    ensures Hint(optType) == "[=true|false]" <==> optType == BoolTag
    ensures '\n' !in optType ==> '\n' !in Hint(optType)
  {
    if optType != BoolTag {
      assert Hint(optType)[0] == ' ';
    }
  }

  /** The short form's line, without its line break. */
  function ShortForm(d: ProtoDescr): string
  {
    "  -" + d.short + Hint(d.optType)
  }

  /** The long form's line, without its line break. */
  function LongForm(name: string, d: ProtoDescr): string
  {
    "  --" + name + Hint(d.optType)
  }

  /** The usage text and the default value, without the line break. */
  function UsageForm(f: Flag): string
  {
    "      " + f.usage + " (default: " + f.defValue + ")"
  }

  /** The description of one option: the short form, if any, the long form, and the usage with the default. */
  function ProtoDescrLongOpt(name: string, f: Flag, d: ProtoDescr): string
  {
    (if d.short != "" then ShortForm(d) + "\n" else "") + LongForm(name, d) + "\n" + UsageForm(f) + "\n"
  }

  /** The lines of an option's description, in the order they are printed. */
  function DescrLines(name: string, f: Flag, d: ProtoDescr): seq<string>
  {
    (if d.short != "" then [ShortForm(d)] else []) + [LongForm(name, d), UsageForm(f), ""]
  }

  /**
   * When none of the parts holds a line break, the description splits into
   * the short line (when there is a short alias), then the long line, then
   * the usage line, each ended by a line break.
   */
  lemma DescrLayout(name: string, f: Flag, d: ProtoDescr)
    requires '\n' !in name && '\n' !in d.short && '\n' !in d.optType && '\n' !in f.usage && '\n' !in f.defValue
    ensures Split(ProtoDescrLongOpt(name, f, d), '\n') == DescrLines(name, f, d)
  {
    HintIff(d.optType);
    var long, use := LongForm(name, d), UsageForm(f);
    NoBreak("  --", name, Hint(d.optType));
    NoBreak("      " + f.usage, " (default: " + f.defValue, ")");
    DescrJoin(name, f, d);
    if d.short != "" {
      var sh := ShortForm(d);
      NoBreak("  -", d.short, Hint(d.optType));
      assert DescrLines(name, f, d) == [sh, long, use, ""];
      SplitJoin([sh, long, use, ""], '\n');
    } else {
      assert DescrLines(name, f, d) == [long, use, ""];
      SplitJoin([long, use, ""], '\n');
    }
  }

  /** The description is its lines joined by line breaks. */
  lemma DescrJoin(name: string, f: Flag, d: ProtoDescr)
    ensures Join(DescrLines(name, f, d), "\n") == ProtoDescrLongOpt(name, f, d)
  {
    var long, use := LongForm(name, d), UsageForm(f);
    JoinLines(long, use);
    if d.short != "" {
      var sh := ShortForm(d);
      assert DescrLines(name, f, d) == [sh, long, use, ""];
      JoinFour(sh, long, use);
    } else {
      assert DescrLines(name, f, d) == [long, use, ""];
      assert "" + long == long;
    }
  }

  /** Three lines and an empty last piece, joined by line breaks. */
  lemma JoinFour(a: string, b: string, c: string)
    ensures Join([a, b, c, ""], "\n") == a + "\n" + b + "\n" + c + "\n"
  {
    JoinMore(a, [b, c, ""]);
    assert [a] + [b, c, ""] == [a, b, c, ""];
    JoinLines(b, c);
    AppendAssoc(a + "\n", b + "\n", c + "\n");
  }

  /**
   * With a short alias there are four pieces and the first is the short
   * form; without one there are three and the first is the long form.
   */
  lemma DescrOrder(name: string, f: Flag, d: ProtoDescr)
    ensures d.short != "" ==> |DescrLines(name, f, d)| == 4 && DescrLines(name, f, d)[0][..3] == "  -"
    ensures d.short == "" ==> |DescrLines(name, f, d)| == 3 && DescrLines(name, f, d)[0][..4] == "  --"
  {
    if d.short != "" {
      assert DescrLines(name, f, d)[0] == "  -" + (d.short + Hint(d.optType));
    } else {
      assert DescrLines(name, f, d)[0] == "  --" + (name + Hint(d.optType));
    }
  }

  lemma NoBreak(a: string, b: string, c: string)
    requires '\n' !in a && '\n' !in b && '\n' !in c
    ensures '\n' !in a + b + c
  {
  }

  /** Two lines and an empty last piece, joined by line breaks. */
  lemma JoinLines(a: string, b: string)
    ensures Join([a, b, ""], "\n") == a + "\n" + b + "\n"
  {
    assert [a, b, ""][1..] == [b, ""];
    assert [b, ""][1..] == [""];
    assert Join([""], "\n") == "";
    assert Join([b, ""], "\n") == b + "\n";
  }

  /** One more piece in front. */
  lemma JoinMore(x: string, xs: seq<string>)
    requires xs != []
    ensures Join([x] + xs, "\n") == x + "\n" + Join(xs, "\n")
  {
    assert ([x] + xs)[1..] == xs;
  }

  /** The first line of the usage text. */
  function Header(name: string): (r: string)
    ensures r == "Usage:\n" <==> name == ""
  {
    if name != "" then "Usage of " + name + ":" + "\n" else "Usage:\n"
  }

  /** Rendering so far: the text printed and whether a lookup crashed. */
  datatype Printed = Printed(text: string, crashed: bool)

  /**
   * The usage loop over the entries: each listed name prints its
   * description; a name without a flag or a description is a nil
   * dereference, after which nothing more is printed.
   */
  function Render(entries: seq<string>, t: ProtoTables): Printed
  {
    if entries == [] then Printed("", false)
    else
      var n := |entries| - 1;
      var r := Render(entries[..n], t);
      var e := entries[n];
      if r.crashed then r
      else if e in t.flags && e in t.longOpts then Printed(r.text + ProtoDescrLongOpt(e, t.flags[e], t.longOpts[e]), false)
      else Printed(r.text, true)
  }

  /** The reference text: every entry's description in order. */
  function AllDescrs(entries: seq<string>, t: ProtoTables): string
    requires Listed(entries, t)
  {
    if entries == [] then ""
    else
      var n := |entries| - 1;
      assert Listed(entries[..n], t);
      AllDescrs(entries[..n], t) + ProtoDescrLongOpt(entries[n], t.flags[entries[n]], t.longOpts[entries[n]])
  }

  /**
   * Rendering crashes exactly when some entry lacks a flag or a description;
   * otherwise it prints every entry's description in order.
   */
  lemma {:induction false} RenderIff(entries: seq<string>, t: ProtoTables)
    ensures !Render(entries, t).crashed <==> Listed(entries, t)
    ensures Listed(entries, t) ==> Render(entries, t).text == AllDescrs(entries, t)
  {
    if entries != [] {
      var n := |entries| - 1;
      var pre := entries[..n];
      RenderIff(pre, t);
      assert forall i :: 0 <= i < n ==> pre[i] == entries[i];
      if Listed(entries, t) {
        assert Listed(pre, t);
      } else if Listed(pre, t) {
        assert !(entries[n] in t.flags && entries[n] in t.longOpts);
      }
    }
  }

  /** A registration that completes keeps every listed name defined and described. */
  lemma AddOptKeepsValid(t: ProtoTables, optName: string, optType: string, usage: string, dflt: string)
    requires TablesValid(t)
    requires AddOptSpec(t, optName, optType, usage, dflt).1 == Done
    ensures TablesValid(AddOptSpec(t, optName, optType, usage, dflt).0)
  {
    var t2 := AddOptSpec(t, optName, optType, usage, dflt).0;
    var long := Cut(optName, '|').before;
    assert t2.orderedList == t.orderedList + [long];
    assert long in t2.flags && long in t2.longOpts;
    assert t.flags.Keys <= t2.flags.Keys && t.longOpts.Keys <= t2.longOpts.Keys;
  }

  /**
   * The only check before recording: a short half that is not exactly one
   * byte long panics, and nothing has changed yet.
   */
  lemma BadShortIff(t: ProtoTables, optName: string, optType: string, usage: string, dflt: string)
    ensures var (t2, o) := AddOptSpec(t, optName, optType, usage, dflt);
            var c := Cut(optName, '|');
            (o == Panicked(BadShort(optName)) <==> c.found && ByteLen(c.after) != 1) &&
            (o == Panicked(BadShort(optName)) ==> t2 == t)
  {
  }

  /**
   * Past that check the description, the order and the alias are recorded,
   * whether or not the tag is then refused, and no other description or
   * alias changes.
   */
  lemma AddOptRecords(t: ProtoTables, optName: string, optType: string, usage: string, dflt: string)
    requires var c := Cut(optName, '|'); !c.found || ByteLen(c.after) == 1
    ensures var t2, c := AddOptSpec(t, optName, optType, usage, dflt).0, Cut(optName, '|');
            t2.longOpts == t.longOpts[c.before := ProtoDescr(optType, c.after)] &&
            t2.orderedList == t.orderedList + [c.before] &&
            (c.found ==> t2.shToLong == t.shToLong[c.after := c.before]) &&
            (!c.found ==> t2.shToLong == t.shToLong)
  {
    var c := Cut(optName, '|');
    var t1 := Record(t, c, optType);
    var t2 := AddOptSpec(t, optName, optType, usage, dflt).0;
    assert t2 == t1.(flags := t2.flags);
  }

  /** An unsupported tag panics after recording, before the flag table is touched. */
  lemma UnsupportedIff(t: ProtoTables, optName: string, optType: string, usage: string, dflt: string)
    requires var c := Cut(optName, '|'); !c.found || ByteLen(c.after) == 1
    ensures var (t2, o) := AddOptSpec(t, optName, optType, usage, dflt);
            (o.Panicked? && o.reason.Unsupported? <==> !Supported(optType)) &&
            (!Supported(optType) ==> o == Panicked(Unsupported(Cut(optName, '|').before, optType)) && t2.flags == t.flags)
  {
  }

  /**
   * A registration completes exactly when the short half (if any) is one
   * byte, the tag is supported, and neither name is defined yet nor the two
   * equal; then both names are defined with the usage and the default.
   */
  lemma AddOptDoneIff(t: ProtoTables, optName: string, optType: string, usage: string, dflt: string)
    ensures var (t2, o) := AddOptSpec(t, optName, optType, usage, dflt);
            var c := Cut(optName, '|');
            (o == Done <==>
               (!c.found || ByteLen(c.after) == 1) && Supported(optType) && c.before !in t.flags &&
               (c.found ==> c.after !in t.flags && c.after != c.before)) &&
            (o == Done ==> t2.flags[c.before] == Flag(usage, dflt) &&
                           (c.found ==> t2.flags[c.after] == Flag(usage, dflt)) &&
                           t2.flags.Keys == t.flags.Keys + {c.before} + (if c.found then {c.after} else {}))
  {
  }

  /**
   * A refused tag under a name not yet defined leaves that name listed
   * without a flag, so a later usage text would crash on it.
   */
  lemma UnsupportedBreaksUsage(t: ProtoTables, optName: string, optType: string, usage: string, dflt: string)
    requires '|' !in optName && !Supported(optType) && optName !in t.flags
    ensures Render(AddOptSpec(t, optName, optType, usage, dflt).0.orderedList, AddOptSpec(t, optName, optType, usage, dflt).0).crashed
  {
    var t2 := AddOptSpec(t, optName, optType, usage, dflt).0;
    var es := t2.orderedList;
    assert es[|es| - 1] == optName && optName !in t2.flags;
    RenderIff(es, t2);
  }

  /** The prototype's parser. */
  class ProtoParser {
    var name: string
    var shToLong: map<string, string>
    var longOpts: map<string, ProtoDescr>
    var orderedList: seq<string>
    var flags: map<string, Flag>
    var exeName: string
    /** Everything printed on standard output so far. */
    var output: string

    function Tables(): ProtoTables
      reads this`shToLong, this`longOpts, this`orderedList, this`flags
    {
      ProtoTables(shToLong, longOpts, orderedList, flags)
    }

    predicate Valid()
      reads this`shToLong, this`longOpts, this`orderedList, this`flags
    {
      TablesValid(Tables())
    }

    /** A parser with empty tables; the flag table's own output is discarded. */
    constructor (name: string)
      ensures this.name == name && Tables() == ProtoTables(map[], map[], [], map[])
      ensures exeName == "" && output == "" && Valid()
    {
      this.name := name;
      shToLong := map[];
      longOpts := map[];
      orderedList := [];
      flags := map[];
      exeName := "";
      output := "";
    }

    /** Registers an option: the same steps, in the same order, as the specification function. */
    method AddOpt(optName: string, optType: string, usage: string, dflt: string) returns (o: ProtoOutcome)
      modifies this`shToLong, this`longOpts, this`orderedList, this`flags
      ensures (Tables(), o) == AddOptSpec(old(Tables()), optName, optType, usage, dflt)
      ensures o == Done && old(Valid()) ==> Valid()
    {
      ghost var t0 := Tables();
      var c := Cut(optName, '|');
      if c.found && ByteLen(c.after) != 1 {
        return Panicked(BadShort(optName));
      }
      var long, short := c.before, c.after;
      longOpts := longOpts[long := ProtoDescr(optType, "")];
      orderedList := orderedList + [long];
      if c.found {
        shToLong := shToLong[short := long];
        ShortUpdate(t0.longOpts, long, optType, short);
        longOpts := longOpts[long := longOpts[long].(short := short)];
      }
      assert Tables() == Record(t0, c, optType);
      if !Supported(optType) {
        return Panicked(Unsupported(long, optType));
      }
      var r := Define(flags, long, usage, dflt);
      if r.None? {
        return Panicked(Redefined(long));
      }
      flags := r.value;
      if c.found {
        r := Define(flags, short, usage, dflt);
        if r.None? {
          return Panicked(Redefined(short));
        }
        flags := r.value;
      }
      o := Done;
      if TablesValid(t0) {
        AddOptKeepsValid(t0, optName, optType, usage, dflt);
      }
    }

    /**
     * Records the program name and, when the command line does not parse
     * (a help request included), prints the usage text; it never exits.
     */
    method Parse(arg0: string, outcome: ParseOutcome) returns (o: ProtoOutcome)
      modifies this`exeName, this`output
      ensures exeName == arg0
      ensures outcome.Parsed? ==> output == old(output) && o == Done
      ensures !outcome.Parsed? ==>
                output == old(output) + Header(name) + Render(orderedList, Tables()).text &&
                (o.Panicked? <==> Render(orderedList, Tables()).crashed) &&
                (o.Panicked? ==> o == Panicked(NilDereference))
      ensures !outcome.Parsed? && Valid() ==> o == Done && output == old(output) + Header(name) + AllDescrs(orderedList, Tables())
    {
      exeName := arg0;
      o := Done;
      if !outcome.Parsed? {
        o := Usage();
      }
    }

    /** Prints the header and then each registered option's description, in registration order. */
    method Usage() returns (o: ProtoOutcome)
      modifies this`output
      ensures output == old(output) + Header(name) + Render(orderedList, Tables()).text
      ensures o.Panicked? <==> Render(orderedList, Tables()).crashed
      ensures o.Panicked? ==> o == Panicked(NilDereference)
      ensures Valid() ==> o == Done && output == old(output) + Header(name) + AllDescrs(orderedList, Tables())
    {
      output := output + Header(name);
      var crashed := PrintDescrs();
      RenderIff(orderedList, Tables());
      o := if crashed then Panicked(NilDereference) else Done;
    }

    /** The loop of `Usage`: each entry's description, until a lookup finds nothing. */
    method PrintDescrs() returns (crashed: bool)
      modifies this`output
      ensures output == old(output) + Render(orderedList, Tables()).text
      ensures crashed == Render(orderedList, Tables()).crashed
    {
      ghost var t := Tables();
      ghost var out0 := output;
      var i := 0;
      while i < |orderedList|
        invariant 0 <= i <= |orderedList| && Tables() == t
        invariant !Render(orderedList[..i], t).crashed
        invariant output == out0 + Render(orderedList[..i], t).text
      {
        var opt := orderedList[i];
        RenderOneMore(orderedList, i, t);
        if opt !in flags || opt !in longOpts {
          StopsAt(orderedList, i, t);
          return true;
        }
        var piece := ProtoDescrLongOpt(opt, flags[opt], longOpts[opt]);
        AppendAssoc(out0, Render(orderedList[..i], t).text, piece);
        output := output + piece;
        i := i + 1;
      }
      assert orderedList[..i] == orderedList;
      crashed := false;
    }

    /** One more entry is one more step of the rendering. */
    static lemma RenderOneMore(entries: seq<string>, i: nat, t: ProtoTables)
      requires i < |entries| && !Render(entries[..i], t).crashed
      ensures var e, r := entries[i], Render(entries[..i], t);
              Render(entries[..i + 1], t) ==
                if e in t.flags && e in t.longOpts then Printed(r.text + ProtoDescrLongOpt(e, t.flags[e], t.longOpts[e]), false)
                else Printed(r.text, true)
    {
      assert entries[..i + 1][..i] == entries[..i];
    }

    /** Recording the short half after the tag is recording both at once. */
    static lemma ShortUpdate(m: map<string, ProtoDescr>, k: string, optType: string, short: string)
      ensures var m1 := m[k := ProtoDescr(optType, "")];
              m1[k := m1[k].(short := short)] == m[k := ProtoDescr(optType, short)]
    {
    }

    /** A crash at entry `i` is the outcome of the whole loop. */
    static lemma StopsAt(entries: seq<string>, i: nat, t: ProtoTables)
      requires i < |entries| && Render(entries[..i + 1], t).crashed
      ensures Render(entries, t) == Render(entries[..i + 1], t)
    {
      RenderCrashSticks(entries, i + 1, t);
    }
  }

  /** Once a prefix has crashed, the whole rendering is that prefix's. */
  lemma {:induction false} RenderCrashSticks(entries: seq<string>, k: nat, t: ProtoTables)
    requires k <= |entries| && Render(entries[..k], t).crashed
    ensures Render(entries, t) == Render(entries[..k], t)
  {
    if k < |entries| {
      var n := |entries| - 1;
      assert entries[..n][..k] == entries[..k];
      RenderCrashSticks(entries[..n], k, t);
    } else {
      assert entries[..k] == entries;
    }
  }
}
