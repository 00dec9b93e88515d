/**
 * The text the parser's usage function prints: the optional error line, the
 * header, the general description, then one entry per registered name in
 * registration order, where separator entries print their text and options
 * print their forms, help text and default or required note.
 */
module OptUsage {
  import opened GoStrings
  import opened OptTypes
  import opened OptNames
  import opened FlagSet

  /** The indentation before option forms and separator texts (defined outside the files of this model). */
  const OptIndent: string
  /** The indentation before an option's help text (defined outside the files of this model). */
  const HelpIndent: string

  /** How the two forms of an option with a short alias are laid out. */
  datatype Style = Style(lsJoin: string, shortFirst: bool)

  /** What rendering reads from the parser: the flag table, the registry, the required names and the style. */
  datatype View = View(flags: map<string, Flag>, longOpts: map<string, OptDescr>, required: set<string>, style: Style)

  /** The short form of an option, with its value hint. */
  function ShortForm(d: OptDescr): string
  {
    "-" + d.short + ValueHint(d.optType)
  }

  /** The long form of an option, with its value hint. */
  function LongForm(name: string, d: OptDescr): string
  {
    "--" + name + ValueHint(d.optType)
  }

  /**
   * The first line of an option's entry: both forms, joined, when there is a
   * short alias; otherwise the name with as many dashes as its length calls for.
   */
  function FormsLine(name: string, d: OptDescr, style: Style): string
  {
    if d.HasShort() then
      if style.shortFirst then OptIndent + ShortForm(d) + style.lsJoin + LongForm(name, d) + "\n"
      else OptIndent + LongForm(name, d) + style.lsJoin + ShortForm(d) + "\n"
    else OptIndent + Dashes(name) + name + ValueHint(d.optType) + "\n"
  }

  /**
   * Switching the short-first setting swaps the two forms around the join
   * text; an option without an alias is printed the same either way.
   */
  lemma ShortFirstMirrors(name: string, d: OptDescr, join: string)
    ensures d.HasShort() ==>
              FormsLine(name, d, Style(join, true)) == OptIndent + ShortForm(d) + join + LongForm(name, d) + "\n" &&
              FormsLine(name, d, Style(join, false)) == OptIndent + LongForm(name, d) + join + ShortForm(d) + "\n"
    ensures !d.HasShort() ==> FormsLine(name, d, Style(join, true)) == FormsLine(name, d, Style(join, false))
  {
  }

  /** An option with an alias always prints two dashes before its long name, whatever its length. */
  lemma AliasedLongHasTwoDashes(name: string, d: OptDescr, style: Style)
    requires d.HasShort()
    ensures exists pre, post :: FormsLine(name, d, style) == pre + "--" + name + post
  {
    if style.shortFirst {
      var pre := OptIndent + ShortForm(d) + style.lsJoin;
      var post := ValueHint(d.optType) + "\n";
      assert FormsLine(name, d, style) == pre + "--" + name + post;
    } else {
      var post := ValueHint(d.optType) + style.lsJoin + ShortForm(d) + "\n";
      assert FormsLine(name, d, style) == OptIndent + "--" + name + post;
    }
  }

  const RequiredNote := " (required option)"

  /** The default value as printed: an empty default is shown as two double quotes. */
  function DefaultText(def: string): (r: string)
    ensures r != ""
    ensures def != "" ==> r == def
    ensures def == "" ==> r == "\"\""
  {
    if def == "" then "\"\"" else def
  }

  /** The note after an option's help text: the required marker, or the default value. */
  function Annotation(isRequired: bool, def: string): string
  {
    if isRequired then RequiredNote else " (default: " + DefaultText(def) + ")"
  }

  /**
   * A required option never shows its default; for the others two defaults
   * print the same exactly when they are equal, or one is empty and the
   * other is two double quotes.
   */
  lemma AnnotationDistinguishes(a: string, b: string)
    ensures Annotation(true, a) == Annotation(true, b)
    ensures Annotation(false, a) == Annotation(false, b) <==>
              a == b || (a == "" && b == "\"\"") || (a == "\"\"" && b == "")
  {
    var pre := " (default: ";
    if Annotation(false, a) == Annotation(false, b) {
      assert DefaultText(a) == Annotation(false, a)[|pre|..|Annotation(false, a)| - 1];
      assert DefaultText(b) == Annotation(false, b)[|pre|..|Annotation(false, b)| - 1];
    }
  }

  /** The full entry of an option: its forms line, its help line with the note, and a newline. */
  function DescrLongOpt(name: string, f: Flag, d: OptDescr, v: View): string
  {
    FormsLine(name, d, v.style) + HelpIndent + f.usage + Annotation(name in v.required, f.defValue) + "\n"
  }

  /** The error line printed first, unless there is no error or it is the help request. */
  function ErrorLine(errs: seq<Error>): string
  {
    if |errs| != 0 && errs[0] != ErrHelp then "\nUsage ERROR: " + errs[0].Text() + "\n" else ""
  }

  /** Only the first error is reported, and it is reported unless it is the help request. */
  lemma ErrorLineIff(errs: seq<Error>)
    ensures ErrorLine(errs) == "" <==> errs == [] || errs[0] == ErrHelp
    ensures |errs| != 0 ==> ErrorLine(errs) == ErrorLine(errs[..1])
  {
  }

  /** The header names the program when it has a name. */
  function Header(name: string): string
  {
    if name == "" then "\nUsage:\n" else "\nUsage of " + name + ":\n"
  }

  /** Everything before the entries. */
  function UsageHead(errs: seq<Error>, name: string, generalDescr: string): string
  {
    ErrorLine(errs) + Header(name) + (if generalDescr != "" then generalDescr + "\n" else "")
  }

  /** The line of a separator entry: its text, indented. */
  function SepLine(text: string): string
  {
    OptIndent + text + "\n"
  }

  /** Rendering state: the text so far, the index of the next expected separator, and whether it crashed. */
  datatype Rendered = Rendered(text: string, next: nat, crashed: bool)

  /**
   * One entry. An entry equal to the next expected separator key prints that
   * separator's text and advances the expectation; any other entry prints
   * its option description. A name missing from the flag table (or, for an
   * option, from the registry) dereferences nothing and crashes; after a
   * crash nothing changes.
   */
  function Step(r: Rendered, opt: string, v: View): Rendered
  {
    if r.crashed then r
    else if opt == SepKey(r.next) then
      if opt in v.flags then Rendered(r.text + SepLine(v.flags[opt].usage), r.next + 1, false)
      else Rendered(r.text, r.next + 1, true)
    else if opt in v.flags && opt in v.longOpts then
      Rendered(r.text + DescrLongOpt(opt, v.flags[opt], v.longOpts[opt], v), r.next, false)
    else Rendered(r.text, r.next, true)
  }

  /** The rendering of a list of entries, one step per entry, from the first. */
  function RenderSteps(entries: seq<string>, v: View): Rendered
  {
    if entries == [] then Rendered("", 0, false)
    else Step(RenderSteps(entries[..|entries| - 1], v), entries[|entries| - 1], v)
  }

  /** The number of separators among the entries. */
  function CountSeps(isSep: seq<bool>): nat
  {
    if isSep == [] then 0
    else CountSeps(isSep[..|isSep| - 1]) + if isSep[|isSep| - 1] then 1 else 0
  }

  /** Every entry is a defined flag, and every option entry is in the registry. */
  predicate Members(entries: seq<string>, isSep: seq<bool>, v: View)
  {
    |isSep| == |entries| &&
    forall i :: 0 <= i < |entries| ==>
      entries[i] in v.flags && (!isSep[i] ==> entries[i] in v.longOpts)
  }

  /** In addition, the separators carry the keys 0, 1, 2, ... in order. */
  predicate Layout(entries: seq<string>, isSep: seq<bool>, v: View)
  {
    Members(entries, isSep, v) &&
    forall i :: 0 <= i < |entries| && isSep[i] ==> entries[i] == SepKey(CountSeps(isSep[..i]))
  }

  /** No option entry carries the separator key expected at its position. */
  predicate NoClash(entries: seq<string>, isSep: seq<bool>)
    requires |isSep| == |entries|
  {
    forall i :: 0 <= i < |entries| && !isSep[i] ==> entries[i] != SepKey(CountSeps(isSep[..i]))
  }

  /** One entry, as its kind says it is printed. */
  function EntryText(e: string, sep: bool, v: View): string
    requires e in v.flags && (!sep ==> e in v.longOpts)
  {
    if sep then SepLine(v.flags[e].usage) else DescrLongOpt(e, v.flags[e], v.longOpts[e], v)
  }

  /** The reference text: every entry printed as its kind says. */
  function Lines(entries: seq<string>, isSep: seq<bool>, v: View): string
    requires Members(entries, isSep, v)
  {
    if entries == [] then ""
    else
      var n := |entries| - 1;
      assert Members(entries[..n], isSep[..n], v);
      Lines(entries[..n], isSep[..n], v) + EntryText(entries[n], isSep[n], v)
  }

  /**
   * With the separators in place and no option posing as a separator,
   * rendering prints every entry as its kind says, never crashes, and ends
   * up expecting the separator after the last one.
   */
  lemma {:induction false} RenderMatchesLines(entries: seq<string>, isSep: seq<bool>, v: View)
    requires Layout(entries, isSep, v)
    requires NoClash(entries, isSep)
    ensures RenderSteps(entries, v) == Rendered(Lines(entries, isSep, v), CountSeps(isSep), false)
  {
    if entries != [] {
      var n := |entries| - 1;
      LayoutPrefix(entries, isSep, v, n);
      RenderMatchesLines(entries[..n], isSep[..n], v);
      LastStep(entries, isSep, v);
    }
  }

  /** The layout conditions hold of every prefix. */
  lemma LayoutPrefix(entries: seq<string>, isSep: seq<bool>, v: View, n: nat)
    requires Layout(entries, isSep, v) && NoClash(entries, isSep)
    requires n <= |entries|
    ensures Layout(entries[..n], isSep[..n], v) && NoClash(entries[..n], isSep[..n])
  {
    var p, q := entries[..n], isSep[..n];
    forall i | 0 <= i < n ensures q[..i] == isSep[..i] {
    }
  }

  /** The last entry of a non-empty layout, rendered after the others. */
  lemma LastStep(entries: seq<string>, isSep: seq<bool>, v: View)
    requires Layout(entries, isSep, v) && NoClash(entries, isSep)
    requires entries != []
    requires RenderSteps(entries[..|entries| - 1], v) ==
             Rendered(Lines(entries[..|entries| - 1], isSep[..|entries| - 1], v), CountSeps(isSep[..|entries| - 1]), false)
    ensures RenderSteps(entries, v) == Rendered(Lines(entries, isSep, v), CountSeps(isSep), false)
  {
    var n := |entries| - 1;
    var e := entries[n];
    var r := RenderSteps(entries[..n], v);
    assert RenderSteps(entries, v) == Step(r, e, v);
    assert Lines(entries, isSep, v) == Lines(entries[..n], isSep[..n], v) + EntryText(e, isSep[n], v);
    assert CountSeps(isSep) == CountSeps(isSep[..n]) + if isSep[n] then 1 else 0;
    assert e in v.flags;
    if isSep[n] {
      assert e == SepKey(r.next);
      assert Step(r, e, v) == Rendered(r.text + EntryText(e, true, v), r.next + 1, false);
    } else {
      assert e != SepKey(r.next);
      assert e in v.longOpts;
      assert Step(r, e, v) == Rendered(r.text + EntryText(e, false, v), r.next, false);
    }
  }

  /** Once rendering has crashed nothing changes any more, whatever follows. */
  lemma {:induction false} CrashSticks(entries: seq<string>, more: seq<string>, v: View)
    requires RenderSteps(entries, v).crashed
    ensures RenderSteps(entries + more, v) == RenderSteps(entries, v)
  {
    if more == [] {
      assert entries + more == entries;
    } else {
      var m := |more| - 1;
      CrashSticks(entries, more[..m], v);
      assert (entries + more)[..|entries + more| - 1] == entries + more[..m];
    }
  }

  /** A name that is not a defined flag makes rendering crash. */
  lemma MissingFlagCrashes(entries: seq<string>, i: nat, v: View)
    requires i < |entries| && entries[i] !in v.flags
    ensures RenderSteps(entries, v).crashed
  {
    var pre := entries[..i + 1];
    assert pre[..i] == entries[..i];
    assert RenderSteps(pre, v).crashed;
    CrashSticks(pre, entries[i + 1..], v);
    assert pre + entries[i + 1..] == entries;
  }
}
