/**
 * Splitting and checking an option specifier such as "long|s", the dash
 * prefix of a name, and the synthetic keys of separator entries.
 */
module OptNames {
  import opened Wrappers
  import opened GoStrings
  import opened OptTypes
  import Decimal

  /** The two halves of a specifier, and whether a `|` was present. */
  datatype OptName = OptName(long: string, short: string, hasShort: bool)

  /** Splits a specifier at its first `|`. */
  function SplitName(optName: string): (n: OptName)
    ensures n.hasShort <==> '|' in optName
    ensures n.hasShort ==> optName == n.long + "|" + n.short && '|' !in n.long
    ensures !n.hasShort ==> n.long == optName && n.short == ""
  {
    var c := Cut(optName, '|');
    OptName(c.before, c.after, c.found)
  }

  /** Why a registration was refused with an `OptsPanic`. */
  datatype Reason =
    | SameLongShort(optType: OptType, usage: string)
    | EmptyLong(optName: string, short: string)
    | BadShortLength(optName: string)
    | RequiredNotAdded(opt: string)

  /**
   * The checks done before an option is registered, in the order they are
   * made; the first that fails gives the reason. Separators skip them all.
   */
  function CheckName(t: OptType, n: OptName, optName: string, usage: string): (r: Option<Reason>)
    ensures t == TSeparator ==> r == None
    ensures t != TSeparator && n.long == n.short ==> r == Some(SameLongShort(t, usage))
  {
    if t == TSeparator then None
    else if n.long == n.short then Some(SameLongShort(t, usage))
    else if n.long == "" && n.hasShort then Some(EmptyLong(optName, n.short))
    else if n.hasShort && ByteLen(n.short) != 1 then Some(BadShortLength(optName))
    else None
  }

  /** The specifiers the checks let through: "long", or "long|c" with a one-byte `c` other than "long". */
  predicate WellFormedName(optName: string)
  {
    || ('|' !in optName && optName != "")
    || (var n := SplitName(optName);
        n.hasShort && n.long != "" && |n.short| == 1 && n.short[0] as int < 0x80 && n.long != n.short)
  }

  /** A value-typed registration passes the checks exactly when its specifier is well formed. */
  lemma AcceptedIff(t: OptType, optName: string, usage: string)
    requires t.IsValueType()
    ensures CheckName(t, SplitName(optName), optName, usage) == None <==> WellFormedName(optName)
  {
    ByteLenIsOne(SplitName(optName).short);
  }

  /** A specifier "long|short" with a '|'-free `long` splits into `long` and `short`. */
  lemma {:induction false} SplitAtBar(long: string, short: string)
    requires '|' !in long
    ensures SplitName(long + "|" + short) == OptName(long, short, true)
  {
    CutAt(long, '|', short);
  }

  /** A specifier without `|` is a long name only, even when it is one character long. */
  lemma SplitLongOnly(optName: string)
    requires '|' !in optName
    ensures SplitName(optName) == OptName(optName, "", false)
  {
  }

  /** "opt1|opt1": the two halves are the same. */
  lemma RejectSameHalves(t: OptType, u: string)
    requires t.IsValueType()
    ensures CheckName(t, SplitName("opt1|opt1"), "opt1|opt1", u) == Some(SameLongShort(t, u))
  {
    CutAt("opt1", '|', "opt1");
    assert "opt1" + ['|'] + "opt1" == "opt1|opt1";
  }

  /** "opt2|not-so-short": the short half is longer than one byte. */
  lemma RejectLongShort(t: OptType, u: string)
    requires t.IsValueType()
    ensures CheckName(t, SplitName("opt2|not-so-short"), "opt2|not-so-short", u) == Some(BadShortLength("opt2|not-so-short"))
  {
    assert "opt2|not-so-short" == "opt2" + "|" + "not-so-short";
    BadShortRejected(t, "opt2", "not-so-short", u);
  }

  lemma BadShortRejected(t: OptType, long: string, short: string, u: string)
    requires t.IsValueType() && '|' !in long && long != "" && long != short && |short| != 1
    ensures CheckName(t, SplitName(long + "|" + short), long + "|" + short, u) == Some(BadShortLength(long + "|" + short))
  {
    CutAt(long, '|', short);
    ByteLenIsOne(short);
  }

  /** "opt3|": the short half is empty. */
  lemma RejectEmptyShort(t: OptType, u: string)
    requires t.IsValueType()
    ensures CheckName(t, SplitName("opt3|"), "opt3|", u) == Some(BadShortLength("opt3|"))
  {
    CutAt("opt3", '|', "");
    assert "opt3" + ['|'] + "" == "opt3|";
  }

  /** "|o": a short half without a long one. */
  lemma RejectEmptyLong(t: OptType, u: string)
    requires t.IsValueType()
    ensures CheckName(t, SplitName("|o"), "|o", u) == Some(EmptyLong("|o", "o"))
  {
    CutAt("", '|', "o");
    assert "" + ['|'] + "o" == "|o";
  }

  /**
   * A bar with nothing before it and something after it is refused as a
   * missing long name, whatever the length of the short half: that check
   * comes before the short-length check.
   */
  lemma EmptyLongRejected(t: OptType, optName: string, u: string)
    requires t.IsValueType() && '|' in optName
    requires SplitName(optName).long == "" && SplitName(optName).short != ""
    ensures CheckName(t, SplitName(optName), optName, u) == Some(EmptyLong(optName, SplitName(optName).short))
  {
  }

  /** "|ab": the missing long name is reported, not the two-byte short half. */
  lemma RejectEmptyLongFirst(t: OptType, u: string)
    requires t.IsValueType()
    ensures CheckName(t, SplitName("|ab"), "|ab", u) == Some(EmptyLong("|ab", "ab"))
  {
    CutAt("", '|', "ab");
    assert "" + ['|'] + "ab" == "|ab";
    EmptyLongRejected(t, "|ab", u);
  }

  /** "": both halves are empty, so the first check already refuses it. */
  lemma RejectEmptyName(t: OptType, u: string)
    requires t.IsValueType()
    ensures CheckName(t, SplitName(""), "", u) == Some(SameLongShort(t, u))
  {
  }

  /** "b": a bare one-character specifier is accepted as the long name "b". */
  lemma AcceptBareShort(t: OptType, u: string)
    requires t.IsValueType()
    ensures SplitName("b") == OptName("b", "", false)
    ensures CheckName(t, SplitName("b"), "b", u) == None
  {
  }

  /** Dash prefix of a name: one dash for a one-byte name, two otherwise. */
  function Dashes(name: string): (d: string)
    ensures d == "-" <==> |name| == 1 && name[0] as int < 0x80
    ensures d != "-" ==> d == "--"
  {
    ByteLenIsOne(name);
    if ByteLen(name) == 1 then "-" else "--"
  }

  /**
   * The prefix of the synthetic keys of separator entries. Its value is
   * defined outside the files of this model.
   */
  const SepPrefix: string

  /** Key of the `n`-th separator: the prefix followed by `n` in decimal. */
  function SepKey(n: nat): string
  {
    SepPrefix + Decimal.NatToDecimal(n)
  }

  /** Separator keys never repeat. */
  lemma SepKeyInjective(a: nat, b: nat)
    requires SepKey(a) == SepKey(b)
    ensures a == b
  {
    assert SepKey(a)[|SepPrefix|..] == Decimal.NatToDecimal(a);
    assert SepKey(b)[|SepPrefix|..] == Decimal.NatToDecimal(b);
    Decimal.NatToDecimalInjective(a, b);
  }
}
