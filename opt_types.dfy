/**
 * Type tags and the per-option record of the option parser, and the output
 * sink that swallows everything written to it.
 */
module OptTypes {

  /**
   * The value type of an option. The nine value types carry the tag strings
   * below; the separator tag marks the display-only separator entries.
   */
  datatype OptType =
    | TBool | TString | TInt | TInt64 | TUint | TUint64 | TFloat64 | TDuration | TValue
    | TSeparator
  {
    predicate IsValueType()
    {
      !TSeparator?
    }
  }

  /** The separator's tag string, defined outside the files of this model. */
  const SeparatorTagName: string

  /** The tag string of a type. */
  function TagName(t: OptType): string
  {
    match t
    case TBool => "bool"
    case TString => "string"
    case TInt => "int"
    case TInt64 => "int64"
    case TUint => "uint"
    case TUint64 => "uint64"
    case TFloat64 => "float64"
    case TDuration => "duration"
    case TValue => "value"
    case TSeparator => SeparatorTagName
  }

  /** No two value types share a tag string. */
  lemma TagNamesDistinct(a: OptType, b: OptType)
    requires a.IsValueType() && b.IsValueType()
    requires TagName(a) == TagName(b)
    ensures a == b
  {
  }

  const BoolHint := "[=true|false]"

  /**
   * What follows an option's name in the usage text: the fixed hint for a
   * boolean option, otherwise a space and the tag.
   */
  function ValueHint(t: OptType): (h: string)
    ensures h == BoolHint <==> t == TBool
    ensures t != TBool ==> h == " " + TagName(t)
  {
    if t == TBool then BoolHint
    else
      var h := " " + TagName(t);
      assert h[0] != BoolHint[0];
      h
  }

  /** What the registry keeps per long name: the type tag and the short alias, "" when none. */
  datatype OptDescr = OptDescr(optType: OptType, short: string)
  {
    predicate HasShort()
    {
      short != ""
    }
  }

  /** What a `Write` call reports: the count of bytes taken and an error, if any. */
  datatype WriteResult = WriteResult(n: nat, failed: bool)

  /** The discarding writer: it takes every byte and never fails. */
  function DiscardWrite(p: seq<bv8>): (r: WriteResult)
    ensures r.n == |p| && !r.failed
  {
    WriteResult(|p|, false)
  }

  function Flatten(chunks: seq<seq<bv8>>): seq<bv8>
  {
    if chunks == [] then [] else chunks[0] + Flatten(chunks[1..])
  }

  /**
   * What a writer reports over a run of writes, such as the messages the
   * flag table writes one call at a time: the total count, stopping at the
   * first failure.
   */
  function WriteAll(chunks: seq<seq<bv8>>): WriteResult
  {
    if chunks == [] then WriteResult(0, false)
    else
      var r := DiscardWrite(chunks[0]);
      if r.failed then r
      else
        var rest := WriteAll(chunks[1..]);
        WriteResult(r.n + rest.n, rest.failed)
  }

  /**
   * The prototype installs the discarding writer as its flag table's output,
   * so whatever the table writes there is taken in full and never fails.
   */
  lemma {:induction false} DiscardTakesEverything(chunks: seq<seq<bv8>>)
    ensures WriteAll(chunks) == WriteResult(|Flatten(chunks)|, false)
  {
    if chunks != [] {
      DiscardTakesEverything(chunks[1..]);
    }
  }
}
