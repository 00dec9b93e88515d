/**
 * The date value used by the tests as a custom option type: `Set` reads
 * "YYYY.MM.DD" into the integer YYYYMMDD and `String` prints it back as
 * "Year Y month M day D". The integer is Go's 64-bit `int`; every value `Set`
 * can store fits in it, so no wrap-around arises.
 */
module Ymd {
  import opened Wrappers
  import opened GoStrings
  import opened Decimal

  /** Why `Set` refused its input: a piece that is not a 32-bit decimal integer, or a count of pieces other than three. */
  datatype YmdError = Unparsable(part: string) | BadLength(count: nat)

  /** The integer three date numbers are stored as. */
  function Encode(y: int, m: int, d: int): int
  {
    y * 10000 + m * 100 + d
  }

  /** The pieces read in order as 32-bit integers; the first piece that does not parse is the error. */
  function ParsePieces(parts: seq<string>): (r: Result<seq<int>, YmdError>)
    ensures r.Ok? ==> |r.value| == |parts|
    ensures r.Ok? ==> forall k :: 0 <= k < |parts| ==> ParseInt32(parts[k]) == Some(r.value[k])
  {
    if parts == [] then Ok([])
    else
      var n := |parts| - 1;
      var prev := ParsePieces(parts[..n]);
      if prev.Err? then prev
      else match ParseInt32(parts[n])
        case None => Err(Unparsable(parts[n]))
        case Some(v) => Ok(prev.value + [v])
  }

  /** What `Set` computes from its input: the value to store, or the error it returns. */
  function ParseYmd(val: string): Result<int, YmdError>
  {
    var parts := Split(val, '.');
    match ParsePieces(parts)
    case Err(e) => Err(e)
    case Ok(ns) => if |ns| != 3 then Err(BadLength(|ns|)) else Ok(Encode(ns[0], ns[1], ns[2]))
  }

  /** The text `String` prints for a stored value, with Go's truncating `/` and `%`. */
  function Show(v: int): string
  {
    "Year " + IntToDecimal(GoQuot(v, 10000)) +
    " month " + IntToDecimal(GoQuot(GoRem(v, 10000), 100)) +
    " day " + IntToDecimal(GoRem(v, 100))
  }

  /** A date option's storage. */
  class YmdVar {
    var value: int

    constructor (v: int)
      ensures value == v
    {
      value := v;
    }

    /**
     * Splits the input at every '.', reads each piece as a 32-bit decimal
     * integer (stopping at the first that does not parse), then demands
     * exactly three pieces; only then is the value stored.
     */
    method Set(val: string) returns (err: Option<YmdError>)
      modifies this`value
      ensures ParseYmd(val).Ok? ==> err == None && value == ParseYmd(val).value
      ensures ParseYmd(val).Err? ==> err == Some(ParseYmd(val).error) && value == old(value)
    {
      var parts := Split(val, '.');
      var ymd: seq<int> := [];
      var i := 0;
      while i < |parts|
        invariant 0 <= i <= |parts|
        invariant ParsePieces(parts[..i]) == Ok(ymd)
      {
        var part := parts[i];
        assert parts[..i + 1][..i] == parts[..i];
        var v := ParseInt32(part);
        if v.None? {
          assert ParsePieces(parts[..i + 1]) == Err(Unparsable(part));
          PiecesStop(parts, i + 1);
          return Some(Unparsable(part));
        }
        ymd := ymd + [v.value];
        i := i + 1;
      }
      assert parts[..i] == parts;
      assert ParsePieces(parts) == Ok(ymd);
      if |ymd| != 3 {
        return Some(BadLength(|ymd|));
      }
      assert ParseYmd(val) == Ok(Encode(ymd[0], ymd[1], ymd[2]));
      value := Encode(ymd[0], ymd[1], ymd[2]);
      err := None;
    }

    /** The stored date as text. */
    function String(): string
      reads this`value
    {
      Show(value)
    }
  }

  /** Once a prefix of the pieces fails, the whole does, with the same error. */
  lemma {:induction false} PiecesStop(parts: seq<string>, i: nat)
    requires i <= |parts| && ParsePieces(parts[..i]).Err?
    ensures ParsePieces(parts) == ParsePieces(parts[..i])
  {
    if i < |parts| {
      var n := |parts| - 1;
      assert parts[..n][..i] == parts[..i];
      PiecesStop(parts[..n], i);
    } else {
      assert parts[..i] == parts;
    }
  }

  /** A failure names the first piece that does not read as an integer. */
  lemma {:induction false} PiecesFirstFailure(parts: seq<string>)
    requires ParsePieces(parts).Err?
    ensures exists k :: 0 <= k < |parts| && ParsePieces(parts).error == Unparsable(parts[k]) &&
                        ParseInt32(parts[k]).None? && forall j :: 0 <= j < k ==> ParseInt32(parts[j]).Some?
  {
    var n := |parts| - 1;
    var prev := ParsePieces(parts[..n]);
    if prev.Err? {
      PiecesFirstFailure(parts[..n]);
      var k :| 0 <= k < n && prev.error == Unparsable(parts[..n][k]) &&
               ParseInt32(parts[..n][k]).None? && forall j :: 0 <= j < k ==> ParseInt32(parts[..n][j]).Some?;
      assert parts[..n][k] == parts[k];
      assert forall j :: 0 <= j < k ==> parts[..n][j] == parts[j];
    } else {
      assert forall j :: 0 <= j < n ==> parts[..n][j] == parts[j];
    }
  }

  /** Pieces that all parse are read in full. */
  lemma {:induction false} PiecesAllParse(parts: seq<string>, ns: seq<int>)
    requires |parts| == |ns|
    requires forall k :: 0 <= k < |parts| ==> ParseInt32(parts[k]) == Some(ns[k])
    ensures ParsePieces(parts) == Ok(ns)
  {
    if parts != [] {
      var n := |parts| - 1;
      PiecesAllParse(parts[..n], ns[..n]);
      assert ns[..n] + [ns[n]] == ns;
    }
  }

  /**
   * `Set` succeeds exactly when the input has three dot-separated pieces
   * that each read as a 32-bit integer, and then stores their encoding.
   */
  lemma ParseYmdIff(val: string)
    ensures var parts := Split(val, '.');
            ParseYmd(val).Ok? <==>
              |parts| == 3 && forall k :: 0 <= k < 3 ==> ParseInt32(parts[k]).Some?
    ensures var parts := Split(val, '.');
            ParseYmd(val).Ok? ==>
              ParseYmd(val).value == Encode(ParseInt32(parts[0]).value, ParseInt32(parts[1]).value, ParseInt32(parts[2]).value)
  {
    var parts := Split(val, '.');
    if ParseYmd(val).Ok? {
      OkHasThree(val);
    }
    if |parts| == 3 && forall k :: 0 <= k < 3 ==> ParseInt32(parts[k]).Some? {
      ThreeAreOk(val);
    }
  }

  /** A text `Set` accepts has three pieces that each parse, and is stored as their encoding. */
  lemma OkHasThree(val: string)
    requires ParseYmd(val).Ok?
    ensures var parts := Split(val, '.');
            |parts| == 3 && (forall k :: 0 <= k < 3 ==> ParseInt32(parts[k]).Some?) &&
            ParseYmd(val).value == Encode(ParseInt32(parts[0]).value, ParseInt32(parts[1]).value, ParseInt32(parts[2]).value)
  {
    var parts := Split(val, '.');
    var ns := ParsePieces(parts).value;
    assert |ns| == 3 && ParseYmd(val).value == Encode(ns[0], ns[1], ns[2]);
    assert ParseInt32(parts[0]) == Some(ns[0]) && ParseInt32(parts[1]) == Some(ns[1]) && ParseInt32(parts[2]) == Some(ns[2]);
  }

  /** Three pieces that each parse are accepted. */
  lemma ThreeAreOk(val: string)
    requires var parts := Split(val, '.');
             |parts| == 3 && forall k :: 0 <= k < 3 ==> ParseInt32(parts[k]).Some?
    ensures ParseYmd(val).Ok?
  {
    var parts := Split(val, '.');
    var ns := [ParseInt32(parts[0]).value, ParseInt32(parts[1]).value, ParseInt32(parts[2]).value];
    PiecesAllParse(parts, ns);
  }

  /** Any three 32-bit numbers written with `%d` and joined with dots are read back as their encoding. */
  lemma YmdRoundTrip(y: int, m: int, d: int)
    requires MinInt32 <= y <= MaxInt32 && MinInt32 <= m <= MaxInt32 && MinInt32 <= d <= MaxInt32
    ensures ParseYmd(IntToDecimal(y) + "." + IntToDecimal(m) + "." + IntToDecimal(d)) == Ok(Encode(y, m, d))
  {
    var a, b, c := IntToDecimal(y), IntToDecimal(m), IntToDecimal(d);
    var parts := [a, b, c];
    NoDotInDecimal(y);
    NoDotInDecimal(m);
    NoDotInDecimal(d);
    JoinThree(a, b, c);
    SplitJoin(parts, '.');
    Int32RoundTrip(y);
    Int32RoundTrip(m);
    Int32RoundTrip(d);
    PiecesAllParse(parts, [y, m, d]);
  }

  /** Three pieces joined by dots. */
  lemma JoinThree(a: string, b: string, c: string)
    ensures Join([a, b, c], ".") == a + "." + b + "." + c
  {
    assert Join([b, c], ".") == b + "." + c by {
      assert [b, c][1..] == [c];
    }
    assert [a, b, c][1..] == [b, c];
  }

  /** Decimal text has no dots. */
  lemma NoDotInDecimal(i: int)
    ensures '.' !in IntToDecimal(i)
  {
    var s := if i < 0 then NatToDecimal(-i) else NatToDecimal(i);
    assert forall k :: 0 <= k < |s| ==> s[k] != '.';
    if i < 0 {
      assert IntToDecimal(i) == "-" + s;
    }
  }

  /** A date with month and day below 100 is printed with exactly its three numbers. */
  lemma ShowDate(y: nat, m: nat, d: nat)
    requires m < 100 && d < 100
    ensures Show(Encode(y, m, d)) ==
              "Year " + IntToDecimal(y) + " month " + IntToDecimal(m) + " day " + IntToDecimal(d)
  {
    var v := Encode(y, m, d);
    var low := m * 100 + d;
    assert v == y * 10000 + low && 0 <= low < 10000;
    QuotRem(v, 10000, y, low);
    QuotRem(low, 100, m, d);
    assert v == (y * 100 + m) * 100 + d;
    QuotRem(v, 100, y * 100 + m, d);
  }

  /** A non-negative `a` written as `q * b + r` with `0 <= r < b` has quotient `q` and remainder `r`. */
  lemma QuotRem(a: int, b: int, q: int, r: int)
    requires b > 0 && q >= 0 && 0 <= r < b && a == q * b + r
    ensures GoQuot(a, b) == q && GoRem(a, b) == r
  {
    var p := GoQuot(a, b);
    GoQuotTruncates(a, b);
    if p < q {
      NegativeMultiple(p - q, b);
    } else if q < p {
      NegativeMultiple(q - p, b);
    }
  }

  /** The reference date of the tests, as given on their command line. */
  const ReferenceText := "2022.10.14"

  /** The reference date of the tests is read as the integer 20221014. */
  lemma ReferenceDate()
    ensures ParseYmd(ReferenceText) == Ok(20221014)
  {
    DecimalTexts();
    YmdRoundTrip(2022, 10, 14);
  }

  lemma DecimalTexts()
    ensures IntToDecimal(2022) == "2022" && IntToDecimal(10) == "10" && IntToDecimal(14) == "14"
    ensures ReferenceText == IntToDecimal(2022) + "." + IntToDecimal(10) + "." + IntToDecimal(14)
  {
    assert NatToDecimal(2022) == "2022";
    assert NatToDecimal(10) == "10";
    assert NatToDecimal(14) == "14";
  }

  /** The same date written with slashes. */
  const SlashedText := "2022/10/14"

  /** A date written with slashes is one piece that does not parse. */
  lemma SlashesRejected()
    ensures ParseYmd(SlashedText) == Err(Unparsable(SlashedText))
  {
    var s := SlashedText;
    assert s[4] == '/';
    assert !AllDigits(s);
    OnePieceFails(s);
  }

  /** Text without a dot that does not read as an integer is rejected as a whole. */
  lemma OnePieceFails(s: string)
    requires '.' !in s && ParseInt32(s).None?
    ensures ParseYmd(s) == Err(Unparsable(s))
  {
    assert Split(s, '.') == [s];
    var none: seq<string> := [];
    assert [s][..0] == none;
    assert ParsePieces([s]) == Err(Unparsable(s));
  }

  /**
   * A negative value prints, in each of its three places, the negation of
   * what its absolute value prints there, because Go's `/` and `%` truncate
   * toward zero; so no printed part is positive.
   */
  lemma ShowMirror(v: int)
    requires v < 0
    ensures GoQuot(v, 10000) == -GoQuot(-v, 10000) <= 0
    ensures GoQuot(GoRem(v, 10000), 100) == -GoQuot(GoRem(-v, 10000), 100) <= 0
    ensures GoRem(v, 100) == -GoRem(-v, 100) <= 0
  {
    QuotMirror(v, 10000);
    QuotMirror(v, 100);
    var r := GoRem(-v, 10000);
    assert GoRem(v, 10000) == -r;
    if r > 0 {
      QuotMirror(-r, 100);
    }
  }

  /** Truncating division of a negative number is the negation of that of its absolute value. */
  lemma QuotMirror(a: int, b: int)
    requires a < 0 && b > 0
    ensures GoQuot(a, b) == -GoQuot(-a, b) && GoRem(a, b) == -GoRem(-a, b)
  {
    var q, p := GoQuot(a, b), GoQuot(-a, b);
    GoQuotTruncates(a, b);
    GoQuotTruncates(-a, b);
    assert p * b <= -a < p * b + b;
    assert (-p) * b - b < a <= (-p) * b;
  }

  /** The value -20221014 prints with a minus sign before each of its three parts. */
  lemma ShowNegative()
    ensures Show(-20221014) == "Year -2022 month -10 day -14"
  {
    var v := -20221014;
    assert GoQuot(v, 10000) == -2022 && GoRem(v, 10000) == -1014;
    assert GoQuot(-1014, 100) == -10 && GoRem(v, 100) == -14;
    DecimalTexts();
    assert IntToDecimal(-2022) == "-" + IntToDecimal(2022);
    assert IntToDecimal(-10) == "-" + IntToDecimal(10);
    assert IntToDecimal(-14) == "-" + IntToDecimal(14);
  }
}
