/**
 * The parts of Go's `strings` and `sort` packages and of its `len` builtin that
 * the option parser relies on, stated over Dafny strings (sequences of Unicode
 * scalar values).
 */
module GoStrings {

  /** Number of bytes in the UTF-8 encoding of `c`. */
  function Utf8Width(c: char): (w: nat)
    ensures 1 <= w <= 4
    ensures w == 1 <==> c as int < 0x80
  {
    if c as int < 0x80 then 1
    else if c as int < 0x800 then 2
    else if c as int < 0x10000 then 3
    else 4
  }

  /** Go's `len(s)`: the length of `s` in bytes, not in characters. */
  function ByteLen(s: string): (n: nat)
    ensures n >= |s|
    ensures s == [] <==> n == 0
  {
    if s == [] then 0 else Utf8Width(s[0]) + ByteLen(s[1..])
  }

  /** A string is one byte long exactly when it is a single ASCII character. */
  lemma {:induction false} ByteLenIsOne(s: string)
    ensures ByteLen(s) == 1 <==> |s| == 1 && s[0] as int < 0x80
  {
    if s != [] {
      assert ByteLen(s) == Utf8Width(s[0]) + ByteLen(s[1..]);
      if |s| > 1 {
        assert ByteLen(s[1..]) >= 1;
      } else {
        assert s[1..] == [];
      }
    }
  }

  /** Result of `strings.Cut(s, sep)`. */
  datatype CutResult = CutResult(before: string, after: string, found: bool)

  /** `strings.Cut` for a one-character separator: split at its first occurrence. */
  function Cut(s: string, sep: char): (r: CutResult)
    ensures r.found <==> sep in s
    ensures r.found ==> s == r.before + [sep] + r.after && sep !in r.before
    ensures !r.found ==> r.before == s && r.after == ""
  {
    if s == [] then CutResult("", "", false)
    else if s[0] == sep then CutResult("", s[1..], true)
    else
      var r := Cut(s[1..], sep);
      CutResult([s[0]] + r.before, r.after, r.found)
  }

  /** Cutting `a + [sep] + b` where `a` has no separator gives back `a` and `b`. */
  lemma {:induction false} CutAt(a: string, sep: char, b: string)
    requires sep !in a
    ensures Cut(a + [sep] + b, sep) == CutResult(a, b, true)
  {
    if a != [] {
      assert (a + [sep] + b)[1..] == a[1..] + [sep] + b;
      CutAt(a[1..], sep, b);
    } else {
      assert a + [sep] + b == [sep] + b;
    }
  }

  /** Concatenation regroups freely. */
  lemma AppendAssoc(a: string, b: string, c: string)
    ensures a + (b + c) == a + b + c
  {
  }

  /** `strings.Join(xs, sep)`. */
  function Join(xs: seq<string>, sep: string): string
  {
    if xs == [] then ""
    else if |xs| == 1 then xs[0]
    else xs[0] + sep + Join(xs[1..], sep)
  }

  /** `strings.Split(s, sep)` for a one-character separator: every occurrence splits. */
  function Split(s: string, sep: char): (r: seq<string>)
    ensures |r| >= 1
    ensures forall k :: 0 <= k < |r| ==> sep !in r[k]
    ensures Join(r, [sep]) == s
    decreases |s|
  {
    var c := Cut(s, sep);
    if !c.found then [s]
    else
      var rest := Split(c.after, sep);
      assert Join([c.before] + rest, [sep]) == c.before + [sep] + Join(rest, [sep]) by {
        assert ([c.before] + rest)[1..] == rest;
      }
      [c.before] + rest
  }

  /** Splitting pieces that avoid the separator, once joined by it, gives them back. */
  lemma {:induction false} SplitJoin(xs: seq<string>, sep: char)
    requires |xs| >= 1
    requires forall k :: 0 <= k < |xs| ==> sep !in xs[k]
    ensures Split(Join(xs, [sep]), sep) == xs
  {
    if |xs| == 1 {
      assert Join(xs, [sep]) == xs[0];
    } else {
      var rest := Join(xs[1..], [sep]);
      var s := xs[0] + [sep] + rest;
      assert Join(xs, [sep]) == s;
      CutAt(xs[0], sep, rest);
      assert Split(s, sep) == [xs[0]] + Split(rest, sep);
      SplitJoin(xs[1..], sep);
      assert [xs[0]] + xs[1..] == xs;
    }
  }

  /**
   * Go's `<` on strings: byte-wise lexicographic order. UTF-8 encoding preserves
   * the order of code points, so comparing characters gives the same answer.
   */
  predicate Less(a: string, b: string)
  {
    if a == [] then b != []
    else if b == [] then false
    else if a[0] != b[0] then a[0] < b[0]
    else Less(a[1..], b[1..])
  }

  lemma {:induction false} LessIrreflexive(a: string)
    ensures !Less(a, a)
  {
    if a != [] {
      LessIrreflexive(a[1..]);
    }
  }

  lemma {:induction false} LessTransitive(a: string, b: string, c: string)
    requires Less(a, b) && Less(b, c)
    ensures Less(a, c)
  {
    if a != [] && b != [] && c != [] && a[0] == b[0] && b[0] == c[0] {
      LessTransitive(a[1..], b[1..], c[1..]);
    }
  }

  lemma {:induction false} LessTotal(a: string, b: string)
    requires a != b
    ensures Less(a, b) || Less(b, a)
  {
    if a != [] && b != [] && a[0] == b[0] {
      assert a == [a[0]] + a[1..] && b == [b[0]] + b[1..];
      LessTotal(a[1..], b[1..]);
    }
  }

  lemma {:induction false} LessAsymmetric(a: string, b: string)
    requires Less(a, b)
    ensures !Less(b, a)
  {
    if a != [] && b != [] && a[0] == b[0] {
      LessAsymmetric(a[1..], b[1..]);
    }
  }

  /** The set of the elements of a sequence. */
  function Elems(xs: seq<string>): set<string>
  {
    set k | k in xs
  }

  /** Every element is strictly below every later one: sorted, without duplicates. */
  predicate StrictlySorted(xs: seq<string>)
  {
    forall i, j :: 0 <= i < j < |xs| ==> Less(xs[i], xs[j])
  }

  /** In a strictly sorted sequence the first element is below all the others. */
  lemma FirstIsLeast(xs: seq<string>, k: string)
    requires StrictlySorted(xs) && k in xs
    ensures k == xs[0] || Less(xs[0], k)
  {
    var j :| 0 <= j < |xs| && xs[j] == k;
    if j > 0 {
      assert Less(xs[0], xs[j]);
    }
  }

  /** Prepending an element below everything keeps a sequence strictly sorted. */
  lemma PrependSorted(x: string, xs: seq<string>)
    requires StrictlySorted(xs)
    requires forall k :: k in xs ==> Less(x, k)
    ensures StrictlySorted([x] + xs)
  {
    forall i, j | 0 <= i < j < |[x] + xs| ensures Less(([x] + xs)[i], ([x] + xs)[j]) {
      if i == 0 {
        assert ([x] + xs)[j] == xs[j - 1];
      } else {
        assert ([x] + xs)[i] == xs[i - 1] && ([x] + xs)[j] == xs[j - 1];
      }
    }
  }

  /** Puts `x` into its place in a strictly sorted sequence that does not hold it. */
  function Insert(x: string, xs: seq<string>): (r: seq<string>)
    requires StrictlySorted(xs) && x !in xs
    ensures StrictlySorted(r)
    ensures Elems(r) == Elems(xs) + {x}
    ensures |r| == |xs| + 1
  {
    if xs == [] then [x]
    else if Less(x, xs[0]) then
      assert forall k :: k in xs ==> Less(x, k) by {
        forall k | k in xs ensures Less(x, k) {
          FirstIsLeast(xs, k);
          if k != xs[0] {
            LessTransitive(x, xs[0], k);
          }
        }
      }
      PrependSorted(x, xs);
      [x] + xs
    else
      LessTotal(x, xs[0]);
      var rest := Insert(x, xs[1..]);
      assert forall k :: k in rest ==> Less(xs[0], k) by {
        forall k | k in rest ensures Less(xs[0], k) {
          if k != x {
            assert k in Elems(xs[1..]);
            var j :| 0 <= j < |xs[1..]| && xs[1..][j] == k;
            assert Less(xs[0], xs[j + 1]);
          }
        }
      }
      PrependSorted(xs[0], rest);
      assert Elems(xs) == {xs[0]} + Elems(xs[1..]) by {
        assert xs == [xs[0]] + xs[1..];
      }
      [xs[0]] + rest
  }

  /**
   * The elements of `s` in increasing order: what `sort.Strings` yields for the
   * keys of a map, whatever order they were collected in.
   */
  ghost function SortSet(s: set<string>): (r: seq<string>)
    ensures StrictlySorted(r)
    ensures Elems(r) == s
    ensures |r| == |s|
  {
    if s == {} then []
    else
      var x :| x in s;
      var rest := SortSet(s - {x});
      Insert(x, rest)
  }

  lemma LessAntisymmetric(a: string, b: string)
    ensures !(Less(a, b) && Less(b, a))
  {
    if Less(a, b) {
      LessAsymmetric(a, b);
    }
  }

  /** Two strictly sorted sequences with the same elements are the same sequence. */
  lemma {:induction false} SortedUnique(xs: seq<string>, ys: seq<string>)
    requires StrictlySorted(xs) && StrictlySorted(ys)
    requires Elems(xs) == Elems(ys)
    ensures xs == ys
  {
    assert xs != [] ==> xs[0] in Elems(xs);
    assert ys != [] ==> ys[0] in Elems(ys);
    if xs != [] && ys != [] {
      FirstIsLeast(ys, xs[0]);
      FirstIsLeast(xs, ys[0]);
      LessAntisymmetric(xs[0], ys[0]);
      assert xs[0] == ys[0];
      assert xs[0] !in xs[1..] by {
        forall j | 1 <= j < |xs| ensures xs[j] != xs[0] {
          assert Less(xs[0], xs[j]);
          LessIrreflexive(xs[0]);
        }
      }
      assert ys[0] !in ys[1..] by {
        forall j | 1 <= j < |ys| ensures ys[j] != ys[0] {
          assert Less(ys[0], ys[j]);
          LessIrreflexive(ys[0]);
        }
      }
      assert Elems(xs) == {xs[0]} + Elems(xs[1..]) by {
        assert xs == [xs[0]] + xs[1..];
      }
      assert Elems(ys) == {ys[0]} + Elems(ys[1..]) by {
        assert ys == [ys[0]] + ys[1..];
      }
      assert Elems(xs[1..]) == Elems(ys[1..]);
      SortedUnique(xs[1..], ys[1..]);
      assert xs == [xs[0]] + xs[1..] && ys == [ys[0]] + ys[1..];
    }
  }
}
