/** Go strings as byte sequences, and the wrappers the other modules share. */
module Text {

  type byte = b: int | 0 <= b < 256

  /** A Go `string` or `[]byte`. */
  type Str = seq<byte>

  datatype Option<+T> = None | Some(value: T)

  datatype Result<+T, +E> = Ok(value: T) | Err(error: E)

  function Ascii(c: char): byte
    requires c < 128 as char
  {
    c as int
  }

  /** `sep` occurs in `s` at position `i`. */
  predicate OccursAt(s: Str, sep: Str, i: nat) {
    i + |sep| <= |s| && s[i..i + |sep|] == sep
  }

  /** The search of `strings.Cut` and `strings.SplitN(_, _, 2)`: the first position where `sep` occurs. */
  function IndexOf(s: Str, sep: Str): (r: Option<nat>)
    ensures r.Some? ==> OccursAt(s, sep, r.value) && forall j: nat :: j < r.value ==> !OccursAt(s, sep, j)
    ensures r.None? ==> forall j: nat :: !OccursAt(s, sep, j)
  {
    IndexFrom(s, sep, 0)
  }

  function IndexFrom(s: Str, sep: Str, i: nat): (r: Option<nat>)
    requires forall j: nat :: j < i ==> !OccursAt(s, sep, j)
    ensures r.Some? ==> OccursAt(s, sep, r.value) && forall j: nat :: j < r.value ==> !OccursAt(s, sep, j)
    ensures r.None? ==> forall j: nat :: !OccursAt(s, sep, j)
    decreases |s| - i
  {
    if i + |sep| > |s| then None
    else if OccursAt(s, sep, i) then Some(i)
    else IndexFrom(s, sep, i + 1)
  }

  // ---- byte-wise lexicographic order -------------------------------------

  predicate StrLess(a: Str, b: Str) {
    b != [] && (a == [] || a[0] < b[0] || (a[0] == b[0] && StrLess(a[1..], b[1..])))
  }

  lemma {:induction false} StrLessIrreflexive(a: Str)
    ensures !StrLess(a, a)
  {
    if a != [] {
      StrLessIrreflexive(a[1..]);
    }
  }

  lemma {:induction false} StrLessTransitive(a: Str, b: Str, c: Str)
    requires StrLess(a, b) && StrLess(b, c)
    ensures StrLess(a, c)
  {
    if a != [] && a[0] == b[0] && b[0] == c[0] {
      StrLessTransitive(a[1..], b[1..], c[1..]);
    }
  }

  lemma {:induction false} StrLessConnected(a: Str, b: Str)
    requires a != b
    ensures StrLess(a, b) || StrLess(b, a)
  {
    if a != [] && b != [] && a[0] == b[0] {
      assert a == [a[0]] + a[1..] && b == [b[0]] + b[1..];
      StrLessConnected(a[1..], b[1..]);
    }
  }

  /** Behind prefixes of equal length the rest decides only if the prefixes are the same. */
  lemma {:induction false} StrLessJoin(a: Str, b: Str, x: Str, y: Str)
    requires |a| == |b|
    ensures StrLess(a + x, b + y) <==> StrLess(a, b) || (a == b && StrLess(x, y))
  {
    if a == [] {
      assert a + x == x && b + y == y;
    } else {
      assert (a + x)[1..] == a[1..] + x && (b + y)[1..] == b[1..] + y;
      assert a == [a[0]] + a[1..] && b == [b[0]] + b[1..];
      StrLessJoin(a[1..], b[1..], x, y);
    }
  }

  /** The order in plain terms: at the first difference the smaller byte comes first, and a proper prefix
      comes before its extensions. */
  lemma {:induction false} StrLessIs(a: Str, b: Str)
    ensures StrLess(a, b) <==> exists i: nat :: FirstDifference(a, b, i)
  {
    if a == [] || b == [] {
      assert b != [] ==> FirstDifference(a, b, 0);
    } else if a[0] != b[0] {
      assert a[0] < b[0] ==> FirstDifference(a, b, 0);
    } else {
      StrLessIs(a[1..], b[1..]);
      if i: nat :| FirstDifference(a[1..], b[1..], i) {
        assert a == [a[0]] + a[1..] && b == [b[0]] + b[1..];
        assert FirstDifference(a, b, i + 1);
      }
      if i: nat :| FirstDifference(a, b, i) {
        assert a[1..][..i - 1] == a[..i][1..] && b[1..][..i - 1] == b[..i][1..];
        assert FirstDifference(a[1..], b[1..], i - 1);
      }
    }
  }

  ghost predicate FirstDifference(a: Str, b: Str, i: nat) {
    i <= |a| && i < |b| && a[..i] == b[..i] && (i == |a| || a[i] < b[i])
  }
}
