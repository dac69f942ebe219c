/** The random string loop, which takes several letters out of each 63-bit draw. */
module RandString {

  const LETTERS := "abcdefghijklmnopqrstuvwxyz" + "ABCDEFGHIJKLMNOPQRSTUVWXYZ"

  function Letter(v: nat): char
    requires v < 52
  {
    LETTERS[v]
  }

  /** Six-bit fields taken from one draw. */
  const FIELDS_PER_DRAW: nat := 10

  const TWO_TO_63: nat := 0x8000_0000_0000_0000

  /** Successive results of `src.Int63()`. */
  type Source = nat -> nat

  /** `x >> 6 * f`. */
  function Shift(x: nat, f: nat): nat {
    if f == 0 then x else Shift(x / 64, f - 1)
  }

  lemma {:induction false} ShiftNext(x: nat, f: nat)
    ensures Shift(x, f + 1) == Shift(x, f) / 64
  {
    if f > 0 {
      ShiftNext(x / 64, f - 1);
    }
  }

  /** The six-bit fields of all draws, low to high within a draw. */
  function Field(src: Source, j: nat): nat {
    Shift(src(j / FIELDS_PER_DRAW), j % FIELDS_PER_DRAW) % 64
  }

  /** The letters among the first `j` fields: the fields below 52, in order. */
  function LettersIn(src: Source, j: nat): (s: string)
    ensures |s| <= j
  {
    if j == 0 then ""
    else
      var v := Field(src, j - 1);
      LettersIn(src, j - 1) + if v < 52 then [Letter(v)] else ""
  }

  lemma {:induction false} LettersGrow(src: Source, j: nat, k: nat)
    requires j <= k
    ensures LettersIn(src, j) <= LettersIn(src, k)
    decreases k
  {
    hide Field;
    if j < k {
      LettersGrow(src, j, k - 1);
    }
  }

  function Backwards(s: string): (r: string)
    ensures |r| == |s| && forall i :: 0 <= i < |s| ==> r[i] == s[|s| - 1 - i]
  {
    if s == "" then "" else [s[|s| - 1]] + Backwards(s[..|s| - 1])
  }

  /** The cache holds what is left of draw `d` after `f` of its fields. */
  ghost predicate Holds(src: Source, d: nat, f: nat, cache: nat) {
    cache == Shift(src(d), f)
  }

  lemma CacheStep(src: Source, d: nat, f: nat, cache: nat)
    requires f < FIELDS_PER_DRAW && Holds(src, d, f, cache)
    ensures cache % 64 == Field(src, 10 * d + f)
    ensures Holds(src, d, f + 1, cache / 64)
  {
    assert (10 * d + f) / 10 == d && (10 * d + f) % 10 == f;
    ShiftNext(src(d), f);
  }

  lemma LettersStep(src: Source, j: nat)
    ensures var v := Field(src, j);
            LettersIn(src, j + 1) == LettersIn(src, j) + if v < 52 then [Letter(v)] else ""
  {
  }

  /** `String`.  The loop ends once the source has produced n letters, which `enough` fields do.  It
      then returns the first n letters in reverse and has drawn only as often as their fields need: the
      last field used is the n-th letter, each draw but the last was used for exactly ten fields, and the
      last for at most ten. */
  method String(n: nat, src: Source, ghost enough: nat) returns (s: string, draws: nat, ghost used: nat)
    requires |LettersIn(src, enough)| >= n
    ensures |s| == n
    ensures s == Backwards(LettersIn(src, enough)[..n])
    ensures LettersIn(src, used) == LettersIn(src, enough)[..n]
    ensures draws >= 1 && 10 * (draws - 1) <= used <= 10 * draws
    ensures draws > 1 ==> used > 10 * (draws - 1)
    ensures if n == 0 then used == 0 else used > 0 && |LettersIn(src, used - 1)| == n - 1
  {
    hide Shift, Field, LettersIn, Holds, Letter;
    assert |LettersIn(src, 0)| == 0;
    assert Holds(src, 0, 0, src(0)) by {
      HoldsNew(src, 0);
    }
    var b := new char[n](_ => 'a');
    var i: int := n - 1;
    var cache, remain: nat := src(0), 10;
    draws, used := 1, 0;
    while i >= 0
      invariant -1 <= i < n
      invariant 0 <= remain <= 10 && draws >= 1
      invariant used == 10 * draws - remain
      invariant remain < 10 || draws == 1
      invariant Holds(src, draws - 1, 10 - remain, cache)
      invariant |LettersIn(src, used)| == n - 1 - i
      invariant n == 0 ==> used == 0
      invariant n > 0 && i < 0 ==> used > 0 && |LettersIn(src, used - 1)| == n - 1
      invariant forall k :: i < k < n ==> b[k] == LettersIn(src, used)[n - 1 - k]
      decreases enough - used
    {
      if used >= enough {
        LettersGrow(src, enough, used);
        assert false;
      }
      if remain == 0 {
        cache, remain := src(draws), 10;
        draws := draws + 1;
        HoldsNew(src, draws - 1);
      }
      var idx := cache % 64;
      CacheStep(src, draws - 1, 10 - remain, cache);
      LettersStep(src, used);
      if idx < 52 {
        b[i] := Letter(idx);
        i := i - 1;
      }
      cache := cache / 64;
      remain := remain - 1;
      used := used + 1;
    }
    if used <= enough {
      LettersGrow(src, used, enough);
    } else {
      LettersGrow(src, enough, used);
    }
    s := b[..];
  }

  lemma HoldsNew(src: Source, d: nat)
    ensures Holds(src, d, 0, src(d))
  {
  }

  // ---- what the letters are ----------------------------------------------

  /** The 52 letters: lower case, then upper case, each in order. */
  lemma LettersAre(i: nat)
    requires i < 52
    ensures |LETTERS| == 52 && Letter(i) == LETTERS[i]
    ensures LETTERS[i] as int == if i < 26 then 'a' as int + i else 'A' as int + (i - 26)
  {
  }

  /** The positions are exactly those of the fields below 52 among the first `j`, in order. */
  ghost predicate ChosenFields(src: Source, j: nat, at: seq<nat>) {
    && (forall p, q :: 0 <= p < q < |at| ==> at[p] < at[q])
    && (forall p :: 0 <= p < |at| ==> at[p] < j && Field(src, at[p]) < 52)
    && (forall i :: 0 <= i < j && Field(src, i) < 52 ==> i in at)
  }

  lemma ChosenNext(src: Source, j: nat, at: seq<nat>)
    requires ChosenFields(src, j, at)
    ensures ChosenFields(src, j + 1, if Field(src, j) < 52 then at + [j] else at)
  {
    hide Field;
    assert forall i :: i in at ==> i in at + [j];
  }

  /** The string has the letters of these fields, one for one. */
  ghost predicate Spells(src: Source, at: seq<nat>, s: string) {
    && |s| == |at|
    && forall p :: 0 <= p < |at| ==> Field(src, at[p]) < 52 && s[p] == Letter(Field(src, at[p]))
  }

  lemma SpellsNext(src: Source, at: seq<nat>, s: string, j: nat)
    requires Spells(src, at, s) && Field(src, j) < 52
    ensures Spells(src, at + [j], s + [Letter(Field(src, j))])
  {
    hide Field, Letter;
  }

  ghost predicate Chosen(src: Source, j: nat, at: seq<nat>, s: string) {
    ChosenFields(src, j, at) && Spells(src, at, s)
  }

  lemma NothingChosen(src: Source)
    ensures Chosen(src, 0, [], LettersIn(src, 0))
  {
    hide Field, Letter;
  }

  lemma OneMoreChosen(src: Source, j: nat, at: seq<nat>) returns (more: seq<nat>)
    requires Chosen(src, j, at, LettersIn(src, j))
    ensures Chosen(src, j + 1, more, LettersIn(src, j + 1))
  {
    hide Field, Letter, LettersIn, ChosenFields, Spells;
    ChosenNext(src, j, at);
    LettersStep(src, j);
    if Field(src, j) < 52 {
      SpellsNext(src, at, LettersIn(src, j), j);
      more := at + [j];
    } else {
      assert LettersIn(src, j) + "" == LettersIn(src, j);
      more := at;
    }
  }

  /** The letters among the first `j` fields are exactly the fields below 52, in order. */
  lemma {:induction false} LettersChosen(src: Source, j: nat) returns (at: seq<nat>)
    ensures ChosenFields(src, j, at) && Spells(src, at, LettersIn(src, j))
  {
    hide Field, Letter, LettersIn, ChosenFields, Spells;
    if j == 0 {
      NothingChosen(src);
      at := [];
    } else {
      var before := LettersChosen(src, j - 1);
      at := OneMoreChosen(src, j - 1, before);
    }
  }

  // ---- the ten fields of a draw are real bits ----------------------------

  /** The draw with the given fields. */
  function Compose(fields: seq<nat>): nat {
    if fields == [] then 0 else fields[0] + 64 * Compose(fields[1..])
  }

  function Pow64(n: nat): nat {
    if n == 0 then 1 else 64 * Pow64(n - 1)
  }

  lemma {:induction false} ComposeBound(fields: seq<nat>)
    requires forall f :: 0 <= f < |fields| ==> fields[f] < 64
    ensures Compose(fields) < Pow64(|fields|)
  {
    if fields != [] {
      ComposeBound(fields[1..]);
    }
  }

  lemma {:induction false} ComposeField(fields: seq<nat>, f: nat)
    requires f < |fields| && forall i :: 0 <= i < |fields| ==> fields[i] < 64
    ensures Shift(Compose(fields), f) % 64 == fields[f]
  {
    assert Compose(fields) % 64 == fields[0] && Compose(fields) / 64 == Compose(fields[1..]);
    if f > 0 {
      ComposeField(fields[1..], f - 1);
    }
  }

  /** The fields of a number, and what is left above them, make up the number. */
  lemma {:induction false} FieldsMakeNumber(x: nat, n: nat)
    ensures x == Compose(seq(n, f requires 0 <= f => Shift(x, f) % 64)) + Pow64(n) * Shift(x, n)
  {
    if n > 0 {
      FieldsMakeNumber(x / 64, n - 1);
      var fields := seq(n, f requires 0 <= f => Shift(x, f) % 64);
      assert fields[1..] == seq(n - 1, f requires 0 <= f => Shift(x / 64, f) % 64);
      SplitProduct(Pow64(n - 1), Shift(x, n));
    }
  }

  lemma SplitProduct(p: nat, y: nat)
    ensures 64 * (p * y) == 64 * p * y
  {
  }

  /** Draw `d` is its ten fields, lowest first, and what remains above them. */
  lemma DrawIsItsFields(src: Source, d: nat, fields: seq<nat>)
    requires |fields| == 10 && forall f :: 0 <= f < 10 ==> fields[f] == Field(src, 10 * d + f)
    ensures src(d) == Compose(fields) + Pow64(10) * Shift(src(d), 10)
    ensures src(d) < TWO_TO_63 ==> Shift(src(d), 10) < 8
  {
    FieldsMakeNumber(src(d), 10);
    forall f | 0 <= f < 10
      ensures fields[f] == Shift(src(d), f) % 64
    {
      assert (10 * d + f) / 10 == d && (10 * d + f) % 10 == f;
    }
    hide Shift, Field;
    assert fields == seq(10, f requires 0 <= f => Shift(src(d), f) % 64);
    if src(d) < TWO_TO_63 {
      assert Pow64(5) == 1073741824 && Pow64(10) == 1152921504606846976;
      ShiftBound(src(d), 10, 8);
    }
  }

  lemma {:induction false} ShiftBound(x: nat, f: nat, n: nat)
    requires x < n * Pow64(f)
    ensures Shift(x, f) < n
  {
    if f > 0 {
      assert n * Pow64(f) == 64 * (n * Pow64(f - 1));
      ShiftBound(x / 64, f - 1, n);
    }
  }

  /** Any ten field values occur together in some 63-bit draw, so each field is made of drawn bits
      only; an eleventh field of the same draw could never reach 8. */
  lemma TenFieldsAreFree(fields: seq<nat>, x: nat)
    requires |fields| == FIELDS_PER_DRAW && forall i :: 0 <= i < |fields| ==> fields[i] < 64
    requires x < TWO_TO_63
    ensures Compose(fields) < TWO_TO_63
    ensures forall f :: 0 <= f < FIELDS_PER_DRAW ==> Shift(Compose(fields), f) % 64 == fields[f]
    ensures Shift(x, FIELDS_PER_DRAW) < 8
  {
    assert Pow64(5) == 1073741824;
    assert Pow64(10) == 1152921504606846976;
    ComposeBound(fields);
    forall f | 0 <= f < FIELDS_PER_DRAW
      ensures Shift(Compose(fields), f) % 64 == fields[f]
    {
      ComposeField(fields, f);
    }
    ShiftBound(x, 10, 8);
  }
}
