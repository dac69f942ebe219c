/** The request and response types both paginators share. */
module Paging {
  import opened Text
  import opened Keyset

  datatype Arguments = Arguments(first: Option<nat>, after: Option<Str>, last: Option<nat>, before: Option<Str>) {
    /** The contract gives no meaning to a request for both ends. */
    predicate OneDirection() {
      first.None? || last.None?
    }
  }

  function Forward(k: nat, after: Option<Str>): Arguments {
    Arguments(Some(k), after, None, None)
  }

  function Backward(k: nat, before: Option<Str>): Arguments {
    Arguments(None, None, Some(k), before)
  }

  /** A returned item: the row it was built from and its cursor. */
  datatype Item = Item(row: Row, cursor: Str)

  datatype PageInfo = PageInfo(
    hasPrevious: bool, hasNext: bool, startCursor: Option<Str>, endCursor: Option<Str>, totalCount: nat)

  datatype Page = Page(items: seq<Item>, info: PageInfo) {
    function Rows(): (q: seq<Row>)
      ensures |q| == |items|
    {
      seq(|items|, i requires 0 <= i < |items| => items[i].row)
    }
  }

  method ToArray<T>(q: seq<T>) returns (a: array<T>)
    ensures fresh(a) && a[..] == q
  {
    a := new T[|q|](i requires 0 <= i < |q| => q[i]);
  }

  /** `slices.Reverse`: two indices that swap their way to the middle. */
  method ReverseItems<T>(items: array<T>)
    modifies items
    ensures items[..] == Reverse(old(items[..]))
  {
    var i, j := 0, items.Length - 1;
    while i < j
      invariant 0 <= i <= j + 2 && i + j == items.Length - 1
      invariant forall l :: 0 <= l < items.Length && (l < i || j < l) ==> items[l] == old(items[items.Length - 1 - l])
      invariant forall l :: i <= l <= j ==> items[l] == old(items[l])
    {
      items[i], items[j] := items[j], items[i];
      i, j := i + 1, j - 1;
    }
  }

  // ---- counting pages ----------------------------------------------------

  function Min(a: int, b: int): int {
    if a < b then a else b
  }

  /** The number of pages a listing of `n` rows fills, counting the empty listing as one page. */
  function PageCount(n: nat, k: nat): nat
    requires k >= 1
  {
    if n == 0 then 1 else (n + k - 1) / k
  }

  lemma ProductMonotone(a: nat, b: nat, k: nat)
    requires a <= b
    ensures a * k <= b * k
  {
  }

  lemma CeilingBounds(n: nat, k: nat)
    requires k >= 1 && n >= 1
    ensures var d := (n + k - 1) / k;
            d >= 1 && (d - 1) * k < n <= d * k
  {
    var d := (n + k - 1) / k;
    assert d * k <= n + k - 1 < d * k + k;
    assert (d - 1) * k == d * k - k;
  }

  lemma PageCountIs(n: nat, k: nat, m: nat)
    requires k >= 1 && m >= 1
    requires m == 1 || (m - 1) * k < n
    requires m * k >= n
    ensures m == PageCount(n, k)
  {
    if n == 0 {
      assert m == 1 || (m - 1) * k >= 0;
    } else {
      var d := (n + k - 1) / k;
      CeilingBounds(n, k);
      if d < m {
        ProductMonotone(d, m - 1, k);
      } else if m < d {
        ProductMonotone(m, d - 1, k);
      }
    }
  }

  lemma PageCountBounds(n: nat, k: nat, i: nat)
    requires k >= 1 && i < PageCount(n, k)
    ensures PageCount(n, k) * k >= n
    ensures i == 0 || i * k < n
  {
    if n > 0 {
      CeilingBounds(n, k);
      ProductMonotone(i, PageCount(n, k) - 1, k);
    }
  }

  /** How many of `n` rows `m` pages of size `k` hold. */
  function Served(m: nat, k: nat, n: nat): (r: nat)
    ensures r <= n
  {
    if m == 0 then 0 else Min(Served(m - 1, k, n) + k, n)
  }

  lemma {:induction false} ServedIs(m: nat, k: nat, n: nat)
    ensures Served(m, k, n) == Min(m * k, n)
  {
    if m > 0 {
      ServedIs(m - 1, k, n);
      assert m * k == (m - 1) * k + k;
    }
  }

  lemma WindowOfTail<T>(q: seq<T>, a: nat, k: nat)
    requires a <= |q|
    ensures Take(q[a..], k) == q[a..Min(a + k, |q|)]
    ensures TakeLast(q[..a], k) == q[a - Min(a, k)..a]
  {
    if a + k < |q| {
      assert q[a..][..k] == q[a..a + k];
    } else {
      assert q[a..] == q[a..|q|];
    }
    if k < a {
      assert q[..a][a - k..] == q[a - k..a];
    } else {
      assert q[..a] == q[0..a];
    }
  }

  lemma JoinSlices<T>(q: seq<T>, a: nat, b: nat)
    requires a <= b <= |q|
    ensures q[..a] + q[a..b] == q[..b]
    ensures q[a..b] + q[b..] == q[a..]
  {
  }
}
