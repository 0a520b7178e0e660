/** `InternalCluster`: one cluster's name, the rows of the (sorted) input it holds, one
    display colour per member and one Silhouette coefficient per member. The three member
    sequences are parallel: position `p` describes row `dataIndices[p]`. */
module InternalCluster {
  import opened Wrappers
  import opened Sequences
  import opened Numbers

  /** An opaque colour as its 24-bit RGB value. */
  type Rgb = c: int | 0 <= c < 0x100_0000

  datatype Cluster = Cluster(
    name: Option<string>,
    intName: int,
    colors: seq<Rgb>,
    coefficients: seq<real>,
    dataIndices: seq<int>)

  /** The constructor taking a string name, before coefficients are known: one 0.0 per row. */
  function Named(name: string, colors: seq<Rgb>, dataIndices: seq<int>): (c: Cluster)
    ensures c.name == Some(name) && c.colors == colors && c.dataIndices == dataIndices
    ensures |c.coefficients| == |dataIndices|
    ensures forall p :: 0 <= p < |c.coefficients| ==> c.coefficients[p] == 0.0
  {
    Cluster(Some(name), 0, colors, seq(|dataIndices|, _ => 0.0), dataIndices)
  }

  /** The constructor taking a string name and computed coefficients. */
  function NamedWithCoefficients(name: string, colors: seq<Rgb>, dataIndices: seq<int>, coefficients: seq<real>): (c: Cluster)
    ensures GetName(c) == name
    ensures c.colors == colors && c.dataIndices == dataIndices && c.coefficients == coefficients
  {
    Cluster(Some(name), 0, colors, coefficients, dataIndices)
  }

  /** The constructor taking a cluster number, before coefficients are known. */
  function Numbered(intName: int, colors: seq<Rgb>, dataIndices: seq<int>): (c: Cluster)
    ensures c.name == None && c.intName == intName && c.colors == colors && c.dataIndices == dataIndices
    ensures |c.coefficients| == |dataIndices|
    ensures forall p :: 0 <= p < |c.coefficients| ==> c.coefficients[p] == 0.0
  {
    Cluster(None, intName, colors, seq(|dataIndices|, _ => 0.0), dataIndices)
  }

  /** The constructor taking a cluster number and computed coefficients. */
  function NumberedWithCoefficients(intName: int, colors: seq<Rgb>, dataIndices: seq<int>, coefficients: seq<real>): (c: Cluster)
    ensures GetName(c) == IntToString(intName)
    ensures c.colors == colors && c.dataIndices == dataIndices && c.coefficients == coefficients
  {
    Cluster(None, intName, colors, coefficients, dataIndices)
  }

  /** `getName`: the string name when one was given, the decimal cluster number otherwise. */
  function GetName(c: Cluster): (s: string)
    ensures c.name.Some? ==> s == c.name.value
    ensures c.name.None? ==> s == IntToString(c.intName)
  {
    if c.name.None? then IntToString(c.intName) else c.name.value
  }

  /** Numbered clusters with different numbers never share a name. */
  lemma NumberedNamesDistinct(c1: Cluster, c2: Cluster)
    requires c1.name.None? && c2.name.None? && c1.intName != c2.intName
    ensures GetName(c1) != GetName(c2)
  {
    if GetName(c1) == GetName(c2) {
      IntToStringInjective(c1.intName, c2.intName);
    }
  }

  /** The three member sequences line up. */
  predicate Parallel(c: Cluster)
  {
    |c.colors| == |c.coefficients| == |c.dataIndices|
  }

  // ---------------------------------------------------------------------------
  // getColor

  function Count(s: seq<Rgb>, x: Rgb): (n: nat)
    ensures n <= |s|
    ensures n > 0 <==> x in s
  {
    if |s| == 0 then 0 else Count(s[..|s| - 1], x) + (if s[|s| - 1] == x then 1 else 0)
  }

  /** `x` is the most frequent colour of `s`, and among equally frequent colours the one
      that occurs first. */
  ghost predicate IsEarliestMode(s: seq<Rgb>, x: Rgb)
  {
    && x in s
    && (forall y :: y in s ==> Count(s, y) <= Count(s, x))
    && (forall y :: y in s && Count(s, y) == Count(s, x) ==> FirstIndex(s, x) <= FirstIndex(s, y))
  }

  /** Position of the first member whose colour has the highest count among `s[..n]`'s positions. */
  function FirstMostFrequent(s: seq<Rgb>, n: nat): (p: nat)
    requires 0 < n <= |s|
    ensures p < n
    ensures forall q :: 0 <= q < n ==> Count(s, s[q]) <= Count(s, s[p])
    ensures forall q :: 0 <= q < p ==> Count(s, s[q]) < Count(s, s[p])
  {
    if n == 1 then 0
    else
      var p := FirstMostFrequent(s, n - 1);
      if Count(s, s[n - 1]) > Count(s, s[p]) then n - 1 else p
  }

  /** `getColor`: the most frequent member colour, ties going to the colour seen first.
      An empty colour array has no answer (the source fails with an index error). */
  function GetColor(c: Cluster): (r: Option<Rgb>)
    ensures r.None? <==> |c.colors| == 0
    ensures r.Some? ==> IsEarliestMode(c.colors, r.value)
  {
    if |c.colors| == 0 then None
    else
      var s := c.colors;
      var p := FirstMostFrequent(s, |s|);
      EarliestModeAt(s, p);
      Some(s[p])
  }

  lemma EarliestModeAt(s: seq<Rgb>, p: nat)
    requires 0 < |s| && p == FirstMostFrequent(s, |s|)
    ensures IsEarliestMode(s, s[p])
  {
    var x := s[p];
    forall y | y in s
      ensures Count(s, y) <= Count(s, x)
    {
      var q := FirstIndex(s, y);
    }
    var f := FirstIndex(s, x);
  }

  /** Only one colour is the earliest mode, so `GetColor` is fully determined by it. */
  lemma EarliestModeUnique(s: seq<Rgb>, x: Rgb, y: Rgb)
    requires IsEarliestMode(s, x) && IsEarliestMode(s, y)
    ensures x == y
  {
    assert Count(s, x) == Count(s, y);
    assert FirstIndex(s, x) == FirstIndex(s, y);
  }

  // ---------------------------------------------------------------------------
  // setCoefficient

  /** Position of the first member that is row `i`, if any. */
  function PositionOf(indices: seq<int>, i: int): (p: Option<nat>)
    ensures p.Some? ==> p.value < |indices| && indices[p.value] == i
    ensures p.Some? ==> forall q :: 0 <= q < p.value ==> indices[q] != i
    ensures p.None? <==> i !in indices
  {
    if |indices| == 0 then None
    else if indices[0] == i then Some(0)
    else match PositionOf(indices[1..], i)
      case None => None
      case Some(q) => Some(q + 1)
  }

  /** `setCoefficient(i, v)`: the coefficient of the first member that is row `i` becomes `v`.
      A row that is not a member leaves the cluster unchanged; a member position beyond the
      coefficient array is the source's index error. */
  function WriteCoefficient(c: Cluster, i: int, v: real): (r: Result<Cluster, nat>)
    ensures PositionOf(c.dataIndices, i).None? ==> r == Ok(c)
    ensures r.Ok? ==> r.value.dataIndices == c.dataIndices && r.value.colors == c.colors
                      && r.value.name == c.name && r.value.intName == c.intName
                      && |r.value.coefficients| == |c.coefficients|
    ensures r.Ok? && PositionOf(c.dataIndices, i).Some? ==>
              var p := PositionOf(c.dataIndices, i).value;
              p < |c.coefficients| && r.value.coefficients[p] == v
              && forall q :: 0 <= q < |c.coefficients| && q != p ==> r.value.coefficients[q] == c.coefficients[q]
    ensures r.Err? <==> PositionOf(c.dataIndices, i).Some? && PositionOf(c.dataIndices, i).value >= |c.coefficients|
  {
    match PositionOf(c.dataIndices, i)
    case None => Ok(c)
    case Some(p) =>
      if p < |c.coefficients| then Ok(c.(coefficients := c.coefficients[p := v])) else Err(p)
  }

  /** `setCoefficient` on a cluster whose arrays line up: always succeeds. */
  function Store(c: Cluster, i: int, v: real): (r: Cluster)
    requires Parallel(c)
    ensures Parallel(r) && r.dataIndices == c.dataIndices
  {
    WriteCoefficient(c, i, v).value
  }

  /** Storing row `i` in a cluster whose members are distinct overwrites member `p` exactly
      when it is row `i`. */
  lemma StoreWritesAt(c: Cluster, i: int, v: real, p: nat)
    requires Parallel(c) && p < |c.coefficients|
    requires forall p, q :: 0 <= p < q < |c.dataIndices| ==> c.dataIndices[p] < c.dataIndices[q]
    ensures Store(c, i, v).coefficients[p] == if c.dataIndices[p] == i then v else c.coefficients[p]
  {
    var pos := PositionOf(c.dataIndices, i);
    if pos.Some? && p != pos.value {
      if p < pos.value {
        assert c.dataIndices[p] < c.dataIndices[pos.value];
      } else {
        assert c.dataIndices[pos.value] < c.dataIndices[p];
      }
    }
  }

  /** Storing row `i` in a cluster whose members are distinct overwrites exactly the
      member that is row `i`. */
  lemma StoreWritesMember(c: Cluster, i: int, v: real)
    requires Parallel(c)
    requires forall p, q :: 0 <= p < q < |c.dataIndices| ==> c.dataIndices[p] < c.dataIndices[q]
    ensures forall p :: 0 <= p < |c.coefficients| ==>
              Store(c, i, v).coefficients[p] == if c.dataIndices[p] == i then v else c.coefficients[p]
  {
    forall p | 0 <= p < |c.coefficients|
      ensures Store(c, i, v).coefficients[p] == if c.dataIndices[p] == i then v else c.coefficients[p]
    {
      StoreWritesAt(c, i, v, p);
    }
  }

  /** The source's loop for `setCoefficient`: scan the members from the front and write at
      the first one that is row `i`. */
  method SetCoefficient(c: Cluster, i: int, v: real) returns (r: Result<Cluster, nat>)
    ensures r == WriteCoefficient(c, i, v)
  {
    var rowIndex := 0;
    while rowIndex < |c.dataIndices|
      invariant 0 <= rowIndex <= |c.dataIndices|
      invariant forall q :: 0 <= q < rowIndex ==> c.dataIndices[q] != i
    {
      if c.dataIndices[rowIndex] == i {
        PositionOfFirst(c.dataIndices, i, rowIndex);
        if rowIndex < |c.coefficients| {
          return Ok(c.(coefficients := c.coefficients[rowIndex := v]));
        } else {
          return Err(rowIndex);
        }
      }
      rowIndex := rowIndex + 1;
    }
    return Ok(c);
  }

  lemma PositionOfFirst(indices: seq<int>, i: int, p: nat)
    requires p < |indices| && indices[p] == i
    requires forall q :: 0 <= q < p ==> indices[q] != i
    ensures PositionOf(indices, i) == Some(p)
  {
    var r := PositionOf(indices, i);
    assert r.Some?;
  }

  // ---------------------------------------------------------------------------
  // sort

  /** One member: its row, its colour and its coefficient. */
  datatype Member = Member(index: int, color: Rgb, coefficient: real)

  function Members(c: Cluster): (ms: seq<Member>)
    requires Parallel(c)
    ensures |ms| == |c.dataIndices|
    ensures forall p :: 0 <= p < |ms| ==>
              ms[p] == Member(c.dataIndices[p], c.colors[p], c.coefficients[p])
  {
    seq(|c.dataIndices|, p requires 0 <= p < |c.dataIndices| =>
      Member(c.dataIndices[p], c.colors[p], c.coefficients[p]))
  }

  function FromMembers(c: Cluster, ms: seq<Member>): (r: Cluster)
    ensures Parallel(r) && Members(r) == ms
    ensures r.name == c.name && r.intName == c.intName
  {
    Cluster(c.name, c.intName,
            seq(|ms|, p requires 0 <= p < |ms| => ms[p].color),
            seq(|ms|, p requires 0 <= p < |ms| => ms[p].coefficient),
            seq(|ms|, p requires 0 <= p < |ms| => ms[p].index))
  }

  predicate Descending(s: seq<real>)
  {
    forall p, q :: 0 <= p < q < |s| ==> s[p] >= s[q]
  }

  predicate DescendingPrefix(a: seq<Member>, n: nat)
    requires n <= |a|
  {
    forall p, q :: 0 <= p < q < n ==> a[p].coefficient >= a[q].coefficient
  }

  function Swap(a: seq<Member>, i: nat, j: nat): (b: seq<Member>)
    requires i < |a| && j < |a|
    ensures |b| == |a|
    ensures b[i] == a[j] && b[j] == a[i]
    ensures forall k :: 0 <= k < |a| && k != i && k != j ==> b[k] == a[k]
    ensures multiset(b) == multiset(a)
  {
    a[i := a[j]][j := a[i]]
  }

  /** The source's exchange sort: for every `i`, scan every `j` and swap whenever member `j`
      has a smaller coefficient than member `i`. The result is in descending order. */
  method ExchangeSort(a0: seq<Member>) returns (a: seq<Member>)
    ensures multiset(a) == multiset(a0)
    ensures |a| == |a0|
    ensures forall p, q :: 0 <= p < q < |a| ==> a[p].coefficient >= a[q].coefficient
  {
    a := a0;
    var n := |a|;
    var i := 0;
    while i < n
      invariant 0 <= i <= n == |a|
      invariant multiset(a) == multiset(a0)
      invariant DescendingPrefix(a, i)
      invariant i > 0 ==> forall k :: 0 <= k < n ==> a[i - 1].coefficient <= a[k].coefficient
    {
      var j := 0;
      while j < n
        invariant 0 <= j <= n == |a|
        invariant multiset(a) == multiset(a0)
        invariant j <= i ==> DescendingPrefix(a, i)
        invariant j <= i ==> forall k :: 0 <= k < j ==> a[k].coefficient >= a[i].coefficient
        invariant 0 < i && j < i ==> forall k :: 0 <= k < n ==> a[i - 1].coefficient <= a[k].coefficient
        invariant j > i ==> DescendingPrefix(a, i + 1)
        invariant j > i ==> forall k :: 0 <= k < j ==> a[i].coefficient <= a[k].coefficient
        invariant 0 < i <= j ==> forall k :: 0 <= k < n ==> a[i].coefficient <= a[k].coefficient
      {
        if a[j].coefficient < a[i].coefficient {
          a := Swap(a, i, j);
        }
        j := j + 1;
      }
      i := i + 1;
    }
  }

  /** `sort`: the members reordered by descending coefficient, moving each member's row,
      colour and coefficient together. */
  method Sort(c: Cluster) returns (r: Cluster)
    requires Parallel(c)
    ensures Parallel(r)
    ensures r.name == c.name && r.intName == c.intName
    ensures multiset(Members(r)) == multiset(Members(c))
    ensures Descending(r.coefficients)
  {
    var sorted := ExchangeSort(Members(c));
    r := FromMembers(c, sorted);
  }
}
