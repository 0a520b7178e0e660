/** The node's internals on disk: `saveInternals` writes every cluster of the view model
    into a flat key/value settings object, `loadInternals` rebuilds the clusters from it.
    Cluster `k` lives under the keys `name<k>`, `color<k>`, `coefficients<k>` and
    `dataIndices<k>`; `clustersNum` holds the count. */
module Persistence {
  import opened Wrappers
  import opened Errors
  import opened Numbers
  import opened InternalCluster

  /** One typed settings entry. */
  datatype Value =
    | IntValue(i: int)
    | StringValue(s: string)
    | IntArrayValue(ints: seq<int>)
    | DoubleArrayValue(reals: seq<real>)

  type Settings = map<string, Value>

  const NamePrefix := "name"
  const ColorPrefix := "color"
  const CoefficientsPrefix := "coefficients"
  const IndicesPrefix := "dataIndices"
  const CountKey := "clustersNum"

  predicate IsPrefix(p: string)
  {
    p == NamePrefix || p == ColorPrefix || p == CoefficientsPrefix || p == IndicesPrefix
  }

  /** The key of cluster `k`'s entry of kind `prefix`. */
  function Key(prefix: string, k: nat): string
  {
    prefix + NatToString(k)
  }

  // ---------------------------------------------------------------------------
  // Colours

  /** `Color.getRGB`: the colour with a fully opaque alpha byte, read as a signed 32-bit int. */
  function ColorToInt(c: Rgb): (v: int)
    ensures -0x100_0000 <= v < 0
  {
    c - 0x100_0000
  }

  /** `new Color(int)`: only the low 24 bits of the argument are kept. */
  function IntToColor(v: int): (c: Rgb)
    ensures exists q :: v == q * 0x100_0000 + c
  {
    assert v == (v / 0x100_0000) * 0x100_0000 + v % 0x100_0000;
    v % 0x100_0000
  }

  lemma ColorRoundTrip(c: Rgb)
    ensures IntToColor(ColorToInt(c)) == c
  {
    var v := ColorToInt(c);
    var q :| v == q * 0x100_0000 + IntToColor(v);
    assert q == -1;
  }

  // ---------------------------------------------------------------------------
  // Keys never collide

  /** Two keys of the settings object are equal only when they name the same kind of entry
      of the same cluster, and no cluster key equals the count key. */
  lemma KeysDistinct(p: string, a: nat, q: string, b: nat)
    requires IsPrefix(p) && IsPrefix(q)
    ensures Key(p, a) == Key(q, b) <==> p == q && a == b
    ensures Key(p, a) != CountKey
  {
    var ka, kb := Key(p, a), Key(q, b);
    assert ka[..|p|] == p;
    assert kb[..|q|] == q;
    assert ka[0] == p[0] && ka[1] == p[1] && ka[2] == p[2];
    assert kb[0] == q[0] && kb[2] == q[2];
    assert CountKey[1] == 'l';
    if p == q && ka == kb {
      assert NatToString(a) == ka[|p|..] == kb[|p|..] == NatToString(b);
      NatToStringInjective(a, b);
    }
  }

  // ---------------------------------------------------------------------------
  // saveInternals

  /** What is saved about one cluster: its name, its colour and its two member arrays. */
  datatype Saved = Saved(name: string, color: Rgb, coefficients: seq<real>, dataIndices: seq<int>)

  /** `getColor` can answer for every cluster (it fails on an empty colour array). */
  predicate Saveable(cs: seq<Cluster>)
  {
    forall k :: 0 <= k < |cs| ==> |cs[k].colors| > 0
  }

  /** The name, the (mode) colour and the member arrays of a cluster with colours. */
  function Summary(c: Cluster): Saved
    requires |c.colors| > 0
  {
    Saved(GetName(c), GetColor(c).value, c.coefficients, c.dataIndices)
  }

  /** Adds cluster `k`'s four entries to `m`. */
  function AddEntries(m: Settings, s: Saved, k: nat): Settings
  {
    m[Key(NamePrefix, k) := StringValue(s.name)]
     [Key(ColorPrefix, k) := IntValue(ColorToInt(s.color))]
     [Key(CoefficientsPrefix, k) := DoubleArrayValue(s.coefficients)]
     [Key(IndicesPrefix, k) := IntArrayValue(s.dataIndices)]
  }

  /** The entries of the first `n` saved clusters, in order. */
  function Write(ss: seq<Saved>, n: nat): Settings
    requires n <= |ss|
  {
    if n == 0 then map[] else AddEntries(Write(ss, n - 1), ss[n - 1], n - 1)
  }

  /** `saveInternals`: every cluster's entries, then the cluster count. The loop stops at the
      first cluster whose `getColor` fails, so nothing is written then. */
  function Save(cs: seq<Cluster>): (r: Result<Settings, Error>)
  {
    if !Saveable(cs) then Err(IndexOutOfBounds(0))
    else
      var ss := Summaries(cs);
      Ok(Write(ss, |ss|)[CountKey := IntValue(|cs|)])
  }

  /** What is saved about each cluster, in order. */
  function Summaries(cs: seq<Cluster>): (ss: seq<Saved>)
    requires Saveable(cs)
    ensures |ss| == |cs| && forall k :: 0 <= k < |cs| ==> ss[k] == Summary(cs[k])
  {
    seq(|cs|, k requires 0 <= k < |cs| => Summary(cs[k]))
  }

  /** The settings hold cluster `k`'s saved entries. */
  ghost predicate Holds(m: Settings, s: Saved, k: nat)
  {
    && Key(NamePrefix, k) in m && m[Key(NamePrefix, k)] == StringValue(s.name)
    && Key(ColorPrefix, k) in m && m[Key(ColorPrefix, k)] == IntValue(ColorToInt(s.color))
    && Key(CoefficientsPrefix, k) in m && m[Key(CoefficientsPrefix, k)] == DoubleArrayValue(s.coefficients)
    && Key(IndicesPrefix, k) in m && m[Key(IndicesPrefix, k)] == IntArrayValue(s.dataIndices)
  }

  /** Adding cluster `k`'s entries keeps every other cluster's entries. */
  lemma AddEntriesKeeps(m: Settings, s: Saved, k: nat, t: Saved, j: nat)
    requires j != k && Holds(m, t, j)
    ensures Holds(AddEntries(m, s, k), t, j)
  {
    KeysDistinct(NamePrefix, j, NamePrefix, k);
    KeysDistinct(NamePrefix, j, ColorPrefix, k);
    KeysDistinct(NamePrefix, j, CoefficientsPrefix, k);
    KeysDistinct(NamePrefix, j, IndicesPrefix, k);
    KeysDistinct(ColorPrefix, j, NamePrefix, k);
    KeysDistinct(ColorPrefix, j, ColorPrefix, k);
    KeysDistinct(ColorPrefix, j, CoefficientsPrefix, k);
    KeysDistinct(ColorPrefix, j, IndicesPrefix, k);
    KeysDistinct(CoefficientsPrefix, j, NamePrefix, k);
    KeysDistinct(CoefficientsPrefix, j, ColorPrefix, k);
    KeysDistinct(CoefficientsPrefix, j, CoefficientsPrefix, k);
    KeysDistinct(CoefficientsPrefix, j, IndicesPrefix, k);
    KeysDistinct(IndicesPrefix, j, NamePrefix, k);
    KeysDistinct(IndicesPrefix, j, ColorPrefix, k);
    KeysDistinct(IndicesPrefix, j, CoefficientsPrefix, k);
    KeysDistinct(IndicesPrefix, j, IndicesPrefix, k);
  }

  /** The new entries are the ones just added. */
  lemma AddEntriesHolds(m: Settings, s: Saved, k: nat)
    ensures Holds(AddEntries(m, s, k), s, k)
  {
    KeysDistinct(NamePrefix, k, ColorPrefix, k);
    KeysDistinct(NamePrefix, k, CoefficientsPrefix, k);
    KeysDistinct(NamePrefix, k, IndicesPrefix, k);
    KeysDistinct(ColorPrefix, k, CoefficientsPrefix, k);
    KeysDistinct(ColorPrefix, k, IndicesPrefix, k);
    KeysDistinct(CoefficientsPrefix, k, IndicesPrefix, k);
  }

  /** Cluster `k`, one of the first `n`, has its entries under its own keys: no later
      cluster overwrites them. */
  lemma {:induction false} WriteHoldsAt(ss: seq<Saved>, n: nat, k: nat)
    requires k < n <= |ss|
    ensures Holds(Write(ss, n), ss[k], k)
  {
    var m := Write(ss, n - 1);
    if k == n - 1 {
      AddEntriesHolds(m, ss[k], k);
    } else {
      WriteHoldsAt(ss, n - 1, k);
      AddEntriesKeeps(m, ss[n - 1], n - 1, ss[k], k);
    }
  }

  /** Every one of the first `n` clusters has its entries under its own keys. */
  lemma WriteHolds(ss: seq<Saved>, n: nat)
    requires n <= |ss|
    ensures forall k :: 0 <= k < n ==> Holds(Write(ss, n), ss[k], k)
  {
    forall k | 0 <= k < n
      ensures Holds(Write(ss, n), ss[k], k)
    {
      WriteHoldsAt(ss, n, k);
    }
  }

  /** Cluster `k`'s entries survive the count written after them. */
  lemma SaveHoldsAt(cs: seq<Cluster>, k: nat)
    requires Saveable(cs) && k < |cs|
    ensures Save(cs).Ok? && Holds(Save(cs).value, Summary(cs[k]), k)
  {
    var ss := Summaries(cs);
    WriteHoldsAt(ss, |ss|, k);
    KeysDistinct(NamePrefix, k, NamePrefix, k);
    KeysDistinct(ColorPrefix, k, ColorPrefix, k);
    KeysDistinct(CoefficientsPrefix, k, CoefficientsPrefix, k);
    KeysDistinct(IndicesPrefix, k, IndicesPrefix, k);
  }

  /** `saveInternals` fails exactly when some cluster has no colours; otherwise the settings
      hold the cluster count and each cluster's name, colour, coefficients and row indices. */
  lemma SaveContents(cs: seq<Cluster>)
    ensures Save(cs).Err? <==> exists k :: 0 <= k < |cs| && |cs[k].colors| == 0
    ensures Save(cs).Ok? ==>
      && CountKey in Save(cs).value && Save(cs).value[CountKey] == IntValue(|cs|)
      && forall k :: 0 <= k < |cs| ==> |cs[k].colors| > 0 && Holds(Save(cs).value, Summary(cs[k]), k)
  {
    if Saveable(cs) {
      forall k | 0 <= k < |cs|
        ensures Holds(Save(cs).value, Summary(cs[k]), k)
      {
        SaveHoldsAt(cs, k);
      }
    }
  }

  // ---------------------------------------------------------------------------
  // loadInternals

  /** `getInt`: absent or of another type is an `InvalidSettingsException`. */
  function GetInt(m: Settings, key: string): (r: Result<int, Error>)
    ensures r.Ok? <==> key in m && m[key].IntValue?
    ensures r.Ok? ==> m[key] == IntValue(r.value)
    ensures r.Err? ==> r.error == BadSetting(key)
  {
    if key in m && m[key].IntValue? then Ok(m[key].i) else Err(BadSetting(key))
  }

  function GetString(m: Settings, key: string): (r: Result<string, Error>)
    ensures r.Ok? <==> key in m && m[key].StringValue?
    ensures r.Ok? ==> m[key] == StringValue(r.value)
    ensures r.Err? ==> r.error == BadSetting(key)
  {
    if key in m && m[key].StringValue? then Ok(m[key].s) else Err(BadSetting(key))
  }

  function GetIntArray(m: Settings, key: string): (r: Result<seq<int>, Error>)
    ensures r.Ok? <==> key in m && m[key].IntArrayValue?
    ensures r.Ok? ==> m[key] == IntArrayValue(r.value)
    ensures r.Err? ==> r.error == BadSetting(key)
  {
    if key in m && m[key].IntArrayValue? then Ok(m[key].ints) else Err(BadSetting(key))
  }

  function GetDoubleArray(m: Settings, key: string): (r: Result<seq<real>, Error>)
    ensures r.Ok? <==> key in m && m[key].DoubleArrayValue?
    ensures r.Ok? ==> m[key] == DoubleArrayValue(r.value)
    ensures r.Err? ==> r.error == BadSetting(key)
  {
    if key in m && m[key].DoubleArrayValue? then Ok(m[key].reals) else Err(BadSetting(key))
  }

  /** The cluster rebuilt from saved entries: the one stored colour fills every member slot. */
  function Rebuild(s: Saved): Cluster
  {
    NamedWithCoefficients(s.name, seq(|s.dataIndices|, _ => s.color), s.dataIndices, s.coefficients)
  }

  /** Cluster `k`'s entries, read in the source's order: name, colour, row indices, coefficients. */
  function LoadCluster(m: Settings, k: nat): (r: Result<Cluster, Error>)
    ensures r.Ok? <==>
      && Key(NamePrefix, k) in m && m[Key(NamePrefix, k)].StringValue?
      && Key(ColorPrefix, k) in m && m[Key(ColorPrefix, k)].IntValue?
      && Key(IndicesPrefix, k) in m && m[Key(IndicesPrefix, k)].IntArrayValue?
      && Key(CoefficientsPrefix, k) in m && m[Key(CoefficientsPrefix, k)].DoubleArrayValue?
  {
    var name :- GetString(m, Key(NamePrefix, k));
    var color :- GetInt(m, Key(ColorPrefix, k));
    var indices :- GetIntArray(m, Key(IndicesPrefix, k));
    var coefficients :- GetDoubleArray(m, Key(CoefficientsPrefix, k));
    Ok(Rebuild(Saved(name, IntToColor(color), coefficients, indices)))
  }

  function LoadFirst(m: Settings, n: nat): (r: Result<seq<Cluster>, Error>)
    ensures r.Ok? ==> |r.value| == n
  {
    if n == 0 then Ok([])
    else
      var prefix :- LoadFirst(m, n - 1);
      var c :- LoadCluster(m, n - 1);
      Ok(prefix + [c])
  }

  /** `loadInternals`: the count, then each cluster in turn. A negative count fails creating
      the array; a missing or mistyped entry fails the load. */
  function Load(m: Settings): (r: Result<seq<Cluster>, Error>)
    ensures (CountKey in m && m[CountKey].IntValue? && m[CountKey].i < 0) ==>
      r == Err(NegativeArraySize(m[CountKey].i))
    ensures !(CountKey in m && m[CountKey].IntValue?) ==> r == Err(BadSetting(CountKey))
    ensures r.Ok? ==> |r.value| == m[CountKey].i
  {
    var n :- GetInt(m, CountKey);
    if n < 0 then Err(NegativeArraySize(n)) else LoadFirst(m, n)
  }

  // ---------------------------------------------------------------------------
  // Round trips

  /** Entries written for a cluster read back as that cluster's rebuilt form. */
  lemma LoadClusterHeld(m: Settings, s: Saved, k: nat)
    requires Holds(m, s, k)
    ensures LoadCluster(m, k) == Ok(Rebuild(s))
  {
    ColorRoundTrip(s.color);
  }

  /** Reading back entries written for `ss` rebuilds each of them in order. */
  lemma {:induction false} LoadFirstHeld(ss: seq<Saved>, m: Settings, n: nat)
    requires n <= |ss|
    requires forall k :: 0 <= k < n ==> Holds(m, ss[k], k)
    ensures LoadFirst(m, n).Ok?
    ensures forall k :: 0 <= k < n ==> LoadFirst(m, n).value[k] == Rebuild(ss[k])
  {
    if n > 0 {
      LoadFirstHeld(ss, m, n - 1);
      LoadClusterHeld(m, ss[n - 1], n - 1);
    }
  }

  /** Loading what was saved succeeds and gives back one cluster per saved cluster, each
      rebuilt from its summary. */
  lemma {:induction false} SaveThenLoadRebuilds(cs: seq<Cluster>)
    requires Saveable(cs)
    ensures Save(cs).Ok? && Load(Save(cs).value).Ok?
    ensures |Load(Save(cs).value).value| == |cs|
    ensures forall k :: 0 <= k < |cs| ==> Load(Save(cs).value).value[k] == Rebuild(Summary(cs[k]))
  {
    SaveContents(cs);
    var ss := Summaries(cs);
    var m := Save(cs).value;
    LoadFirstHeld(ss, m, |cs|);
    assert Load(m) == LoadFirst(m, |cs|);
  }

  /** The rebuilt cluster keeps the saved name, rows and coefficients, and colours every
      member with the saved colour. */
  lemma RebuildMeaning(c: Cluster)
    requires |c.colors| > 0
    ensures GetName(Rebuild(Summary(c))) == GetName(c)
    ensures Rebuild(Summary(c)).dataIndices == c.dataIndices
    ensures Rebuild(Summary(c)).coefficients == c.coefficients
    ensures |Rebuild(Summary(c)).colors| == |c.dataIndices|
    ensures forall p :: 0 <= p < |c.dataIndices| ==> Rebuild(Summary(c)).colors[p] == GetColor(c).value
  {
  }

  /** `loadInternals` after `saveInternals` restores every cluster: same count, names,
      row indices and coefficients, each member coloured with the cluster's colour. */
  lemma SaveThenLoad(cs: seq<Cluster>)
    requires forall k :: 0 <= k < |cs| ==> |cs[k].colors| > 0
    ensures Save(cs).Ok?
    ensures Load(Save(cs).value).Ok?
    ensures |Load(Save(cs).value).value| == |cs|
    ensures forall k :: 0 <= k < |cs| ==>
      var c := Load(Save(cs).value).value[k];
      && GetName(c) == GetName(cs[k])
      && c.dataIndices == cs[k].dataIndices
      && c.coefficients == cs[k].coefficients
      && |c.colors| == |cs[k].dataIndices|
      && forall p :: 0 <= p < |c.colors| ==> c.colors[p] == GetColor(cs[k]).value
  {
    SaveThenLoadRebuilds(cs);
    forall k | 0 <= k < |cs| {
      RebuildMeaning(cs[k]);
    }
  }

  /** A rebuilt cluster summarises to what it was built from, provided it has a member
      (a cluster without rows is rebuilt without colours). */
  lemma RebuildSummary(s: Saved)
    requires |s.dataIndices| > 0
    ensures |Rebuild(s).colors| > 0 && Summary(Rebuild(s)) == s
  {
    var c := Rebuild(s);
    assert c.colors[0] == s.color;
    var x := GetColor(c).value;
    assert x in c.colors;
  }

  /** Saving what was loaded writes the same settings again, as long as every cluster has a
      row: a memberless cluster comes back without colours and can no longer be saved. */
  lemma SaveLoadSave(cs: seq<Cluster>)
    requires forall k :: 0 <= k < |cs| ==> |cs[k].colors| > 0 && |cs[k].dataIndices| > 0
    ensures Save(cs).Ok? && Load(Save(cs).value).Ok?
    ensures Save(Load(Save(cs).value).value) == Save(cs)
  {
    SaveThenLoadRebuilds(cs);
    var ds := Load(Save(cs).value).value;
    forall k | 0 <= k < |cs|
      ensures |ds[k].colors| > 0 && Summary(ds[k]) == Summary(cs[k])
    {
      RebuildSummary(Summary(cs[k]));
    }
    assert Summaries(ds) == Summaries(cs);
  }

  /** The memberless case: a cluster with a colour but no rows saves, loads back with no
      colours, and then cannot be saved again. */
  lemma EmptyClusterSavesOnce()
    ensures Save([Named("A", [7], [])]).Ok?
    ensures Load(Save([Named("A", [7], [])]).value).Ok?
    ensures Save(Load(Save([Named("A", [7], [])]).value).value).Err?
  {
    var cs := [Named("A", [7], [])];
    SaveThenLoad(cs);
    var ds := Load(Save(cs).value).value;
    assert |ds[0].colors| == 0;
    SaveContents(ds);
  }
}
