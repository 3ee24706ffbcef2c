/** Arguments of a multi-device wrapper: enumeration labels each device's arguments with its index, construction splits
    the labelled arguments again. Argument maps are read in some iteration order, kept here as a list of pairs. */
module MultiArgs {
  import opened MultiNames

  type Kwargs = map<string, string>

  const STOP := "soapy_multi_no_deeper"
  const PREFIX := "multi:"

  /** Where a loop over the arguments puts an entry. */
  datatype Target = Skip | To(key: string)

  datatype Result = Ok(maps: seq<Kwargs>) | Thrown

  // ---- Maps as lists ----

  ghost predicate Distinct(l: seq<(string, string)>) {
    forall i, j :: 0 <= i < j < |l| ==> l[i].0 != l[j].0
  }

  ghost function AsMap(l: seq<(string, string)>): Kwargs {
    if l == [] then map[] else AsMap(l[1..])[l[0].0 := l[0].1]
  }

  lemma {:induction false} AsMapKeys(l: seq<(string, string)>)
    requires Distinct(l)
    ensures forall i :: 0 <= i < |l| ==> l[i].0 in AsMap(l) && AsMap(l)[l[i].0] == l[i].1
    ensures forall k :: k in AsMap(l) ==> exists i :: 0 <= i < |l| && l[i].0 == k
  {
    if l != [] {
      AsMapKeys(l[1..]);
      forall k | k in AsMap(l) ensures exists i :: 0 <= i < |l| && l[i].0 == k {
        if k == l[0].0 {
          assert l[0].0 == k;
        } else {
          var i :| 0 <= i < |l[1..]| && l[1..][i].0 == k;
          assert l[i + 1].0 == k;
        }
      }
    }
  }

  /** One loop: each entry in turn is inserted under the key f gives it. */
  function Insert(l: seq<(string, string)>, f: string -> Target, acc: Kwargs): Kwargs
    decreases |l|
  {
    if l == [] then acc
    else Insert(l[1..], f, match f(l[0].0) case Skip => acc case To(k) => acc[k := l[0].1])
  }

  ghost predicate InjectiveOn(m: Kwargs, f: string -> Target) {
    forall a, b :: a in m && b in m && f(a).To? && f(a) == f(b) ==> a == b
  }

  /** The map with its keys replaced by f. */
  ghost function Renamed(m: Kwargs, f: string -> Target): (r: Kwargs)
    requires InjectiveOn(m, f)
    ensures forall k :: k in r <==> exists a :: a in m && f(a) == To(k)
    ensures forall a :: a in m && f(a).To? ==> f(a).key in r && r[f(a).key] == m[a]
  {
    var r := map a | a in m && f(a).To? :: f(a).key := m[a];
    assert forall k :: k in r <==> exists a :: a in m && f(a) == To(k) by {
      forall k | k in r ensures exists a :: a in m && f(a) == To(k) {
        var a :| a in m && f(a).To? && f(a).key == k;
        assert f(a) == To(k);
      }
    }
    r
  }

  /** A loop whose keys do not collide writes the renamed map over what was there, in whatever order it runs. */
  lemma {:induction false} InsertIsRenamed(l: seq<(string, string)>, f: string -> Target, acc: Kwargs)
    requires Distinct(l) && InjectiveOn(AsMap(l), f)
    ensures Insert(l, f, acc) == acc + Renamed(AsMap(l), f)
    decreases |l|
  {
    if l == [] {
      assert Renamed(AsMap(l), f) == map[];
      assert acc + map[] == acc;
    } else {
      AsMapKeys(l);
      AsMapKeys(l[1..]);
      var m, rest, k0 := AsMap(l), AsMap(l[1..]), l[0].0;
      assert forall i :: 0 <= i < |l[1..]| ==> l[1..][i].0 == l[i + 1].0;
      assert k0 !in rest;
      var acc' := match f(k0) case Skip => acc case To(k) => acc[k := l[0].1];
      InsertIsRenamed(l[1..], f, acc');
      OneMore(rest, f, k0, l[0].1, acc);
    }
  }

  lemma OneMore(rest: Kwargs, f: string -> Target, k0: string, v: string, acc: Kwargs)
    requires k0 !in rest && InjectiveOn(rest[k0 := v], f)
    ensures InjectiveOn(rest, f)
    ensures (match f(k0) case Skip => acc case To(k) => acc[k := v]) + Renamed(rest, f) ==
            acc + Renamed(rest[k0 := v], f)
  {
    assert InjectiveOn(rest, f) by {
      assert forall a :: a in rest ==> a in rest[k0 := v];
    }
    hide Renamed;
    match f(k0)
    case Skip => SkipOne(rest, f, k0, v);
    case To(t) =>
      RenameOne(rest, f, k0, v);
      MergeUpdate(acc, Renamed(rest, f), t, v);
  }

  lemma MergeUpdate(acc: Kwargs, r: Kwargs, t: string, v: string)
    requires t !in r
    ensures acc[t := v] + r == acc + r[t := v]
  {
  }

  lemma SkipOne(rest: Kwargs, f: string -> Target, k0: string, v: string)
    requires k0 !in rest && InjectiveOn(rest[k0 := v], f) && InjectiveOn(rest, f) && f(k0).Skip?
    ensures Renamed(rest[k0 := v], f) == Renamed(rest, f)
  {
    hide Renamed;
    var m := rest[k0 := v];
    assert forall a :: a in m && f(a).To? <==> a in rest && f(a).To?;
    var r, r' := Renamed(m, f), Renamed(rest, f);
    forall k | k in r ensures k in r' {
      var a :| a in m && f(a) == To(k);
      assert a in rest;
    }
    SameValues(rest, m, f);
    assert r == r';
  }

  lemma RenameOne(rest: Kwargs, f: string -> Target, k0: string, v: string)
    requires k0 !in rest && InjectiveOn(rest[k0 := v], f) && InjectiveOn(rest, f) && f(k0).To?
    ensures f(k0).key !in Renamed(rest, f)
    ensures Renamed(rest[k0 := v], f) == Renamed(rest, f)[f(k0).key := v]
  {
    hide Renamed;
    var m, t := rest[k0 := v], f(k0).key;
    var r, r' := Renamed(m, f), Renamed(rest, f);
    assert k0 in m && f(k0) == To(t);
    assert forall a :: a in rest ==> a in m && f(a) != To(t);
    assert t in r && r[t] == v;
    forall k | k in r && k != t ensures k in r' {
      var a :| a in m && f(a) == To(k);
      assert a in rest;
    }
    SameValues(rest, m, f);
    assert r == r'[t := v];
  }

  lemma SameValues(small: Kwargs, large: Kwargs, f: string -> Target)
    requires InjectiveOn(small, f) && InjectiveOn(large, f)
    requires forall a :: a in small ==> a in large && large[a] == small[a]
    ensures forall k :: k in Renamed(small, f) ==>
              k in Renamed(large, f) && Renamed(large, f)[k] == Renamed(small, f)[k]
  {
    hide Renamed;
    forall k | k in Renamed(small, f)
      ensures k in Renamed(large, f) && Renamed(large, f)[k] == Renamed(small, f)[k]
    {
      var a :| a in small && f(a) == To(k);
      assert a in large;
    }
  }

  // ---- translateArgs ----

  predicate StartsWith(s: string, p: string) {
    |p| <= |s| && s[..|p|] == p
  }

  predicate Contains(s: string, p: string) {
    exists i :: 0 <= i <= |s| && StartsWith(s[i..], p)
  }

  /** First loop: keys without index and without the prefix, except the wrapper's own filters. */
  function Plain(key: string): Target {
    if IsIndexedName(key) || key == "driver" || key == "type" || Contains(key, PREFIX) then Skip else To(key)
  }

  /** Second loop: keys with the prefix, stripped of it. */
  function Local(key: string): Target {
    if StartsWith(key, PREFIX) then To(key[|PREFIX|..]) else Skip
  }

  /** Third loop: keys with this index, stripped of it. */
  function Labelled(index: nat, ulongMax: nat): string -> Target {
    (key: string) =>
      match SplitIndexedName(key, ulongMax)
      case Split(name, i) => if i == index then To(name) else Skip
      case _ => Skip
  }

  function TranslateFor(l: seq<(string, string)>, index: nat, ulongMax: nat): Kwargs {
    Insert(l, Labelled(index, ulongMax), Insert(l, Local, Insert(l, Plain, map[STOP := ""])))
  }

  /** A conversion of size_t to int: the number of the same low 32 bits in the range of int. */
  function AsInt(x: nat): (r: int)
    ensures -0x8000_0000 <= r < 0x8000_0000 && (x - r) % 0x1_0000_0000 == 0
  {
    var low := x % 0x1_0000_0000;
    if low < 0x8000_0000 then low else low - 0x1_0000_0000
  }

  /** The loop for the largest index, and whether every index could be parsed. */
  function MaxIndex(l: seq<(string, string)>, ulongMax: nat, m: int): (int, bool)
    decreases |l|
  {
    if l == [] then (m, true)
    else
      match SplitIndexedName(l[0].0, ulongMax)
      case NotIndexed => MaxIndex(l[1..], ulongMax, m)
      case Split(_, i) => MaxIndex(l[1..], ulongMax, if AsInt(i) > m then AsInt(i) else m)
      case _ => (m, false)
  }

  function TranslateArgs(l: seq<(string, string)>, ulongMax: nat): Result {
    var (m, ok) := MaxIndex(l, ulongMax, -1);
    if !ok then Thrown
    else if m < 0 then Ok([])
    else Ok(seq(m + 1, i requires 0 <= i <= m => TranslateFor(l, i, ulongMax)))
  }

  /** The loops of the first translateArgs, without the possibility of a throw (the second one parses every index
      before it calls the first). */
  method TranslateOne(l: seq<(string, string)>, index: nat, ulongMax: nat) returns (out: Kwargs)
    ensures out == TranslateFor(l, index, ulongMax)
    ensures Distinct(l) ==> forall key, j :: LastIndexed(l, key, index, ulongMax, j) ==> KeyHolds(l, out, key, j)
  {
    hide KeyHolds;
    out := map[STOP := ""];
    for j := 0 to |l|
      invariant Insert(l[j..], Plain, out) == Insert(l, Plain, map[STOP := ""])
    {
      assert l[j..][1..] == l[j + 1..];
      var key := l[j].0;
      if !IsIndexedName(key) && key != "driver" && key != "type" && !Contains(key, PREFIX) {
        out := out[key := l[j].1];
      }
    }
    ghost var first := out;
    for j := 0 to |l|
      invariant Insert(l[j..], Local, out) == Insert(l, Local, first)
    {
      assert l[j..][1..] == l[j + 1..];
      if StartsWith(l[j].0, PREFIX) {
        out := out[l[j].0[|PREFIX|..] := l[j].1];
      }
    }
    ghost var second := out;
    for j := 0 to |l|
      invariant Insert(l[j..], Labelled(index, ulongMax), out) == Insert(l, Labelled(index, ulongMax), second)
    {
      assert l[j..][1..] == l[j + 1..];
      var split := SplitIndexedName(l[j].0, ulongMax);
      if split.Split? && split.index == index {
        out := out[split.name := l[j].1];
      }
    }
    if Distinct(l) {
      forall key, j | LastIndexed(l, key, index, ulongMax, j) ensures KeyHolds(l, out, key, j) {
        TranslatedKeys(l, index, ulongMax, key, j);
      }
    }
  }

  /** The second translateArgs. */
  method Translate(l: seq<(string, string)>, ulongMax: nat) returns (r: Result)
    ensures r == TranslateArgs(l, ulongMax)
    ensures MapsRight(l, ulongMax, r)
  {
    hide MapsRight;
    TranslatedMaps(l, ulongMax);
    var m := -1;
    for j := 0 to |l|
      invariant m >= -1 && MaxIndex(l[j..], ulongMax, m) == MaxIndex(l, ulongMax, -1)
    {
      assert l[j..][1..] == l[j + 1..];
      var split := SplitIndexedName(l[j].0, ulongMax);
      if split.NoNumber? || split.OutOfRange? {
        return Thrown;
      }
      if split.Split? && AsInt(split.index) > m {
        m := AsInt(split.index);
      }
    }
    if m < 0 {
      return Ok([]);
    }
    var maps: seq<Kwargs> := [];
    for i := 0 to m + 1
      invariant maps == TranslateArgs(l, ulongMax).maps[..i]
    {
      var one := TranslateOne(l, i, ulongMax);
      maps := maps + [one];
    }
    r := Ok(maps);
  }

  /** makeMultiSDR up to the construction of the devices. */
  function MakeArgs(l: seq<(string, string)>, ulongMax: nat): Result {
    if exists i :: 0 <= i < |l| && l[i].0 == STOP then Thrown
    else
      var r := TranslateArgs(l, ulongMax);
      if r.Ok? && r.maps == [] then Thrown else r
  }

  // ---- What translation means, key by key ----

  /** The last entry that f sends to key, or -1. */
  ghost function LastTo(l: seq<(string, string)>, f: string -> Target, key: string): (j: int)
    ensures -1 <= j < |l|
    ensures j >= 0 ==> f(l[j].0) == To(key)
    ensures forall i :: j < i < |l| ==> f(l[i].0) != To(key)
  {
    if l == [] then -1
    else if f(l[|l| - 1].0) == To(key) then |l| - 1
    else LastTo(l[..|l| - 1], f, key)
  }

  /** A loop leaves, under each key, the value of the last entry sent there, or what was there. */
  lemma {:induction false} InsertAt(l: seq<(string, string)>, f: string -> Target, acc: Kwargs, key: string, j: int)
    requires -1 <= j < |l| && (j >= 0 ==> f(l[j].0) == To(key)) && forall i :: j < i < |l| ==> f(l[i].0) != To(key)
    ensures key in Insert(l, f, acc) <==> j >= 0 || key in acc
    ensures key in Insert(l, f, acc) ==> Insert(l, f, acc)[key] == if j >= 0 then l[j].1 else acc[key]
    decreases |l|
  {
    if l != [] {
      var acc' := match f(l[0].0) case Skip => acc case To(k) => acc[k := l[0].1];
      assert forall i :: 0 <= i < |l[1..]| ==> l[1..][i] == l[i + 1];
      InsertAt(l[1..], f, acc', key, if j > 0 then j - 1 else -1);
    }
  }

  /** The key is passed on as it is: no index, none of the wrapper's own filters, and the prefix nowhere in it. */
  ghost predicate PassedOn(key: string) {
    && !IsIndexedName(key) && key != "driver" && key != "type"
    && forall a: string, b: string :: key != a + PREFIX + b
  }

  /** The last entry with this name and index, or -1. */
  ghost predicate LastIndexed(l: seq<(string, string)>, key: string, index: nat, ulongMax: nat, j: int) {
    && -1 <= j < |l|
    && (j >= 0 ==> SplitIndexedName(l[j].0, ulongMax) == Split(key, index))
    && forall i :: j < i < |l| ==> SplitIndexedName(l[i].0, ulongMax) != Split(key, index)
  }

  /** What a device's arguments hold under a key, j being the last entry with that name and the device's index: that
      entry comes first, then one with the local prefix, then one passed on as it is, then the stop key; and there
      is no other. */
  ghost predicate KeyHolds(l: seq<(string, string)>, out: Kwargs, key: string, j: int)
    requires j < |l|
  {
    var args := AsMap(l);
    if j >= 0 then key in out && out[key] == l[j].1
    else if PREFIX + key in args then key in out && out[key] == args[PREFIX + key]
    else if key in args && PassedOn(key) then key in out && out[key] == args[key]
    else if key == STOP then key in out && out[key] == ""
    else key !in out
  }

  /** The arguments of one device, key by key. */
  lemma TranslatedKeys(l: seq<(string, string)>, index: nat, ulongMax: nat, key: string, j: int)
    requires Distinct(l) && LastIndexed(l, key, index, ulongMax, j)
    ensures KeyHolds(l, TranslateFor(l, index, ulongMax), key, j)
  {
    hide Insert, IsIndexedName, SplitIndexedName, AsMap, Contains;
    var plain := Insert(l, Plain, map[STOP := ""]);
    var local := Insert(l, Local, plain);
    PlainAt(l, key);
    LocalAt(l, plain, key);
    LabelledIs(index, ulongMax);
    InsertAt(l, Labelled(index, ulongMax), local, key, j);
  }

  lemma LabelledIs(index: nat, ulongMax: nat)
    ensures forall key, name :: Labelled(index, ulongMax)(key) == To(name) <==>
                                SplitIndexedName(key, ulongMax) == Split(name, index)
  {
    hide SplitIndexedName;
  }

  lemma PlainAt(l: seq<(string, string)>, key: string)
    requires Distinct(l)
    ensures var out := Insert(l, Plain, map[STOP := ""]);
            if key in AsMap(l) && PassedOn(key) then key in out && out[key] == AsMap(l)[key]
            else if key == STOP then key in out && out[key] == ""
            else key !in out
  {
    hide Insert, IsIndexedName, AsMap, Contains;
    AsMapKeys(l);
    ContainsNowhere(key);
    var j := LastTo(l, Plain, key);
    InsertAt(l, Plain, map[STOP := ""], key, j);
    if key in AsMap(l) && PassedOn(key) {
      var i :| 0 <= i < |l| && l[i].0 == key;
      assert Plain(l[i].0) == To(key);
      assert Plain(l[j].0) == To(key) && l[j].0 == key;
    }
  }

  lemma ContainsNowhere(key: string)
    ensures Contains(key, PREFIX) <==> exists a: string, b: string :: key == a + PREFIX + b
  {
    if i :| 0 <= i <= |key| && StartsWith(key[i..], PREFIX) {
      var rest := key[i..];
      assert key == key[..i] + rest && rest == rest[..|PREFIX|] + rest[|PREFIX|..];
      assert key == key[..i] + PREFIX + rest[|PREFIX|..];
    }
    if a: string, b: string :| key == a + PREFIX + b {
      assert key[|a|..][..|PREFIX|] == PREFIX;
      assert StartsWith(key[|a|..], PREFIX);
    }
  }

  lemma LocalAt(l: seq<(string, string)>, acc: Kwargs, key: string)
    requires Distinct(l)
    ensures var out := Insert(l, Local, acc);
            if PREFIX + key in AsMap(l) then key in out && out[key] == AsMap(l)[PREFIX + key]
            else if key in acc then key in out && out[key] == acc[key]
            else key !in out
  {
    hide Insert, AsMap;
    AsMapKeys(l);
    var j := LastTo(l, Local, key);
    InsertAt(l, Local, acc, key, j);
    if PREFIX + key in AsMap(l) {
      var i :| 0 <= i < |l| && l[i].0 == PREFIX + key;
      assert (PREFIX + key)[..|PREFIX|] == PREFIX && (PREFIX + key)[|PREFIX|..] == key;
      assert Local(l[i].0) == To(key);
    }
    if j >= 0 {
      assert l[j].0 == l[j].0[..|PREFIX|] + l[j].0[|PREFIX|..] == PREFIX + key;
    }
  }

  /** How many maps there are: a translation throws exactly if some index cannot be parsed, and otherwise gives one map
      for each index up to the largest, as an int, that occurs. */
  ghost predicate MapsRight(l: seq<(string, string)>, ulongMax: nat, r: Result) {
    && (r.Thrown? <==> exists j :: 0 <= j < |l| && Unparsable(l[j].0, ulongMax))
    && (r.Ok? ==>
          && (forall j :: 0 <= j < |l| && SplitIndexedName(l[j].0, ulongMax).Split? ==>
                AsInt(SplitIndexedName(l[j].0, ulongMax).index) < |r.maps|)
          && (r.maps != [] ==>
                exists j :: 0 <= j < |l| && SplitIndexedName(l[j].0, ulongMax).Split? &&
                            AsInt(SplitIndexedName(l[j].0, ulongMax).index) == |r.maps| - 1)
          && forall i :: 0 <= i < |r.maps| ==> r.maps[i] == TranslateFor(l, i, ulongMax))
  }

  lemma TranslatedMaps(l: seq<(string, string)>, ulongMax: nat)
    ensures MapsRight(l, ulongMax, TranslateArgs(l, ulongMax))
  {
    hide SplitIndexedName, TranslateFor, AsInt;
    MaxIndexFacts(l, ulongMax, -1);
  }

  ghost predicate Unparsable(key: string, ulongMax: nat) {
    SplitIndexedName(key, ulongMax).NoNumber? || SplitIndexedName(key, ulongMax).OutOfRange?
  }

  lemma {:induction false} MaxIndexFacts(l: seq<(string, string)>, ulongMax: nat, m: int)
    ensures var (max, ok) := MaxIndex(l, ulongMax, m);
            && (!ok <==> exists j :: 0 <= j < |l| && Unparsable(l[j].0, ulongMax))
            && (ok ==>
                  && max >= m
                  && (forall j :: 0 <= j < |l| && SplitIndexedName(l[j].0, ulongMax).Split? ==>
                        AsInt(SplitIndexedName(l[j].0, ulongMax).index) <= max)
                  && (max > m ==>
                        exists j :: 0 <= j < |l| && SplitIndexedName(l[j].0, ulongMax).Split? &&
                                    AsInt(SplitIndexedName(l[j].0, ulongMax).index) == max))
    decreases |l|
  {
    hide SplitIndexedName, AsInt;
    if l != [] {
      var split := SplitIndexedName(l[0].0, ulongMax);
      assert forall i :: 0 <= i < |l[1..]| ==> l[1..][i] == l[i + 1];
      var m' := if split.Split? && AsInt(split.index) > m then AsInt(split.index) else m;
      MaxIndexFacts(l[1..], ulongMax, m');
      if Unparsable(l[0].0, ulongMax) {
        assert !MaxIndex(l, ulongMax, m).1;
      } else {
        var (max, ok) := MaxIndex(l[1..], ulongMax, m');
        assert MaxIndex(l, ulongMax, m) == (max, ok);
        if !ok {
          var j :| 0 <= j < |l[1..]| && Unparsable(l[1..][j].0, ulongMax);
          assert Unparsable(l[j + 1].0, ulongMax);
        } else {
          forall j | 0 <= j < |l| && SplitIndexedName(l[j].0, ulongMax).Split?
            ensures AsInt(SplitIndexedName(l[j].0, ulongMax).index) <= max
          {
            if j > 0 {
              assert l[1..][j - 1] == l[j];
            }
          }
          if max > m && max != m' {
            var j :| 0 <= j < |l[1..]| && SplitIndexedName(l[1..][j].0, ulongMax).Split? &&
                     AsInt(SplitIndexedName(l[1..][j].0, ulongMax).index) == max;
            assert l[j + 1] == l[1..][j];
          }
        }
      }
    }
  }

  /** Construction throws exactly for the stop key, an index that cannot be parsed, or no index at all. */
  lemma MakeThrows(l: seq<(string, string)>, ulongMax: nat)
    ensures MakeArgs(l, ulongMax).Thrown? <==>
              || (exists i :: 0 <= i < |l| && l[i].0 == STOP)
              || (exists j :: 0 <= j < |l| && Unparsable(l[j].0, ulongMax))
              || forall j :: 0 <= j < |l| && SplitIndexedName(l[j].0, ulongMax).Split? ==>
                   AsInt(SplitIndexedName(l[j].0, ulongMax).index) < 0
  {
    hide SplitIndexedName, TranslateFor, AsInt, TranslateArgs;
    TranslatedMaps(l, ulongMax);
  }
}
