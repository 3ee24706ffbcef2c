/** Enumerating a multi-device and then making it: the arguments each device is made with are its own again. */
module MultiEnumerate {
  import opened MultiNames
  import opened MultiArgs

  /** One device's arguments, labelled with its index. */
  ghost function Label(dev: Kwargs, index: nat): (m: Kwargs)
    ensures forall key :: key in m <==> exists k :: k in dev && key == ToIndexedName(k, index)
    ensures forall k :: k in dev ==> ToIndexedName(k, index) in m && m[ToIndexedName(k, index)] == dev[k]
  {
    LabelInjective(index);
    map k | k in dev :: ToIndexedName(k, index) := dev[k]
  }

  lemma LabelInjective(index: nat)
    ensures forall k, k' :: ToIndexedName(k, index) == ToIndexedName(k', index) ==> k == k'
  {
    forall k, k' | ToIndexedName(k, index) == ToIndexedName(k', index) ensures k == k' {
      ToIndexedNameInjective(k, index, k', index);
    }
  }

  /** The result of findMultiSDR for the first hit of each device, before clean-up. */
  ghost function Combine(devs: seq<Kwargs>): Kwargs {
    if devs == [] then map[] else Combine(devs[..|devs| - 1]) + Label(devs[|devs| - 1], |devs| - 1)
  }

  /** key is device i's argument k. */
  ghost predicate Names(devs: seq<Kwargs>, key: string, i: nat, k: string) {
    i < |devs| && k in devs[i] && key == ToIndexedName(k, i)
  }

  lemma {:induction false} CombineKeys(devs: seq<Kwargs>)
    ensures forall key :: key in Combine(devs) ==> exists i: nat, k :: Names(devs, key, i, k)
    ensures forall i: nat, k :: i < |devs| && k in devs[i] ==>
              ToIndexedName(k, i) in Combine(devs) && Combine(devs)[ToIndexedName(k, i)] == devs[i][k]
  {
    if devs != [] {
      var n := |devs| - 1;
      var front := devs[..n];
      CombineKeys(front);
      hide Label;
      forall key | key in Combine(devs) ensures exists i: nat, k :: Names(devs, key, i, k) {
        if key in Label(devs[n], n) {
          var k :| k in devs[n] && key == ToIndexedName(k, n);
          assert Names(devs, key, n, k);
        } else {
          assert key in Combine(front);
          var i: nat, k :| Names(front, key, i, k);
          assert Names(devs, key, i, k);
        }
      }
      forall i: nat, k | i < |devs| && k in devs[i]
        ensures ToIndexedName(k, i) in Combine(devs) && Combine(devs)[ToIndexedName(k, i)] == devs[i][k]
      {
        if i < n {
          assert front[i] == devs[i];
          if ToIndexedName(k, i) in Label(devs[n], n) {
            var k' :| k' in devs[n] && ToIndexedName(k, i) == ToIndexedName(k', n);
            ToIndexedNameInjective(k, i, k', n);
          }
        }
      }
    }
  }

  /** The two nested insertion loops of findMultiSDR, over the argument lists of the first hits. */
  method CombineResults(hits: seq<seq<(string, string)>>) returns (out: Kwargs)
    requires forall i :: 0 <= i < |hits| ==> Distinct(hits[i])
    ensures out == Combine(seq(|hits|, i requires 0 <= i < |hits| => AsMap(hits[i])))
  {
    hide Label, AsMap, ToIndexedName, Combine;
    ghost var devs := seq(|hits|, i requires 0 <= i < |hits| => AsMap(hits[i]));
    out := map[];
    CombineNone();
    for index := 0 to |hits|
      invariant out == Combine(devs[..index])
    {
      ghost var before := out;
      EmptyLabel(index, before);
      assert hits[index][..0] == [];
      for j := 0 to |hits[index]|
        invariant out == before + Label(AsMap(hits[index][..j]), index)
      {
        GrowLabel(hits[index], j, index, before);
        out := out[ToIndexedName(hits[index][j].0, index) := hits[index][j].1];
      }
      assert hits[index][..|hits[index]|] == hits[index];
      CombineSnoc(devs[..index], devs[index]);
      assert devs[..index + 1] == devs[..index] + [devs[index]];
    }
    assert devs[..|hits|] == devs;
  }

  lemma CombineNone()
    ensures Combine([]) == map[]
  {
  }

  lemma CombineSnoc(devs: seq<Kwargs>, dev: Kwargs)
    ensures Combine(devs + [dev]) == Combine(devs) + Label(dev, |devs|)
  {
    assert (devs + [dev])[..|devs + [dev]| - 1] == devs;
  }

  lemma EmptyLabel(index: nat, before: Kwargs)
    ensures before == before + Label(AsMap([]), index)
  {
    assert Label(AsMap([]), index) == map[];
  }

  lemma GrowLabel(l: seq<(string, string)>, j: nat, index: nat, before: Kwargs)
    requires j < |l| && Distinct(l)
    ensures before + Label(AsMap(l[..j + 1]), index) ==
            (before + Label(AsMap(l[..j]), index))[ToIndexedName(l[j].0, index) := l[j].1]
  {
    hide Label, ToIndexedName, AsMap;
    AsMapSnoc(l[..j], l[j]);
    assert l[..j + 1] == l[..j] + [l[j]];
    LabelUpdate(AsMap(l[..j]), l[j].0, l[j].1, index);
    MergeSnoc(before, Label(AsMap(l[..j]), index), ToIndexedName(l[j].0, index), l[j].1);
  }

  lemma MergeSnoc(before: Kwargs, m: Kwargs, key: string, v: string)
    ensures before + m[key := v] == (before + m)[key := v]
  {
  }

  lemma LabelUpdate(m: Kwargs, k: string, v: string, index: nat)
    ensures Label(m[k := v], index) == Label(m, index)[ToIndexedName(k, index) := v]
  {
    hide Label, ToIndexedName;
    LabelInjective(index);
    var m' := m[k := v];
    var big, small := Label(m', index), Label(m, index);
    assert k in m';
    forall key ensures key in big <==> key in small || key == ToIndexedName(k, index) {
      if key in big {
        var k' :| k' in m' && key == ToIndexedName(k', index);
        assert k' == k || k' in m;
      }
      if key in small {
        var k' :| k' in m && key == ToIndexedName(k', index);
        assert k' in m';
      }
    }
    forall key | key in small && key != ToIndexedName(k, index) ensures big[key] == small[key] {
      var k' :| k' in m && key == ToIndexedName(k', index);
      assert k' in m' && m'[k'] == m[k'];
    }
  }

  lemma {:induction false} AsMapSnoc(l: seq<(string, string)>, e: (string, string))
    requires Distinct(l + [e])
    ensures AsMap(l + [e]) == AsMap(l)[e.0 := e.1]
  {
    if l == [] {
      assert l + [e] == [e] && [e][1..] == [];
    } else {
      assert (l + [e])[1..] == l[1..] + [e];
      AsMapSnoc(l[1..], e);
      assert l[0].0 != e.0 by {
        assert (l + [e])[0].0 != (l + [e])[|l|].0;
      }
    }
  }

  /** The clean-up of findMultiSDR. */
  function CleanUp(m: Kwargs): Kwargs {
    var a := m - {STOP};
    var b := if "driver" in a then (a - {"driver"})["multi:driver" := a["driver"]] else a;
    if "type" in b then (b - {"type"})["multi:type" := b["type"]] else b
  }

  /** It takes out the stop key, moves the device filters under the local prefix, and leaves the rest alone. */
  lemma CleanUpMeans(m: Kwargs, key: string)
    ensures var out := CleanUp(m);
            if key in {STOP, "driver", "type"} then key !in out
            else if key == "multi:driver" && "driver" in m then key in out && out[key] == m["driver"]
            else if key == "multi:type" && "type" in m then key in out && out[key] == m["type"]
            else (key in out <==> key in m) && (key in m ==> out[key] == m[key])
  {
    assert |STOP| == 21 && |"driver"| == 6 && |"type"| == 4 && |"multi:driver"| == 12 && |"multi:type"| == 10;
  }

  lemma NoBracketNotIndexed(s: string)
    requires '[' !in s
    ensures !IsIndexedName(s)
  {
    FindLastFinds(s, '[');
  }

  lemma AllIndexed(devs: seq<Kwargs>)
    ensures forall key :: key in Combine(devs) ==> IsIndexedName(key)
  {
    hide Combine, IsIndexedName, ToIndexedName;
    CombineKeys(devs);
    forall key | key in Combine(devs) ensures IsIndexedName(key) {
      var i: nat, k :| Names(devs, key, i, k);
      IndexedNameRoundTrip(k, i, i);
    }
  }

  /** The clean-up never finds anything to do: all keys of the combined result are indexed, its own are not. */
  lemma CleanUpIdle(devs: seq<Kwargs>)
    ensures CleanUp(Combine(devs)) == Combine(devs)
  {
    hide Combine, IsIndexedName;
    AllIndexed(devs);
    NoBracketNotIndexed(STOP);
    NoBracketNotIndexed("driver");
    NoBracketNotIndexed("type");
    var m := Combine(devs);
    assert m - {STOP} == m;
  }

  /** What the second loop of translateArgs adds for every device: the keys with the local prefix, stripped. */
  ghost function Leaked(args: Kwargs): Kwargs {
    LocalInjective(args);
    Renamed(args, Local)
  }

  lemma LocalInjective(args: Kwargs)
    ensures InjectiveOn(args, Local)
  {
    forall a, b | a in args && b in args && Local(a).To? && Local(a) == Local(b) ensures a == b {
      assert a == a[..|PREFIX|] + a[|PREFIX|..];
      assert b == b[..|PREFIX|] + b[|PREFIX|..];
    }
  }

  /** The wrapper's own filters. */
  ghost predicate Filters(extra: Kwargs) {
    extra.Keys <= {"driver", "type"}
  }

  /** key is one of the wrapper's own filters. */
  ghost predicate FilterArg(extra: Kwargs, key: string) {
    key in extra && (key == "driver" || key == "type") && !IsIndexedName(key) && !StartsWith(key, PREFIX)
  }

  /** key is device i's argument k, and parses as such. */
  ghost predicate DeviceArg(devs: seq<Kwargs>, ulongMax: nat, key: string, i: nat, k: string) {
    Names(devs, key, i, k) && IsIndexedName(key) && SplitIndexedName(key, ulongMax) == Split(k, i)
  }

  /** The keys of the arguments a combined result is made with. */
  lemma ArgKeys(devs: seq<Kwargs>, extra: Kwargs, ulongMax: nat, key: string)
    requires Filters(extra) && |devs| <= ulongMax + 1 && key in Combine(devs) + extra
    ensures FilterArg(extra, key) || exists i: nat, k :: DeviceArg(devs, ulongMax, key, i, k)
  {
    hide IsIndexedName, SplitIndexedName, Combine, ToIndexedName, StartsWith, Names;
    if key in extra {
      FilterKeys(key);
    } else {
      CombineKeys(devs);
      var i: nat, k :| Names(devs, key, i, k);
      DeviceKeyParses(devs, ulongMax, key, i, k);
    }
  }

  lemma DeviceKeyParses(devs: seq<Kwargs>, ulongMax: nat, key: string, i: nat, k: string)
    requires |devs| <= ulongMax + 1 && Names(devs, key, i, k)
    ensures DeviceArg(devs, ulongMax, key, i, k)
  {
    hide IsIndexedName, SplitIndexedName, ToIndexedName;
    IndexedNameRoundTrip(k, i, ulongMax);
  }

  lemma FilterKeys(key: string)
    requires key == "driver" || key == "type"
    ensures !IsIndexedName(key) && !StartsWith(key, PREFIX)
  {
    NoBracketNotIndexed(key);
    assert key[0] != PREFIX[0];
  }

  lemma PlainAddsNothing(devs: seq<Kwargs>, extra: Kwargs, ulongMax: nat)
    requires Filters(extra) && |devs| <= ulongMax + 1
    ensures InjectiveOn(Combine(devs) + extra, Plain) && Renamed(Combine(devs) + extra, Plain) == map[]
  {
    hide SplitIndexedName, IsIndexedName, Combine;
    forall key | key in Combine(devs) + extra ensures Plain(key).Skip? {
      ArgKeys(devs, extra, ulongMax, key);
    }
  }

  /** An argument labelled with index is that device's argument. */
  lemma LabelledKey(devs: seq<Kwargs>, extra: Kwargs, ulongMax: nat, index: nat, key: string)
    requires Filters(extra) && |devs| <= ulongMax + 1 && index < |devs|
    requires key in Combine(devs) + extra && Labelled(index, ulongMax)(key).To?
    ensures var k := Labelled(index, ulongMax)(key).key;
            k in devs[index] && key == ToIndexedName(k, index) && (Combine(devs) + extra)[key] == devs[index][k]
  {
    hide SplitIndexedName, IsIndexedName, Combine, ToIndexedName;
    ArgKeys(devs, extra, ulongMax, key);
    NotSplit(key, ulongMax);
    var i: nat, k :| DeviceArg(devs, ulongMax, key, i, k);
    NotAFilter(key, extra);
    CombineKeys(devs);
  }

  /** And every argument of that device is labelled with it. */
  lemma LabelledHas(devs: seq<Kwargs>, extra: Kwargs, ulongMax: nat, index: nat, k: string)
    requires Filters(extra) && |devs| <= ulongMax + 1 && index < |devs| && k in devs[index]
    ensures ToIndexedName(k, index) in Combine(devs) + extra
    ensures Labelled(index, ulongMax)(ToIndexedName(k, index)) == To(k)
  {
    hide Combine;
    CombineKeys(devs);
    IndexedNameRoundTrip(k, index, ulongMax);
  }

  /** The third loop recovers exactly the device's own map. */
  lemma LabelledRecovers(devs: seq<Kwargs>, extra: Kwargs, ulongMax: nat, index: nat)
    requires Filters(extra) && |devs| <= ulongMax + 1 && index < |devs|
    ensures InjectiveOn(Combine(devs) + extra, Labelled(index, ulongMax))
    ensures Renamed(Combine(devs) + extra, Labelled(index, ulongMax)) == devs[index]
  {
    hide Labelled, Combine, Renamed, ToIndexedName, Filters;
    var args, f := Combine(devs) + extra, Labelled(index, ulongMax);
    forall key | key in args && f(key).To?
      ensures f(key).key in devs[index] && key == ToIndexedName(f(key).key, index)
              && args[key] == devs[index][f(key).key]
    {
      LabelledKey(devs, extra, ulongMax, index, key);
    }
    forall k | k in devs[index] ensures ToIndexedName(k, index) in args && f(ToIndexedName(k, index)) == To(k) {
      LabelledHas(devs, extra, ulongMax, index, k);
    }
    RenamedIs(args, f, devs[index]);
  }

  /** A map all of whose entries have a preimage, and which has all images, is the renamed map. */
  lemma RenamedIs(args: Kwargs, f: string -> Target, m: Kwargs)
    requires InjectiveOn(args, f)
    requires forall key :: key in args && f(key).To? ==> f(key).key in m && args[key] == m[f(key).key]
    requires forall k :: k in m ==> exists key :: key in args && f(key) == To(k)
    ensures Renamed(args, f) == m
  {
    hide Renamed;
    var r := Renamed(args, f);
    forall k | k in m ensures k in r && r[k] == m[k] {
      var key :| key in args && f(key) == To(k);
    }
  }

  lemma NotSplit(key: string, ulongMax: nat)
    ensures SplitIndexedName(key, ulongMax).Split? ==> IsIndexedName(key)
  {
  }

  lemma NotAFilter(key: string, extra: Kwargs)
    requires Filters(extra)
    ensures IsIndexedName(key) ==> key !in extra
  {
    if key in extra {
      NoBracketNotIndexed(key);
    }
  }

  /** The index loop finds the last device, if that has any argument at all. */
  lemma {:induction false} MaxIndexIs(l: seq<(string, string)>, ulongMax: nat, m: int, last: nat)
    requires forall j :: 0 <= j < |l| && IsIndexedName(l[j].0) ==>
               exists k, i: nat :: SplitIndexedName(l[j].0, ulongMax) == Split(k, i) && i <= last
    requires last < 0x8000_0000 && -1 <= m <= last
    requires m == last || exists j, k :: 0 <= j < |l| && SplitIndexedName(l[j].0, ulongMax) == Split(k, last)
    ensures MaxIndex(l, ulongMax, m) == (last, true)
    decreases |l|
  {
    hide IsIndexedName, SplitIndexedName;
    if l != [] {
      SplitKinds(l[0].0, ulongMax);
      var split := SplitIndexedName(l[0].0, ulongMax);
      var m' := if split.Split? && AsInt(split.index) > m then AsInt(split.index) else m;
      if !(m' == last) {
        var j, k :| 0 <= j < |l| && SplitIndexedName(l[j].0, ulongMax) == Split(k, last);
        assert l[1..][j - 1] == l[j];
      }
      MaxIndexIs(l[1..], ulongMax, m', last);
    }
  }

  lemma SplitKinds(s: string, ulongMax: nat)
    ensures SplitIndexedName(s, ulongMax).NotIndexed? <==> !IsIndexedName(s)
  {
  }

  /** The arguments of the device at index, as made from any labelled argument list. */
  lemma TranslateForDevice(devs: seq<Kwargs>, extra: Kwargs, l: seq<(string, string)>, ulongMax: nat, index: nat)
    requires Filters(extra) && |devs| <= ulongMax + 1 && index < |devs|
    requires Distinct(l) && AsMap(l) == Combine(devs) + extra
    ensures TranslateFor(l, index, ulongMax) == map[STOP := ""] + Leaked(Combine(devs) + extra) + devs[index]
  {
    hide Combine, Renamed, Plain, Local;
    var args := Combine(devs) + extra;
    PlainAddsNothing(devs, extra, ulongMax);
    InsertIsRenamed(l, Plain, map[STOP := ""]);
    assert map[STOP := ""] + map[] == map[STOP := ""];
    LocalInjective(args);
    InsertIsRenamed(l, Local, map[STOP := ""]);
    LabelledRecovers(devs, extra, ulongMax, index);
    InsertIsRenamed(l, Labelled(index, ulongMax), map[STOP := ""] + Leaked(args));
  }

  lemma DeviceCount(devs: seq<Kwargs>, extra: Kwargs, l: seq<(string, string)>, ulongMax: nat)
    requires Filters(extra) && 0 < |devs| <= ulongMax + 1 && |devs| <= 0x8000_0000 && devs[|devs| - 1] != map[]
    requires Distinct(l) && AsMap(l) == Combine(devs) + extra
    ensures MaxIndex(l, ulongMax, -1) == (|devs| - 1, true)
  {
    hide Combine, IsIndexedName, SplitIndexedName, ToIndexedName;
    var last := |devs| - 1;
    AsMapKeys(l);
    CombineKeys(devs);
    forall j | 0 <= j < |l| && IsIndexedName(l[j].0)
      ensures exists k, i: nat :: SplitIndexedName(l[j].0, ulongMax) == Split(k, i) && i <= last
    {
      ArgKeys(devs, extra, ulongMax, l[j].0);
    }
    var k :| k in devs[last];
    var key := ToIndexedName(k, last);
    assert key in AsMap(l);
    var j :| 0 <= j < |l| && l[j].0 == key;
    IndexedNameRoundTrip(k, last, ulongMax);
    assert SplitIndexedName(l[j].0, ulongMax) == Split(k, last);
    MaxIndexIs(l, ulongMax, -1, last);
  }

  /** Enumerate, then make: for any devices of which the last has an argument, any filters of the wrapper's own, and
      any iteration order, the combined result translates into exactly one map per device, and the i-th is device i's
      own map over the stop key and whatever carries the local prefix. */
  lemma EnumerateThenMake(devs: seq<Kwargs>, extra: Kwargs, l: seq<(string, string)>, ulongMax: nat)
    requires Filters(extra) && 0 < |devs| <= ulongMax + 1 && |devs| <= 0x8000_0000 && devs[|devs| - 1] != map[]
    requires Distinct(l) && AsMap(l) == CleanUp(Combine(devs)) + extra
    ensures MakeArgs(l, ulongMax).Ok? && |MakeArgs(l, ulongMax).maps| == |devs|
    ensures forall i :: 0 <= i < |devs| ==>
              MakeArgs(l, ulongMax).maps[i] == map[STOP := ""] + Leaked(Combine(devs) + extra) + devs[i]
  {
    hide Combine, CleanUp, TranslateFor, MaxIndex, AsMap, Distinct, Leaked, Filters;
    CleanUpIdle(devs);
    DeviceCount(devs, extra, l, ulongMax);
    NoStopKey(devs, extra, l);
    forall i | 0 <= i < |devs|
      ensures TranslateFor(l, i, ulongMax) == map[STOP := ""] + Leaked(Combine(devs) + extra) + devs[i]
    {
      TranslateForDevice(devs, extra, l, ulongMax, i);
    }
  }

  lemma NoStopKey(devs: seq<Kwargs>, extra: Kwargs, l: seq<(string, string)>)
    requires Filters(extra) && Distinct(l) && AsMap(l) == Combine(devs) + extra
    ensures forall i :: 0 <= i < |l| ==> l[i].0 != STOP
  {
    hide Combine, AsMap, Distinct, Filters, IsIndexedName;
    AsMapKeys(l);
    AllIndexed(devs);
    NoBracketNotIndexed(STOP);
    StopIsNoFilter(extra);
  }

  lemma StopIsNoFilter(extra: Kwargs)
    requires Filters(extra)
    ensures STOP !in extra
  {
    assert |STOP| == 21 && |"driver"| == 6 && |"type"| == 4;
  }

  /** No device argument starts with the local prefix. */
  ghost predicate NoPrefix(devs: seq<Kwargs>) {
    forall i: nat, k :: i < |devs| && k in devs[i] ==> !StartsWith(k, PREFIX)
  }

  /** Nothing carries the local prefix exactly when no device argument starts with it; the translated maps are then
      the devices' own maps over the stop key, with nothing leaking between devices. */
  lemma NothingLeaks(devs: seq<Kwargs>, extra: Kwargs, ulongMax: nat)
    requires Filters(extra) && |devs| <= ulongMax + 1
    ensures Leaked(Combine(devs) + extra) == map[] <==> NoPrefix(devs)
  {
    hide Combine, ToIndexedName, StartsWith, Local, Leaked;
    var args := Combine(devs) + extra;
    LeakedKeys(args);
    if NoPrefix(devs) {
      forall key | key in args ensures Local(key).Skip? {
        LocalSkips(devs, extra, ulongMax, key);
      }
      assert Leaked(args) == map[];
    } else {
      var i: nat, k :| i < |devs| && k in devs[i] && StartsWith(k, PREFIX);
      CombineKeys(devs);
      var key := ToIndexedName(k, i);
      assert key in Combine(devs);
      LocalTakes(k, i);
      assert key in args && Local(key).key in Leaked(args);
    }
  }

  /** Every argument that carries the local prefix has its stripped and labelled key among each device's own. */
  ghost predicate Shadowed(devs: seq<Kwargs>) {
    forall i: nat, k, j: nat :: i < |devs| && k in devs[i] && StartsWith(k, PREFIX) && j < |devs| ==>
      ToIndexedName(k[|PREFIX|..], i) in devs[j]
  }

  /** Making undoes enumerating, every device getting its own map over the stop key, if and only if whatever leaks is
      shadowed by each device's own arguments; in particular if no argument carries the local prefix. */
  lemma MakeUndoesEnumerate(devs: seq<Kwargs>, extra: Kwargs, l: seq<(string, string)>, ulongMax: nat)
    requires Filters(extra) && 0 < |devs| <= ulongMax + 1 && |devs| <= 0x8000_0000 && devs[|devs| - 1] != map[]
    requires Distinct(l) && AsMap(l) == CleanUp(Combine(devs)) + extra
    ensures MakeArgs(l, ulongMax) == Ok(seq(|devs|, i requires 0 <= i < |devs| => map[STOP := ""] + devs[i])) <==>
              Shadowed(devs)
    ensures NoPrefix(devs) ==> Shadowed(devs)
  {
    hide Combine, CleanUp, MakeArgs, Leaked, Shadowed, NoPrefix, AsMap, Distinct, Filters;
    EnumerateThenMake(devs, extra, l, ulongMax);
    var leaked := Leaked(Combine(devs) + extra);
    forall j | 0 <= j < |devs|
      ensures MakeArgs(l, ulongMax).maps[j] == map[STOP := ""] + devs[j] <==> leaked.Keys <= devs[j].Keys
    {
      LeakedNotStop(devs, extra, ulongMax);
      MergeKeeps(map[STOP := ""], leaked, devs[j]);
    }
    ShadowedIs(devs, extra, ulongMax);
    NoPrefixShadowed(devs);
    var own := seq(|devs|, i requires 0 <= i < |devs| => map[STOP := ""] + devs[i]);
    if forall j :: 0 <= j < |devs| ==> leaked.Keys <= devs[j].Keys {
      assert MakeArgs(l, ulongMax).maps == own;
    } else {
      var j :| 0 <= j < |devs| && !(leaked.Keys <= devs[j].Keys);
      assert MakeArgs(l, ulongMax).maps[j] != own[j];
    }
  }

  lemma NoPrefixShadowed(devs: seq<Kwargs>)
    ensures NoPrefix(devs) ==> Shadowed(devs)
  {
    hide StartsWith, ToIndexedName;
  }

  /** A middle layer is invisible exactly if the top covers it. */
  lemma MergeKeeps(base: Kwargs, middle: Kwargs, top: Kwargs)
    requires forall k :: k in middle ==> k !in base
    ensures base + middle + top == base + top <==> middle.Keys <= top.Keys
  {
    if base + middle + top == base + top {
      forall k | k in middle ensures k in top {
        assert k in base + middle + top;
      }
    }
  }

  /** The leaked keys are those of the prefixed arguments, stripped and labelled. */
  lemma LeakedAre(devs: seq<Kwargs>, extra: Kwargs, ulongMax: nat, key: string)
    requires Filters(extra) && |devs| <= ulongMax + 1
    ensures key in Leaked(Combine(devs) + extra) <==>
              exists i: nat, k :: LeaksAs(devs, i, k, key)
  {
    hide Combine, Leaked, Local, ToIndexedName, StartsWith, IsIndexedName, SplitIndexedName;
    var args := Combine(devs) + extra;
    LeakedKeys(args);
    if key in Leaked(args) {
      var from :| from in args && Local(from) == To(key);
      ArgKeys(devs, extra, ulongMax, from);
      LocalStarts(from);
      var i: nat, k :| DeviceArg(devs, ulongMax, from, i, k);
      PrefixOfLabel(k, i);
      LocalTakes(k, i);
      assert LeaksAs(devs, i, k, key);
    }
    if i: nat, k :| LeaksAs(devs, i, k, key) {
      CombineKeys(devs);
      LocalTakes(k, i);
      assert ToIndexedName(k, i) in args;
    }
  }

  lemma LocalStarts(key: string)
    ensures Local(key).To? <==> StartsWith(key, PREFIX)
  {
  }

  /** Device i's argument k carries the prefix and leaks under key. */
  ghost predicate LeaksAs(devs: seq<Kwargs>, i: nat, k: string, key: string) {
    i < |devs| && k in devs[i] && StartsWith(k, PREFIX) && key == ToIndexedName(k[|PREFIX|..], i)
  }

  lemma LeakedNotStop(devs: seq<Kwargs>, extra: Kwargs, ulongMax: nat)
    requires Filters(extra) && |devs| <= ulongMax + 1
    ensures STOP !in Leaked(Combine(devs) + extra)
  {
    hide Combine, Leaked, ToIndexedName;
    LeakedAre(devs, extra, ulongMax, STOP);
    if i: nat, k :| LeaksAs(devs, i, k, STOP) {
      StopIsNoLabel(k[|PREFIX|..], i);
    }
  }

  lemma StopIsNoLabel(name: string, i: nat)
    ensures ToIndexedName(name, i) != STOP
  {
    assert STOP[|STOP| - 1] == 'r';
  }

  lemma ShadowedIs(devs: seq<Kwargs>, extra: Kwargs, ulongMax: nat)
    requires Filters(extra) && |devs| <= ulongMax + 1
    ensures Shadowed(devs) <==>
              forall j :: 0 <= j < |devs| ==> Leaked(Combine(devs) + extra).Keys <= devs[j].Keys
  {
    hide Combine, Leaked, ToIndexedName;
    var leaked := Leaked(Combine(devs) + extra);
    if Shadowed(devs) {
      forall j, key | 0 <= j < |devs| && key in leaked ensures key in devs[j] {
        LeakedAre(devs, extra, ulongMax, key);
        var i: nat, k :| LeaksAs(devs, i, k, key);
      }
    }
    if forall j :: 0 <= j < |devs| ==> leaked.Keys <= devs[j].Keys {
      forall i: nat, k, j: nat | i < |devs| && k in devs[i] && StartsWith(k, PREFIX) && j < |devs|
        ensures ToIndexedName(k[|PREFIX|..], i) in devs[j]
      {
        var key := ToIndexedName(k[|PREFIX|..], i);
        assert LeaksAs(devs, i, k, key);
        LeakedAre(devs, extra, ulongMax, key);
      }
    }
  }

  /** The round trip fails for a single device with one prefixed argument: it is made with a second argument. */
  lemma PrefixBreaksRoundTrip(l: seq<(string, string)>, ulongMax: nat)
    requires Distinct(l) && AsMap(l) == CleanUp(Combine([map["multi:a" := "x"]]))
    ensures MakeArgs(l, ulongMax).Ok? && |MakeArgs(l, ulongMax).maps| == 1
    ensures "a[0]" in MakeArgs(l, ulongMax).maps[0]
    ensures MakeArgs(l, ulongMax) != Ok([map[STOP := ""] + map["multi:a" := "x"]])
  {
    hide Combine, CleanUp, MakeArgs, AsMap, Distinct;
    var dev: Kwargs := map["multi:a" := "x"];
    var k := "multi:a";
    assert StartsWith(k, PREFIX) && k[|PREFIX|..] == "a";
    assert ToIndexedName("a", 0) == "a[0]";
    assert AsMap(l) == CleanUp(Combine([dev])) + map[];
    assert k in dev && dev != map[];
    assert [dev][|[dev]| - 1] == dev;
    PrefixLeaksEverywhere([dev], map[], l, ulongMax, 0, k, 0);
    assert "a[0]" != k && "a[0]" != STOP by {
      assert |"a[0]"| == 4 && |k| == 7 && |STOP| == 21;
    }
    assert "a[0]" !in map[STOP := ""] + dev;
  }

  /** And it succeeds for one with a prefixed argument that its own arguments shadow: the prefix alone does not
      decide. */
  lemma ShadowedPrefixIsHarmless(l: seq<(string, string)>, ulongMax: nat)
    requires Distinct(l) && AsMap(l) == CleanUp(Combine([map["multi:a" := "x", "a[0]" := "y"]]))
    ensures !NoPrefix([map["multi:a" := "x", "a[0]" := "y"]])
    ensures MakeArgs(l, ulongMax) == Ok([map[STOP := ""] + map["multi:a" := "x", "a[0]" := "y"]])
  {
    hide Combine, CleanUp, MakeArgs, AsMap, Distinct;
    var dev: Kwargs := map["multi:a" := "x", "a[0]" := "y"];
    var k, own := "multi:a", "a[0]";
    assert StartsWith(k, PREFIX) && k[|PREFIX|..] == "a" && ToIndexedName("a", 0) == own;
    assert !StartsWith(own, PREFIX);
    assert AsMap(l) == CleanUp(Combine([dev])) + map[];
    assert k in dev && k in [dev][0];
    assert Shadowed([dev]);
    assert [dev][|[dev]| - 1] == dev;
    MakeUndoesEnumerate([dev], map[], l, ulongMax);
  }

  /** With a local prefix in one device's argument, every device gets the stripped key, and its map is no longer its own
      unless it had that key already. */
  lemma PrefixLeaksEverywhere(devs: seq<Kwargs>, extra: Kwargs, l: seq<(string, string)>, ulongMax: nat,
                              from: nat, k: string, to: nat)
    requires Filters(extra) && 0 < |devs| <= ulongMax + 1 && |devs| <= 0x8000_0000 && devs[|devs| - 1] != map[]
    requires Distinct(l) && AsMap(l) == CleanUp(Combine(devs)) + extra
    requires from < |devs| && to < |devs| && k in devs[from] && StartsWith(k, PREFIX)
    ensures MakeArgs(l, ulongMax).Ok? && |MakeArgs(l, ulongMax).maps| == |devs|
    ensures var key := ToIndexedName(k[|PREFIX|..], from);
            && key in MakeArgs(l, ulongMax).maps[to]
            && (key !in devs[to] ==> MakeArgs(l, ulongMax).maps[to] != map[STOP := ""] + devs[to])
  {
    hide Combine, CleanUp, MakeArgs, Leaked, AsMap, Distinct, Filters, ToIndexedName, Local;
    EnumerateThenMake(devs, extra, l, ulongMax);
    CombineKeys(devs);
    LeakedKeys(Combine(devs) + extra);
    LocalTakes(k, from);
    assert ToIndexedName(k, from) in Combine(devs) + extra;
    StopIsNoLabel(k[|PREFIX|..], from);
  }

  lemma LeakedKeys(args: Kwargs)
    ensures forall key :: key in args && Local(key).To? ==> Local(key).key in Leaked(args)
    ensures forall k :: k in Leaked(args) ==> exists key :: key in args && Local(key) == To(k)
  {
    hide Local, Renamed;
    LocalInjective(args);
  }

  lemma LocalSkips(devs: seq<Kwargs>, extra: Kwargs, ulongMax: nat, key: string)
    requires Filters(extra) && |devs| <= ulongMax + 1 && key in Combine(devs) + extra && NoPrefix(devs)
    ensures Local(key).Skip?
  {
    hide Combine, ToIndexedName, IsIndexedName, SplitIndexedName, StartsWith;
    ArgKeys(devs, extra, ulongMax, key);
    if i: nat, k :| DeviceArg(devs, ulongMax, key, i, k) {
      PrefixOfLabel(k, i);
    }
  }

  lemma LocalTakes(k: string, i: nat)
    requires StartsWith(k, PREFIX)
    ensures Local(ToIndexedName(k, i)) == To(ToIndexedName(k[|PREFIX|..], i))
  {
    PrefixOfLabel(k, i);
    assert ToIndexedName(k, i)[|PREFIX|..] == ToIndexedName(k[|PREFIX|..], i);
  }

  lemma PrefixOfLabel(k: string, i: nat)
    ensures StartsWith(ToIndexedName(k, i), PREFIX) <==> StartsWith(k, PREFIX)
  {
    var key := ToIndexedName(k, i);
    if |k| < |PREFIX| {
      assert key[|k|] == '[' && PREFIX[|k|] != '[';
    } else {
      assert key[..|PREFIX|] == k[..|PREFIX|];
    }
  }
}
