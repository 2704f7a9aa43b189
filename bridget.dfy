/** The `Bridget` registry of bridget.py: a table of running bridges keyed by their
    spec, and the persisted list of settings entries it replays at start-up. */
module Bridget {
  import opened Wrappers
  import opened Lists
  import opened BridgeSpecs

  /** A running bridge: an opaque handle from the foreign `Bridge` constructor,
      together with the spec it was opened with. */
  datatype Bridge = Bridge(link: BridgeSpec, handle: nat)

  /** The exceptions the registry's operations raise. */
  datatype Error =
    | AlreadyExists               // RuntimeError("Bridge already exist.")
    | DoesNotExist                // RuntimeError("Bridge doesn't exist.")
    | NotInSettings               // ValueError from `list.remove` on a missing entry
    | OpenFailed                  // the foreign `Bridge` / `SysFS` constructor raised
    | ChangedSizeDuringIteration  // RuntimeError from a dict iterator after a deletion

  /** The keys the start-up replay registers, in order, when entry `e` of the persisted
      list is replayed through `add_bridge` and every failure is skipped. */
  function ReplayKeys(entries: seq<BridgeSettingsSpec>, open: BridgeSpec -> Option<nat>): (r: seq<BridgeSpec>)
    ensures |r| <= |entries|
    ensures forall k :: k in r ==> open(k).Some?
  {
    if entries == [] then []
    else
      var prev := ReplayKeys(entries[..|entries| - 1], open);
      match FromSettingsSpec(entries[|entries| - 1])
      case Failure(_) => prev
      case Success(spec) => if spec in prev || open(spec).None? then prev else prev + [spec]
  }

  /** The replay registers each link at most once, and registers exactly the links of
      entries that pass validation and open. */
  lemma {:induction false} ReplayKeysSpec(entries: seq<BridgeSettingsSpec>, open: BridgeSpec -> Option<nat>)
    ensures Distinct(ReplayKeys(entries, open))
    ensures forall k :: k in ReplayKeys(entries, open) <==>
              open(k).Some? && exists i :: 0 <= i < |entries| && FromSettingsSpec(entries[i]) == Success(k)
  {
    if entries != [] {
      var init := entries[..|entries| - 1];
      ReplayKeysSpec(init, open);
      forall k ensures k in ReplayKeys(entries, open) <==>
          open(k).Some? && exists i :: 0 <= i < |entries| && FromSettingsSpec(entries[i]) == Success(k)
      {
        if open(k).Some? && exists i :: 0 <= i < |entries| && FromSettingsSpec(entries[i]) == Success(k) {
          var i :| 0 <= i < |entries| && FromSettingsSpec(entries[i]) == Success(k);
          if i < |init| {
            assert init[i] == entries[i];
          }
        }
        if k in ReplayKeys(init, open) {
          var i :| 0 <= i < |init| && FromSettingsSpec(init[i]) == Success(k);
          assert entries[i] == init[i];
        }
      }
    }
  }

  /** The persisted entries of `keys`, in order. */
  function SettingsOf(keys: seq<BridgeSpec>): seq<BridgeSettingsSpec>
  {
    if keys == [] then [] else SettingsOf(keys[..|keys| - 1]) + [ToSettingsSpec(keys[|keys| - 1])]
  }

  /** The bridges `table` holds for `keys`, in order (keys without a bridge contribute nothing). */
  function HandlesOf(table: map<BridgeSpec, Bridge>, keys: seq<BridgeSpec>): seq<Bridge>
  {
    if keys == [] then []
    else
      var last := keys[|keys| - 1];
      HandlesOf(table, keys[..|keys| - 1]) + if last in table then [table[last]] else []
  }

  /** One step of a loop over a snapshot `keys`: the prefix done grows by `keys[i]`,
      and removing `keys[i]` from what is left leaves the rest. */
  lemma SnapshotStep(keys: seq<BridgeSpec>, i: nat, table: map<BridgeSpec, Bridge>)
    requires i < |keys| && keys[i] in table
    ensures SettingsOf(keys[..i + 1]) == SettingsOf(keys[..i]) + [ToSettingsSpec(keys[i])]
    ensures HandlesOf(table, keys[..i + 1]) == HandlesOf(table, keys[..i]) + [table[keys[i]]]
    ensures RemoveFirst(keys[i..], keys[i]) == keys[i + 1..]
  {
    assert keys[..i + 1][..i] == keys[..i];
    assert keys[i..][1..] == keys[i + 1..];
  }

  class Bridget {
    /** `_bridges`: the keys in insertion (iteration) order, and the table itself. */
    var order: seq<BridgeSpec>
    var bridges: map<BridgeSpec, Bridge>
    /** `_settings_manager.settings.specs`, and what the last `save()` wrote. */
    var specs: seq<BridgeSettingsSpec>
    var stored: seq<BridgeSettingsSpec>
    var saves: nat
    /** The bridges whose `stop()` has been called, in call order. */
    var stopped: seq<Bridge>

    /** The table's key order lists each key once; every bridge was opened with its
        key; every registered link has an entry in the persisted list. */
    ghost predicate Valid()
      reads this
    {
      && Distinct(order)
      && (forall k :: k in bridges <==> k in order)
      && (forall k :: k in bridges ==> bridges[k].link == k)
      && (forall k :: k in bridges ==> ToSettingsSpec(k) in specs)
    }

    /** `__init__`: load the persisted list, then replay every entry through
        `add_bridge`, skipping entries that fail validation, duplicate an earlier
        entry or fail to open. `open` gives the foreign constructor's outcome per link. */
    constructor (loaded: seq<BridgeSettingsSpec>, open: BridgeSpec -> Option<nat>)
      ensures Valid()
      ensures order == ReplayKeys(loaded, open)
      ensures forall k :: k in bridges ==> open(k) == Some(bridges[k].handle)
      ensures specs == loaded && stored == loaded && saves == 0 && stopped == []
    {
      order, bridges := [], map[];
      specs, stored, saves := loaded, loaded, 0;
      stopped := [];
      new;
      var i := 0;
      while i < |specs|
        invariant 0 <= i <= |loaded|
        invariant Valid()
        invariant order == ReplayKeys(loaded[..i], open)
        invariant forall k :: k in bridges ==> open(k) == Some(bridges[k].handle)
        invariant specs == loaded && stored == loaded && saves == 0 && stopped == []
        decreases |specs| - i
      {
        var entry := specs[i];
        assert loaded[..i + 1] == loaded[..i] + [entry];
        match FromSettingsSpec(entry) {
          case Failure(_) =>
          case Success(spec) =>
            assert ToSettingsSpec(spec) == entry && entry in specs;
            var added := AddBridge(spec, open(spec));
        }
        i := i + 1;
      }
      assert loaded[..i] == loaded;
    }

    /** `get_bridges`: every registered link exactly once, in insertion order. */
    method GetBridges() returns (r: seq<BridgeSpec>)
      requires Valid()
      ensures forall k :: k in r <==> k in bridges
      ensures Distinct(r)
      ensures r == order
    {
      r := order;
    }

    /** `add_bridge`. A link already in the table is refused and nothing changes; a link
        that fails to open changes nothing; otherwise it is registered, and its entry is
        appended to the persisted list and saved only when the list lacks it. */
    method AddBridge(spec: BridgeSpec, opening: Option<nat>) returns (r: Outcome<Error>)
      requires Valid()
      modifies this
      ensures Valid()
      ensures stopped == old(stopped)
      ensures spec in old(bridges) ==>
                r == Fail(AlreadyExists) && bridges == old(bridges) && order == old(order)
                && specs == old(specs) && stored == old(stored) && saves == old(saves)
      ensures spec !in old(bridges) && opening.None? ==>
                r == Fail(OpenFailed) && bridges == old(bridges) && order == old(order)
                && specs == old(specs) && stored == old(stored) && saves == old(saves)
      ensures spec !in old(bridges) && opening.Some? ==>
                && r == Pass
                && bridges == old(bridges)[spec := Bridge(spec, opening.value)]
                && order == old(order) + [spec]
                && (if ToSettingsSpec(spec) in old(specs)
                    then specs == old(specs) && stored == old(stored) && saves == old(saves)
                    else specs == old(specs) + [ToSettingsSpec(spec)] && stored == specs && saves == old(saves) + 1)
      ensures Distinct(old(specs)) ==> Distinct(specs)
    {
      if spec in bridges {
        return Fail(AlreadyExists);
      }
      if opening.None? {
        return Fail(OpenFailed);
      }
      bridges := bridges[spec := Bridge(spec, opening.value)];
      order := order + [spec];
      var entry := ToSettingsSpec(spec);
      if entry !in specs {
        specs := specs + [entry];
        stored, saves := specs, saves + 1;  // `save()`
      }
      r := Pass;
    }

    /** `remove_bridge`. The link is popped from the table; one copy of its entry is
        removed from the persisted list and saved; only then is a missing link reported,
        so persistence changes even on that error. A link whose entry is not in the list
        makes `list.remove` raise first: nothing is saved and nothing changes. */
    method RemoveBridge(spec: BridgeSpec) returns (r: Outcome<Error>)
      requires Valid()
      modifies this
      ensures Valid()
      ensures ToSettingsSpec(spec) !in old(specs) ==>
                && spec !in old(bridges) && r == Fail(NotInSettings)
                && bridges == old(bridges) && order == old(order) && specs == old(specs)
                && stored == old(stored) && saves == old(saves) && stopped == old(stopped)
      ensures ToSettingsSpec(spec) in old(specs) ==>
                && spec !in bridges && bridges == old(bridges) - {spec}
                && order == RemoveFirst(old(order), spec)
                && specs == RemoveFirst(old(specs), ToSettingsSpec(spec))
                && stored == specs && saves == old(saves) + 1
                && (spec in old(bridges) ==> r == Pass && stopped == old(stopped) + [old(bridges)[spec]])
                && (spec !in old(bridges) ==> r == Fail(DoesNotExist) && stopped == old(stopped))
    {
      var bridge: Option<Bridge> := None;
      if spec in bridges {
        bridge := Some(bridges[spec]);
        bridges := bridges - {spec};
        RemoveFirstDistinct(order, spec);
        forall k | k != spec ensures k in RemoveFirst(order, spec) <==> k in order {
          RemoveFirstKeepsOthers(order, spec, k);
        }
        order := RemoveFirst(order, spec);
      }
      var entry := ToSettingsSpec(spec);
      if entry !in specs {
        return Fail(NotInSettings);
      }
      forall k | k in bridges ensures ToSettingsSpec(k) in RemoveFirst(specs, entry) {
        if ToSettingsSpec(k) == entry {
          ToSettingsSpecInjective(k, spec);
        }
        RemoveFirstKeepsOthers(specs, entry, ToSettingsSpec(k));
      }
      specs := RemoveFirst(specs, entry);
      stored, saves := specs, saves + 1;  // `save()`
      if bridge.None? {
        return Fail(DoesNotExist);
      }
      stopped := stopped + [bridge.value];  // `bridge.stop()`
      r := Pass;
    }

    /** `stop` as written: it iterates the table while `remove_bridge` deletes from it.
        A dict iterator checks the table's size before each step, so after the first
        deletion the next step raises: only the first registered link is removed. */
    method Stop() returns (r: Outcome<Error>)
      requires Valid()
      modifies this
      ensures Valid()
      ensures old(order) == [] ==>
                r == Pass && order == old(order) && bridges == old(bridges) && specs == old(specs)
                && stored == old(stored) && saves == old(saves) && stopped == old(stopped)
      ensures old(order) != [] ==>
                var first := old(order)[0];
                && r == Fail(ChangedSizeDuringIteration)
                && order == old(order)[1..] && bridges == old(bridges) - {first}
                && specs == RemoveFirst(old(specs), ToSettingsSpec(first))
                && stored == specs && saves == old(saves) + 1
                && stopped == old(stopped) + [old(bridges)[first]]
    {
      var size := |order|;  // the iterator remembers the table's size
      var pos := 0;
      while true
        invariant Valid()
        invariant pos <= 1 && (pos == 1 ==> old(order) != [])
        invariant pos == 0 ==>
                    order == old(order) && bridges == old(bridges) && specs == old(specs)
                    && stored == old(stored) && saves == old(saves) && stopped == old(stopped)
        invariant pos == 1 ==>
                    var first := old(order)[0];
                    && |order| != size
                    && order == old(order)[1..] && bridges == old(bridges) - {first}
                    && specs == RemoveFirst(old(specs), ToSettingsSpec(first))
                    && stored == specs && saves == old(saves) + 1
                    && stopped == old(stopped) + [old(bridges)[first]]
        decreases 1 - pos
      {
        if |order| != size {
          return Fail(ChangedSizeDuringIteration);
        }
        if pos >= |order| {
          return Pass;
        }
        var spec := order[pos];
        pos := pos + 1;
        var removed := RemoveBridge(spec);
        assert removed == Pass;
      }
    }

    /** `stop` as intended: iterate a snapshot of the keys, so that every registered
        link is removed, its bridge stopped and one copy of its entry removed from the
        persisted list. */
    method StopAll() returns (r: Outcome<Error>)
      requires Valid()
      modifies this
      ensures Valid()
      ensures r == Pass && order == [] && bridges == map[]
      ensures specs == RemoveEach(old(specs), SettingsOf(old(order)))
      ensures saves == old(saves) + |old(order)|
      ensures old(order) != [] ==> stored == specs
      ensures old(order) == [] ==> stored == old(stored)
      ensures stopped == old(stopped) + HandlesOf(old(bridges), old(order))
    {
      var keys := order;
      ghost var table, entries := bridges, specs;
      for i := 0 to |keys|
        invariant Valid()
        invariant order == keys[i..]
        invariant forall k :: k in keys ==> k in table
        invariant forall k :: k in bridges ==> bridges[k] == table[k]
        invariant specs == RemoveEach(entries, SettingsOf(keys[..i]))
        invariant saves == old(saves) + i
        invariant i > 0 ==> stored == specs
        invariant i == 0 ==> stored == old(stored)
        invariant stopped == old(stopped) + HandlesOf(table, keys[..i])
      {
        var spec := keys[i];
        SnapshotStep(keys, i, table);
        assert spec in bridges && ToSettingsSpec(spec) in specs;
        AppendAssoc(old(stopped), HandlesOf(table, keys[..i]), [table[spec]]);
        var removed := RemoveBridge(spec);
        assert removed == Pass;
      }
      assert keys[..|keys|] == keys;
      r := Pass;
    }
  }

  /** A registry holding two links, stopped with `stop` as written: the call raises
      and the second link is still registered. */
  method StopLeavesSecondBridge(a: BridgeSpec, b: BridgeSpec) returns (r: Outcome<Error>, left: seq<BridgeSpec>)
    requires a != b
    ensures r == Fail(ChangedSizeDuringIteration)
    ensures left == [b]
  {
    var registry := new Bridget([], _ => None);
    var addedA := registry.AddBridge(a, Some(1));
    var addedB := registry.AddBridge(b, Some(2));
    r := registry.Stop();
    left := registry.GetBridges();
  }
}
