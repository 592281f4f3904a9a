/** The registry (packages/extension/src/state.ts): one mutable record,
    replaced by every `setState`, with the snapshots `setState` emits on
    "change" kept as a ghost log. */
module Registry {
  import opened Wrappers
  import opened HoleState
  import opened Reconcile

  class Store<S> {
    /** The current record (`state`). */
    var state: State<S>
    /** Every snapshot emitted on "change", oldest first. */
    ghost var changes: seq<State<S>>

    /** The record is a reachable one. */
    ghost predicate Valid()
      reads this
    {
      HoleState.Valid(state)
    }

    /** The record the extension starts with; nothing emitted yet. */
    constructor ()
      ensures Valid()
      ensures state == Initial() && changes == []
    {
      state := Initial();
      changes := [];
      InitialValid<S>();
    }

    /** `getState`: the current record. */
    function GetState(): (r: State<S>)
      reads this
      ensures r == state
    {
      state
    }

    /** `getNextAvailableId`: the counter, never below the number of holes. */
    function GetNextAvailableId(): (r: nat)
      reads this
      ensures r == state.nextUniqueId
      ensures Valid() ==> |state.holes| <= r
    {
      state.nextUniqueId
    }

    /** `getWarnings`: the file's warnings, each span at most once. */
    function GetWarnings(f: FileName): (r: seq<Range>)
      reads this
      ensures r == WarningsOf(state, f)
      ensures Valid() ==> NoDuplicates(r)
    {
      WarningsOf(state, f)
    }

    /** `getSamples`: the typehole's samples, newest first. */
    function GetSamples(id: HoleId): (r: seq<S>)
      reads this
      ensures r == SamplesOf(state, id)
      ensures id !in state.samples ==> r == []
    {
      SamplesOf(state, id)
    }

    /** `getHole`: the first hole with the id. */
    function GetHole(id: HoleId): (r: Option<Hole>)
      reads this
      ensures r == FindHole(state.holes, id)
      ensures r.None? <==> forall h :: h in state.holes ==> h.id != id
    {
      FindHole(state.holes, id)
    }

    /** `setState`: the record is replaced and the new one emitted. Only
        the registry's own operations call it, each with a reachable
        record. */
    method SetState(newState: State<S>)
      requires HoleState.Valid(newState)
      modifies this
      ensures Valid()
      ensures state == newState
      ensures changes == old(changes) + [newState]
    {
      state := newState;
      changes := changes + [newState];
    }

    /** `clearWarnings` */
    method ClearWarnings(f: FileName)
      requires Valid()
      modifies this
      ensures Valid()
      ensures state == ClearedWarnings(old(state), f)
      ensures changes == old(changes) + [state]
    {
      ClearedWarningsValid(state, f);
      SetState(state.(warnings := state.warnings[f := []]));
    }

    /** `addWarning`: a span already listed for the file is neither added
        again nor emitted. */
    method AddWarning(f: FileName, r: Range)
      requires Valid()
      modifies this
      ensures Valid()
      ensures state == WithWarning(old(state), f, r)
      ensures changes == if r in WarningsOf(old(state), f) then old(changes) else old(changes) + [state]
    {
      var existing := GetWarnings(f);
      if AlreadyWarned(existing, r) {
        return;
      }
      AddWarningSingleCopy(state, f, r);
      SetState(state.(warnings := state.warnings[f := existing + [r]]));
    }

    /** `addSample`: returns the list it stores, the new sample first. */
    method AddSample(id: HoleId, s: S) returns (newSamples: seq<S>)
      requires Valid()
      modifies this
      ensures Valid()
      ensures state == WithSample(old(state), id, s)
      ensures newSamples == SamplesOf(state, id) == [s] + SamplesOf(old(state), id)
      ensures changes == old(changes) + [state]
    {
      var existing := GetSamples(id);
      newSamples := [s] + existing;
      assert HoleState.Valid(WithSample(state, id, s));
      SetState(state.(samples := state.samples[id := newSamples]));
    }

    /** `createTypehole` */
    method CreateTypehole(id: HoleId, f: FileName)
      requires Valid()
      modifies this
      ensures Valid()
      ensures state == WithHole(old(state), id, f)
      ensures changes == old(changes) + [state]
    {
      var hole := Hole(id, f);
      assert HoleState.Valid(WithHole(state, id, f));
      SetState(state.(nextUniqueId := state.nextUniqueId + 1, holes := state.holes + [hole]));
    }

    /** `removeTypehole` */
    method RemoveTypehole(id: HoleId)
      requires Valid()
      modifies this
      ensures Valid()
      ensures state == WithoutHole(old(state), id)
      ensures changes == old(changes) + [state]
    {
      assert HoleState.Valid(WithoutHole(state, id));
      SetState(WithoutSamples(state.(holes := DropAll(state.holes, [id])), id));
    }

    /** `onFileDeleted`: each of the file's holes is removed by id, one
        snapshot per hole; afterwards no hole names the file. */
    method OnFileDeleted(f: FileName)
      requires Valid()
      modifies this
      ensures Valid()
      ensures state == AfterFileDeleted(old(state), f)
      ensures changes == old(changes) + RemoveTrace(old(state), KnownIds(old(state).holes, f))
      ensures forall h :: h in state.holes ==> h.fileName != f
    {
      var known := KnownIds(state.holes, f);
      ghost var st0, ch0 := state, changes;
      var i := 0;
      while i < |known|
        invariant 0 <= i <= |known|
        invariant Valid()
        invariant state == RemoveAll(st0, known[..i])
        invariant changes == ch0 + RemoveTrace(st0, known[..i])
      {
        DeleteStep(st0, ch0, known, i, state, changes);
        RemoveTypehole(known[i]);
        i := i + 1;
      }
      assert known[..i] == known;
      FileDeletedEffect(st0, f);
    }

    /** The first loop of `onFileChanged`: every scanned id not among the
        known ones is created, in scan order, repeats included. */
    method CreateUnknown(f: FileName, scan: seq<HoleId>, known: seq<HoleId>)
      requires Valid()
      modifies this
      ensures Valid()
      ensures state == AddAll(old(state), Absent(scan, known), f)
      ensures changes == old(changes) + AddTrace(old(state), Absent(scan, known), f)
    {
      ghost var st0, ch0 := state, changes;
      var i := 0;
      while i < |scan|
        invariant 0 <= i <= |scan|
        invariant Valid()
        invariant state == AddAll(st0, Absent(scan[..i], known), f)
        invariant changes == ch0 + AddTrace(st0, Absent(scan[..i], known), f)
      {
        CreateStep(st0, ch0, scan, known, f, i, state, changes);
        if scan[i] !in known {
          CreateTypehole(scan[i], f);
        }
        i := i + 1;
      }
      assert scan[..i] == scan;
    }

    /** The second loop of `onFileChanged`: every known id the scan no
        longer finds is removed, in known order. */
    method RemoveVanished(known: seq<HoleId>, scan: seq<HoleId>)
      requires Valid()
      modifies this
      ensures Valid()
      ensures state == RemoveAll(old(state), Absent(known, scan))
      ensures changes == old(changes) + RemoveTrace(old(state), Absent(known, scan))
    {
      ghost var st0, ch0 := state, changes;
      var j := 0;
      while j < |known|
        invariant 0 <= j <= |known|
        invariant Valid()
        invariant state == RemoveAll(st0, Absent(known[..j], scan))
        invariant changes == ch0 + RemoveTrace(st0, Absent(known[..j], scan))
      {
        RemoveStep(st0, ch0, known, scan, j, state, changes);
        if known[j] !in scan {
          RemoveTypehole(known[j]);
        }
        j := j + 1;
      }
      assert known[..j] == known;
    }

    /** `onFileChanged` for a scan of the new text that found `scan`: the
        file's known ids are taken once, the unknown scanned ids created,
        then the vanished known ids removed, one snapshot per step.
        Afterwards the file's known ids are the scanned ones, and the same
        scan again would change nothing. */
    method OnFileChanged(f: FileName, scan: seq<HoleId>)
      requires Valid()
      modifies this
      ensures Valid()
      ensures state == AfterFileChanged(old(state), f, scan)
      ensures changes == old(changes) + FileChangedTrace(old(state), f, scan)
      ensures forall x :: x in KnownIds(state.holes, f) <==> x in scan
      ensures AfterFileChanged(state, f, scan) == state
    {
      var known := KnownIds(state.holes, f);
      ghost var st0, ch0 := state, changes;
      CreateUnknown(f, scan, known);
      ghost var ch1 := changes;
      RemoveVanished(known, scan);
      assert changes == ch0 + FileChangedTrace(st0, f, scan) by {
        assert changes == ch1 + RemoveTrace(AddAll(st0, NewIds(st0, f, scan), f), GoneIds(st0, f, scan));
        assert ch1 == ch0 + AddTrace(st0, NewIds(st0, f, scan), f);
        AppendAssoc(ch0, AddTrace(st0, NewIds(st0, f, scan), f),
                    RemoveTrace(AddAll(st0, NewIds(st0, f, scan), f), GoneIds(st0, f, scan)));
      }
      assert forall x :: x in KnownIds(state.holes, f) <==> x in scan by {
        FileChangedMatchesScan(st0, f, scan);
      }
      assert AfterFileChanged(state, f, scan) == state by {
        FileChangedIdempotent(st0, f, scan);
      }
    }
  }
}
