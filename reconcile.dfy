/** What `onFileChanged` and `onFileDeleted` (packages/extension/src/state.ts)
    do to the record, as folds of the single-step updates in the order the
    source's loops apply them, and what those folds amount to. */
module Reconcile {
  import opened HoleState

  /** The ids of a file's holes, in registry order (`knownIds`). */
  function KnownIds(holes: seq<Hole>, f: FileName): (r: seq<HoleId>)
    ensures |r| <= |holes|
    decreases |holes|
  {
    if |holes| == 0 then []
    else (if holes[0].fileName == f then [holes[0].id] else []) + KnownIds(holes[1..], f)
  }

  /** An id is known for the file exactly when the file has a hole with it. */
  lemma {:induction false} KnownIdsMembers(holes: seq<Hole>, f: FileName)
    ensures forall x :: x in KnownIds(holes, f) <==> Hole(x, f) in holes
    decreases |holes|
  {
    if |holes| > 0 {
      assert holes == [holes[0]] + holes[1..];
      KnownIdsMembers(holes[1..], f);
    }
  }

  /** The elements of `xs` not in `ys`, in their order in `xs`, repeats kept:
      the ids a `forEach` over `xs` acts on when it skips those `ys`
      includes. */
  function Absent(xs: seq<HoleId>, ys: seq<HoleId>): (r: seq<HoleId>)
    ensures |r| <= |xs|
  {
    if |xs| == 0 then []
    else Absent(xs[..|xs| - 1], ys) + (if xs[|xs| - 1] in ys then [] else [xs[|xs| - 1]])
  }

  /** `Absent` keeps exactly the elements of `xs` that `ys` lacks. */
  lemma {:induction false} AbsentMembers(xs: seq<HoleId>, ys: seq<HoleId>)
    ensures forall x :: x in Absent(xs, ys) <==> x in xs && x !in ys
  {
    if |xs| > 0 {
      assert xs == xs[..|xs| - 1] + [xs[|xs| - 1]];
      AbsentMembers(xs[..|xs| - 1], ys);
    }
  }

  /** The holes `createTypehole` makes for the ids, in order. */
  function HolesFor(ids: seq<HoleId>, f: FileName): (r: seq<Hole>)
    ensures |r| == |ids|
  {
    if |ids| == 0 then [] else HolesFor(ids[..|ids| - 1], f) + [Hole(ids[|ids| - 1], f)]
  }

  /** The holes made are those of the file carrying one of the ids. */
  lemma {:induction false} HolesForMembers(ids: seq<HoleId>, f: FileName)
    ensures forall h :: h in HolesFor(ids, f) <==> h.fileName == f && h.id in ids
  {
    if |ids| > 0 {
      assert ids == ids[..|ids| - 1] + [ids[|ids| - 1]];
      HolesForMembers(ids[..|ids| - 1], f);
    }
  }

  /** `createTypehole(id, f)` for each id, first to last. */
  function AddAll<S>(st: State<S>, ids: seq<HoleId>, f: FileName): State<S> {
    if |ids| == 0 then st else WithHole(AddAll(st, ids[..|ids| - 1], f), ids[|ids| - 1], f)
  }

  /** `removeTypehole(id)` for each id, first to last. */
  function RemoveAll<S>(st: State<S>, ids: seq<HoleId>): State<S> {
    if |ids| == 0 then st else WithoutHole(RemoveAll(st, ids[..|ids| - 1]), ids[|ids| - 1])
  }

  /** The snapshots `setState` emits while `AddAll` runs: one per id, each
      the record after that id's hole was created. */
  ghost function AddTrace<S>(st: State<S>, ids: seq<HoleId>, f: FileName): (r: seq<State<S>>)
    ensures |r| == |ids|
  {
    if |ids| == 0 then [] else AddTrace(st, ids[..|ids| - 1], f) + [AddAll(st, ids, f)]
  }

  /** The snapshots `setState` emits while `RemoveAll` runs. */
  ghost function RemoveTrace<S>(st: State<S>, ids: seq<HoleId>): (r: seq<State<S>>)
    ensures |r| == |ids|
  {
    if |ids| == 0 then [] else RemoveTrace(st, ids[..|ids| - 1]) + [RemoveAll(st, ids)]
  }

  /** The scanned ids the file did not know yet, in scan order. */
  function NewIds<S>(st: State<S>, f: FileName, scan: seq<HoleId>): (r: seq<HoleId>)
    ensures |r| <= |scan|
  {
    Absent(scan, KnownIds(st.holes, f))
  }

  /** The ids the file knew that the scan no longer finds. */
  function GoneIds<S>(st: State<S>, f: FileName, scan: seq<HoleId>): (r: seq<HoleId>)
    ensures |r| <= |st.holes|
  {
    Absent(KnownIds(st.holes, f), scan)
  }

  /** `onFileChanged(f, …)` for a scan that found `scan`: the known ids are
      taken once, up front; the new ones are created, then the vanished ones
      removed. The warnings are untouched and the counter rises by at most
      the number of scanned ids. */
  function AfterFileChanged<S>(st: State<S>, f: FileName, scan: seq<HoleId>): (r: State<S>)
    ensures r.warnings == st.warnings
    ensures st.nextUniqueId <= r.nextUniqueId <= st.nextUniqueId + |scan|
  {
    AddAllEffect(st, NewIds(st, f, scan), f);
    RemoveAllEffect(AddAll(st, NewIds(st, f, scan), f), GoneIds(st, f, scan));
    RemoveAll(AddAll(st, NewIds(st, f, scan), f), GoneIds(st, f, scan))
  }

  /** The snapshots `onFileChanged` emits. */
  ghost function FileChangedTrace<S>(st: State<S>, f: FileName, scan: seq<HoleId>): (r: seq<State<S>>)
    ensures |r| == |NewIds(st, f, scan)| + |GoneIds(st, f, scan)|
  {
    AddTrace(st, NewIds(st, f, scan), f)
      + RemoveTrace(AddAll(st, NewIds(st, f, scan), f), GoneIds(st, f, scan))
  }

  /** `onFileDeleted(f)`: each of the file's holes removed by id. No hole is
      added, and the warnings and the counter are untouched. */
  function AfterFileDeleted<S>(st: State<S>, f: FileName): (r: State<S>)
    ensures |r.holes| <= |st.holes|
    ensures r.warnings == st.warnings && r.nextUniqueId == st.nextUniqueId
  {
    RemoveAllEffect(st, KnownIds(st.holes, f));
    RemoveAll(st, KnownIds(st.holes, f))
  }

  /** Concatenation regroups freely (for the logs of emitted snapshots). */
  lemma AppendAssoc<T>(a: seq<T>, b: seq<T>, c: seq<T>)
    ensures (a + b) + c == a + (b + c)
  {
  }

  /** One more id for `Absent`: it is kept exactly when `ys` lacks it. */
  lemma AbsentSnoc(xs: seq<HoleId>, x: HoleId, ys: seq<HoleId>)
    ensures Absent(xs + [x], ys) == Absent(xs, ys) + (if x in ys then [] else [x])
  {
    assert (xs + [x])[..|xs|] == xs;
  }

  /** One more creation: the fold takes one more step, emitting one more
      snapshot. */
  lemma AddAllSnoc<S>(st: State<S>, ids: seq<HoleId>, x: HoleId, f: FileName, log: seq<State<S>>)
    ensures AddAll(st, ids + [x], f) == WithHole(AddAll(st, ids, f), x, f)
    ensures log + AddTrace(st, ids + [x], f) == (log + AddTrace(st, ids, f)) + [AddAll(st, ids + [x], f)]
  {
    assert (ids + [x])[..|ids|] == ids;
  }

  /** One more removal: the fold takes one more step, emitting one more
      snapshot. */
  lemma RemoveAllSnoc<S>(st: State<S>, ids: seq<HoleId>, x: HoleId, log: seq<State<S>>)
    ensures RemoveAll(st, ids + [x]) == WithoutHole(RemoveAll(st, ids), x)
    ensures log + RemoveTrace(st, ids + [x]) == (log + RemoveTrace(st, ids)) + [RemoveAll(st, ids + [x])]
  {
    assert (ids + [x])[..|ids|] == ids;
  }

  /** One turn of `onFileChanged`'s creation loop over `scan`: from the
      record and log after the first `i` ids, a known id leaves both as they
      are, an unknown one adds its hole and emits the result. */
  lemma CreateStep<S>(st0: State<S>, log0: seq<State<S>>, scan: seq<HoleId>, known: seq<HoleId>,
                      f: FileName, i: nat, cur: State<S>, log: seq<State<S>>)
    requires i < |scan|
    requires cur == AddAll(st0, Absent(scan[..i], known), f)
    requires log == log0 + AddTrace(st0, Absent(scan[..i], known), f)
    ensures scan[i] in known ==>
              && cur == AddAll(st0, Absent(scan[..i + 1], known), f)
              && log == log0 + AddTrace(st0, Absent(scan[..i + 1], known), f)
    ensures scan[i] !in known ==>
              && WithHole(cur, scan[i], f) == AddAll(st0, Absent(scan[..i + 1], known), f)
              && log + [WithHole(cur, scan[i], f)] == log0 + AddTrace(st0, Absent(scan[..i + 1], known), f)
  {
    var before, after := Absent(scan[..i], known), Absent(scan[..i + 1], known);
    assert after == if scan[i] in known then before else before + [scan[i]] by {
      assert scan[..i + 1] == scan[..i] + [scan[i]];
      AbsentSnoc(scan[..i], scan[i], known);
      assert before + [] == before;
    }
    if scan[i] !in known {
      AddAllSnoc(st0, before, scan[i], f, log0);
    }
  }

  /** One turn of `onFileChanged`'s removal loop over `known`. */
  lemma RemoveStep<S>(st0: State<S>, log0: seq<State<S>>, known: seq<HoleId>, scan: seq<HoleId>,
                      j: nat, cur: State<S>, log: seq<State<S>>)
    requires j < |known|
    requires cur == RemoveAll(st0, Absent(known[..j], scan))
    requires log == log0 + RemoveTrace(st0, Absent(known[..j], scan))
    ensures known[j] in scan ==>
              && cur == RemoveAll(st0, Absent(known[..j + 1], scan))
              && log == log0 + RemoveTrace(st0, Absent(known[..j + 1], scan))
    ensures known[j] !in scan ==>
              && WithoutHole(cur, known[j]) == RemoveAll(st0, Absent(known[..j + 1], scan))
              && log + [WithoutHole(cur, known[j])] == log0 + RemoveTrace(st0, Absent(known[..j + 1], scan))
  {
    var before, after := Absent(known[..j], scan), Absent(known[..j + 1], scan);
    assert after == if known[j] in scan then before else before + [known[j]] by {
      assert known[..j + 1] == known[..j] + [known[j]];
      AbsentSnoc(known[..j], known[j], scan);
      assert before + [] == before;
    }
    if known[j] !in scan {
      RemoveAllSnoc(st0, before, known[j], log0);
    }
  }

  /** One turn of `onFileDeleted`'s loop over the file's ids. */
  lemma DeleteStep<S>(st0: State<S>, log0: seq<State<S>>, ids: seq<HoleId>, i: nat,
                      cur: State<S>, log: seq<State<S>>)
    requires i < |ids|
    requires cur == RemoveAll(st0, ids[..i])
    requires log == log0 + RemoveTrace(st0, ids[..i])
    ensures WithoutHole(cur, ids[i]) == RemoveAll(st0, ids[..i + 1])
    ensures log + [WithoutHole(cur, ids[i])] == log0 + RemoveTrace(st0, ids[..i + 1])
  {
    assert ids[..i + 1] == ids[..i] + [ids[i]];
    RemoveAllSnoc(st0, ids[..i], ids[i], log0);
  }

  /** Creating holes appends them, in id order, after the existing ones, and
      moves the counter on by their number; nothing else changes. */
  lemma {:induction false} AddAllEffect<S>(st: State<S>, ids: seq<HoleId>, f: FileName)
    ensures AddAll(st, ids, f)
         == st.(nextUniqueId := st.nextUniqueId + |ids|, holes := st.holes + HolesFor(ids, f))
    decreases |ids|
  {
    if |ids| > 0 {
      AddAllEffect(st, ids[..|ids| - 1], f);
    }
  }

  /** Dropping one id after a list of them is dropping the longer list. */
  lemma {:induction false} DropAllThenDrop(holes: seq<Hole>, ids: seq<HoleId>, x: HoleId)
    ensures DropAll(DropAll(holes, ids), [x]) == DropAll(holes, ids + [x])
    decreases |holes|
  {
    if |holes| > 0 {
      DropAllThenDrop(holes[1..], ids, x);
      var head := if holes[0].id in ids then [] else [holes[0]];
      assert DropAll(holes, ids) == head + DropAll(holes[1..], ids);
      assert DropAll(head + DropAll(holes[1..], ids), [x])
          == DropAll(head, [x]) + DropAll(DropAll(holes[1..], ids), [x]) by {
        DropAllAppend(head, DropAll(holes[1..], ids), [x]);
      }
    }
  }

  /** Dropping distributes over concatenation. */
  lemma {:induction false} DropAllAppend(a: seq<Hole>, b: seq<Hole>, ids: seq<HoleId>)
    ensures DropAll(a + b, ids) == DropAll(a, ids) + DropAll(b, ids)
    decreases |a|
  {
    if |a| > 0 {
      assert (a + b)[0] == a[0] && (a + b)[1..] == a[1..] + b;
      DropAllAppend(a[1..], b, ids);
      var head := if a[0].id in ids then [] else [a[0]];
      assert DropAll(a + b, ids) == head + (DropAll(a[1..], ids) + DropAll(b, ids));
      assert DropAll(a, ids) == head + DropAll(a[1..], ids);
    } else {
      assert a + b == b;
    }
  }

  /** Dropping ids no hole carries keeps the holes as they are. */
  lemma {:induction false} DropAllNothing(holes: seq<Hole>, ids: seq<HoleId>)
    requires forall h :: h in holes ==> h.id !in ids
    ensures DropAll(holes, ids) == holes
    decreases |holes|
  {
    if |holes| > 0 {
      assert holes[0] in holes;
      DropAllNothing(holes[1..], ids);
    }
  }

  /** Removing holes drops every hole carrying one of the ids, from any file,
      keeping the order of the rest, and empties those ids' samples; the
      other samples, the warnings and the counter are untouched. */
  lemma {:induction false} RemoveAllEffect<S>(st: State<S>, ids: seq<HoleId>)
    ensures RemoveAll(st, ids).holes == DropAll(st.holes, ids)
    ensures RemoveAll(st, ids).warnings == st.warnings
    ensures RemoveAll(st, ids).nextUniqueId == st.nextUniqueId
    ensures forall x :: x in ids ==> SamplesOf(RemoveAll(st, ids), x) == []
    ensures forall x :: x !in ids ==> SamplesOf(RemoveAll(st, ids), x) == SamplesOf(st, x)
    decreases |ids|
  {
    if |ids| == 0 {
      DropAllNothing(st.holes, ids);
    } else {
      var init := ids[..|ids| - 1];
      assert ids == init + [ids[|ids| - 1]];
      RemoveAllEffect(st, init);
      DropAllThenDrop(st.holes, init, ids[|ids| - 1]);
    }
  }

  /** The new ids are all scanned ids and never vanished ones, so a change
      leaves the kept holes in their order and puts the new ones last. */
  lemma FileChangedEffect<S>(st: State<S>, f: FileName, scan: seq<HoleId>)
    ensures AfterFileChanged(st, f, scan).holes
         == DropAll(st.holes, GoneIds(st, f, scan)) + HolesFor(NewIds(st, f, scan), f)
    ensures AfterFileChanged(st, f, scan).nextUniqueId == st.nextUniqueId + |NewIds(st, f, scan)|
    ensures AfterFileChanged(st, f, scan).warnings == st.warnings
    ensures forall x :: x in GoneIds(st, f, scan) ==> SamplesOf(AfterFileChanged(st, f, scan), x) == []
    ensures forall x :: x !in GoneIds(st, f, scan) ==>
              SamplesOf(AfterFileChanged(st, f, scan), x) == SamplesOf(st, x)
  {
    var added, gone := NewIds(st, f, scan), GoneIds(st, f, scan);
    AddAllEffect(st, added, f);
    RemoveAllEffect(AddAll(st, added, f), gone);
    DropAllAppend(st.holes, HolesFor(added, f), gone);
    HolesForMembers(added, f);
    AbsentMembers(scan, KnownIds(st.holes, f));
    AbsentMembers(KnownIds(st.holes, f), scan);
    DropAllNothing(HolesFor(added, f), gone);
  }

  /** After a change the file's known ids are exactly the scanned ones. */
  lemma FileChangedMatchesScan<S>(st: State<S>, f: FileName, scan: seq<HoleId>)
    ensures forall x :: x in KnownIds(AfterFileChanged(st, f, scan).holes, f) <==> x in scan
  {
    FileChangedEffect(st, f, scan);
    var holes := AfterFileChanged(st, f, scan).holes;
    var added, gone := NewIds(st, f, scan), GoneIds(st, f, scan);
    KnownIdsMembers(holes, f);
    KnownIdsMembers(st.holes, f);
    DropAllMembers(st.holes, gone);
    HolesForMembers(added, f);
    AbsentMembers(scan, KnownIds(st.holes, f));
    AbsentMembers(KnownIds(st.holes, f), scan);
    forall x ensures Hole(x, f) in holes <==> x in scan {
      assert Hole(x, f) in holes <==> Hole(x, f) in DropAll(st.holes, gone) || Hole(x, f) in HolesFor(added, f);
    }
  }

  /** A scanned id keeps its samples; a known id the scan misses loses its
      samples and every hole carrying it, in this file or any other. */
  lemma FileChangedSamples<S>(st: State<S>, f: FileName, scan: seq<HoleId>, x: HoleId)
    ensures x in scan ==> SamplesOf(AfterFileChanged(st, f, scan), x) == SamplesOf(st, x)
    ensures x in KnownIds(st.holes, f) && x !in scan ==>
              SamplesOf(AfterFileChanged(st, f, scan), x) == []
              && forall h :: h in AfterFileChanged(st, f, scan).holes ==> h.id != x
  {
    FileChangedEffect(st, f, scan);
    DropAllMembers(st.holes, GoneIds(st, f, scan));
    HolesForMembers(NewIds(st, f, scan), f);
    AbsentMembers(scan, KnownIds(st.holes, f));
    AbsentMembers(KnownIds(st.holes, f), scan);
  }

  /** Holes of other files stay unless their id vanished from this file. */
  lemma FileChangedOtherFiles<S>(st: State<S>, f: FileName, scan: seq<HoleId>, h: Hole)
    requires h.fileName != f
    ensures h in AfterFileChanged(st, f, scan).holes <==> h in st.holes && h.id !in GoneIds(st, f, scan)
  {
    FileChangedEffect(st, f, scan);
    DropAllMembers(st.holes, GoneIds(st, f, scan));
    HolesForMembers(NewIds(st, f, scan), f);
  }

  /** No element of `xs` is missing from `ys`. */
  lemma AbsentNone(xs: seq<HoleId>, ys: seq<HoleId>)
    requires forall x :: x in xs ==> x in ys
    ensures Absent(xs, ys) == []
  {
    AbsentMembers(xs, ys);
    if Absent(xs, ys) != [] {
      assert Absent(xs, ys)[0] in Absent(xs, ys);
    }
  }

  /** Rescanning the same ids changes nothing: nothing is new, nothing has
      vanished, and no snapshot is emitted. This needs no distinctness of
      the scanned ids. */
  lemma FileChangedIdempotent<S>(st: State<S>, f: FileName, scan: seq<HoleId>)
    ensures NewIds(AfterFileChanged(st, f, scan), f, scan) == []
    ensures GoneIds(AfterFileChanged(st, f, scan), f, scan) == []
    ensures AfterFileChanged(AfterFileChanged(st, f, scan), f, scan) == AfterFileChanged(st, f, scan)
    ensures FileChangedTrace(AfterFileChanged(st, f, scan), f, scan) == []
  {
    var r := AfterFileChanged(st, f, scan);
    FileChangedMatchesScan(st, f, scan);
    KnownIdsMembers(r.holes, f);
    AbsentNone(scan, KnownIds(r.holes, f));
    AbsentNone(KnownIds(r.holes, f), scan);
  }

  /** An unknown id scanned twice gets two holes: the creations test the
      known ids taken before the loop, not the holes created during it. */
  lemma DuplicateScanTwoHoles<S>(st: State<S>, f: FileName, x: HoleId)
    requires KnownIds(st.holes, f) == []
    ensures AfterFileChanged(st, f, [x, x]).holes == st.holes + [Hole(x, f), Hole(x, f)]
    ensures AfterFileChanged(st, f, [x, x]).nextUniqueId == st.nextUniqueId + 2
  {
    assert [x, x][..1] == [x];
    assert NewIds(st, f, [x, x]) == [x, x] by {
      AbsentOfNothing([x, x]);
    }
    assert GoneIds(st, f, [x, x]) == [];
    AddAllEffect(st, [x, x], f);
    assert HolesFor([x, x], f) == [Hole(x, f), Hole(x, f)] by {
      assert HolesFor([x], f) == [Hole(x, f)];
    }
  }

  /** Deleting a file is a change to a scan that finds nothing. */
  lemma DeletedIsChangedToEmpty<S>(st: State<S>, f: FileName)
    ensures AfterFileDeleted(st, f) == AfterFileChanged(st, f, [])
  {
    assert NewIds(st, f, []) == [];
    var known := KnownIds(st.holes, f);
    assert GoneIds(st, f, []) == known by {
      AbsentOfNothing(known);
    }
  }

  /** Removing the missing from nothing removes nothing. */
  lemma {:induction false} AbsentOfNothing(xs: seq<HoleId>)
    ensures Absent(xs, []) == xs
  {
    if |xs| > 0 {
      AbsentOfNothing(xs[..|xs| - 1]);
      assert xs == xs[..|xs| - 1] + [xs[|xs| - 1]];
    }
  }

  /** After a file is deleted no hole names it; every hole that shared an id
      with one of its holes is gone too, and those ids' samples are empty. */
  lemma FileDeletedEffect<S>(st: State<S>, f: FileName)
    ensures forall h :: h in AfterFileDeleted(st, f).holes ==> h.fileName != f
    ensures forall h :: h in AfterFileDeleted(st, f).holes <==>
              h in st.holes && h.id !in KnownIds(st.holes, f)
    ensures forall x :: x in KnownIds(st.holes, f) ==> SamplesOf(AfterFileDeleted(st, f), x) == []
    ensures AfterFileDeleted(st, f).nextUniqueId == st.nextUniqueId
    ensures AfterFileDeleted(st, f).warnings == st.warnings
  {
    RemoveAllEffect(st, KnownIds(st.holes, f));
    DropAllMembers(st.holes, KnownIds(st.holes, f));
    KnownIdsMembers(st.holes, f);
    forall h | h in AfterFileDeleted(st, f).holes ensures h.fileName != f {
      assert h == Hole(h.id, h.fileName);
    }
  }

  /** Both reconciliations keep the record reachable. */
  lemma ReconcileValid<S>(st: State<S>, f: FileName, scan: seq<HoleId>)
    requires Valid(st)
    ensures Valid(AfterFileChanged(st, f, scan))
    ensures Valid(AfterFileDeleted(st, f))
  {
    var added := NewIds(st, f, scan);
    AddAllEffect(st, added, f);
    RemoveAllEffect(AddAll(st, added, f), GoneIds(st, f, scan));
    RemoveAllEffect(st, KnownIds(st.holes, f));
  }

  /** Opening an empty registry on a file whose scan finds `a`, `b`: both
      are created, in scan order. */
  lemma ScenarioOpen<S>(a: HoleId, b: HoleId, f: FileName)
    ensures AfterFileChanged(Initial<S>(), f, [a, b]).holes == [Hole(a, f), Hole(b, f)]
    ensures AfterFileChanged(Initial<S>(), f, [a, b]).nextUniqueId == 2
    ensures AfterFileChanged(Initial<S>(), f, [a, b]).samples == map[]
  {
    assert NewIds(Initial<S>(), f, [a, b]) == [a, b] by {
      AbsentOfNothing([a, b]);
    }
    assert GoneIds(Initial<S>(), f, [a, b]) == [];
    AddAllEffect(Initial<S>(), [a, b], f);
    assert HolesFor([a, b], f) == [Hole(a, f), Hole(b, f)] by {
      assert [a, b][..1] == [a];
      assert HolesFor([a], f) == [Hole(a, f)];
    }
  }

  /** Which ids a rescan with `b`, `c` of a file holding `a`, `b` adds and
      removes. */
  lemma RescanIds<S>(st: State<S>, a: HoleId, b: HoleId, c: HoleId, f: FileName)
    requires a != b && b != c && a != c
    requires st.holes == [Hole(a, f), Hole(b, f)]
    ensures KnownIds(st.holes, f) == [a, b]
    ensures NewIds(st, f, [b, c]) == [c]
    ensures GoneIds(st, f, [b, c]) == [a]
  {
    assert KnownIds(st.holes, f) == [a, b] by {
      assert st.holes[1..] == [Hole(b, f)];
    }
    assert Absent([b, c], [a, b]) == [c] by {
      assert [b, c][..1] == [b];
      assert Absent([b], [a, b]) == [] by {
        assert [b][..0] == [];
      }
    }
    assert Absent([a, b], [b, c]) == [a] by {
      assert [a, b][..1] == [a];
      assert Absent([a], [b, c]) == [a] by {
        assert [a][..0] == [];
      }
    }
  }

  /** Rescanning a file holding `a`, `b` with `b`, `c`: `a` goes with its
      samples, `b` stays with its samples, `c` is created after it. */
  lemma RescanEffect<S>(st: State<S>, a: HoleId, b: HoleId, c: HoleId, f: FileName)
    requires a != b && b != c && a != c
    requires st.holes == [Hole(a, f), Hole(b, f)]
    ensures AfterFileChanged(st, f, [b, c]).holes == [Hole(b, f), Hole(c, f)]
    ensures AfterFileChanged(st, f, [b, c]).nextUniqueId == st.nextUniqueId + 1
    ensures SamplesOf(AfterFileChanged(st, f, [b, c]), a) == []
    ensures SamplesOf(AfterFileChanged(st, f, [b, c]), b) == SamplesOf(st, b)
  {
    RescanIds(st, a, b, c, f);
    FileChangedEffect(st, f, [b, c]);
    assert DropAll(st.holes, [a]) == [Hole(b, f)] by {
      assert st.holes[1..] == [Hole(b, f)];
      assert DropAll([Hole(b, f)], [a]) == [Hole(b, f)] by {
        assert [Hole(b, f)][1..] == [];
      }
    }
    assert HolesFor([c], f) == [Hole(c, f)] by {
      assert [c][..0] == [];
    }
  }

  /** The whole story from an empty registry: scan `a`, `b`, record a sample
      for each, rescan with `b`, `c`. */
  lemma Scenario<S>(a: HoleId, b: HoleId, c: HoleId, f: FileName, s: S)
    requires a != b && b != c && a != c
    ensures var st1 := WithSample(WithSample(AfterFileChanged(Initial<S>(), f, [a, b]), a, s), b, s);
            var st2 := AfterFileChanged(st1, f, [b, c]);
            && st2.holes == [Hole(b, f), Hole(c, f)]
            && st2.nextUniqueId == 3
            && SamplesOf(st2, a) == []
            && SamplesOf(st2, b) == [s]
  {
    var st0 := AfterFileChanged(Initial<S>(), f, [a, b]);
    ScenarioOpen<S>(a, b, f);
    var st1 := WithSample(WithSample(st0, a, s), b, s);
    assert st1.holes == [Hole(a, f), Hole(b, f)] && st1.nextUniqueId == 2;
    assert SamplesOf(st1, b) == [s];
    RescanEffect(st1, a, b, c, f);
  }
}
