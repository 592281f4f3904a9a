/** The typehole registry's record (packages/extension/src/state.ts) and the
    single-step updates its operations hand to `setState`. Each update is a
    pure function from the old record to the new one; `Registry` applies them
    to its mutable `state` field. */
module HoleState {
  import opened Wrappers

  /** A typehole's id, as read from its recorder call. */
  type HoleId = string
  /** A source file's name. */
  type FileName = string

  /** A typehole the registry knows of: its id and the file it is in. */
  datatype Hole = Hole(id: HoleId, fileName: FileName)

  /** An editor position: zero-based line and character. */
  datatype Position = Position(line: nat, character: nat)
  /** The span a warning covers, given by its two ends. */
  datatype Range = Range(start: Position, end: Position)

  /** The registry's record. The samples are the runtime values recorded for
      a typehole, opaque to the registry, hence the type parameter. */
  datatype State<S> = State(
    nextUniqueId: nat,
    warnings: map<FileName, seq<Range>>,
    holes: seq<Hole>,
    samples: map<HoleId, seq<S>>)

  /** The record when the extension starts. */
  function Initial<S>(): State<S> {
    State(0, map[], [], map[])
  }

  /** `getWarnings`: a file's warnings; a file without an entry has none. */
  function WarningsOf<S>(st: State<S>, f: FileName): (r: seq<Range>)
    ensures f !in st.warnings ==> r == []
    ensures f in st.warnings ==> r == st.warnings[f]
  {
    if f in st.warnings then st.warnings[f] else []
  }

  /** `getSamples`: a typehole's samples; an id without an entry has none. */
  function SamplesOf<S>(st: State<S>, id: HoleId): (r: seq<S>)
    ensures id !in st.samples ==> r == []
    ensures id in st.samples ==> r == st.samples[id]
  {
    if id in st.samples then st.samples[id] else []
  }

  /** No element occurs twice. */
  predicate NoDuplicates<T(==)>(xs: seq<T>) {
    forall i, j :: 0 <= i < j < |xs| ==> xs[i] != xs[j]
  }

  /** What every record the registry reaches satisfies: no file lists the
      same span twice, and there are never more holes than were created. */
  ghost predicate Valid<S>(st: State<S>) {
    && |st.holes| <= st.nextUniqueId
    && forall f :: f in st.warnings ==> NoDuplicates(st.warnings[f])
  }

  lemma InitialValid<S>()
    ensures Valid(Initial<S>())
    ensures Initial<S>().holes == [] && Initial<S>().nextUniqueId == 0
    ensures forall f :: WarningsOf(Initial<S>(), f) == []
    ensures forall id :: SamplesOf(Initial<S>(), id) == []
  {
  }

  /** The `some` test of `addWarning`: a listed warning has the same start
      and the same end. Since a span is nothing but its ends, that is the
      span being listed. */
  function AlreadyWarned(ws: seq<Range>, r: Range): (b: bool)
    ensures b <==> r in ws
  {
    exists i :: 0 <= i < |ws| && ws[i].start == r.start && ws[i].end == r.end
  }

  /** `clearWarnings`' update: the file's list becomes empty. */
  function ClearedWarnings<S>(st: State<S>, f: FileName): (res: State<S>)
    ensures f in res.warnings && WarningsOf(res, f) == []
    ensures forall g :: g != f ==> WarningsOf(res, g) == WarningsOf(st, g)
    ensures res.holes == st.holes && res.samples == st.samples
    ensures res.nextUniqueId == st.nextUniqueId
  {
    st.(warnings := st.warnings[f := []])
  }

  /** `addWarning`'s update: nothing when the span is already listed for the
      file (no record is committed then), otherwise the span goes last. */
  function WithWarning<S>(st: State<S>, f: FileName, r: Range): (res: State<S>)
    ensures r in WarningsOf(res, f)
    ensures r in WarningsOf(st, f) ==> res == st
    ensures r !in WarningsOf(st, f) ==> WarningsOf(res, f) == WarningsOf(st, f) + [r]
    ensures forall g :: g != f ==> WarningsOf(res, g) == WarningsOf(st, g)
    ensures res.holes == st.holes && res.samples == st.samples
    ensures res.nextUniqueId == st.nextUniqueId
  {
    if AlreadyWarned(WarningsOf(st, f), r) then st
    else st.(warnings := st.warnings[f := WarningsOf(st, f) + [r]])
  }

  /** `addSample`'s update: the new sample goes in front of the old ones. */
  function WithSample<S>(st: State<S>, id: HoleId, s: S): (res: State<S>)
    ensures SamplesOf(res, id) == [s] + SamplesOf(st, id)
    ensures forall x :: x != id ==> SamplesOf(res, x) == SamplesOf(st, x)
    ensures res.holes == st.holes && res.warnings == st.warnings
    ensures res.nextUniqueId == st.nextUniqueId
  {
    st.(samples := st.samples[id := [s] + SamplesOf(st, id)])
  }

  /** `clearSamples`: the id's list becomes empty, whether or not it had
      one. */
  function WithoutSamples<S>(st: State<S>, id: HoleId): (res: State<S>)
    ensures id in res.samples && SamplesOf(res, id) == []
    ensures forall x :: x != id ==> SamplesOf(res, x) == SamplesOf(st, x)
    ensures res.holes == st.holes && res.warnings == st.warnings
    ensures res.nextUniqueId == st.nextUniqueId
  {
    st.(samples := st.samples[id := []])
  }

  /** `createTypehole`'s update: the hole goes after every existing one and
      the counter moves on by one. */
  function WithHole<S>(st: State<S>, id: HoleId, f: FileName): (res: State<S>)
    ensures res.holes == st.holes + [Hole(id, f)]
    ensures res.nextUniqueId == st.nextUniqueId + 1
    ensures res.warnings == st.warnings && res.samples == st.samples
  {
    st.(nextUniqueId := st.nextUniqueId + 1, holes := st.holes + [Hole(id, f)])
  }

  /** The holes whose id is not among `ids`, in their original order (the
      `filter` of `removeTypehole`, for a list of ids). */
  function DropAll(holes: seq<Hole>, ids: seq<HoleId>): (r: seq<Hole>)
    ensures |r| <= |holes|
    decreases |holes|
  {
    if |holes| == 0 then []
    else (if holes[0].id in ids then [] else [holes[0]]) + DropAll(holes[1..], ids)
  }

  /** A hole survives `DropAll` exactly when its id is not dropped. */
  lemma {:induction false} DropAllMembers(holes: seq<Hole>, ids: seq<HoleId>)
    ensures forall h :: h in DropAll(holes, ids) <==> h in holes && h.id !in ids
    decreases |holes|
  {
    if |holes| > 0 {
      assert holes == [holes[0]] + holes[1..];
      DropAllMembers(holes[1..], ids);
    }
  }

  /** `removeTypehole`'s update: every hole with the id goes, in whichever
      file it is, and the id's samples are cleared. */
  function WithoutHole<S>(st: State<S>, id: HoleId): (res: State<S>)
    ensures res.holes == DropAll(st.holes, [id])
    ensures id in res.samples && SamplesOf(res, id) == []
    ensures forall x :: x != id ==> SamplesOf(res, x) == SamplesOf(st, x)
    ensures res.warnings == st.warnings && res.nextUniqueId == st.nextUniqueId
  {
    WithoutSamples(st.(holes := DropAll(st.holes, [id])), id)
  }

  /** `getHole`: the first hole with the id, `None` when there is none. */
  function FindHole(holes: seq<Hole>, id: HoleId): (r: Option<Hole>)
    ensures r.None? <==> forall h :: h in holes ==> h.id != id
    ensures r.Some? ==> r.value in holes && r.value.id == id
    decreases |holes|
  {
    if |holes| == 0 then None
    else
      assert holes == [holes[0]] + holes[1..];
      if holes[0].id == id then Some(holes[0]) else FindHole(holes[1..], id)
  }

  /** `FindHole` returns the hole at the first index carrying the id. */
  lemma {:induction false} FindHoleFirst(holes: seq<Hole>, id: HoleId, i: nat)
    requires i < |holes| && holes[i].id == id
    requires forall j :: 0 <= j < i ==> holes[j].id != id
    ensures FindHole(holes, id) == Some(holes[i])
    decreases i
  {
    if i > 0 {
      assert holes[0].id != id;
      FindHoleFirst(holes[1..], id, i - 1);
    }
  }

  /** A new hole is what `getHole` finds for a fresh id; an id already
      present keeps finding its first hole. */
  lemma {:induction false} FindHoleAfterAppend(holes: seq<Hole>, id: HoleId, f: FileName)
    ensures FindHole(holes + [Hole(id, f)], id)
         == if FindHole(holes, id).Some? then FindHole(holes, id) else Some(Hole(id, f))
    decreases |holes|
  {
    if |holes| > 0 {
      assert (holes + [Hole(id, f)])[1..] == holes[1..] + [Hole(id, f)];
      FindHoleAfterAppend(holes[1..], id, f);
    }
  }

  /** In a list without duplicates, a listed element occurs exactly once. */
  lemma {:induction false} SingleCopy<T>(xs: seq<T>, x: T)
    requires NoDuplicates(xs) && x in xs
    ensures multiset(xs)[x] == 1
    decreases |xs|
  {
    assert xs == [xs[0]] + xs[1..];
    if xs[0] == x {
      assert x !in xs[1..] by {
        forall k | 0 <= k < |xs[1..]| ensures xs[1..][k] != x {
          assert xs[1..][k] == xs[k + 1];
        }
      }
    } else {
      SingleCopy(xs[1..], x);
    }
  }

  /** Adding a span a second time changes nothing. */
  lemma AddWarningIdempotent<S>(st: State<S>, f: FileName, r: Range)
    ensures WithWarning(WithWarning(st, f, r), f, r) == WithWarning(st, f, r)
  {
  }

  /** From a reachable record, however often a span is added, the file lists
      it exactly once. */
  lemma AddWarningSingleCopy<S>(st: State<S>, f: FileName, r: Range)
    requires Valid(st)
    ensures Valid(WithWarning(st, f, r))
    ensures multiset(WarningsOf(WithWarning(WithWarning(st, f, r), f, r), f))[r] == 1
  {
    var res := WithWarning(st, f, r);
    if r !in WarningsOf(st, f) {
      var ws := WarningsOf(st, f);
      assert NoDuplicates(ws);
      assert NoDuplicates(ws + [r]) by {
        forall i, j | 0 <= i < j < |ws + [r]| ensures (ws + [r])[i] != (ws + [r])[j] {
          if j == |ws| {
            assert (ws + [r])[i] == ws[i];
          } else {
            assert (ws + [r])[i] == ws[i] && (ws + [r])[j] == ws[j];
          }
        }
      }
      assert forall g :: g in res.warnings ==> NoDuplicates(res.warnings[g]) by {
        forall g | g in res.warnings ensures NoDuplicates(res.warnings[g]) {
          if g != f {
            assert res.warnings[g] == WarningsOf(st, g);
          }
        }
      }
    }
    assert NoDuplicates(WarningsOf(res, f));
    SingleCopy(WarningsOf(res, f), r);
  }

  /** Clearing a file's warnings keeps the record reachable. */
  lemma ClearedWarningsValid<S>(st: State<S>, f: FileName)
    requires Valid(st)
    ensures Valid(ClearedWarnings(st, f))
  {
    var res := ClearedWarnings(st, f);
    forall g | g in res.warnings ensures NoDuplicates(res.warnings[g]) {
      if g != f {
        assert res.warnings[g] == WarningsOf(st, g);
      }
    }
  }
}
