/** `useHistory` (hooks/useHistory.ts) as a sequential state machine: a log
    of snapshots and the index of the one shown. A write either amends the
    shown snapshot in place or commits a new one after it, dropping anything
    that could have been redone. */
module UndoHistory {

  /** The log, the index of the shown snapshot, and the state the hook was
      created with, shown should the index ever point outside the log. */
  datatype History<T> = History(log: seq<T>, index: int, initial: T)

  /** What `set` receives: a new snapshot or a function of the current one. */
  datatype Update<!T> = Replace(value: T) | Transform(f: T -> T)

  function Apply<T>(u: Update<T>, base: T): T {
    match u
    case Replace(v) => v
    case Transform(f) => f(base)
  }

  /** The index points into the log. */
  predicate Valid<T>(h: History<T>) {
    0 <= h.index < |h.log|
  }

  /** A fresh hook: one snapshot, shown. */
  function New<T>(s: T): (h: History<T>)
    ensures Valid(h) && Current(h) == s && !CanUndo(h) && !CanRedo(h)
  {
    History([s], 0, s)
  }

  /** `current`: the shown snapshot, or the creation state if the index is
      outside the log. */
  function Current<T>(h: History<T>): (r: T)
    ensures Valid(h) ==> r == h.log[h.index]
    ensures !Valid(h) ==> r == h.initial
  {
    if 0 <= h.index < |h.log| then h.log[h.index] else h.initial
  }

  predicate CanUndo<T>(h: History<T>) {
    h.index > 0
  }

  predicate CanRedo<T>(h: History<T>) {
    h.index < |h.log| - 1
  }

  /** `set(u, true)`: the shown snapshot is overwritten by the update applied
      to it; with an index outside the log nothing changes. */
  function Amend<T>(h: History<T>, u: Update<T>): (r: History<T>)
    ensures |r.log| == |h.log| && r.index == h.index && r.initial == h.initial
    ensures Valid(h) ==> r.log[h.index] == Apply(u, h.log[h.index])
    ensures forall i | 0 <= i < |h.log| && i != h.index :: r.log[i] == h.log[i]
    ensures !Valid(h) ==> r == h
    ensures Valid(r) <==> Valid(h)
  {
    if 0 <= h.index < |h.log| then h.(log := h.log[h.index := Apply(u, h.log[h.index])]) else h
  }

  /** `set(u)`: the snapshots up to the shown one are kept, the update
      applied to the shown one is appended and shown. */
  function Commit<T>(h: History<T>, u: Update<T>): (r: History<T>)
    requires Valid(h)
    ensures Valid(r) && r.index == h.index + 1 && |r.log| == h.index + 2
    ensures r.log[..h.index + 1] == h.log[..h.index + 1]
    ensures Current(r) == Apply(u, Current(h))
    ensures CanUndo(r) && !CanRedo(r)
    ensures r.initial == h.initial
  {
    History(h.log[..h.index + 1] + [Apply(u, h.log[h.index])], h.index + 1, h.initial)
  }

  /** `undo`: one step back when there is one. */
  function Undo<T>(h: History<T>): (r: History<T>)
    ensures r.log == h.log && r.initial == h.initial
    ensures CanUndo(h) ==> r.index == h.index - 1
    ensures !CanUndo(h) ==> r == h
    ensures Valid(h) ==> Valid(r)
  {
    if h.index > 0 then h.(index := h.index - 1) else h
  }

  /** `redo`: one step forward when there is one. */
  function Redo<T>(h: History<T>): (r: History<T>)
    ensures r.log == h.log && r.initial == h.initial
    ensures CanRedo(h) ==> r.index == h.index + 1
    ensures !CanRedo(h) ==> r == h
    ensures Valid(h) ==> Valid(r)
  {
    if h.index < |h.log| - 1 then h.(index := h.index + 1) else h
  }

  /** `reset(s)`: the log is just `s`; the creation state stays. */
  function Reset<T>(h: History<T>, s: T): (r: History<T>)
    ensures Valid(r) && Current(r) == s && !CanUndo(r) && !CanRedo(r)
    ensures r.initial == h.initial
  {
    History([s], 0, h.initial)
  }

  // ----- round trips -----------------------------------------------------------

  lemma UndoThenRedo<T>(h: History<T>)
    requires Valid(h) && CanUndo(h)
    ensures Redo(Undo(h)) == h
  {
  }

  lemma RedoThenUndo<T>(h: History<T>)
    requires Valid(h) && CanRedo(h)
    ensures Undo(Redo(h)) == h
  {
  }

  /** Undo right after a commit shows again what was shown before it, with
      the earlier snapshots untouched. */
  lemma UndoAfterCommit<T>(h: History<T>, u: Update<T>)
    requires Valid(h)
    ensures var r := Undo(Commit(h, u));
      && Valid(r) && r.index == h.index && Current(r) == Current(h)
      && |r.log| == h.index + 2 && r.log[..h.index] == h.log[..h.index]
  {
    var c := Commit(h, u);
    assert c.log[h.index] == c.log[..h.index + 1][h.index];
    assert c.log[..h.index] == c.log[..h.index + 1][..h.index];
  }

  /** Amends followed by a commit: undo shows the amended snapshot, and the
      entries before the shown one are untouched. */
  lemma UndoAfterAmendsCommit<T>(h: History<T>, us: seq<Update<T>>, u: Update<T>)
    requires Valid(h)
    ensures var a := Amends(h, us);
      var r := Commit(a, u);
      && Current(Undo(r)) == Current(a)
      && |r.log| == h.index + 2
      && r.log[..h.index] == h.log[..h.index]
  {
    var a := Amends(h, us);
    UndoAfterCommit(a, u);
    assert a.log[..h.index] == h.log[..h.index];
  }

  /** A commit after an undo drops the snapshot that could have been redone. */
  lemma CommitDropsRedo<T>(h: History<T>, u: Update<T>)
    requires Valid(h) && CanUndo(h)
    ensures var r := Commit(Undo(h), u);
      |r.log| == h.index + 1 && r.index == h.index && r.log[..h.index] == h.log[..h.index]
  {
  }

  /** The commits of `us`, in order. */
  function Commits<T>(h: History<T>, us: seq<Update<T>>): (r: History<T>)
    requires Valid(h)
    ensures Valid(r) && r.index == h.index + |us| && r.initial == h.initial
    ensures |us| > 0 ==> |r.log| == r.index + 1
    ensures r.log[..h.index + 1] == h.log[..h.index + 1]
    decreases |us|
  {
    if |us| == 0 then h
    else
      var next := Commit(h, us[0]);
      var r := Commits(next, us[1..]);
      assert r.log[..h.index + 1] == next.log[..next.index + 1][..h.index + 1];
      r
  }

  /** `k` undos. */
  function UndoN<T>(h: History<T>, k: nat): History<T>
    decreases k
  {
    if k == 0 then h else UndoN(Undo(h), k - 1)
  }

  /** `k` redos. */
  function RedoN<T>(h: History<T>, k: nat): History<T>
    decreases k
  {
    if k == 0 then h else RedoN(Redo(h), k - 1)
  }

  lemma {:induction false} UndoNSteps<T>(h: History<T>, k: nat)
    requires Valid(h) && k <= h.index
    ensures UndoN(h, k) == h.(index := h.index - k)
    decreases k
  {
    if k > 0 {
      UndoNSteps(Undo(h), k - 1);
    }
  }

  lemma {:induction false} RedoNSteps<T>(h: History<T>, k: nat)
    requires Valid(h) && h.index + k < |h.log|
    ensures RedoN(h, k) == h.(index := h.index + k)
    decreases k
  {
    if k > 0 {
      RedoNSteps(Redo(h), k - 1);
    }
  }

  /** `k` commits then `k` undos show the snapshot shown before the commits;
      `k` redos after that come back to where the commits left off. */
  lemma CommitsUndoRedo<T>(h: History<T>, us: seq<Update<T>>)
    requires Valid(h)
    ensures var c := Commits(h, us);
      && Current(UndoN(c, |us|)) == Current(h)
      && RedoN(UndoN(c, |us|), |us|) == c
  {
    var c := Commits(h, us);
    var k := |us|;
    UndoNSteps(c, k);
    var u := UndoN(c, k);
    assert u.index == h.index;
    assert u.log[..h.index + 1] == h.log[..h.index + 1];
    assert u.log[h.index] == u.log[..h.index + 1][h.index];
    if k > 0 {
      RedoNSteps(u, k);
    }
  }

  /** The amends of `us`, in order. */
  function Amends<T>(h: History<T>, us: seq<Update<T>>): (r: History<T>)
    ensures |r.log| == |h.log| && r.index == h.index && r.initial == h.initial
    ensures forall i | 0 <= i < |h.log| && i != h.index :: r.log[i] == h.log[i]
    ensures Valid(r) <==> Valid(h)
    decreases |us|
  {
    if |us| == 0 then h else Amends(Amend(h, us[0]), us[1..])
  }

  /** The updates of `us` applied one after another. */
  function ApplyAll<T>(us: seq<Update<T>>, s: T): T
    decreases |us|
  {
    if |us| == 0 then s else ApplyAll(us[1..], Apply(us[0], s))
  }

  /** After amends, the shown snapshot is the old one with every update
      applied in order. */
  lemma {:induction false} AmendsShowAll<T>(h: History<T>, us: seq<Update<T>>)
    requires Valid(h)
    ensures Current(Amends(h, us)) == ApplyAll(us, Current(h))
    decreases |us|
  {
    if |us| > 0 {
      AmendsShowAll(Amend(h, us[0]), us[1..]);
    }
  }

  lemma {:induction false} ApplyAllSnoc<T>(us: seq<Update<T>>, u: Update<T>, s: T)
    ensures ApplyAll(us + [u], s) == Apply(u, ApplyAll(us, s))
    decreases |us|
  {
    if |us| > 0 {
      assert (us + [u])[1..] == us[1..] + [u];
      ApplyAllSnoc(us[1..], u, Apply(us[0], s));
    }
  }

  /** `set(prev => ({...prev}))`: a commit of an identical snapshot. */
  function Identity<T>(): Update<T> {
    Transform(x => x)
  }

  /** Amends followed by one identity commit (a drag in App.tsx): the log
      is cut after the shown entry and gains one more; the shown entry and
      the new one are both the amended snapshot, and the earlier entries are
      untouched. */
  lemma AmendsThenIdentityCommit<T>(h: History<T>, us: seq<Update<T>>)
    requires Valid(h)
    ensures var a := Amends(h, us);
      var r := Commit(a, Identity());
      && |r.log| == h.index + 2
      && r.log[h.index] == r.log[h.index + 1] == Current(a)
      && r.log[..h.index] == h.log[..h.index]
  {
    var a := Amends(h, us);
    var r := Commit(a, Identity());
    assert r.log[h.index] == r.log[..h.index + 1][h.index];
    forall i | 0 <= i < h.index ensures r.log[i] == h.log[i] {
      assert r.log[i] == r.log[..h.index + 1][i];
    }
  }
}
