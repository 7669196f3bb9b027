/** Lifetime of the recovery RAM disk: when the image buffer and the protocol state are released
    relative to the Block IO interface that refers to them, over any number of recovery runs. */
module RamDisk {
  /** Every run of the recovery flow gets its own number. `installed` are the disks whose Block IO
      interface is published, `states` and `buffers` those whose protocol state and image buffer
      are still allocated. */
  datatype World = World(next: nat, installed: set<nat>, states: set<nat>, buffers: set<nat>)

  /** What firmware answers to each request a run may make; `true` is success. */
  datatype Answers = Answers(locate: bool, allocate: bool, read: bool, installBlockIo: bool, installPath: bool,
                             rollback: bool, chainload: bool, uninstallPath: bool, uninstallBlockIo: bool)

  /** Nothing published refers to released memory. */
  predicate Safe(w: World) {
    w.installed <= w.states && w.installed <= w.buffers
  }

  /** Every world recorded after the first `n` is safe. */
  predicate SafeSince(trail: seq<World>, n: nat) {
    forall i | n <= i < |trail| :: Safe(trail[i])
  }

  /** The run reaches the device-path install, is refused it, and is refused the rollback too. */
  predicate StuckHalfInstalled(a: Answers) {
    a.locate && a.allocate && a.read && a.installBlockIo && !a.installPath && !a.rollback
  }

  class Recovery {
    var next: nat
    var installed: set<nat>
    var states: set<nat>
    var buffers: set<nat>
    /** The world after every change of it. */
    ghost var trail: seq<World>

    ghost function Abs(): World
      reads this
    {
      World(next, installed, states, buffers)
    }

    constructor ()
      ensures Abs() == World(0, {}, {}, {}) && trail == []
    {
      next, installed, states, buffers, trail := 0, {}, {}, {}, [];
    }

    /** `register_ram_disk`: leak the protocol state, install Block IO, then the device path. A
        refused device path rolls Block IO back; a refused rollback keeps the state. */
    method RegisterRamDisk(id: nat, a: Answers) returns (ok: bool)
      requires id !in installed
      modifies this
      ensures ok <==> a.installBlockIo && a.installPath
      ensures next == old(next) && buffers == old(buffers)
      ensures installed == if a.installBlockIo && (a.installPath || !a.rollback) then old(installed) + {id} else old(installed)
      ensures states == if a.installBlockIo && !a.installPath && a.rollback then old(states) - {id} else old(states) + {id}
      ensures old(trail) <= trail
      ensures old(Safe(Abs())) && id in buffers ==> SafeSince(trail, |old(trail)|) && Safe(Abs())
    {
      states := states + {id};
      trail := trail + [Abs()];
      if !a.installBlockIo {
        return false;
      }
      installed := installed + {id};
      trail := trail + [Abs()];
      if !a.installPath {
        if a.rollback {
          installed := installed - {id};
          trail := trail + [Abs()];
          states := states - {id};
          trail := trail + [Abs()];
        }
        return false;
      }
      return true;
    }

    /** `RamDiskInstall::teardown`: uninstall the device path, then Block IO, then free the state. */
    method Teardown(id: nat, a: Answers) returns (ok: bool)
      modifies this
      ensures ok <==> a.uninstallPath && a.uninstallBlockIo
      ensures next == old(next) && buffers == old(buffers)
      ensures installed == if ok then old(installed) - {id} else old(installed)
      ensures states == if ok then old(states) - {id} else old(states)
      ensures old(trail) <= trail
      ensures old(Safe(Abs())) ==> SafeSince(trail, |old(trail)|) && Safe(Abs())
    {
      if !a.uninstallPath {
        return false;
      }
      if !a.uninstallBlockIo {
        return false;
      }
      installed := installed - {id};
      trail := trail + [Abs()];
      states := states - {id};
      trail := trail + [Abs()];
      return true;
    }

    /** `run_sre_flow`: the frame owns the buffer and drops it on every early return. */
    method RunSreFlow(a: Answers) returns (ok: bool)
      requires next !in installed && next !in states && next !in buffers
      modifies this
      ensures Abs() == After(old(Abs()), a)
      ensures ok <==> a.locate && a.allocate && a.read && a.installBlockIo && a.installPath && a.chainload
      ensures old(trail) <= trail
      ensures old(Safe(Abs())) ==> (SafeSince(trail, |old(trail)|) <==> !StuckHalfInstalled(a))
      ensures old(Safe(Abs())) ==> (Safe(Abs()) <==> !StuckHalfInstalled(a))
    {
      var id := next;
      next := next + 1;
      if !a.locate || !a.allocate {
        return false;
      }
      buffers := buffers + {id};
      trail := trail + [Abs()];
      if !a.read {
        buffers := buffers - {id};
        trail := trail + [Abs()];
        return false;
      }
      var registered := RegisterRamDisk(id, a);
      if !registered {
        buffers := buffers - {id};
        trail := trail + [Abs()];
        assert trail[|trail| - 1] == Abs();
        return false;
      }
      ok := a.chainload;
      var removed := Teardown(id, a);
      if removed {
        buffers := buffers - {id};
        trail := trail + [Abs()];
      }
    }
  }

  /** What one run leaves behind. */
  function After(w: World, a: Answers): World {
    var id := w.next;
    var v := w.(next := id + 1);
    if !a.locate || !a.allocate || !a.read then v
    else if !a.installBlockIo then v.(states := w.states + {id})
    else if !a.installPath && a.rollback then v
    else if !a.installPath then v.(installed := w.installed + {id}, states := w.states + {id})
    else if a.uninstallPath && a.uninstallBlockIo then v
    else v.(installed := w.installed + {id}, states := w.states + {id}, buffers := w.buffers + {id})
  }

  // What is left of a run, object by object: the interface if its removal was refused; the protocol
  // state with it, or alone if Block IO was refused; the buffer only behind a complete disk. Earlier
  // runs' objects are not touched.
  lemma RunLeaves(w: World, a: Answers, i: nat)
    requires Fresh(w)
    ensures var t := After(w, a);
            var reached := a.locate && a.allocate && a.read;
            var halfInstalled := a.installBlockIo && !a.installPath && !a.rollback;
            var complete := a.installBlockIo && a.installPath && !(a.uninstallPath && a.uninstallBlockIo);
            && t.next == w.next + 1
            && (i in t.installed <==> if i == w.next then reached && (halfInstalled || complete) else i in w.installed)
            && (i in t.states <==>
                  if i == w.next then reached && (!a.installBlockIo || halfInstalled || complete) else i in w.states)
            && (i in t.buffers <==> if i == w.next then reached && complete else i in w.buffers)
  {
  }

  function AfterAll(w: World, runs: seq<Answers>): World {
    if runs == [] then w else After(AfterAll(w, runs[..|runs| - 1]), runs[|runs| - 1])
  }

  /** Numbers are never reused, so a run starts on a number nothing refers to. */
  predicate Fresh(w: World) {
    && (forall i | i in w.installed :: i < w.next)
    && (forall i | i in w.states :: i < w.next)
    && (forall i | i in w.buffers :: i < w.next)
  }

  // Whichever requests firmware refuses, over any number of runs, memory behind a published
  // interface has been released exactly when some run was refused both the device path and the
  // rollback: that error path drops the buffer with Block IO still installed.
  lemma {:induction false} ReleasedOnlyWhenStuck(w: World, runs: seq<Answers>)
    requires Safe(w) && Fresh(w)
    ensures var t := AfterAll(w, runs);
            && Fresh(t)
            && (Safe(t) <==> forall i | 0 <= i < |runs| :: !StuckHalfInstalled(runs[i]))
  {
    if runs != [] {
      var n := |runs| - 1;
      var before := runs[..n];
      ReleasedOnlyWhenStuck(w, before);
      var u := AfterAll(w, before);
      StuckStep(u, runs[n]);
      if !Safe(u) {
        var i :| 0 <= i < |before| && StuckHalfInstalled(before[i]);
        assert StuckHalfInstalled(runs[i]);
      } else {
        assert forall i | 0 <= i < n :: !StuckHalfInstalled(before[i]);
        assert forall i | 0 <= i < n :: runs[i] == before[i];
      }
    }
  }

  // A dangling interface stays dangling: no later run reaches an earlier run's disk.
  lemma StuckStep(w: World, a: Answers)
    requires Fresh(w)
    ensures Fresh(After(w, a))
    ensures Safe(After(w, a)) <==> Safe(w) && !StuckHalfInstalled(a)
  {
    var t := After(w, a);
    if !Safe(w) {
      var i :| i in w.installed && (i !in w.states || i !in w.buffers);
      assert i in t.installed && (i !in t.states || i !in t.buffers);
    } else if StuckHalfInstalled(a) {
      assert w.next in t.installed && w.next !in t.buffers;
    }
  }

  // The shortest such history: one run, device path refused, rollback refused.
  lemma OneStuckRun()
    ensures var a := Answers(true, true, true, true, false, false, false, false, false);
            var w := World(0, {}, {}, {});
            Safe(w) && StuckHalfInstalled(a) && !Safe(After(w, a))
  {
    var w := After(World(0, {}, {}, {}), Answers(true, true, true, true, false, false, false, false, false));
    assert 0 in w.installed && 0 !in w.buffers;
  }
}
