// Device-state snapshots of libafl/syx-snapshot/device-save.c: which of the
// registered migration sections a save includes, the list of device
// sections, and the flag that tells devices a restore is under way.
module DeviceSave {

  /** DEVICE_SAVE_KIND_FULL, the only kind a save records. */
  const DEVICE_SAVE_KIND_FULL: nat := 0

  /** The section every save and listing skips. */
  const GLOBALSTATE: string := "globalstate"

  /** `DeviceSnapshotKind`. */
  datatype SnapshotKind = All | Allowlist | Denylist

  /** A `SaveStateEntry` of `savevm_state.handlers`, as far as the selection looks at it. */
  datatype Handler = Handler(idstr: string, isRam: bool)

  /**
   * A `DeviceSaveState`: its kind, and the sections whose state was written
   * to the save buffer, in order. The serialised bytes themselves are not
   * modelled.
   */
  datatype DeviceSaveState = DeviceSaveState(kind: nat, sections: seq<string>)

  /**
   * `is_in_list`: walk the NULL-terminated list (here: the elements before
   * the terminator) and report whether one equals `str`.
   */
  method IsInList(str: string, list: seq<string>) returns (found: bool)
    ensures found <==> str in list
  {
    var i := 0;
    while i < |list|
      invariant i <= |list|
      invariant str !in list[..i]
    {
      if list[i] == str {
        return true;
      }
      i := i + 1;
    }
    return false;
  }

  /** A section that is neither RAM nor the global state: a device. */
  predicate IsDevice(h: Handler)
  {
    !h.isRam && h.idstr != GLOBALSTATE
  }

  /** Whether a save of this kind writes the section. */
  predicate Selected(kind: SnapshotKind, names: seq<string>, h: Handler)
  {
    IsDevice(h) &&
    match kind
    case Allowlist => h.idstr in names
    case Denylist => h.idstr !in names
    case All => true
  }

  /** The idstrs of the handlers a save of this kind writes, in handler order. */
  function SelectedSections(kind: SnapshotKind, names: seq<string>, handlers: seq<Handler>): (ids: seq<string>)
    ensures |ids| <= |handlers|
  {
    if handlers == [] then []
    else
      SelectedSections(kind, names, handlers[..|handlers| - 1]) +
      (var h := handlers[|handlers| - 1]; if Selected(kind, names, h) then [h.idstr] else [])
  }

  /**
   * Every saved section is a device section; an allowlist save writes only
   * listed sections and a denylist save none of them.
   */
  lemma {:induction false} SelectedSectionsSound(kind: SnapshotKind, names: seq<string>, handlers: seq<Handler>, id: string)
    requires id in SelectedSections(kind, names, handlers)
    ensures exists h :: h in handlers && h.idstr == id && IsDevice(h)
    ensures id != GLOBALSTATE
    ensures kind == Allowlist ==> id in names
    ensures kind == Denylist ==> id !in names
  {
    var n := |handlers|;
    var h := handlers[n - 1];
    if id in SelectedSections(kind, names, handlers[..n - 1]) {
      SelectedSectionsSound(kind, names, handlers[..n - 1], id);
      var g :| g in handlers[..n - 1] && g.idstr == id && IsDevice(g);
      assert g in handlers;
    } else {
      assert Selected(kind, names, h) && h.idstr == id;
      assert h in handlers;
    }
  }

  /** Every device section the kind admits is saved. */
  lemma {:induction false} SelectedSectionsComplete(kind: SnapshotKind, names: seq<string>, handlers: seq<Handler>, k: nat)
    requires k < |handlers| && Selected(kind, names, handlers[k])
    ensures handlers[k].idstr in SelectedSections(kind, names, handlers)
  {
    var n := |handlers|;
    if k < n - 1 {
      assert handlers[..n - 1][k] == handlers[k];
      SelectedSectionsComplete(kind, names, handlers[..n - 1], k);
    }
  }

  /**
   * `device_save_kind`: walk the handlers, skipping RAM and the global
   * state and, for a list kind, the sections the list excludes; save each
   * remaining section. The result is always of kind FULL.
   */
  method DeviceSaveKind(kind: SnapshotKind, names: seq<string>, handlers: seq<Handler>) returns (dss: DeviceSaveState)
    ensures dss.kind == DEVICE_SAVE_KIND_FULL
    ensures dss.sections == SelectedSections(kind, names, handlers)
  {
    var saved: seq<string> := [];
    var i := 0;
    while i < |handlers|
      invariant i <= |handlers|
      invariant saved == SelectedSections(kind, names, handlers[..i])
    {
      var se := handlers[i];
      assert handlers[..i + 1][..i] == handlers[..i];
      if se.isRam {
        i := i + 1;
        continue;
      }
      if se.idstr == GLOBALSTATE {
        i := i + 1;
        continue;
      }
      if kind == Allowlist {
        var listed := IsInList(se.idstr, names);
        if !listed {
          i := i + 1;
          continue;
        }
      } else if kind == Denylist {
        var listed := IsInList(se.idstr, names);
        if listed {
          i := i + 1;
          continue;
        }
      }
      saved := saved + [se.idstr];
      i := i + 1;
    }
    assert handlers[..i] == handlers;
    dss := DeviceSaveState(DEVICE_SAVE_KIND_FULL, saved);
  }

  /** `device_save_all`: a save of kind ALL with no list. */
  method DeviceSaveAll(handlers: seq<Handler>) returns (dss: DeviceSaveState)
    ensures dss.kind == DEVICE_SAVE_KIND_FULL
    ensures dss.sections == SelectedSections(All, [], handlers)
  {
    dss := DeviceSaveKind(All, [], handlers);
  }

  /**
   * `device_list_all`: the idstrs of the device sections in handler order
   * (the NULL terminator is the end of the sequence).
   */
  method DeviceListAll(handlers: seq<Handler>) returns (list: seq<string>)
    ensures list == SelectedSections(All, [], handlers)
    ensures |list| <= |handlers|
  {
    list := [];
    var i := 0;
    while i < |handlers|
      invariant i <= |handlers|
      invariant list == SelectedSections(All, [], handlers[..i])
    {
      assert handlers[..i + 1][..i] == handlers[..i];
      var se := handlers[i];
      if !se.isRam && se.idstr != GLOBALSTATE {
        list := list + [se.idstr];
      }
      i := i + 1;
    }
    assert handlers[..i] == handlers;
  }

  /**
   * A denylist save with an empty list, an allowlist save listing every
   * device, and a save of kind ALL write the same sections as the device
   * listing.
   */
  lemma {:induction false} KindsAgreeWithListing(names: seq<string>, handlers: seq<Handler>)
    requires forall h :: h in handlers && IsDevice(h) ==> h.idstr in names
    ensures SelectedSections(Denylist, [], handlers) == SelectedSections(All, [], handlers)
    ensures SelectedSections(Allowlist, names, handlers) == SelectedSections(All, [], handlers)
  {
    if handlers != [] {
      var n := |handlers|;
      assert forall h :: h in handlers[..n - 1] ==> h in handlers;
      KindsAgreeWithListing(names, handlers[..n - 1]);
      assert handlers[n - 1] in handlers;
    }
  }

  /** `libafl_restoring_devices`. */
  class RestoreFlag {
    var restoring: bool

    constructor ()
      ensures !restoring
    {
      restoring := false;
    }

    /**
     * `device_restore_all`: the device state is loaded with the flag raised
     * (`duringLoad` is the value the devices observe), and the flag then
     * goes back to what it was, so nested restores keep it raised.
     */
    method DeviceRestoreAll() returns (duringLoad: bool)
      modifies this
      ensures duringLoad
      ensures restoring == old(restoring)
    {
      var saved := restoring;
      restoring := true;
      duringLoad := restoring;
      restoring := saved;
    }

    /** `libafl_devices_is_restoring`. */
    method IsRestoring() returns (b: bool)
      ensures b == restoring
    {
      b := restoring;
    }
  }
}
