/**
 * The Rift S driver's global list of open HMDs (src/drv_oculus_rift_s/rift-s.c):
 * one entry per HID path, each HMD shared by the headset device and the two
 * touch controller devices and reference counted by `use_count`.  The list
 * is a sequence of entries in list order; the HMD objects are updated in
 * place.
 */
module RiftS {
  import opened Bytes
  import opened RiftSRadio
  import opened RiftSController

  datatype Entry = Entry(path: string, hmd: RiftSHmd)

  /** An open device: its HMD and its id (0 the headset, 1 and 2 the touch controllers). */
  datatype Device = Device(hmd: RiftSHmd, id: nat)

  function Paths(es: seq<Entry>): (r: seq<string>)
    ensures |r| == |es| && forall i :: 0 <= i < |es| ==> r[i] == es[i].path
  {
    if |es| == 0 then [] else [es[0].path] + Paths(es[1..])
  }

  function HmdSet(es: seq<Entry>): set<RiftSHmd>
  {
    set e | e in es :: e.hmd
  }

  function RadioSet(es: seq<Entry>): set<Radio>
  {
    set e | e in es :: e.hmd.radio
  }

  /** The index of the first entry holding `h`, or -1. */
  function HmdIndex(es: seq<Entry>, h: RiftSHmd): (r: int)
    ensures -1 <= r < |es|
    ensures r >= 0 ==> es[r].hmd == h && forall i :: 0 <= i < r ==> es[i].hmd != h
    ensures r == -1 <==> h !in HmdSet(es)
  {
    if |es| == 0 then -1
    else if es[0].hmd == h then 0
    else
      var r := HmdIndex(es[1..], h);
      assert forall e :: e in es[1..] ==> e in es;
      assert forall e :: e in es ==> e == es[0] || e in es[1..];
      if r < 0 then -1 else r + 1
  }

  /** The entries without the one at `k`. */
  function Unlink(es: seq<Entry>, k: nat): (r: seq<Entry>)
    requires k < |es|
    ensures |r| == |es| - 1
    ensures forall i :: 0 <= i < k ==> r[i] == es[i]
    ensures forall i :: k <= i < |r| ==> r[i] == es[i + 1]
  {
    es[..k] + es[k + 1..]
  }

  /**
   * `update_device`: the device with id 2 updates only when neither the
   * headset nor the left controller is opened, the device with id 1 only
   * when the headset is not opened, the headset always.
   */
  function UpdateRuns(id: nat, open: seq<bool>): (r: bool)
    requires |open| == 3
    ensures id <= 2 ==> (r <==> forall j :: 0 <= j < id ==> !open[j])
  {
    if id == 2 then !open[0] && !open[1]
    else if id == 1 then !open[0]
    else true
  }

  /** Whichever devices are opened, exactly one of them, the lowest, runs the update. */
  lemma OneUpdater(open: seq<bool>)
    requires |open| == 3 && (open[0] || open[1] || open[2])
    ensures exists id :: 0 <= id < 3 && open[id] && UpdateRuns(id, open)
    ensures forall a, b :: 0 <= a < b < 3 && open[a] && open[b] ==> !UpdateRuns(b, open)
  {
    if open[0] {
      assert UpdateRuns(0, open);
    } else if open[1] {
      assert UpdateRuns(1, open);
    } else {
      assert UpdateRuns(2, open);
    }
  }

  /** The `opened` flag of the device. */
  predicate IsOpen(d: Device)
    reads d.hmd
  {
    if d.id == 0 then d.hmd.hmdOpened
    else d.id <= |d.hmd.touchOpened| && d.hmd.touchOpened[d.id - 1]
  }

  /** One entry per path, and no HMD or radio shared between entries. */
  predicate EntriesDistinct(es: seq<Entry>)
  {
    forall i, j :: 0 <= i < j < |es| ==>
      es[i].path != es[j].path && es[i].hmd != es[j].hmd && es[i].hmd.radio != es[j].hmd.radio
  }

  /** Every listed HMD has a user, a working radio queue and its two touch devices. */
  ghost predicate Live(es: seq<Entry>)
    reads HmdSet(es), RadioSet(es)
  {
    forall i :: 0 <= i < |es| ==>
      es[i].hmd.useCount >= 1 && es[i].hmd.radio.Valid() && |es[i].hmd.touchOpened| == MAX_CONTROLLERS
  }

  lemma EntriesDistinctPush(e: Entry, es: seq<Entry>)
    requires EntriesDistinct(es)
    requires forall i :: 0 <= i < |es| ==> es[i].path != e.path && es[i].hmd != e.hmd && es[i].hmd.radio != e.hmd.radio
    ensures EntriesDistinct([e] + es)
  {
    var r := [e] + es;
    forall i, j | 0 <= i < j < |r|
      ensures r[i].path != r[j].path && r[i].hmd != r[j].hmd && r[i].hmd.radio != r[j].hmd.radio
    {
      assert r[j] == es[j - 1];
      if i > 0 {
        assert r[i] == es[i - 1];
      }
    }
  }

  lemma EntriesDistinctUnlink(es: seq<Entry>, k: nat)
    requires EntriesDistinct(es) && k < |es|
    ensures EntriesDistinct(Unlink(es, k))
  {
    var r := Unlink(es, k);
    forall i, j | 0 <= i < j < |r|
      ensures r[i].path != r[j].path && r[i].hmd != r[j].hmd && r[i].hmd.radio != r[j].hmd.radio
    {
      var i', j' := if i < k then i else i + 1, if j < k then j else j + 1;
      assert r[i] == es[i'] && r[j] == es[j'];
    }
  }

  class Registry {
    /** `rift_hmds`, head first. */
    var entries: seq<Entry>

    ghost predicate Valid()
      reads this, HmdSet(entries), RadioSet(entries)
    {
      EntriesDistinct(entries) && Live(entries)
    }

    constructor ()
      ensures Valid() && entries == []
    {
      entries := [];
    }

    /** `find_hmd`: the HMD opened on this path gains a user; no such HMD leaves everything as it was. */
    method FindHmd(path: string) returns (found: Option<RiftSHmd>)
      requires Valid()
      modifies HmdSet(entries)
      ensures Valid() && entries == old(entries)
      ensures found.None? <==> path !in Paths(entries)
      ensures found.Some? ==> Entry(path, found.value) in entries
      ensures forall i :: 0 <= i < |entries| ==>
        entries[i].hmd.useCount == old(entries[i].hmd.useCount) + (if entries[i].path == path then 1 else 0)
      ensures forall i :: 0 <= i < |entries| ==>
        entries[i].hmd.touchOpened == old(entries[i].hmd.touchOpened) &&
        entries[i].hmd.hmdOpened == old(entries[i].hmd.hmdOpened)
    {
      var k := 0;
      while k < |entries| && entries[k].path != path
        invariant k <= |entries| && forall i :: 0 <= i < k ==> entries[i].path != path
      {
        k := k + 1;
      }
      if k == |entries| {
        return None;
      }
      AddUser(k);
      found := Some(entries[k].hmd);
    }

    /** The `use_count++` of `find_hmd` on the entry at `k`. */
    method AddUser(k: nat)
      requires Valid() && k < |entries|
      modifies entries[k].hmd
      ensures Valid()
      ensures entries[k].hmd.useCount == old(entries[k].hmd.useCount) + 1
      ensures entries[k].hmd.touchOpened == old(entries[k].hmd.touchOpened)
      ensures entries[k].hmd.hmdOpened == old(entries[k].hmd.hmdOpened)
    {
      var h := entries[k].hmd;
      h.useCount := h.useCount + 1;
    }

    /** `push_hmd`: a newly opened HMD goes to the head of the list. */
    method PushHmd(h: RiftSHmd, path: string)
      requires Valid() && path !in Paths(entries)
      requires h !in HmdSet(entries) && h.radio !in RadioSet(entries)
      requires h.useCount >= 1 && h.radio.Valid() && |h.touchOpened| == MAX_CONTROLLERS
      modifies this
      ensures Valid() && entries == [Entry(path, h)] + old(entries)
    {
      ghost var es := entries;
      forall i | 0 <= i < |es|
        ensures es[i].path != path && es[i].hmd != h && es[i].hmd.radio != h.radio
      {
        assert es[i] in es;
      }
      EntriesDistinctPush(Entry(path, h), es);
      entries := [Entry(path, h)] + entries;
      assert forall i :: 1 <= i < |entries| ==> entries[i] == es[i - 1];
    }

    /**
     * `release_hmd`: an HMD with more than one user loses one; otherwise its
     * entry leaves the list and `close_hmd` fails every pending radio
     * command.  An HMD that is not listed only keeps its count.
     */
    method ReleaseHmd(h: RiftSHmd)
      requires Valid()
      modifies h, h.radio, this
      ensures Valid()
      ensures old(h.useCount) > 1 ==> entries == old(entries) && h.useCount == old(h.useCount) - 1
      ensures old(h.useCount) <= 1 && h in old(HmdSet(entries)) ==>
        entries == Unlink(old(entries), HmdIndex(old(entries), h))
      ensures old(h.useCount) <= 1 && h in old(HmdSet(entries)) ==>
        h.radio.pendingCommands == [] &&
        h.radio.completions == old(h.radio.completions) + Failures(old(h.radio.pendingCommands))
      ensures old(h.useCount) <= 1 && h !in old(HmdSet(entries)) ==> entries == old(entries)
      ensures forall i :: 0 <= i < |old(entries)| && old(entries)[i].hmd != h ==>
        old(entries)[i].hmd.useCount == old(entries[i].hmd.useCount)
      ensures h.hmdOpened == old(h.hmdOpened) && h.touchOpened == old(h.touchOpened)
    {
      if h.useCount > 1 {
        h.useCount := h.useCount - 1;
        return;
      }
      var k := 0;
      while k < |entries|
        invariant k <= |entries| && forall i :: 0 <= i < k ==> entries[i].hmd != h
      {
        if entries[k].hmd == h {
          CloseHmd(k);
          return;
        }
        k := k + 1;
      }
    }

    /** `close_hmd` on the entry at `k` (its radio queue fails), and the unlink. */
    method CloseHmd(k: nat)
      requires Valid() && k < |entries|
      modifies entries[k].hmd.radio, this
      ensures Valid() && entries == Unlink(old(entries), k)
      ensures old(entries[k].hmd).radio.pendingCommands == [] &&
              old(entries[k].hmd).radio.completions ==
                old(entries[k].hmd.radio.completions) + Failures(old(entries[k].hmd.radio.pendingCommands))
    {
      var h := entries[k].hmd;
      h.radio.Clear();
      EntriesDistinctUnlink(entries, k);
      entries := Unlink(entries, k);
    }

    /**
     * `open_device`: the HMD on this path gains a user, or, when there is
     * none, a new one is opened (`hmdOpens` says whether the HID devices
     * could be opened) with one user and pushed.  Id 0 is the headset and
     * ids 1 and 2 the touch controllers, and that device is marked opened;
     * any other id gives its user back and opens nothing.
     */
    method OpenDevice(path: string, id: nat, hmdOpens: bool) returns (dev: Option<Device>)
      requires Valid()
      modifies this, HmdSet(entries), RadioSet(entries)
      ensures Valid()
      ensures dev.Some? <==> id <= MAX_CONTROLLERS && (path in old(Paths(entries)) || hmdOpens)
      ensures dev.Some? ==> dev.value.id == id && Entry(path, dev.value.hmd) in entries && IsOpen(dev.value)
      ensures path in old(Paths(entries)) || !hmdOpens || id > MAX_CONTROLLERS ==> entries == old(entries)
      ensures path !in old(Paths(entries)) && hmdOpens && id <= MAX_CONTROLLERS ==>
        |entries| == old(|entries|) + 1 && entries[1..] == old(entries) &&
        entries[0].path == path && fresh(entries[0].hmd) && entries[0].hmd.useCount == 1
      ensures forall i :: 0 <= i < |old(entries)| ==>
        old(entries)[i].hmd.useCount ==
          old(entries[i].hmd.useCount) + (if old(entries)[i].path == path && id <= MAX_CONTROLLERS then 1 else 0)
    {
      var found := FindHmd(path);
      if found.Some? {
        dev := AttachListed(found.value, id);
      } else if hmdOpens {
        dev := AttachNew(path, id);
      } else {
        dev := None;
      }
    }

    /** The rest of `open_device` once `find_hmd` has found the HMD and counted the new user. */
    method AttachListed(h: RiftSHmd, id: nat) returns (dev: Option<Device>)
      requires Valid() && h in HmdSet(entries) && h.useCount > 1
      modifies h
      ensures Valid() && entries == old(entries)
      ensures dev.Some? <==> id <= MAX_CONTROLLERS
      ensures dev.Some? ==> dev.value == Device(h, id) && IsOpen(dev.value)
      ensures h.useCount == old(h.useCount) - (if id <= MAX_CONTROLLERS then 0 else 1)
    {
      if id > MAX_CONTROLLERS {
        h.useCount := h.useCount - 1;
        return None;
      }
      MarkOpen(h, id);
      dev := Some(Device(h, id));
    }

    /** The rest of `open_device` for a path with no HMD yet: `open_hmd` and `push_hmd`. */
    method AttachNew(path: string, id: nat) returns (dev: Option<Device>)
      requires Valid() && path !in Paths(entries)
      modifies this
      ensures Valid()
      ensures dev.Some? <==> id <= MAX_CONTROLLERS
      ensures id > MAX_CONTROLLERS ==> entries == old(entries)
      ensures dev.Some? ==>
        dev.value.id == id && IsOpen(dev.value) && fresh(dev.value.hmd) && dev.value.hmd.useCount == 1 &&
        entries == [Entry(path, dev.value.hmd)] + old(entries)
    {
      var h := NewHmd(path);
      if id > MAX_CONTROLLERS {
        ReleaseHmd(h);
        assert HmdIndex([Entry(path, h)] + old(entries), h) == 0;
        return None;
      }
      MarkOpen(h, id);
      dev := Some(Device(h, id));
    }

    /** `open_hmd` followed by `push_hmd`: a new HMD with one user at the head of the list. */
    method NewHmd(path: string) returns (h: RiftSHmd)
      requires Valid() && path !in Paths(entries)
      modifies this
      ensures Valid() && fresh(h) && fresh(h.radio) && h.useCount == 1
      ensures entries == [Entry(path, h)] + old(entries)
    {
      h := new RiftSHmd();
      PushHmd(h, path);
    }

    /** Setting `opened` on the headset (id 0) or touch controller `id - 1` of a listed HMD. */
    method MarkOpen(h: RiftSHmd, id: nat)
      requires Valid() && h in HmdSet(entries) && id <= MAX_CONTROLLERS
      modifies h
      ensures Valid() && IsOpen(Device(h, id))
      ensures h.useCount == old(h.useCount)
    {
      if id == 0 {
        h.hmdOpened := true;
      } else {
        h.touchOpened := h.touchOpened[id - 1 := true];
      }
    }

    /** `close_device`: the device is no longer opened and its HMD loses a user. */
    method CloseDevice(dev: Device)
      requires Valid() && dev.hmd in HmdSet(entries) && dev.id <= MAX_CONTROLLERS
      modifies this, dev.hmd, dev.hmd.radio
      ensures Valid()
      ensures old(dev.hmd.useCount) > 1 ==>
        entries == old(entries) && dev.hmd.useCount == old(dev.hmd.useCount) - 1 && !IsOpen(dev)
      ensures old(dev.hmd.useCount) <= 1 ==> entries == Unlink(old(entries), HmdIndex(old(entries), dev.hmd))
      ensures forall i :: 0 <= i < |old(entries)| && old(entries)[i].hmd != dev.hmd ==>
        old(entries)[i].hmd.useCount == old(entries[i].hmd.useCount)
    {
      if dev.id == 0 {
        dev.hmd.hmdOpened := false;
      } else {
        dev.hmd.touchOpened := dev.hmd.touchOpened[dev.id - 1 := false];
      }
      ReleaseHmd(dev.hmd);
    }
  }
}
