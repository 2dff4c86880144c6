/**
 Device selection of the scanner: the enumerated media devices are filtered
 down to the video inputs, the first of them is selected, and the camera view
 is switched on by itself only when there is exactly one.
 */
module DeviceSelection {

  /** One entry of the enumerated media device list. */
  datatype MediaDevice = MediaDevice(kind: string, deviceId: string, deviceLabel: string)

  /** The three pieces of component state that device selection sets. */
  datatype Selection = Selection(devices: seq<MediaDevice>, selectedDeviceId: string, showCamera: bool)

  const VideoInput: string := "videoinput"

  /** The state before the device list arrives: no devices, no selected
      id, camera view off. */
  const Initial: Selection := Selection([], "", false)

  /** The entries of kind "videoinput", in enumeration order. */
  function VideoInputs(all: seq<MediaDevice>): (r: seq<MediaDevice>)
    ensures |r| <= |all|
    ensures forall d :: d in r <==> d in all && d.kind == VideoInput
  {
    if all == [] then []
    else (if all[0].kind == VideoInput then [all[0]] else []) + VideoInputs(all[1..])
  }

  /** The state after the device list arrives, applied to the initial
      state. The camera view is only switched on with its single device
      selected, and without video inputs nothing changes. */
  function FetchDevices(all: seq<MediaDevice>): (s: Selection)
    ensures s.devices == VideoInputs(all)
    ensures s.showCamera ==> |s.devices| == 1 && s.selectedDeviceId == s.devices[0].deviceId
    ensures s.devices == [] ==> s == Initial
  {
    var videoDevices := VideoInputs(all);
    var selected := if |videoDevices| > 0 then videoDevices[0].deviceId else Initial.selectedDeviceId;
    var show := if |videoDevices| == 1 then true else Initial.showCamera;
    Selection(videoDevices, selected, show)
  }

  /** The text of a device's option in the camera selector. */
  function OptionLabel(d: MediaDevice): (r: string)
    ensures r != ""
    ensures d.deviceLabel != "" ==> r == d.deviceLabel
    ensures d.deviceLabel == "" ==> r == "Camera " + d.deviceId
  {
    if d.deviceLabel != "" then d.deviceLabel else "Camera " + d.deviceId
  }

  /** `all[i]` is the first video input of the list. */
  ghost predicate FirstVideoInputAt(all: seq<MediaDevice>, i: int)
  {
    0 <= i < |all| && all[i].kind == VideoInput &&
    forall j :: 0 <= j < i ==> all[j].kind != VideoInput
  }

  /** `all[i]` is the only video input of the list. */
  ghost predicate OnlyVideoInputAt(all: seq<MediaDevice>, i: int)
  {
    0 <= i < |all| && all[i].kind == VideoInput &&
    forall j :: 0 <= j < |all| && j != i ==> all[j].kind != VideoInput
  }

  /** Filtering two lists one after the other: the filter keeps the
      enumeration order. */
  lemma {:induction false} VideoInputsAppend(a: seq<MediaDevice>, b: seq<MediaDevice>)
    ensures VideoInputs(a + b) == VideoInputs(a) + VideoInputs(b)
  {
    if a == [] {
      assert a + b == b;
    } else {
      assert (a + b)[0] == a[0];
      assert (a + b)[1..] == a[1..] + b;
      VideoInputsAppend(a[1..], b);
    }
  }

  /** Filtering an already filtered list changes nothing. */
  lemma {:induction false} VideoInputsIdempotent(all: seq<MediaDevice>)
    ensures VideoInputs(VideoInputs(all)) == VideoInputs(all)
  {
    if all != [] {
      VideoInputsIdempotent(all[1..]);
      var head := if all[0].kind == VideoInput then [all[0]] else [];
      VideoInputsAppend(head, VideoInputs(all[1..]));
      if all[0].kind == VideoInput {
        assert [all[0]][1..] == [];
      }
    }
  }

  /** An enumeration without video inputs filters down to the empty list. */
  lemma {:induction false} NoVideoInputs(all: seq<MediaDevice>)
    requires forall d :: d in all ==> d.kind != VideoInput
    ensures VideoInputs(all) == []
  {
    if all != [] {
      assert all[0] in all;
      forall d | d in all[1..] ensures d.kind != VideoInput {
        assert d in all;
      }
      NoVideoInputs(all[1..]);
    }
  }

  /** The first entry of the filtered list is the first video input of the
      enumeration. */
  lemma {:induction false} VideoInputsFirst(all: seq<MediaDevice>, i: int)
    requires FirstVideoInputAt(all, i)
    ensures VideoInputs(all) != [] && VideoInputs(all)[0] == all[i]
  {
    if i > 0 {
      assert FirstVideoInputAt(all[1..], i - 1) by {
        forall j | 0 <= j < i - 1 ensures all[1..][j].kind != VideoInput {
          assert all[1..][j] == all[j + 1];
        }
      }
      VideoInputsFirst(all[1..], i - 1);
    }
  }

  /** The filtered list has one entry exactly when the enumeration holds
      exactly one video input. */
  lemma {:induction false} VideoInputsSingle(all: seq<MediaDevice>)
    ensures |VideoInputs(all)| == 1 <==> exists i :: OnlyVideoInputAt(all, i)
  {
    if all == [] {
      return;
    }
    var rest := all[1..];
    VideoInputsSingle(rest);
    if |VideoInputs(all)| == 1 {
      if all[0].kind == VideoInput {
        assert VideoInputs(rest) == [];
        forall j | 0 < j < |all| ensures all[j].kind != VideoInput {
          assert all[j] == rest[j - 1] && all[j] in rest;
        }
        assert OnlyVideoInputAt(all, 0);
      } else {
        var k :| OnlyVideoInputAt(rest, k);
        forall j | 0 <= j < |all| && j != k + 1 ensures all[j].kind != VideoInput {
          if j > 0 {
            assert all[j] == rest[j - 1];
          }
        }
        assert OnlyVideoInputAt(all, k + 1);
      }
    } else {
      if i :| OnlyVideoInputAt(all, i) {
        if i == 0 {
          forall d | d in rest ensures d.kind != VideoInput {
            var j :| 0 <= j < |rest| && rest[j] == d;
            assert all[j + 1] == d;
          }
          NoVideoInputs(rest);
          assert false;
        } else {
          assert OnlyVideoInputAt(rest, i - 1) by {
            forall j | 0 <= j < |rest| && j != i - 1 ensures rest[j].kind != VideoInput {
              assert rest[j] == all[j + 1];
            }
          }
          assert false;
        }
      }
    }
  }

  /** What fetching the devices does to the initial state: the device list
      becomes exactly the video inputs in enumeration order; the selected id
      becomes the id of the first video input, or stays "" when there is
      none; the camera view is switched on exactly when the enumeration
      holds a single video input. */
  lemma FetchDevicesCorrect(all: seq<MediaDevice>)
    ensures forall d :: d in FetchDevices(all).devices <==> d in all && d.kind == VideoInput
    ensures forall i :: FirstVideoInputAt(all, i) ==> FetchDevices(all).selectedDeviceId == all[i].deviceId
    ensures (forall d :: d in all ==> d.kind != VideoInput) ==> FetchDevices(all) == Initial
    ensures FetchDevices(all).showCamera <==> exists i :: OnlyVideoInputAt(all, i)
  {
    forall i | FirstVideoInputAt(all, i) ensures FetchDevices(all).selectedDeviceId == all[i].deviceId {
      VideoInputsFirst(all, i);
    }
    if forall d :: d in all ==> d.kind != VideoInput {
      NoVideoInputs(all);
    }
    VideoInputsSingle(all);
  }

  /** Two unlabelled devices with different ids get different option texts. */
  lemma OptionLabelsDistinct(a: MediaDevice, b: MediaDevice)
    requires a.deviceLabel == "" && b.deviceLabel == "" && a.deviceId != b.deviceId
    ensures OptionLabel(a) != OptionLabel(b)
  {
    var prefix := "Camera ";
    assert OptionLabel(a)[|prefix|..] == a.deviceId;
    assert OptionLabel(b)[|prefix|..] == b.deviceId;
  }
}
