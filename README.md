# Barcode scanner: accumulator and device selection

The scanner is a single React component. It polls a camera frame every
100 ms, hands the frame to a barcode decoder, and keeps a session list of
the decoded strings it has seen. When it mounts, it also picks a camera from
the enumerated media devices. This project models the two pieces of that
component that hold logic, and proves properties of them in Dafny.

- `accumulator.dfy`, module `BarcodeAccumulator`: the `setBarcodes`
  updater inside `scan` (src/App.js:59-73) and the early return when the
  video element or the canvas is missing (src/App.js:47-49).
  - `Unseen` is the list the updater pushes into `newBarcodes`.
  - `Merged` is the state the updater returns.
  - `Absorb` is the updater's `forEach` loop, proved equal to `Merged`.
  - The class `Scanner` holds the `barcodes` state. Its `Tick` method is
    one scan tick, with both guards. A ghost history of applied ticks ties
    the state to `Session`, the list built up over a whole session.
- `devices.dfy`, module `DeviceSelection`: `fetchDevices`
  (src/App.js:103-121), applied to the initial state (src/App.js:34-36), and
  the option text of the camera selector (src/App.js:152).

The source tests membership against the previous list only, never against
the strings already queued in the same tick. A string that is new and
occurs k times in one tick is therefore appended k times
(`UnseenMultiplicity`, `RepeatWithinTick`, `RepeatWithinTickKnown`). An
ordered set of distinct values would drop the second "A" of one tick; the
code keeps it. The list is therefore proved duplicate-free only when no
single tick reports a string twice (`MergedDistinct`, `SessionDistinct`).

## Model

| member | source | states |
|---|---|---|
| BarcodeAccumulator.Unseen | src/App.js:62-69 | a string is queued for appending exactly when the decoder reported it and the previous list lacks it; never more entries than decoded strings |
| BarcodeAccumulator.UnseenAppend | src/App.js:63-69 | the queued strings keep the decoder's order: splitting the tick's results splits the queue the same way |
| BarcodeAccumulator.UnseenSingle | src/App.js:66-67 | one decoded string is queued exactly when the previous list does not include it |
| BarcodeAccumulator.UnseenMultiplicity | src/App.js:66-67 | a known string is queued zero times; a new string is queued as many times as it occurs in the tick (no intra-tick deduplication) |
| BarcodeAccumulator.UnseenCovered | src/App.js:66-68 | when every decoded string is already known, nothing is queued |
| BarcodeAccumulator.UnseenDistinct | src/App.js:63-69 | a duplicate-free tick queues a duplicate-free list |
| BarcodeAccumulator.Absorb | src/App.js:61-71 | the loop returns the previous list followed by exactly the unseen decoded strings, so the previous list is an unchanged prefix |
| BarcodeAccumulator.Merged | src/App.js:71 | the returned list keeps the previous list as a prefix, holds exactly the previous and the decoded strings, and grows by at most the number of decoded strings; with MergedExtends, MergedIdempotent and MergedDistinct |
| BarcodeAccumulator.MergedExtends | src/App.js:71 | the previous list is a prefix of the new one, and the new one holds exactly the previous and the decoded strings |
| BarcodeAccumulator.MergedEmpty | src/App.js:59-71 | absorbing no results leaves the list unchanged |
| BarcodeAccumulator.MergedIdempotent | src/App.js:61-71 | absorbing the same results twice in a row equals absorbing them once |
| BarcodeAccumulator.MergedDistinct | src/App.js:63-71 | a duplicate-free list absorbing a duplicate-free tick stays duplicate-free |
| BarcodeAccumulator.RepeatWithinTick | src/App.js:63-71 | "A","B","A" in one tick on an empty list gives ["A","B","A"] |
| BarcodeAccumulator.RepeatWithinTickKnown | src/App.js:63-71 | "A","B","B" in one tick on ["A"] gives ["A","B","B"]: the known "A" is skipped, the new "B" is appended twice |
| BarcodeAccumulator.Session | src/App.js:39-73 | the list built from the initial [] over a run of applied ticks holds exactly the strings some tick reported; with SessionGrows and SessionDistinct |
| BarcodeAccumulator.SessionGrows | src/App.js:59-73 | over any sequence of ticks the list only grows: each earlier state is a prefix of each later one |
| BarcodeAccumulator.SessionDistinct | src/App.js:59-73 | when no tick reports a string twice, the session list never holds a duplicate |
| BarcodeAccumulator.Scanner.constructor | src/App.js:39 | the barcode list starts empty |
| BarcodeAccumulator.Scanner.Tick | src/App.js:43-73 | without video or canvas, or with no decoder results, the list is unchanged; otherwise it becomes the merged list; in every case the old list stays a prefix |
| DeviceSelection.VideoInputs | src/App.js:106-108 | the filtered list holds exactly the entries of kind "videoinput" and is no longer than the enumeration |
| DeviceSelection.VideoInputsAppend | src/App.js:106-108 | the filter keeps enumeration order: filtering a concatenation concatenates the filtered parts |
| DeviceSelection.VideoInputsIdempotent | src/App.js:106-108 | filtering the filtered list changes nothing |
| DeviceSelection.NoVideoInputs | src/App.js:106-110 | an enumeration without video inputs filters to the empty list |
| DeviceSelection.VideoInputsFirst | src/App.js:110-111 | the first entry of the filtered list is the first video input of the enumeration |
| DeviceSelection.VideoInputsSingle | src/App.js:112-114 | the filtered list has length one exactly when the enumeration holds exactly one video input |
| DeviceSelection.FetchDevices | src/App.js:105-115 | the device list becomes the filtered video inputs; the camera view is on only with exactly one device, which is then the selected one; without video inputs the state stays initial; with FetchDevicesCorrect |
| DeviceSelection.FetchDevicesCorrect | src/App.js:103-115 | devices become exactly the video inputs; the selected id becomes the first video input's id, and with no video input the whole state stays initial ([], "", false); the camera view is on exactly when there is a single video input |
| DeviceSelection.OptionLabel | src/App.js:152 | the option text is the label when it is non-empty, else "Camera " followed by the id; it is never empty |
| DeviceSelection.OptionLabelsDistinct | src/App.js:150-154 | two unlabelled devices with different ids get different option texts |

## Left out

- The decoder (`scanImageData` from zbar.wasm and `symbol.decode()`, src/App.js:4, 58, 60) is foreign code. Its output is the `decoded` parameter of `Scanner.Tick`. `results.map` keeps the length, so `|decoded| > 0` stands for `results.length > 0`.
- A video that is mounted but reports a zero frame size (no stream yet, or camera access denied) makes `getImageData` throw (src/App.js:53-57), so the tick rejects before the decoder or the updater runs. The list stays unchanged. The model folds this case into `videoReady` being false.
- A decoder call that rejects aborts the tick before the updater runs. That leaves the list unchanged, the same as a not-ready tick. It has no separate path in the model.
- Canvas work is rendering with no checkable state: resizing, `drawImage`, `getImageData`, `clearRect`, and the outline and text overlay (src/App.js:51-57, 75-94).
- The `setInterval`/`clearInterval` polling (src/App.js:97-100) is timer plumbing. Ticks are modelled as calls of `Scanner.Tick` in order. The source has no lifecycle state machine and no guard against overlapping ticks, so the model has none.
- React's updater-function semantics are taken as given: each `setBarcodes` updater sees the state left by the previous one.
- `navigator.mediaDevices.enumerateDevices` is I/O. Its result is the `all` parameter of `FetchDevices`. Its try/catch/finally and the `loading` flag (src/App.js:104-105, 116-120, 128-130) are left out. A failed enumeration leaves the initial state, as `Initial` describes.
- UI event handlers are left out: the selector's `onChange` (src/App.js:148), the "Open Camera" button (src/App.js:181) and the mirror toggle (src/App.js:140). Styled components, JSX rendering and `console.log` are left out too.
