# MOV editor core, modelled in Dafny

This project models the core of a small desktop video editor written in Rust
(egui front end, macOS decoding). The editor loads a `.mov` file as one clip on
a timeline, lets the user select, split (shift-click or the ✂ button) and delete
clips, and plays a playhead across the timeline. Beside the editor state sit
three self-contained pieces of data processing: a top-level atom enumerator for
QuickTime files, a peak reduction for the audio waveform display, and the BGRA
to RGBA pixel conversion of decoded frames.

Files and modules:

- `wrappers.dfy` (`Wrappers`): `Option` and `Result`.
- `bytes.dfy` (`Bytes`): the `Byte` type (`u8`).
- `timeline.dfy` (`Timeline`): `VideoInfo`, `Clip` and the clip-list operations
  of `src/main.rs` as pure functions, with the invariants they keep.
- `editor_app.dfy` (`EditorApp`): the class `VideoEditorApp` with the logical
  fields of the Rust struct and one method per event handler. Each method
  states its whole new state in terms of the `Timeline` functions and keeps the
  class invariant `Valid()`.
- `mov_parser.dfy` (`MovParser`): the class `MovParser`, a file as bytes with a
  read cursor. `ParseAtoms` is proved against a declarative description of the
  atom list (`ParsedAs`), which in turn is shown to determine the result.
- `audio_waveform.dfy` (`Waveform`): `get_peaks` as a loop over windows, proved
  equal to a specification function whose peaks are window maxima.
- `macos_video.dfy` (`MacosVideo`): `convert_frame_to_rgba` as a loop over
  chunks, proved equal to a recursive conversion that undoes itself.

Representation choices:

- A `Duration` is a natural number of nanoseconds.
- An `f32` count of seconds is a `real`, so the model's arithmetic is exact.
- `Duration::from_secs_f32` rounds to the nearest nanosecond, and at an exact
  half nanosecond to the even one, as Rust rounds half to even (`FromSecs`).
- `Instant` values are seconds of a monotonic clock passed in as `now`.
  `duration_since` saturates at zero (`Elapsed`).
- The editor keeps an invariant that the source maintains without stating it:
  every clip sits on the timeline at the time it starts in its source
  (`position == as_secs(start_time)`). Loading places the clip at 0 with
  start 0. Splitting places the new piece at `position + (split - start)`.
  Because of this, the ✂ button, which passes the global playhead as a source
  time, cuts where a shift-click at the playhead would
  (`Timeline.ShiftClickSplitsAtGlobalTime`). The one exception is a playhead
  at an exact half nanosecond on a clip with an odd start time: the two
  roundings to even then land one nanosecond apart.

Behaviours the model takes from the code as written:

- A click acts on the first clip in list order whose closed interval contains
  the click time. No clip with a smaller id is preferred.
- Playback stops when the playhead reaches the loaded video's duration, not
  the end of the last clip.
- The parser reads only the 32-bit size form of an atom header. A size of 1
  or 0 gets no special meaning. An atom smaller than its 8-byte header moves
  the cursor 8 bytes but the offset only by its size. From then on the offsets
  recorded for later atoms are no longer the positions of their headers
  (`MovParser.CursorVersusOffset`). The loop still ends, because the cursor
  grows by at least 8 bytes each round.
- The hit-test loop in `src/main.rs` calls `split_clip` while iterating over
  `self.clips`. The model reads the hit clip's fields before acting and stops
  right after, as the `break` does.

## Model

| member | source | states |
|---|---|---|
| Timeline.AsSecs | src/main.rs:161 | `as_secs_f32` gives the seconds that, counted in nanoseconds, are the duration; never negative for a duration |
| Timeline.FromSecs | src/main.rs:213 | `from_secs_f32` of a non-negative time gives the nanosecond count within half a nanosecond of it, strictly nearer off a tie, and the even count at an exact half |
| Timeline.FromSecsAsSecs | src/main.rs:213 | converting a duration to seconds and back returns the same duration |
| Timeline.ParseMovFile | src/main.rs:86-104 | a result exactly when the file's metadata is available; fixed 1920×1080, 30 fps, audio; the duration is whole seconds with `secs * 1e6 <= len < (secs + 1) * 1e6` |
| Timeline.FirstHit | src/main.rs:415-431 | the index found is a clip whose closed interval contains `t` and no earlier clip's does; `None` exactly when no clip's interval contains `t` |
| Timeline.IndexOfId | src/main.rs:107 | the index found carries the id and no earlier clip does; `None` exactly when no clip has the id |
| Timeline.SplitClips | src/main.rs:112-125 | one clip more; the split clip keeps id, start, position and source and ends at `t`; the new clip after it has the fresh id, starts at `t`, ends at the old end and starts on the timeline where the shortened clip ends; every other clip is unchanged and in order |
| Timeline.NewClip | src/main.rs:73-79 | the loaded clip covers the whole video from source start 0 under the given id, sits at timeline time 0 where its source start says, and contains time 0 |
| Timeline.Split | src/main.rs:106-128 | a split leaves the list and the id counter unchanged exactly when no clip has the id or the time is not strictly inside it; otherwise one clip and one id are added |
| Timeline.TotalDurationConcat | src/main.rs:110-125 | the total duration of two lists joined is the sum of their totals |
| Timeline.SplitKeepsTotalDuration | src/main.rs:110-125 | a split keeps the sum of clip durations |
| Timeline.SplitKeepsWellFormed | src/main.rs:106-128 | after a split, every clip has start ≤ end and a non-negative position, ids are distinct and below the counter, positions track source starts, and the id set grows by exactly the new id when the split happens |
| Timeline.LoadKeepsWellFormed | src/main.rs:72-82 | appending the loaded video's clip under the current counter keeps the list well formed and adds exactly that id |
| Timeline.RemoveId | src/main.rs:132 | `retain` never lengthens the list |
| Timeline.RemoveIdMembers | src/main.rs:132 | a clip is kept exactly when it was present and does not carry the deleted id |
| Timeline.RemoveAbsentId | src/main.rs:132 | deleting an id no clip carries leaves the list unchanged |
| Timeline.RemoveIdConcat | src/main.rs:132 | removal works piecewise over a concatenation, so the kept clips stay in their order |
| Timeline.RemoveUniqueId | src/main.rs:132 | with distinct ids, deleting the id of clip `k` leaves exactly the clips before and after `k`, unchanged and in order |
| Timeline.RemoveIdKeepsWellFormed | src/main.rs:130-135 | deleting keeps the list well formed and positions on their source starts, and removes exactly the id from the id set |
| Timeline.ShiftClickSplitsAtGlobalTime | src/main.rs:210-216 | on a clip placed at its source start, `start_time + from_secs_f32(t - position)` equals `from_secs_f32(t)`, the split time the ✂ button computes from the playhead, exactly when `t` is not an exact half nanosecond or the start time is even; the two never differ by more than 1 ns |
| EditorApp.Elapsed | src/main.rs:154 | the elapsed time is never negative; when the clock has not gone back it adds to the last instant to give `now`, and when it has it is 0 |
| EditorApp.ReachedEnd | src/main.rs:160-161 | playback has reached the end exactly when a video is loaded and the playhead, in nanoseconds, is at or past its duration; never without a loaded video |
| EditorApp.SplitList | src/main.rs:106-128 | the in-place update of the clip's entry followed by the insertion of the piece gives exactly the list and counter of `Split` |
| EditorApp.VideoEditorApp.constructor | src/main.rs:44-61 | the default state: nothing loaded, no clips, no selection, playhead 0, counter 0, paused |
| EditorApp.VideoEditorApp.LoadVideo | src/main.rs:64-84 | on a readable file, sets the loaded video and appends its clip under the old counter, then increments it; on an unreadable file changes nothing; keeps `Valid()` |
| EditorApp.VideoEditorApp.SplitClip | src/main.rs:106-128 | the clip list and counter become those of `Split`; every other field is unchanged; keeps `Valid()` |
| EditorApp.VideoEditorApp.DeleteSelectedClip | src/main.rs:130-135 | with a selection, removes every clip with that id (exactly one, at some index `k`) and clears the selection; without one changes nothing; keeps `Valid()` |
| EditorApp.VideoEditorApp.Tick | src/main.rs:152-165 | while playing, refreshes the frame time and advances the playhead by the elapsed time, or rewinds it to 0 and stops when it reaches the loaded video's duration; when paused changes nothing |
| EditorApp.VideoEditorApp.PlayPauseClicked | src/main.rs:191-200 | toggles `is_playing`; only play refreshes the frame time; nothing else changes |
| EditorApp.VideoEditorApp.StopClicked | src/main.rs:202-205 | from any state, stops and puts the playhead at 0; nothing else changes |
| EditorApp.VideoEditorApp.CutClicked | src/main.rs:210-216 | with a selection, splits that clip at `from_secs_f32(playhead)`; without one changes nothing |
| EditorApp.VideoEditorApp.ClickTimeline | src/main.rs:409-433 | when no clip contains the click time nothing changes; otherwise exactly the first such clip in list order is selected, or split under the pointer with shift |
| EditorApp.VideoEditorApp.ClickOnClip | src/main.rs:420-428 | the outcome on the hit clip: selected without shift; split at `start_time + from_secs_f32(t - position)` with shift, selection unchanged |
| MovParser.FromBigEndian | src/mov_parser.rs:33 | the big-endian value of four bytes fits in 32 bits |
| MovParser.FromToBigEndian | src/mov_parser.rs:33 | reading back the big-endian bytes of a 32-bit number gives the number |
| MovParser.ToFromBigEndian | src/mov_parser.rs:33 | the big-endian bytes of the value read from four bytes are those bytes |
| MovParser.CursorStep | src/mov_parser.rs:45-47 | the cursor moves past the 8-byte header and past the whole atom, and by exactly one of the two |
| MovParser.CursorVersusOffset | src/mov_parser.rs:45-49 | the file cursor is never behind `offset`, and the two are equal exactly when no atom is smaller than its 8-byte header |
| MovParser.HeadersAtOffsets | src/mov_parser.rs:29-49 | when every size is at least 8, each atom's size and type are the bytes at its own recorded offset |
| MovParser.DecodedPrefixesAgree | src/mov_parser.rs:30-49 | two decodings of the same file agree on every atom they both contain |
| MovParser.ParseResultUnique | src/mov_parser.rs:23-53 | the outcome described by `ParsedAs` is determined by the file: one atom list or one error |
| MovParser.FindFirst | src/mov_parser.rs:57 | the atom found has the type and no earlier atom does; `None` exactly when no atom has it |
| MovParser.MovParser.constructor | src/mov_parser.rs:18-21 | a parser over the given bytes with the cursor at the start |
| MovParser.MovParser.ReadExact | src/mov_parser.rs:32 | returns the next `n` bytes and advances the cursor by `n`, or fails with end of file and leaves the cursor at the end |
| MovParser.MovParser.ParseAtoms | src/mov_parser.rs:23-53 | either every atom header read from the cursor chain, with offsets the running sums of sizes, until an offset reaches the file size, the cursor left just after the last atom's skip; or an end-of-file error when a header read ran past the end first |
| MovParser.MovParser.FindAtom | src/mov_parser.rs:55-58 | the parse error, or the first atom of the type in the parsed list, with the cursor where the parse left it |
| MovParser.MovParser.GetVideoInfo | src/mov_parser.rs:60-63 | always `(1920, 1080, 30.0)` |
| Waveform.FoldMaxAbs | src/audio_waveform.rs:92-95 | the fold is at least its start value and every magnitude, and equals the start value or one of the magnitudes |
| Waveform.WindowPeak | src/audio_waveform.rs:92-95 | the peak bounds every magnitude in the window, is attained in a non-empty window, and is 0 for an empty one |
| Waveform.WindowStart | src/audio_waveform.rs:89-90 | window 0 starts at sample 0 and every later window starts where the previous one ends, inside the buffer |
| Waveform.WindowEnd | src/audio_waveform.rs:89-90 | a window never ends past the buffer; for the `num_peaks` windows the `min` never bites, so the end is `(i + 1) * spp`, at most `num_peaks * spp` |
| Waveform.WindowBounds | src/audio_waveform.rs:85-92 | `start <= end <= len`, and every window holds exactly `spp` samples |
| Waveform.Peaks | src/audio_waveform.rs:80-101 | no peaks when there are no samples or no windows, otherwise exactly `num_peaks` |
| Waveform.AudioWaveform.GetPeaks | src/audio_waveform.rs:80-101 | the loop's result is `Peaks`: empty for no samples or no windows, otherwise `num_peaks` entries |
| Waveform.PeakIsWindowMaximum | src/audio_waveform.rs:85-95 | peak `i` is the largest magnitude over `[i * spp, (i + 1) * spp)`, attained there, and 0 when `spp` is 0 |
| Waveform.FewSamplesGiveZeroPeaks | src/audio_waveform.rs:85-95 | with more windows than samples every peak is 0 |
| Waveform.TrailingSamplesIgnored | src/audio_waveform.rs:85-90 | samples at or past `num_peaks * spp` never affect any peak |
| Waveform.PeaksBoundedByBuffer | src/audio_waveform.rs:92-95 | no peak exceeds the largest magnitude of the whole buffer |
| MacosVideo.Swizzle | src/macos_video.rs:290-293 | one pixel stays four bytes: green and alpha keep their places, blue and red exchange theirs |
| MacosVideo.SwizzleInvolution | src/macos_video.rs:290-293 | swapping bytes 0 and 2 of a pixel twice restores it |
| MacosVideo.BgraToRgba | src/macos_video.rs:289 | the output is 4 × ⌊len / 4⌋ bytes long; a partial last chunk is dropped |
| MacosVideo.BgraToRgbaChunk | src/macos_video.rs:289-294 | chunk `k` of the output is chunk `k` of the input with bytes 0 and 2 swapped |
| MacosVideo.BgraToRgbaPixels | src/macos_video.rs:290-293 | for each pixel `k`: `out[4k] = in[4k+2]`, `out[4k+1] = in[4k+1]`, `out[4k+2] = in[4k]`, `out[4k+3] = in[4k+3]` |
| MacosVideo.BgraToRgbaInvolution | src/macos_video.rs:290-293 | converting twice gives the input cut to a multiple of 4 bytes |
| MacosVideo.ConvertFrameToRgba | src/macos_video.rs:285-297 | the loop's result is `BgraToRgba` of the frame's bytes, with its length and every pixel's bytes; width and height play no part |

## Left out

- UI state and drawing: zoom, preview texture, dragging, scrolling, layout, the simulated frame colour, the grid and the waveform display, and the zoom buttons' `f32` clamp.
- The file dialogs, drag and drop of files, and `export_timeline`, which only opens a dialog and prints.
- The pixel-to-time conversion of a click. The model starts from the time it yields, `time_pos`.
- `f32` rounding and NaN. Seconds are exact reals, and samples (also `f32`) are exact integers. `Duration` arithmetic cannot overflow here.
- EditorApp.Elapsed: the clock reading is a parameter; `Instant::now()` is not modelled.
- Timeline.ParseMovFile: the file open and the metadata call are replaced by the length they report.
- MovParser.MovParser.ParseAtoms: the file is a byte sequence and the `metadata()` length is its length. The failure of `metadata` or `seek` is not modelled, and `u64` overflow of `offset` is not modelled.
- `MovParser::new`'s `File::open`; the constructor takes the bytes of a file that opened.
- `AudioWaveform::from_file` (symphonia decoding) and `get_duration` (a float division).
- Everything in src/macos_video.rs except `VideoFrame` and `convert_frame_to_rgba`: AVFoundation and CoreVideo calls, pointer copies, autorelease pools and `Drop`.
- MacosVideo.ConvertFrameToRgba: the `u32` product `width * height * 4` that sizes the buffer's capacity (src/macos_video.rs:286) is not modelled. When it reaches 2^32 a debug build panics there, which the model does not capture; a release build wraps it, and then only the capacity changes, not the bytes returned.
- src/ffmpeg_decoder.rs and build.rs are not part of this model.
