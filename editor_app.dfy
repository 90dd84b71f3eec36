/** The logical state of `VideoEditorApp` in src/main.rs and the event handlers
    that change it: loading a video, split, delete, the per-frame playhead
    advance, the transport buttons and the click on the video track. */
module EditorApp {
  import opened Wrappers
  import opened Timeline

  /** `now.duration_since(last)` in seconds; it saturates at zero. */
  function Elapsed(last: real, now: real): (d: real)
    ensures d >= 0.0
    ensures now >= last ==> last + d == now
    ensures now < last ==> d == 0.0
  {
    if now >= last then now - last else 0.0
  }

  /** The end-of-playback test of the per-frame advance: it compares the
      playhead with the loaded video's duration, not with the clips' extent.
      Without a loaded video playback never reaches an end. */
  function ReachedEnd(loadedVideo: Option<VideoInfo>, playhead: real): (r: bool)
    ensures r <==> loadedVideo.Some? && playhead * NanosPerSec as real >= loadedVideo.value.duration as real
    ensures loadedVideo.None? ==> !r
  {
    loadedVideo.Some? && playhead >= AsSecs(loadedVideo.value.duration)
  }

  /** The in-place rendering of `split_clip` on the clip list and the id
      counter, step by step as the handler does it: find the clip, overwrite
      its entry with the clip shortened to end at `splitTime`, and insert the
      rest of it right after it under a fresh id. Its contract ties it to the
      value-level `Split`, about which the properties of a split are proved. */
  method SplitList(clips: seq<Clip>, nextId: nat, clipId: nat, splitTime: nat)
    returns (newClips: seq<Clip>, newNextId: nat)
    ensures (newClips, newNextId) == Split(clips, nextId, clipId, splitTime)
  {
    newClips, newNextId := clips, nextId;
    var found := IndexOfId(newClips, clipId);
    if found.Some? {
      var clipIndex := found.value;
      var originalClip := newClips[clipIndex];
      if splitTime > originalClip.startTime && splitTime < originalClip.endTime {
        newClips := newClips[clipIndex := originalClip.(endTime := splitTime)];
        var newClip := Clip(originalClip.sourceVideo, splitTime, originalClip.endTime, newNextId,
                            originalClip.position + AsSecs(splitTime - originalClip.startTime));
        newNextId := newNextId + 1;
        newClips := newClips[..clipIndex + 1] + [newClip] + newClips[clipIndex + 1..];
      }
    }
  }

  class VideoEditorApp {
    var loadedVideo: Option<VideoInfo>
    var clips: seq<Clip>
    var selectedClip: Option<nat>
    var playheadPosition: real
    var nextClipId: nat
    var isPlaying: bool
    /** The instant of the previous advance, in seconds of a monotonic clock. */
    var lastFrameTime: real

    /** The clip list is well formed, every clip sits at its source start time,
        the playhead is not negative, and a selection names an existing clip. */
    ghost predicate Valid()
      reads this
    {
      && WellFormed(clips, nextClipId)
      && PositionsTrackSource(clips)
      && playheadPosition >= 0.0
      && (selectedClip.Some? ==> selectedClip.value in IdSet(clips))
    }

    /** `VideoEditorApp::default`. */
    constructor (now: real)
      ensures Valid()
      ensures loadedVideo == None && clips == [] && selectedClip == None
      ensures playheadPosition == 0.0 && nextClipId == 0 && !isPlaying && lastFrameTime == now
    {
      loadedVideo := None;
      clips := [];
      selectedClip := None;
      playheadPosition := 0.0;
      nextClipId := 0;
      isPlaying := false;
      lastFrameTime := now;
    }

    /** `load_video`: `fileLen` is what the file's metadata reports, `None` when
        the file cannot be opened. */
    method LoadVideo(path: string, fileLen: Option<nat>)
      requires Valid()
      modifies this
      ensures Valid()
      ensures fileLen.None? ==> loadedVideo == old(loadedVideo) && clips == old(clips) && nextClipId == old(nextClipId)
      ensures fileLen.Some? ==>
                && loadedVideo == ParseMovFile(path, fileLen)
                && clips == old(clips) + [NewClip(loadedVideo.value, old(nextClipId))]
                && nextClipId == old(nextClipId) + 1
      ensures selectedClip == old(selectedClip) && playheadPosition == old(playheadPosition)
      ensures isPlaying == old(isPlaying) && lastFrameTime == old(lastFrameTime)
    {
      var videoInfo := ParseMovFile(path, fileLen);
      if videoInfo.Some? {
        loadedVideo := videoInfo;
        var clip := Clip(videoInfo.value, 0, videoInfo.value.duration, nextClipId, 0.0);
        LoadKeepsWellFormed(clips, nextClipId, videoInfo.value);
        nextClipId := nextClipId + 1;
        clips := clips + [clip];
      }
    }

    /** `split_clip`. */
    method SplitClip(clipId: nat, splitTime: nat)
      requires Valid()
      modifies this
      ensures Valid()
      ensures (clips, nextClipId) == Split(old(clips), old(nextClipId), clipId, splitTime)
      ensures loadedVideo == old(loadedVideo) && selectedClip == old(selectedClip)
      ensures playheadPosition == old(playheadPosition) && isPlaying == old(isPlaying)
      ensures lastFrameTime == old(lastFrameTime)
    {
      SplitKeepsWellFormed(clips, nextClipId, clipId, splitTime);
      clips, nextClipId := SplitList(clips, nextClipId, clipId, splitTime);
    }

    /** `delete_selected_clip`. */
    method DeleteSelectedClip()
      requires Valid()
      modifies this
      ensures Valid()
      ensures old(selectedClip).None? ==> clips == old(clips)
      ensures old(selectedClip).Some? ==> clips == RemoveId(old(clips), old(selectedClip).value)
      // the ids are distinct, so this removes exactly the selected clip
      ensures old(selectedClip).Some? ==>
                exists k :: 0 <= k < |old(clips)| && old(clips)[k].id == old(selectedClip).value
                            && clips == old(clips)[..k] + old(clips)[k + 1..]
      ensures selectedClip == None
      ensures loadedVideo == old(loadedVideo) && nextClipId == old(nextClipId)
      ensures playheadPosition == old(playheadPosition) && isPlaying == old(isPlaying)
      ensures lastFrameTime == old(lastFrameTime)
    {
      if selectedClip.Some? {
        var selectedId := selectedClip.value;
        RemoveIdKeepsWellFormed(clips, nextClipId, selectedId);
        IdSetIndices(clips);
        var k :| 0 <= k < |clips| && clips[k].id == selectedId;
        RemoveUniqueId(clips, k);
        clips := RemoveId(clips, selectedId);
        selectedClip := None;
      }
    }

    /** The playhead advance at the top of `update`, run once per frame at clock
        time `now`. */
    method Tick(now: real)
      requires Valid()
      modifies this
      ensures Valid()
      ensures !old(isPlaying) ==>
                playheadPosition == old(playheadPosition) && !isPlaying && lastFrameTime == old(lastFrameTime)
      ensures old(isPlaying) ==> lastFrameTime == now
      ensures old(isPlaying) && !ReachedEnd(loadedVideo, old(playheadPosition) + Elapsed(old(lastFrameTime), now)) ==>
                playheadPosition == old(playheadPosition) + Elapsed(old(lastFrameTime), now) && isPlaying
      ensures old(isPlaying) && ReachedEnd(loadedVideo, old(playheadPosition) + Elapsed(old(lastFrameTime), now)) ==>
                playheadPosition == 0.0 && !isPlaying
      ensures loadedVideo == old(loadedVideo) && clips == old(clips) && selectedClip == old(selectedClip)
      ensures nextClipId == old(nextClipId)
    {
      if isPlaying {
        var delta := Elapsed(lastFrameTime, now);
        lastFrameTime := now;
        playheadPosition := playheadPosition + delta;
        if loadedVideo.Some? {
          if playheadPosition >= AsSecs(loadedVideo.value.duration) {
            playheadPosition := 0.0;
            isPlaying := false;
          }
        }
      }
    }

    /** The play/pause button: while playing it shows "pause", which only
        clears `isPlaying`; otherwise it shows "play", which sets it and
        restarts the frame clock at `now`. */
    method PlayPauseClicked(now: real)
      requires Valid()
      modifies this
      ensures Valid()
      ensures isPlaying == !old(isPlaying)
      ensures lastFrameTime == if old(isPlaying) then old(lastFrameTime) else now
      ensures playheadPosition == old(playheadPosition)
      ensures loadedVideo == old(loadedVideo) && clips == old(clips) && selectedClip == old(selectedClip)
      ensures nextClipId == old(nextClipId)
    {
      if isPlaying {
        isPlaying := false;
      } else {
        isPlaying := true;
        lastFrameTime := now;
      }
    }

    /** The stop button, from any state. */
    method StopClicked()
      requires Valid()
      modifies this
      ensures Valid()
      ensures !isPlaying && playheadPosition == 0.0
      ensures lastFrameTime == old(lastFrameTime)
      ensures loadedVideo == old(loadedVideo) && clips == old(clips) && selectedClip == old(selectedClip)
      ensures nextClipId == old(nextClipId)
    {
      isPlaying := false;
      playheadPosition := 0.0;
    }

    /** The cut button: splits the selected clip at the playhead, read as a time
        in the clip's source. */
    method CutClicked()
      requires Valid()
      modifies this
      ensures Valid()
      ensures old(selectedClip).None? ==> clips == old(clips) && nextClipId == old(nextClipId)
      ensures old(selectedClip).Some? ==>
                (clips, nextClipId)
                == Split(old(clips), old(nextClipId), old(selectedClip).value, FromSecs(old(playheadPosition)))
      ensures loadedVideo == old(loadedVideo) && selectedClip == old(selectedClip)
      ensures playheadPosition == old(playheadPosition) && isPlaying == old(isPlaying)
      ensures lastFrameTime == old(lastFrameTime)
    {
      if selectedClip.Some? {
        var splitTime := FromSecs(playheadPosition);
        SplitClip(selectedClip.value, splitTime);
      }
    }

    /** A click on the video track at timeline time `timePos`: the first clip,
        in list order, whose closed interval contains `timePos` is selected, or
        split under the pointer when shift is held; later clips are not looked at. */
    method ClickTimeline(timePos: real, shift: bool)
      requires Valid()
      modifies this
      ensures Valid()
      ensures FirstHit(old(clips), timePos).None? ==>
                clips == old(clips) && nextClipId == old(nextClipId) && selectedClip == old(selectedClip)
      ensures FirstHit(old(clips), timePos).Some? ==> ClickOutcome(old(clips), old(nextClipId), old(selectedClip),
                                                                    FirstHit(old(clips), timePos).value, timePos, shift)
      ensures loadedVideo == old(loadedVideo) && playheadPosition == old(playheadPosition)
      ensures isPlaying == old(isPlaying) && lastFrameTime == old(lastFrameTime)
    {
      var i := 0;
      while i < |clips|
        invariant 0 <= i <= |clips|
        invariant clips == old(clips) && nextClipId == old(nextClipId) && selectedClip == old(selectedClip)
        invariant forall k :: 0 <= k < i ==> !Covers(clips[k], timePos)
        invariant loadedVideo == old(loadedVideo) && playheadPosition == old(playheadPosition)
        invariant isPlaying == old(isPlaying) && lastFrameTime == old(lastFrameTime)
      {
        var clip := clips[i];
        var clipStart := clip.position;
        var clipEnd := clipStart + AsSecs(clip.endTime - clip.startTime);
        if timePos >= clipStart && timePos <= clipEnd {
          assert FirstHit(clips, timePos) == Some(i);
          ClickOnClip(i, timePos, shift);
          break;
        }
        i := i + 1;
      }
    }

    /** What a click does to the clip it hit, the one at index `i`. */
    method ClickOnClip(i: nat, timePos: real, shift: bool)
      requires Valid()
      requires i < |clips| && Covers(clips[i], timePos)
      modifies this
      ensures Valid()
      ensures ClickOutcome(old(clips), old(nextClipId), old(selectedClip), i, timePos, shift)
      ensures loadedVideo == old(loadedVideo) && playheadPosition == old(playheadPosition)
      ensures isPlaying == old(isPlaying) && lastFrameTime == old(lastFrameTime)
    {
      var clip := clips[i];
      var clipStart := clip.position;
      if shift {
        var splitTime := SourceTimeAt(clip, timePos);
        SplitClip(clip.id, splitTime);
      } else {
        IdSetIndices(clips);
        selectedClip := Some(clip.id);
      }
    }

    /** The state after a click on clip `i` of `clips0`: without shift the clip is
        selected; with shift it is split at the source time under the pointer. */
    ghost predicate ClickOutcome(clips0: seq<Clip>, nextId0: nat, selected0: Option<nat>, i: nat, timePos: real, shift: bool)
      requires i < |clips0| && Covers(clips0[i], timePos)
      reads this
    {
      if shift then
        var c := clips0[i];
        && (clips, nextClipId) == Split(clips0, nextId0, c.id, SourceTimeAt(c, timePos))
        && selectedClip == selected0
      else
        clips == clips0 && nextClipId == nextId0 && selectedClip == Some(clips0[i].id)
    }
  }

  /** An editing scenario: a 10 s video is split at 4 s and its first half
      deleted. */
  method EditScenario()
  {
    var app := new VideoEditorApp(0.0);
    app.LoadVideo("clip.mov", Some(10_500_000));
    var video := app.loadedVideo.value;
    assert app.clips == [Clip(video, 0, 10 * NanosPerSec, 0, 0.0)];

    app.ClickTimeline(4.0, true);
    assert FromSecs(4.0) == 4 * NanosPerSec;
    assert app.clips == [Clip(video, 0, 4 * NanosPerSec, 0, 0.0), Clip(video, 4 * NanosPerSec, 10 * NanosPerSec, 1, 4.0)];

    app.ClickTimeline(2.0, false);
    assert app.selectedClip == Some(0);
    app.DeleteSelectedClip();
    assert app.clips == [Clip(video, 4 * NanosPerSec, 10 * NanosPerSec, 1, 4.0)];
    assert FirstHit(app.clips, 2.0) == None;
    assert FirstHit(app.clips, 5.0) == Some(0);
  }

  /** Playback of a 10 s video: a frame 10.5 s after pressing play finds the
      playhead past the end, so it rewinds and stops. */
  method PlaybackScenario()
  {
    var app := new VideoEditorApp(0.0);
    app.LoadVideo("clip.mov", Some(10_500_000));
    app.PlayPauseClicked(100.0);
    assert app.isPlaying;
    app.Tick(110.5);
    assert !app.isPlaying && app.playheadPosition == 0.0;
  }
}
