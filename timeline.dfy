/** The editor's timeline as values: the `Clip` records of src/main.rs and the
    operations that the editor applies to its clip list (append on load, split,
    delete by id, the first-hit search under the pointer).

    A `std::time::Duration` is a count of nanoseconds; an `f32` number of
    seconds is a `real`, so the arithmetic on positions here is exact. */
module Timeline {
  import opened Wrappers

  const NanosPerSec: nat := 1_000_000_000

  /** The rough size-to-duration estimate of `parse_mov_file`: one second per megabyte. */
  const BytesPerEstimatedSec: nat := 1_000_000

  datatype VideoInfo = VideoInfo(path: string, duration: nat, width: nat, height: nat, fps: real, hasAudio: bool)

  /** A trimmed range `[startTime, endTime]` of a source video, placed on the
      timeline at `position` seconds. */
  datatype Clip = Clip(sourceVideo: VideoInfo, startTime: nat, endTime: nat, id: nat, position: real)

  /** `Duration::as_secs_f32`, without the rounding to `f32`: the seconds
      that, counted in nanoseconds, give back `d`. */
  function AsSecs(d: int): (r: real)
    ensures r * NanosPerSec as real == d as real
    ensures d >= 0 ==> r >= 0.0
  {
    d as real / NanosPerSec as real
  }

  /** `t` seconds fall exactly halfway between two whole nanoseconds. */
  predicate IsTie(t: real)
  {
    var x := t * NanosPerSec as real;
    x - x.Floor as real == 0.5
  }

  /** `Duration::from_secs_f32` of a non-negative number of seconds: the nearest
      whole number of nanoseconds, and the even one of the two when `t` lies
      exactly halfway between them, as Rust rounds half to even. */
  function FromSecs(t: real): (d: nat)
    requires t >= 0.0
    ensures d as real - 0.5 <= t * NanosPerSec as real <= d as real + 0.5
    ensures !IsTie(t) ==> d as real - 0.5 < t * NanosPerSec as real < d as real + 0.5
    ensures IsTie(t) ==> d % 2 == 0
  {
    var x := t * NanosPerSec as real;
    var f := x.Floor;
    if x - f as real < 0.5 then f
    else if x - f as real > 0.5 then f + 1
    else if f % 2 == 0 then f
    else f + 1
  }

  /** Converting a duration to seconds and back gives the duration again. */
  lemma FromSecsAsSecs(d: nat)
    ensures FromSecs(AsSecs(d)) == d
  {
    assert AsSecs(d) * NanosPerSec as real == d as real;
  }

  /** `parse_mov_file`: `fileLen` is the length reported by the file's metadata,
      or `None` when the file cannot be opened or its metadata read. */
  function ParseMovFile(path: string, fileLen: Option<nat>): (r: Option<VideoInfo>)
    ensures r.Some? <==> fileLen.Some?
    ensures r.Some? ==> r.value.path == path && r.value.width == 1920 && r.value.height == 1080
                        && r.value.fps == 30.0 && r.value.hasAudio
    // the duration is the file size in megabytes, rounded down, in whole seconds
    ensures r.Some? ==> r.value.duration % NanosPerSec == 0
                        && AsSecs(r.value.duration) * BytesPerEstimatedSec as real <= fileLen.value as real
                        && fileLen.value as real < (AsSecs(r.value.duration) + 1.0) * BytesPerEstimatedSec as real
  {
    match fileLen
    case None => None
    case Some(len) =>
      Some(VideoInfo(path, (len / BytesPerEstimatedSec) * NanosPerSec, 1920, 1080, 30.0, true))
  }

  /** The clip that `load_video` appends: the whole video, at the start of the
      timeline, placed where its source start time says. */
  function NewClip(video: VideoInfo, id: nat): (c: Clip)
    ensures c.sourceVideo == video && c.id == id
    ensures c.startTime == 0 && ClipDuration(c) == video.duration
    ensures c.position == AsSecs(c.startTime) && Covers(c, 0.0)
  {
    Clip(video, 0, video.duration, id, 0.0)
  }

  function ClipDuration(c: Clip): int
  {
    c.endTime - c.startTime
  }

  /** The closed interval the hit-test checks: `[position, position + duration]`. */
  predicate Covers(c: Clip, t: real)
  {
    c.position <= t <= c.position + AsSecs(ClipDuration(c))
  }

  /** The index of the first clip, in list order, whose interval contains `t`. */
  function FirstHit(clips: seq<Clip>, t: real): (r: Option<nat>)
    ensures r.Some? ==> r.value < |clips| && Covers(clips[r.value], t)
                        && forall k :: 0 <= k < r.value ==> !Covers(clips[k], t)
    ensures r.None? ==> forall k :: 0 <= k < |clips| ==> !Covers(clips[k], t)
  {
    if |clips| == 0 then None
    else if Covers(clips[0], t) then Some(0)
    else match FirstHit(clips[1..], t)
      case None => None
      case Some(k) => Some(k + 1)
  }

  /** `clips.iter().position(|c| c.id == id)`. */
  function IndexOfId(clips: seq<Clip>, id: nat): (r: Option<nat>)
    ensures r.Some? ==> r.value < |clips| && clips[r.value].id == id
                        && forall k :: 0 <= k < r.value ==> clips[k].id != id
    ensures r.None? ==> forall k :: 0 <= k < |clips| ==> clips[k].id != id
  {
    if |clips| == 0 then None
    else if clips[0].id == id then Some(0)
    else match IndexOfId(clips[1..], id)
      case None => None
      case Some(k) => Some(k + 1)
  }

  function IdSet(clips: seq<Clip>): set<nat>
  {
    set c | c in clips :: c.id
  }

  function TotalDuration(clips: seq<Clip>): int
  {
    if |clips| == 0 then 0 else ClipDuration(clips[0]) + TotalDuration(clips[1..])
  }

  /** Every clip has `startTime <= endTime` and a non-negative position, the ids
      are pairwise distinct and all below the next id to be handed out. */
  ghost predicate WellFormed(clips: seq<Clip>, nextId: nat)
  {
    && (forall k :: 0 <= k < |clips| ==>
          clips[k].startTime <= clips[k].endTime && clips[k].position >= 0.0 && clips[k].id < nextId)
    && (forall j, k :: 0 <= j < k < |clips| ==> clips[j].id != clips[k].id)
  }

  /** Every clip sits on the timeline at the time it starts in its source. */
  ghost predicate PositionsTrackSource(clips: seq<Clip>)
  {
    forall k :: 0 <= k < |clips| ==> clips[k].position == AsSecs(clips[k].startTime)
  }

  // ---------------------------------------------------------------- split

  /** The clip list after splitting the clip at index `i` at source time `t`:
      the clip is cut to end at `t`, and the rest of it becomes a new clip with
      id `newId` right after it. */
  function SplitClips(clips: seq<Clip>, i: nat, t: nat, newId: nat): (r: seq<Clip>)
    requires i < |clips| && clips[i].startTime < t < clips[i].endTime
    ensures |r| == |clips| + 1
    ensures r[i].id == clips[i].id && r[i].startTime == clips[i].startTime && r[i].endTime == t
    ensures r[i].position == clips[i].position && r[i].sourceVideo == clips[i].sourceVideo
    ensures r[i + 1].id == newId && r[i + 1].startTime == t && r[i + 1].endTime == clips[i].endTime
    ensures r[i + 1].sourceVideo == clips[i].sourceVideo
    // the right piece begins on the timeline where the shortened left piece now ends
    ensures r[i + 1].position == r[i].position + AsSecs(ClipDuration(r[i]))
    ensures forall k :: 0 <= k < i ==> r[k] == clips[k]
    ensures forall k :: i + 1 < k < |r| ==> r[k] == clips[k - 1]
  {
    var original := clips[i];
    var shortened := clips[i := original.(endTime := t)];
    var rest := Clip(original.sourceVideo, t, original.endTime, newId,
                     original.position + AsSecs(t - original.startTime));
    shortened[..i + 1] + [rest] + shortened[i + 1..]
  }

  /** The clip with id `clipId` exists and `t` lies strictly inside its source range. */
  predicate CanSplit(clips: seq<Clip>, clipId: nat, t: nat)
  {
    match IndexOfId(clips, clipId)
    case None => false
    case Some(i) => clips[i].startTime < t < clips[i].endTime
  }

  /** `split_clip` on the clip list and the id counter. It changes nothing,
      the id counter included, exactly when the split is not possible; a
      split adds one clip and spends one id. */
  function Split(clips: seq<Clip>, nextId: nat, clipId: nat, t: nat): (r: (seq<Clip>, nat))
    ensures r == (clips, nextId) <==> !CanSplit(clips, clipId, t)
    ensures CanSplit(clips, clipId, t) ==> |r.0| == |clips| + 1 && r.1 == nextId + 1
  {
    match IndexOfId(clips, clipId)
    case None => (clips, nextId)
    case Some(i) =>
      if clips[i].startTime < t < clips[i].endTime then (SplitClips(clips, i, t, nextId), nextId + 1)
      else (clips, nextId)
  }

  lemma {:induction false} TotalDurationConcat(a: seq<Clip>, b: seq<Clip>)
    ensures TotalDuration(a + b) == TotalDuration(a) + TotalDuration(b)
  {
    if |a| > 0 {
      assert (a + b)[1..] == a[1..] + b;
      TotalDurationConcat(a[1..], b);
    } else {
      assert a + b == b;
    }
  }

  /** Splitting keeps the sum of the clips' durations. */
  lemma SplitKeepsTotalDuration(clips: seq<Clip>, nextId: nat, clipId: nat, t: nat)
    ensures TotalDuration(Split(clips, nextId, clipId, t).0) == TotalDuration(clips)
  {
    if CanSplit(clips, clipId, t) {
      var i := IndexOfId(clips, clipId).value;
      var r := SplitClips(clips, i, t, nextId);
      assert clips == clips[..i] + [clips[i]] + clips[i + 1..];
      assert r == clips[..i] + [r[i], r[i + 1]] + clips[i + 1..];
      TotalDurationConcat(clips[..i] + [clips[i]], clips[i + 1..]);
      TotalDurationConcat(clips[..i], [clips[i]]);
      TotalDurationConcat(clips[..i] + [r[i], r[i + 1]], clips[i + 1..]);
      TotalDurationConcat(clips[..i], [r[i], r[i + 1]]);
      assert [r[i], r[i + 1]][1..] == [r[i + 1]];
      assert TotalDuration([r[i + 1]]) == ClipDuration(r[i + 1]);
      assert [clips[i]][1..] == [];
    }
  }

  lemma IdSetIndices(clips: seq<Clip>)
    ensures forall id :: id in IdSet(clips) <==> exists k :: 0 <= k < |clips| && clips[k].id == id
  {
    forall id ensures id in IdSet(clips) <==> exists k :: 0 <= k < |clips| && clips[k].id == id {
      if id in IdSet(clips) {
        var c :| c in clips && c.id == id;
        var k :| 0 <= k < |clips| && clips[k] == c;
      }
    }
  }

  /** A split keeps the clip list well formed, keeps every position on its source
      time, and adds exactly the new id. */
  lemma SplitKeepsWellFormed(clips: seq<Clip>, nextId: nat, clipId: nat, t: nat)
    requires WellFormed(clips, nextId) && PositionsTrackSource(clips)
    ensures WellFormed(Split(clips, nextId, clipId, t).0, Split(clips, nextId, clipId, t).1)
    ensures PositionsTrackSource(Split(clips, nextId, clipId, t).0)
    ensures IdSet(Split(clips, nextId, clipId, t).0)
            == IdSet(clips) + (if CanSplit(clips, clipId, t) then {nextId} else {})
  {
    if CanSplit(clips, clipId, t) {
      var i := IndexOfId(clips, clipId).value;
      SplitClipsFields(clips, i, t, nextId);
      SplitClipsIds(clips, i, t, nextId);
    }
  }

  /** Where each clip of a split list came from: the clip itself for indices up
      to the split one, the clip before it for the indices past the new piece. */
  function SplitSource(i: nat, k: nat): nat
  {
    if k <= i then k else k - 1
  }

  lemma SplitClipsFields(clips: seq<Clip>, i: nat, t: nat, newId: nat)
    requires i < |clips| && clips[i].startTime < t < clips[i].endTime
    requires WellFormed(clips, newId) && PositionsTrackSource(clips)
    ensures var r := SplitClips(clips, i, t, newId);
            forall k :: 0 <= k < |r| ==>
              r[k].startTime <= r[k].endTime && r[k].position >= 0.0 && r[k].id < newId + 1
              && r[k].position == AsSecs(r[k].startTime)
  {
    var r := SplitClips(clips, i, t, newId);
    forall k | 0 <= k < |r|
      ensures r[k].startTime <= r[k].endTime && r[k].position >= 0.0 && r[k].id < newId + 1
      ensures r[k].position == AsSecs(r[k].startTime)
    {
      if k == i + 1 {
        assert AsSecs(clips[i].startTime) + AsSecs(t - clips[i].startTime) == AsSecs(t);
      } else {
        assert clips[SplitSource(i, k)].startTime == r[k].startTime;
      }
    }
  }

  lemma SplitClipsIds(clips: seq<Clip>, i: nat, t: nat, newId: nat)
    requires i < |clips| && clips[i].startTime < t < clips[i].endTime
    requires WellFormed(clips, newId)
    ensures var r := SplitClips(clips, i, t, newId);
            && (forall j, k :: 0 <= j < k < |r| ==> r[j].id != r[k].id)
            && IdSet(r) == IdSet(clips) + {newId}
  {
    SplitClipsDistinct(clips, i, t, newId);
    SplitClipsIdSet(clips, i, t, newId);
  }

  lemma SplitClipsDistinct(clips: seq<Clip>, i: nat, t: nat, newId: nat)
    requires i < |clips| && clips[i].startTime < t < clips[i].endTime
    requires WellFormed(clips, newId)
    ensures var r := SplitClips(clips, i, t, newId);
            forall j, k :: 0 <= j < k < |r| ==> r[j].id != r[k].id
  {
    var r := SplitClips(clips, i, t, newId);
    forall j, k | 0 <= j < k < |r| ensures r[j].id != r[k].id {
      if j == i + 1 {
        assert r[k] == clips[k - 1];
      } else if k == i + 1 {
        assert r[j].id == clips[j].id;
      } else {
        assert r[j].id == clips[SplitSource(i, j)].id;
        assert r[k].id == clips[SplitSource(i, k)].id;
        assert SplitSource(i, j) < SplitSource(i, k);
      }
    }
  }

  lemma SplitClipsIdSet(clips: seq<Clip>, i: nat, t: nat, newId: nat)
    requires i < |clips| && clips[i].startTime < t < clips[i].endTime
    ensures IdSet(SplitClips(clips, i, t, newId)) == IdSet(clips) + {newId}
  {
    var r := SplitClips(clips, i, t, newId);
    IdSetIndices(clips);
    IdSetIndices(r);
    forall id | id in IdSet(r) ensures id in IdSet(clips) + {newId} {
      var k :| 0 <= k < |r| && r[k].id == id;
      if k != i + 1 {
        assert r[k].id == clips[SplitSource(i, k)].id;
      }
    }
    forall id | id in IdSet(clips) ensures id in IdSet(r) {
      var k :| 0 <= k < |clips| && clips[k].id == id;
      assert r[if k <= i then k else k + 1].id == id;
    }
    assert r[i + 1].id == newId;
  }

  // ---------------------------------------------------------------- load

  /** Appending the clip of a newly loaded video under a fresh id keeps the list
      well formed and adds exactly that id. */
  lemma LoadKeepsWellFormed(clips: seq<Clip>, nextId: nat, video: VideoInfo)
    requires WellFormed(clips, nextId) && PositionsTrackSource(clips)
    ensures WellFormed(clips + [NewClip(video, nextId)], nextId + 1)
    ensures PositionsTrackSource(clips + [NewClip(video, nextId)])
    ensures IdSet(clips + [NewClip(video, nextId)]) == IdSet(clips) + {nextId}
  {
    var r := clips + [NewClip(video, nextId)];
    assert forall c :: c in r <==> c in clips || c == NewClip(video, nextId);
  }

  // ---------------------------------------------------------------- delete

  /** `clips.retain(|c| c.id != id)`. */
  function RemoveId(clips: seq<Clip>, id: nat): (r: seq<Clip>)
    ensures |r| <= |clips|
  {
    if |clips| == 0 then []
    else (if clips[0].id == id then [] else [clips[0]]) + RemoveId(clips[1..], id)
  }

  /** A clip survives removal exactly when it was there and does not carry the id. */
  lemma {:induction false} RemoveIdMembers(clips: seq<Clip>, id: nat, c: Clip)
    ensures c in RemoveId(clips, id) <==> c in clips && c.id != id
  {
    if |clips| > 0 {
      RemoveIdMembers(clips[1..], id, c);
      assert clips == [clips[0]] + clips[1..];
    }
  }

  /** Removing an id that no clip carries leaves the list as it is. */
  lemma {:induction false} RemoveAbsentId(clips: seq<Clip>, id: nat)
    requires forall k :: 0 <= k < |clips| ==> clips[k].id != id
    ensures RemoveId(clips, id) == clips
  {
    if |clips| > 0 {
      RemoveAbsentId(clips[1..], id);
      assert clips == [clips[0]] + clips[1..];
    }
  }

  /** Removal works piecewise, so it keeps the remaining clips in their order. */
  lemma {:induction false} RemoveIdConcat(a: seq<Clip>, b: seq<Clip>, id: nat)
    ensures RemoveId(a + b, id) == RemoveId(a, id) + RemoveId(b, id)
  {
    if |a| == 0 {
      assert a + b == b;
    } else {
      assert (a + b)[0] == a[0];
      assert (a + b)[1..] == a[1..] + b;
      RemoveIdConcat(a[1..], b, id);
    }
  }

  /** With distinct ids, deleting the id of the clip at index `k` removes that one
      clip and leaves the others, positions included, in their order. */
  lemma {:induction false} RemoveUniqueId(clips: seq<Clip>, k: nat)
    requires k < |clips|
    requires forall i, j :: 0 <= i < j < |clips| ==> clips[i].id != clips[j].id
    ensures RemoveId(clips, clips[k].id) == clips[..k] + clips[k + 1..]
  {
    var id := clips[k].id;
    var tail := clips[1..];
    if k == 0 {
      assert forall i :: 0 <= i < |tail| ==> tail[i].id != id by {
        forall i | 0 <= i < |tail| ensures tail[i].id != id {
          assert tail[i] == clips[i + 1];
        }
      }
      RemoveAbsentId(tail, id);
    } else {
      assert forall i, j :: 0 <= i < j < |tail| ==> tail[i].id != tail[j].id by {
        forall i, j | 0 <= i < j < |tail| ensures tail[i].id != tail[j].id {
          assert tail[i] == clips[i + 1] && tail[j] == clips[j + 1];
        }
      }
      assert tail[k - 1] == clips[k];
      RemoveUniqueId(tail, k - 1);
      assert clips[0].id != id;
      assert clips[..k] + clips[k + 1..] == [clips[0]] + (tail[..k - 1] + tail[k..]);
    }
  }

  /** Deleting by id keeps the list well formed and removes exactly that id. */
  lemma RemoveIdKeepsWellFormed(clips: seq<Clip>, nextId: nat, id: nat)
    requires WellFormed(clips, nextId) && PositionsTrackSource(clips)
    ensures WellFormed(RemoveId(clips, id), nextId)
    ensures PositionsTrackSource(RemoveId(clips, id))
    ensures IdSet(RemoveId(clips, id)) == IdSet(clips) - {id}
  {
    match IndexOfId(clips, id)
    case None =>
      RemoveAbsentId(clips, id);
      IdSetIndices(clips);
    case Some(k) =>
      RemoveUniqueId(clips, k);
      DropIndexKeepsWellFormed(clips, nextId, k);
  }

  /** Dropping the clip at index `k` from a well-formed list keeps it well
      formed and removes exactly that clip's id. */
  lemma DropIndexKeepsWellFormed(clips: seq<Clip>, nextId: nat, k: nat)
    requires k < |clips| && WellFormed(clips, nextId) && PositionsTrackSource(clips)
    ensures var r := clips[..k] + clips[k + 1..];
            WellFormed(r, nextId) && PositionsTrackSource(r) && IdSet(r) == IdSet(clips) - {clips[k].id}
  {
    var r := clips[..k] + clips[k + 1..];
    assert forall i :: 0 <= i < |r| ==> r[i] == clips[if i < k then i else i + 1];
    DropIndexIdSet(clips, k);
  }

  lemma DropIndexIdSet(clips: seq<Clip>, k: nat)
    requires k < |clips|
    requires forall i, j :: 0 <= i < j < |clips| ==> clips[i].id != clips[j].id
    ensures IdSet(clips[..k] + clips[k + 1..]) == IdSet(clips) - {clips[k].id}
  {
    var r := clips[..k] + clips[k + 1..];
    IdSetIndices(clips);
    IdSetIndices(r);
    forall id | id in IdSet(r) ensures id in IdSet(clips) - {clips[k].id} {
      var j :| 0 <= j < |r| && r[j].id == id;
      assert r[j] == clips[if j < k then j else j + 1];
    }
    forall id | id in IdSet(clips) - {clips[k].id} ensures id in IdSet(r) {
      var j :| 0 <= j < |clips| && clips[j].id == id;
      assert r[if j < k then j else j - 1] == clips[j];
    }
  }

  // ---------------------------------------------------------------- hit-test

  /** The source time under the pointer at timeline time `t` on clip `c`. */
  function SourceTimeAt(c: Clip, t: real): nat
    requires c.position <= t
  {
    c.startTime + FromSecs(t - c.position)
  }

  /** On a clip that sits at its source start time, the split point a
      shift-click computes, `startTime + from_secs_f32(t - position)`, is the
      click's own timeline time converted to a duration, except when `t` is an
      exact half nanosecond and the start time is odd: there the two roundings
      to even pick neighbouring nanoseconds. So the cut button, which passes
      the converted playhead, splits where a shift-click at the playhead
      would, up to that one nanosecond. */
  lemma ShiftClickSplitsAtGlobalTime(c: Clip, t: real)
    requires c.position == AsSecs(c.startTime) && c.position <= t
    ensures SourceTimeAt(c, t) == FromSecs(t) <==> !IsTie(t) || c.startTime % 2 == 0
    ensures SourceTimeAt(c, t) - FromSecs(t) in {-1, 0, 1}
  {
    var s := c.startTime;
    var x := t * NanosPerSec as real;
    assert (t - c.position) * NanosPerSec as real == x - s as real;
    assert (x - s as real).Floor == x.Floor - s;
    assert IsTie(t - c.position) == IsTie(t);
  }
}
