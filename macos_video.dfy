/** The pixel conversion of src/macos_video.rs: a decoded frame arrives as
    BGRA bytes, four per pixel, and egui wants RGBA, so the blue and red bytes
    of every pixel trade places. */
module MacosVideo {
  import opened Bytes

  /** `VideoFrame`; the timestamp is a `Duration` in nanoseconds. */
  datatype VideoFrame = VideoFrame(data: seq<Byte>, width: nat, height: nat, timestamp: nat)

  /** One pixel: B, G, R, A in, R, G, B, A out. The pixel keeps its four
      bytes, green and alpha stay in place, and blue and red change places. */
  function Swizzle(chunk: seq<Byte>): (p: seq<Byte>)
    requires |chunk| == 4
    ensures |p| == 4
    ensures p[1] == chunk[1] && p[3] == chunk[3]
    ensures p[0] == chunk[2] && p[2] == chunk[0]
  {
    [chunk[2], chunk[1], chunk[0], chunk[3]]
  }

  /** Swapping bytes 0 and 2 twice leaves a pixel as it was. */
  lemma SwizzleInvolution(chunk: seq<Byte>)
    requires |chunk| == 4
    ensures Swizzle(Swizzle(chunk)) == chunk
  {
  }

  /** The RGBA image of BGRA `data`, one whole four-byte chunk at a time; the
      bytes of a last incomplete chunk are dropped, as `chunks_exact(4)` does. */
  function BgraToRgba(data: seq<Byte>): (r: seq<Byte>)
    ensures |r| == 4 * (|data| / 4)
    decreases |data|
  {
    if |data| < 4 then []
    else Swizzle(data[..4]) + BgraToRgba(data[4..])
  }

  /** Chunk `k` of the result is chunk `k` of `data`, swizzled. */
  lemma {:induction false} BgraToRgbaChunk(data: seq<Byte>, k: nat)
    requires k < |data| / 4
    ensures BgraToRgba(data)[4 * k..4 * k + 4] == Swizzle(data[4 * k..4 * k + 4])
  {
    var r := BgraToRgba(data);
    if k == 0 {
      assert r[..4] == Swizzle(data[..4]);
    } else {
      var rest := data[4..];
      BgraToRgbaChunk(rest, k - 1);
      assert r[4..] == BgraToRgba(rest);
      assert r[4 * k..4 * k + 4] == BgraToRgba(rest)[4 * (k - 1)..4 * (k - 1) + 4];
      assert rest[4 * (k - 1)..4 * (k - 1) + 4] == data[4 * k..4 * k + 4];
    }
  }

  lemma SwizzledAt(r: seq<Byte>, data: seq<Byte>, j: nat)
    requires j + 4 <= |r| && j + 4 <= |data| && r[j..j + 4] == Swizzle(data[j..j + 4])
    ensures r[j] == data[j + 2] && r[j + 1] == data[j + 1] && r[j + 2] == data[j] && r[j + 3] == data[j + 3]
  {
    assert r[j] == r[j..j + 4][0] && r[j + 1] == r[j..j + 4][1] && r[j + 2] == r[j..j + 4][2] && r[j + 3] == r[j..j + 4][3];
  }

  /** Converting twice gives back the frame's bytes, cut to whole pixels: the
      exchange of bytes 0 and 2 undoes itself. */
  lemma {:induction false} BgraToRgbaInvolution(data: seq<Byte>)
    ensures BgraToRgba(BgraToRgba(data)) == data[..4 * (|data| / 4)]
    decreases |data|
  {
    if |data| >= 4 {
      var rest := data[4..];
      BgraToRgbaInvolution(rest);
      var r := BgraToRgba(data);
      SwizzleInvolution(data[..4]);
      assert |rest| / 4 == |data| / 4 - 1;
      assert r[..4] == Swizzle(data[..4]) && r[4..] == BgraToRgba(rest);
      assert BgraToRgba(r) == data[..4] + rest[..4 * (|rest| / 4)];
      assert data[..4 * (|data| / 4)] == data[..4] + rest[..4 * (|rest| / 4)];
    }
  }

  /** Pixel `k` of the result is pixel `k` of `data` with bytes 0 and 2
      exchanged. */
  lemma BgraToRgbaPixels(data: seq<Byte>)
    ensures var r := BgraToRgba(data);
            forall k :: 0 <= k < |data| / 4 ==>
              && r[4 * k] == data[4 * k + 2]
              && r[4 * k + 1] == data[4 * k + 1]
              && r[4 * k + 2] == data[4 * k]
              && r[4 * k + 3] == data[4 * k + 3]
  {
    forall k | 0 <= k < |data| / 4
      ensures var r := BgraToRgba(data);
              && r[4 * k] == data[4 * k + 2]
              && r[4 * k + 1] == data[4 * k + 1]
              && r[4 * k + 2] == data[4 * k]
              && r[4 * k + 3] == data[4 * k + 3]
    {
      BgraToRgbaChunk(data, k);
      SwizzledAt(BgraToRgba(data), data, 4 * k);
    }
  }

  /** `convert_frame_to_rgba`: the loop over `chunks_exact(4)` that pushes
      the R, G, B and A bytes of each chunk. Width and height only size the
      buffer's capacity, so the result is a function of the bytes alone. */
  method ConvertFrameToRgba(frame: VideoFrame) returns (rgba: seq<Byte>)
    ensures rgba == BgraToRgba(frame.data)
    ensures |rgba| == 4 * (|frame.data| / 4)
    ensures forall k :: 0 <= k < |frame.data| / 4 ==>
              && rgba[4 * k] == frame.data[4 * k + 2]
              && rgba[4 * k + 1] == frame.data[4 * k + 1]
              && rgba[4 * k + 2] == frame.data[4 * k]
              && rgba[4 * k + 3] == frame.data[4 * k + 3]
  {
    var data := frame.data;
    ghost var full := BgraToRgba(data);
    rgba := [];
    var i := 0;
    while i < |data| / 4
      invariant 0 <= i <= |data| / 4
      invariant rgba == full[..4 * i]
    {
      var chunk := data[4 * i..4 * i + 4];
      BgraToRgbaChunk(data, i);
      PrefixGrows(full, 4 * i, 4 * i + 4);
      rgba := rgba + [chunk[2], chunk[1], chunk[0], chunk[3]];
      i := i + 1;
    }
    assert rgba == full;
    BgraToRgbaPixels(data);
  }

  lemma PrefixGrows(s: seq<Byte>, a: nat, b: nat)
    requires a <= b <= |s|
    ensures s[..b] == s[..a] + s[a..b]
  {
  }
}
