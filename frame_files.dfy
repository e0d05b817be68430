/** Frame extraction (`video_to_frames` in main.py): every frame the capture decodes
    is written to its own file, `frame_0000.jpg`, `frame_0001.jpg`, ..., in the order
    the frames are read, until the first read that fails. */
module FrameFiles {
  import opened DecimalText

  datatype Option<T> = None | Some(value: T)

  const Prefix: string := "frame_"
  const Extension: string := ".jpg"

  /** Base name of the file that frame number `frameNo` is saved to:
      `f"frame_{frameNo:04d}.jpg"`. */
  function FrameName(frameNo: nat): (name: string)
    ensures |name| == |Prefix| + |Format04d(frameNo)| + |Extension|
    ensures name[..|Prefix|] == Prefix && name[|name| - |Extension|..] == Extension
    ensures name[|Prefix|..|name| - |Extension|] == Format04d(frameNo)
  {
    Prefix + Format04d(frameNo) + Extension
  }

  /** Inverse of `FrameName`: the frame number a file name stands for, if the name
      has exactly the shape `FrameName` writes. */
  function FrameNumber(name: string): (r: Option<nat>)
    ensures r.Some? ==> |name| >= |Prefix| + 4 + |Extension|
  {
    var k := |Prefix|;
    if |name| < k + 4 + |Extension| then None
    else if name[..k] != Prefix || name[|name| - |Extension|..] != Extension then None
    else
      var digits := name[k..|name| - |Extension|];
      if !AllDigits(digits) then None
      else if |digits| > 4 && digits[0] == '0' then None
      else Some(Value(digits))
  }

  lemma FrameNumberOfFrameName(n: nat)
    ensures FrameNumber(FrameName(n)) == Some(n)
  {
    var name := FrameName(n);
    var digits := Format04d(n);
    assert name[..|Prefix|] == Prefix;
    assert name[|name| - |Extension|..] == Extension;
    assert name[|Prefix|..|name| - |Extension|] == digits;
  }

  lemma FrameNameOfFrameNumber(name: string)
    requires FrameNumber(name).Some?
    ensures FrameName(FrameNumber(name).value) == name
  {
    var k := |Prefix|;
    var digits := name[k..|name| - |Extension|];
    Format04dCanonical(digits);
    assert name == name[..k] + digits + name[|name| - |Extension|..];
  }

  /** No two frames of one run share a file, so none overwrites another. */
  lemma FrameNameInjective(a: nat, b: nat)
    requires FrameName(a) == FrameName(b)
    ensures a == b
  {
    FrameNumberOfFrameName(a);
    FrameNumberOfFrameName(b);
  }

  lemma FrameNamesDistinct(n: nat)
    ensures forall i, j :: 0 <= i < j < n ==> FrameName(i) != FrameName(j)
  {
    forall i, j | 0 <= i < j < n
      ensures FrameName(i) != FrameName(j)
    {
      if FrameName(i) == FrameName(j) {
        FrameNameInjective(i, j);
      }
    }
  }

  /** Below 10000 every name has the same length, 14 characters. */
  lemma FrameNameLength(n: nat)
    ensures |FrameName(n)| == 14 <==> n < 10000
  {
    var digits := Format04d(n);
    assert |Prefix| == 6 && |Extension| == 4;
  }

  /** Below 10000, sorting the names as strings sorts the frames by number. */
  lemma FrameNameOrder(a: nat, b: nat)
    requires a < 10000 && b < 10000
    ensures LexLess(FrameName(a), FrameName(b)) <==> a < b
  {
    var x, y := Format04d(a), Format04d(b);
    assert Prefix + x + Extension == Prefix + (x + Extension);
    assert Prefix + y + Extension == Prefix + (y + Extension);
    LexLessCommonPrefix(Prefix, x + Extension, y + Extension);
    LexLessSameLengthHeads(x, y, Extension, Extension);
    LexLessIrreflexive(Extension);
    LexLessIsNumericOrder(x, y);
  }

  /** From 10000 on the padding no longer evens out the lengths, and string order
      parts from numeric order: frame 10000 sorts before frame 9999. */
  lemma FrameNameOrderBreaksAt10000()
    ensures LexLess(FrameName(10000), FrameName(9999))
  {
    var x, y := Format04d(10000), Format04d(9999);
    assert Prefix + x + Extension == Prefix + (x + Extension);
    assert Prefix + y + Extension == Prefix + (y + Extension);
    LexLessCommonPrefix(Prefix, x + Extension, y + Extension);
    assert x[0] == '1' by {
      Format04dCanonical("10000");
    }
    assert y[0] == '9' by {
      Format04dCanonical("9999");
    }
  }

  /** Result of one `cap.read()`: a decoded frame, or the failure (`ret` false)
      that ends extraction. */
  datatype Read<F> = Decoded(frame: F) | Failed

  /** One file written by `cv2.imwrite`: its base name and the frame stored in it. */
  datatype Saved<F> = Saved(name: string, frame: F)

  /** The `k`-th call of `cap.read()` on a capture whose successive reads are
      `capture`; once they are used up every further read fails, as at the end of a
      video. */
  function ReadAt<F>(capture: seq<Read<F>>, k: nat): (r: Read<F>)
    ensures k >= |capture| ==> r.Failed?
  {
    if k < |capture| then capture[k] else Failed
  }

  /** The frames the capture delivers before its first failed read, in read order. */
  function DecodedPrefix<F>(capture: seq<Read<F>>): (frames: seq<F>)
    ensures |frames| <= |capture|
    ensures forall i :: 0 <= i < |frames| ==> capture[i] == Decoded(frames[i])
    ensures ReadAt(capture, |frames|).Failed?
  {
    if capture == [] || capture[0].Failed? then []
    else [capture[0].frame] + DecodedPrefix(capture[1..])
  }

  /** Reading stops exactly at the first failure: a run of `k` decoded reads followed
      by a failed one is the whole decoded prefix. */
  lemma DecodedPrefixLength<F>(capture: seq<Read<F>>, k: nat)
    requires forall i :: 0 <= i < k ==> ReadAt(capture, i).Decoded?
    requires ReadAt(capture, k).Failed?
    ensures |DecodedPrefix(capture)| == k
  {
  }

  /** The extraction loop. `frameCount` is the capture's advisory frame count
      (`CAP_PROP_FRAME_COUNT`), which the source only prints; the loop ends at the
      first failed read whatever it says. Returns the files written, in order, and
      the final value of the frame counter. */
  method VideoToFrames<F>(capture: seq<Read<F>>, frameCount: int) returns (saved: seq<Saved<F>>, frameNo: nat)
    ensures frameNo == |saved| == |DecodedPrefix(capture)|
    ensures forall i :: 0 <= i < |saved| ==> saved[i] == Saved(FrameName(i), DecodedPrefix(capture)[i])
    ensures forall i, j :: 0 <= i < j < |saved| ==> saved[i].name != saved[j].name
  {
    frameNo := 0;
    saved := [];
    while true
      invariant frameNo == |saved| <= |capture|
      invariant forall i :: 0 <= i < frameNo ==> ReadAt(capture, i).Decoded?
      invariant forall i :: 0 <= i < frameNo ==> saved[i] == Saved(FrameName(i), ReadAt(capture, i).frame)
      decreases |capture| - frameNo
    {
      var r := ReadAt(capture, frameNo);
      if r.Failed? {
        break;
      }
      var outputFile := FrameName(frameNo);
      saved := saved + [Saved(outputFile, r.frame)];
      frameNo := frameNo + 1;
    }
    ExtractedFiles(capture, saved);
  }

  /** What the loop has built when it stops: one file per decoded frame, numbered in
      read order, under distinct names. */
  lemma ExtractedFiles<F>(capture: seq<Read<F>>, saved: seq<Saved<F>>)
    requires forall i :: 0 <= i < |saved| ==> ReadAt(capture, i).Decoded?
    requires forall i :: 0 <= i < |saved| ==> saved[i] == Saved(FrameName(i), ReadAt(capture, i).frame)
    requires ReadAt(capture, |saved|).Failed?
    ensures |saved| == |DecodedPrefix(capture)|
    ensures forall i :: 0 <= i < |saved| ==> saved[i] == Saved(FrameName(i), DecodedPrefix(capture)[i])
    ensures forall i, j :: 0 <= i < j < |saved| ==> saved[i].name != saved[j].name
  {
    DecodedPrefixLength(capture, |saved|);
    FrameNamesDistinct(|saved|);
  }
}
