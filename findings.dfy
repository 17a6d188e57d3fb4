/**
  What an analysis reports to the operator, shared by both front ends.

  Each analyzer's output is turned into a "detected / not detected" decision and
  the prefix of the signal that is shown: at most 100 bits of the image's bit
  string, at most 10 anomaly indices or frame sums. A decoder that raises is
  not caught by either front end; the model reports it as `DecodeFailed`.
 */
module Findings {
  import opened Wrappers
  import opened Names
  import opened Signals

  /**
    What the media libraries yield for one asset file. `None` stands for a
    decoder that raises on this file (an unreadable image, a file `wave` cannot
    open, a container the video decoder rejects).
   */
  datatype MediaFile = MediaFile(
    image: Option<Image>,          // the pixel array of the image decoder
    pcm: Option<seq<byte>>,        // all frames read from the WAV container
    frames: Option<seq<Frame>>)    // the frames sampled at one per second

  datatype Finding =
    | NothingSelected
    | ImageFinding(detected: bool, shownBits: string)
    | AudioFinding(detected: bool, shownIndices: seq<nat>)
    | VideoFinding(detected: bool, shownSums: seq<nat>)
    | PdfMetadata                  // the console hands the file to an external metadata tool
    | Unsupported
    | DecodeFailed(kind: Kind)     // the decoder for this kind raised

  /** Python's `s[:n]`. */
  function Prefix<T>(s: seq<T>, n: nat): (r: seq<T>)
    ensures r <= s
    ensures |r| == if |s| <= n then |s| else n
  {
    if |s| <= n then s else s[..n]
  }

  /** The analyzer that produced a finding, if any ran. */
  function Ran(f: Finding): Option<Kind>
  {
    match f
    case ImageFinding(_, _) => Some(Image)
    case AudioFinding(_, _) => Some(Audio)
    case VideoFinding(_, _) => Some(Video)
    case PdfMetadata => Some(Pdf)
    case DecodeFailed(k) => Some(k)
    case _ => None
  }

  /** `if hidden_message:` — data is reported whenever the bit string is non-empty. */
  function ImageVerdict(hiddenMessage: string): (f: Finding)
    ensures f.ImageFinding?
    ensures f.detected <==> |hiddenMessage| > 0
    ensures f.shownBits <= hiddenMessage && |f.shownBits| <= 100
    ensures |hiddenMessage| <= 100 ==> f.shownBits == hiddenMessage
  {
    ImageFinding(|hiddenMessage| > 0, Prefix(hiddenMessage, 100))
  }

  /** `if anomalies.size > 0:` */
  function AudioVerdict(anomalies: seq<nat>): (f: Finding)
    ensures f.AudioFinding?
    ensures f.detected <==> |anomalies| > 0
    ensures f.shownIndices <= anomalies && |f.shownIndices| <= 10
    ensures |anomalies| <= 10 ==> f.shownIndices == anomalies
  {
    AudioFinding(|anomalies| > 0, Prefix(anomalies, 10))
  }

  /** `if frame_data:` */
  function VideoVerdict(frameData: seq<nat>): (f: Finding)
    ensures f.VideoFinding?
    ensures f.detected <==> |frameData| > 0
    ensures f.shownSums <= frameData && |f.shownSums| <= 10
    ensures |frameData| <= 10 ==> f.shownSums == frameData
  {
    VideoFinding(|frameData| > 0, Prefix(frameData, 10))
  }

  /** What the image analysis reports: data is "detected" exactly when the image has a pixel. */
  function ImageOutcome(image: Option<Image>): (f: Finding)
    ensures image.None? ==> f == DecodeFailed(Image)
    ensures image.Some? ==> f.ImageFinding?
    ensures image.Some? ==> (f.detected <==> |Flatten(image.value)| > 0)
    ensures image.Some? ==> f.shownBits <= LsbPlane(image.value)
  {
    match image
    case None => DecodeFailed(Image)
    case Some(img) =>
      LsbPlaneEmpty(img);
      ImageVerdict(LsbPlane(img))
  }

  /** The frames of a WAV file as 16-bit samples, failing where the decoders raise. */
  function Samples(pcm: Option<seq<byte>>): (r: Option<seq<int>>)
    ensures r.Some? <==> pcm.Some? && |pcm.value| % 2 == 0
    ensures r.Some? ==> |r.value| == |pcm.value| / 2
    ensures r.Some? ==> forall i :: 0 <= i < |r.value| ==> r.value[i] % 2 == pcm.value[2 * i] as int % 2
  {
    match pcm
    case None => None
    case Some(bytes) => DecodeInt16(bytes)
  }

  /** What the audio analysis reports: data is "detected" exactly when some sample is odd. */
  function AudioOutcome(pcm: Option<seq<byte>>): (f: Finding)
    ensures Samples(pcm).None? ==> f == DecodeFailed(Audio)
    ensures Samples(pcm).Some? ==> f.AudioFinding?
    ensures Samples(pcm).Some? ==>
              (f.detected <==> exists i :: 0 <= i < |Samples(pcm).value| && Samples(pcm).value[i] % 2 != 0)
  {
    match Samples(pcm)
    case None => DecodeFailed(Audio)
    case Some(samples) =>
      var r := OddIndices(samples);
      assert r != [] ==> r[0] in r;
      AudioVerdict(r)
  }

  /** What the video analysis reports: data is "detected" exactly when a frame was sampled. */
  function VideoOutcome(frames: Option<seq<Frame>>): (f: Finding)
    ensures frames.None? ==> f == DecodeFailed(Video)
    ensures frames.Some? ==> f.VideoFinding?
    ensures frames.Some? ==> (f.detected <==> |frames.value| > 0)
  {
    match frames
    case None => DecodeFailed(Video)
    case Some(fs) => VideoVerdict(seq(|fs|, i requires 0 <= i < |fs| => FrameSum(fs[i])))
  }
}
