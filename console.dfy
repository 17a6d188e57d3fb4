/**
  The console front end (stegsleuth.py): the module-level analyzers, the asset
  list, and the console's selection state with its dispatch to one analyzer.

  The decoders (image, WAV, video) are not modelled; their decoded output is
  the analyzers' input. The external metadata and OCR tools, all printing and
  the command loop are left out.
 */
module Console {
  import opened Wrappers
  import opened Names
  import opened Signals
  import opened Findings

  /**
    `detect_asset_type`: a case-insensitive suffix test, image before audio
    before video before pdf. The rules never overlap, so each kind is chosen
    exactly when its own suffixes match.
   */
  function DetectAssetType(asset: string): (r: Kind)
    ensures r == Image <==> EndsWithAny(Lower(asset), ImageSuffixes)
    ensures r == Audio <==> EndsWithAny(Lower(asset), AudioSuffixes)
    ensures r == Video <==> EndsWithAny(Lower(asset), VideoSuffixes)
    ensures r == Pdf <==> EndsWith(Lower(asset), PdfSuffix)
  {
    var name := Lower(asset);
    RuleTableExclusive(name);
    if EndsWithAny(name, ImageSuffixes) then Image
    else if EndsWithAny(name, AudioSuffixes) then Audio
    else if EndsWithAny(name, VideoSuffixes) then Video
    else if EndsWith(name, PdfSuffix) then Pdf
    else Unknown
  }

  /** The classification ignores case: a name and its lower-cased form get the same kind. */
  lemma DetectAssetTypeIgnoresCase(asset: string)
    ensures DetectAssetType(Lower(asset)) == DetectAssetType(asset)
  {
    LowerIdempotent(asset);
  }

  /**
    `detect_lsb_steganography`: for every pixel in row-major order, append
    R & 1, G & 1, B & 1. The `''.join(map(str, ...))` at the end is folded into
    each append, which adds the character of the bit.
   */
  method DetectLsbSteganography(imageArray: Image) returns (hiddenMessage: string)
    ensures hiddenMessage == LsbPlane(imageArray)
  {
    var hiddenData: string := [];
    for r := 0 to |imageArray|
      invariant hiddenData == LsbBits(Flatten(imageArray[..r]))
    {
      var row := imageArray[r];
      RowStart(imageArray, r);
      for c := 0 to |row|
        invariant hiddenData == LsbBits(Flatten(imageArray[..r]) + row[..c])
      {
        var pixel := row[c];
        LsbBitsAppend(Flatten(imageArray[..r]), row, c);
        hiddenData := hiddenData + [Bit(pixel[0])];
        hiddenData := hiddenData + [Bit(pixel[1])];
        hiddenData := hiddenData + [Bit(pixel[2])];
      }
      RowDone(imageArray, r);
    }
    ImageDone(imageArray);
    hiddenMessage := hiddenData;
  }

  /**
    `detect_audio_steganography` on the bytes read from the WAV file: decode them
    as 16-bit samples (little-endian host) and return the indices of the odd ones. A
    sample is odd exactly when the low byte it is stored in is odd.
   */
  function DetectAudioSteganography(frames: seq<byte>): (anomalies: Option<seq<nat>>)
    ensures anomalies.Some? <==> |frames| % 2 == 0
    ensures anomalies.Some? ==> StrictlyIncreasing(anomalies.value)
    ensures anomalies.Some? ==>
              forall i :: i in anomalies.value <==> 0 <= i < |frames| / 2 && frames[2 * i] as int % 2 == 1
  {
    match DecodeInt16(frames)
    case None => None
    case Some(audioData) =>
      var r := OddIndices(audioData);
      assert forall i :: 0 <= i < |audioData| ==> audioData[i] % 2 == frames[2 * i] as int % 2 by {
        forall i | 0 <= i < |audioData| ensures audioData[i] % 2 == frames[2 * i] as int % 2 {
          DecodeParity(frames, i);
        }
      }
      Some(r)
  }

  /**
    `detect_video_steganography`: one entry per sampled frame, in order, each the
    sum of every channel value of that frame (numpy widens the sum; the model's
    sums are unbounded).
   */
  method DetectVideoSteganography(frames: seq<Frame>) returns (frameData: seq<nat>)
    ensures |frameData| == |frames|
    ensures forall i :: 0 <= i < |frames| ==> frameData[i] == FrameSum(frames[i])
    ensures forall i :: 0 <= i < |frames| ==> frameData[i] <= 255 * ValueCount(frames[i])
  {
    frameData := [];
    for k := 0 to |frames|
      invariant |frameData| == k
      invariant forall i :: 0 <= i < k ==> frameData[i] == FrameSum(frames[i])
    {
      frameData := frameData + [FrameSum(frames[k])];
    }
  }

  /** The file list of the console's asset folder. */
  class AssetManager {
    var assets: seq<string>

    constructor ()
      ensures assets == []
    {
      assets := [];
    }

    /** `list_assets`, given the regular files of the asset folder. */
    method ListAssets(listing: seq<string>) returns (r: seq<string>)
      modifies this
      ensures assets == listing && r == listing
    {
      assets := listing;
      r := assets;
    }

    /** `select_asset`: a 1-based, bounds-checked lookup; the list is not changed. */
    method SelectAsset(assetNumber: int) returns (r: Option<string>)
      ensures r.Some? <==> 0 < assetNumber <= |assets|
      ensures r.Some? ==> r.value == assets[assetNumber - 1]
    {
      if 0 < assetNumber <= |assets| {
        r := Some(assets[assetNumber - 1]);
      } else {
        r := None;
      }
    }
  }

  /** Python truthiness of an optional name: `None` and `""` are its only false values. */
  predicate IsTruthy(name: Option<string>): (b: bool)
    ensures !b <==> name == None || name == Some("")
  {
    name.Some? && name.value != []
  }

  /**
    The branch `analyze_selected_file` takes for a stored kind: image, audio,
    video and pdf each run their own analysis; any other value is unsupported.
   */
  function Dispatch(kind: Option<Kind>, file: MediaFile): (f: Finding)
    ensures Ran(f) == (if kind == Some(Unknown) then None else kind)
    ensures f == Unsupported <==> kind.None? || kind == Some(Unknown)
    ensures kind == Some(Image) ==> f == ImageOutcome(file.image)
    ensures kind == Some(Audio) ==> f == AudioOutcome(file.pcm)
    ensures kind == Some(Video) ==> f == VideoOutcome(file.frames)
    ensures kind == Some(Pdf) ==> f == PdfMetadata
  {
    match kind
    case Some(Image) => ImageOutcome(file.image)
    case Some(Audio) => AudioOutcome(file.pcm)
    case Some(Video) => VideoOutcome(file.frames)
    case Some(Pdf) => PdfMetadata
    case _ => Unsupported
  }

  class SteganographyConsole {
    const assetManager: AssetManager
    var selectedAsset: Option<string>
    var selectedAssetType: Option<Kind>

    /** The stored kind is always the classification of the stored name, and both are set together. */
    ghost predicate Valid()
      reads this
    {
      (selectedAsset.None? ==> selectedAssetType.None?) &&
      (selectedAsset.Some? ==>
         selectedAsset.value != [] && selectedAssetType == Some(DetectAssetType(selectedAsset.value)))
    }

    constructor ()
      ensures Valid() && fresh(assetManager) && assetManager.assets == []
      ensures selectedAsset == None && selectedAssetType == None
    {
      assetManager := new AssetManager();
      selectedAsset := None;
      selectedAssetType := None;
    }

    /** `list_assets`: refresh the asset list; the selection is kept. */
    method ListAssets(listing: seq<string>)
      modifies assetManager
      ensures assetManager.assets == listing
    {
      var _ := assetManager.ListAssets(listing);
    }

    /**
      `select_asset` with the parsed argument of `select <n>` (`None` when it is
      missing or not a number). Only a successful lookup of a non-empty name
      changes the selection, and it sets the name and its kind together.
     */
    method SelectAsset(assetNumber: Option<int>)
      requires Valid()
      modifies this
      ensures Valid()
      ensures assetManager.assets == old(assetManager.assets)
      ensures
        if assetNumber.Some? && 0 < assetNumber.value <= |assetManager.assets|
           && assetManager.assets[assetNumber.value - 1] != []
        then
          var name := assetManager.assets[assetNumber.value - 1];
          selectedAsset == Some(name) && selectedAssetType == Some(DetectAssetType(name))
        else
          selectedAsset == old(selectedAsset) && selectedAssetType == old(selectedAssetType)
    {
      if assetNumber.Some? {
        var chosen := assetManager.SelectAsset(assetNumber.value);
        if IsTruthy(chosen) {
          selectedAsset := chosen;
          selectedAssetType := Some(DetectAssetType(chosen.value));
        }
      }
    }

    /** `analyze_image`: the bit-plane analysis and its verdict. */
    method AnalyzeImage(image: Option<Image>) returns (f: Finding)
      ensures f == ImageOutcome(image)
    {
      match image
      case None =>
        f := DecodeFailed(Image);
      case Some(img) =>
        var hiddenMessage := DetectLsbSteganography(img);
        f := ImageVerdict(hiddenMessage);
    }

    /** `analyze_audio`: the parity scan and its verdict. */
    method AnalyzeAudio(pcm: Option<seq<byte>>) returns (f: Finding)
      ensures f == AudioOutcome(pcm)
    {
      match pcm
      case None =>
        f := DecodeFailed(Audio);
      case Some(bytes) =>
        var anomalies := DetectAudioSteganography(bytes);
        if anomalies.None? {
          f := DecodeFailed(Audio);
        } else {
          IncreasingUnique(anomalies.value, OddIndices(DecodeInt16(bytes).value)) by {
            forall i ensures i in anomalies.value <==> i in OddIndices(DecodeInt16(bytes).value) {
              if 0 <= i < |bytes| / 2 {
                DecodeParity(bytes, i);
              }
            }
          }
          f := AudioVerdict(anomalies.value);
        }
    }

    /** `analyze_video`: the frame sums and their verdict. */
    method AnalyzeVideo(frames: Option<seq<Frame>>) returns (f: Finding)
      ensures f == VideoOutcome(frames)
    {
      match frames
      case None =>
        f := DecodeFailed(Video);
      case Some(fs) =>
        var frameData := DetectVideoSteganography(fs);
        assert frameData == seq(|fs|, i requires 0 <= i < |fs| => FrameSum(fs[i]));
        f := VideoVerdict(frameData);
    }

    /**
      `analyze_selected_file`: nothing runs without a selection; otherwise exactly
      the analysis for the stored kind runs, which is the kind of the stored
      name, and an unknown kind is unsupported.
     */
    method AnalyzeSelectedFile(file: MediaFile) returns (f: Finding)
      requires Valid()
      ensures !IsTruthy(selectedAsset) ==> f == NothingSelected
      ensures IsTruthy(selectedAsset) ==> f == Dispatch(selectedAssetType, file)
      ensures IsTruthy(selectedAsset) ==> f == Dispatch(Some(DetectAssetType(selectedAsset.value)), file)
    {
      if !IsTruthy(selectedAsset) {
        return NothingSelected;
      }
      if selectedAssetType == Some(Image) {
        f := AnalyzeImage(file.image);
      } else if selectedAssetType == Some(Audio) {
        f := AnalyzeAudio(file.pcm);
      } else if selectedAssetType == Some(Video) {
        f := AnalyzeVideo(file.frames);
      } else if selectedAssetType == Some(Pdf) {
        f := PdfMetadata;
      } else {
        f := Unsupported;
      }
    }
  }
}
