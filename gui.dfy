/**
  The graphical front end (stegsleuth_gui.py): its own copy of the analyzers
  (`SteganographyDetect`), of the asset list, a classifier without the pdf
  rule, and the window's state: the dropdown's current text and the stored kind.

  Widgets, message boxes and the file dialog are left out; the dropdown is its
  current string, and choosing a menu entry sets it.
 */
module Gui {
  import opened Wrappers
  import opened Names
  import opened Signals
  import opened Findings

  /** The dropdown's text before an asset is chosen; `analyze_asset` treats it as "no selection". */
  const Placeholder: string := "Select Asset"

  /** The file list of the GUI's asset folder. */
  class AssetManager {
    var assets: seq<string>

    constructor ()
      ensures assets == []
    {
      assets := [];
    }

    /** `list_assets`, given the regular files of the asset folder. */
    method ListAssets(listing: seq<string>) returns (r: seq<string>)
      modifies this
      ensures assets == listing && r == listing
    {
      assets := listing;
      r := assets;
    }

    /** `select_asset`: a 1-based, bounds-checked lookup; the list is not changed. */
    method SelectAsset(assetNumber: int) returns (r: Option<string>)
      ensures r.Some? <==> 0 < assetNumber <= |assets|
      ensures r.Some? ==> r.value == assets[assetNumber - 1]
    {
      if 0 < assetNumber <= |assets| {
        r := Some(assets[assetNumber - 1]);
      } else {
        r := None;
      }
    }
  }

  /** The three analyzers, static in the source. */
  class SteganographyDetect {

    /** `detect_lsb_steganography`: R & 1, G & 1, B & 1 of every pixel in row-major order. */
    static method DetectLsbSteganography(imageArray: Image) returns (hiddenMessage: string)
      ensures hiddenMessage == LsbPlane(imageArray)
    {
      var hiddenData: string := [];
      for r := 0 to |imageArray|
        invariant hiddenData == LsbBits(Flatten(imageArray[..r]))
      {
        var row := imageArray[r];
        RowStart(imageArray, r);
        for c := 0 to |row|
          invariant hiddenData == LsbBits(Flatten(imageArray[..r]) + row[..c])
        {
          var pixel := row[c];
          LsbBitsAppend(Flatten(imageArray[..r]), row, c);
          hiddenData := hiddenData + [Bit(pixel[0])];
          hiddenData := hiddenData + [Bit(pixel[1])];
          hiddenData := hiddenData + [Bit(pixel[2])];
        }
        RowDone(imageArray, r);
      }
      ImageDone(imageArray);
      hiddenMessage := hiddenData;
    }

    /** `detect_audio_steganography`: the indices of the odd 16-bit samples, in increasing order. */
    static function DetectAudioSteganography(frames: seq<byte>): (anomalies: Option<seq<nat>>)
      ensures anomalies.Some? <==> |frames| % 2 == 0
      ensures anomalies.Some? ==>
                var audioData := DecodeInt16(frames).value;
                StrictlyIncreasing(anomalies.value) &&
                forall i :: i in anomalies.value <==> 0 <= i < |audioData| && audioData[i] % 2 != 0
    {
      match DecodeInt16(frames)
      case None => None
      case Some(audioData) => Some(OddIndices(audioData))
    }

    /** `detect_video_steganography`: one sum of all channel values per sampled frame, in order. */
    static method DetectVideoSteganography(frames: seq<Frame>) returns (frameData: seq<nat>)
      ensures |frameData| == |frames|
      ensures forall i :: 0 <= i < |frames| ==> frameData[i] == FrameSum(frames[i])
    {
      frameData := [];
      for k := 0 to |frames|
        invariant |frameData| == k
        invariant forall i :: 0 <= i < k ==> frameData[i] == FrameSum(frames[i])
      {
        frameData := frameData + [FrameSum(frames[k])];
      }
    }
  }

  /**
    `StegSleuthGUI.detect_asset_type`: the same case-insensitive suffix rules as
    the console for image, audio and video, with no pdf rule.
   */
  function DetectAssetType(assetName: string): (r: Kind)
    ensures r != Pdf
    ensures r == Image <==> EndsWithAny(Lower(assetName), ImageSuffixes)
    ensures r == Audio <==> EndsWithAny(Lower(assetName), AudioSuffixes)
    ensures r == Video <==> EndsWithAny(Lower(assetName), VideoSuffixes)
  {
    var name := Lower(assetName);
    RuleTableExclusive(name);
    if EndsWithAny(name, ImageSuffixes) then Image
    else if EndsWithAny(name, AudioSuffixes) then Audio
    else if EndsWithAny(name, VideoSuffixes) then Video
    else Unknown
  }

  /**
    The branch `analyze_asset` takes for a classified name: image, audio and
    video each run their own analysis; anything else is unsupported.
   */
  function Dispatch(kind: Kind, file: MediaFile): (f: Finding)
    ensures Ran(f) == (if kind in {Image, Audio, Video} then Some(kind) else None)
    ensures f == Unsupported <==> kind !in {Image, Audio, Video}
    ensures kind == Image ==> f == ImageOutcome(file.image)
    ensures kind == Audio ==> f == AudioOutcome(file.pcm)
    ensures kind == Video ==> f == VideoOutcome(file.frames)
  {
    match kind
    case Image => ImageOutcome(file.image)
    case Audio => AudioOutcome(file.pcm)
    case Video => VideoOutcome(file.frames)
    case _ => Unsupported
  }

  class StegSleuthGui {
    const assetManager: AssetManager
    var assetDropdown: string
    var selectedAsset: Option<string>
    var selectedAssetType: Option<Kind>

    constructor ()
      ensures fresh(assetManager) && assetManager.assets == []
      ensures assetDropdown == Placeholder
      ensures selectedAsset == None && selectedAssetType == None
    {
      assetManager := new AssetManager();
      assetDropdown := Placeholder;
      selectedAsset := None;
      selectedAssetType := None;
    }

    /**
      `list_assets`: refresh the asset list; when it is not empty the dropdown
      goes back to the placeholder (its menu is rebuilt from the list).
     */
    method ListAssets(listing: seq<string>)
      modifies this, assetManager
      ensures assetManager.assets == listing
      ensures assetDropdown == if listing == [] then old(assetDropdown) else Placeholder
      ensures selectedAsset == old(selectedAsset) && selectedAssetType == old(selectedAssetType)
    {
      var assets := assetManager.ListAssets(listing);
      if assets != [] {
        assetDropdown := Placeholder;
      }
    }

    /** Choosing an entry of the dropdown's menu sets its text to that name. */
    method ChooseAsset(name: string)
      modifies this`assetDropdown
      ensures assetDropdown == name
    {
      assetDropdown := name;
    }

    /**
      `analyze_asset`: with the placeholder showing nothing runs and nothing
      changes; otherwise the chosen name is classified, the kind is stored, and
      exactly the analysis for that kind runs.
     */
    method AnalyzeAsset(file: MediaFile) returns (f: Finding)
      modifies this`selectedAssetType
      ensures assetDropdown == Placeholder ==>
                f == NothingSelected && selectedAssetType == old(selectedAssetType)
      ensures assetDropdown != Placeholder ==>
                selectedAssetType == Some(DetectAssetType(assetDropdown))
                && f == Dispatch(DetectAssetType(assetDropdown), file)
    {
      var assetName := assetDropdown;
      if assetName == Placeholder {
        return NothingSelected;
      }
      var kind := DetectAssetType(assetName);
      selectedAssetType := Some(kind);
      if kind == Image {
        f := AnalyzeImage(file.image);
      } else if kind == Audio {
        f := AnalyzeAudio(file.pcm);
      } else if kind == Video {
        f := AnalyzeVideo(file.frames);
      } else {
        f := Unsupported;
      }
    }

    /** `analyze_image`: the bit-plane analysis and its verdict. */
    method AnalyzeImage(image: Option<Image>) returns (f: Finding)
      ensures f == ImageOutcome(image)
    {
      match image
      case None =>
        f := DecodeFailed(Image);
      case Some(img) =>
        var hiddenMessage := SteganographyDetect.DetectLsbSteganography(img);
        f := ImageVerdict(hiddenMessage);
    }

    /** `analyze_audio`: the parity scan and its verdict. */
    method AnalyzeAudio(pcm: Option<seq<byte>>) returns (f: Finding)
      ensures f == AudioOutcome(pcm)
    {
      match pcm
      case None =>
        f := DecodeFailed(Audio);
      case Some(bytes) =>
        var anomalies := SteganographyDetect.DetectAudioSteganography(bytes);
        if anomalies.None? {
          f := DecodeFailed(Audio);
        } else {
          OddIndicesUnique(DecodeInt16(bytes).value, anomalies.value);
          f := AudioVerdict(anomalies.value);
        }
    }

    /** `analyze_video`: the frame sums and their verdict. */
    method AnalyzeVideo(frames: Option<seq<Frame>>) returns (f: Finding)
      ensures f == VideoOutcome(frames)
    {
      match frames
      case None =>
        f := DecodeFailed(Video);
      case Some(fs) =>
        var frameData := SteganographyDetect.DetectVideoSteganography(fs);
        assert frameData == seq(|fs|, i requires 0 <= i < |fs| => FrameSum(fs[i]));
        f := VideoVerdict(frameData);
    }
  }
}
