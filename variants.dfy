/**
  How the two front ends relate, and the worked examples of the classifier and
  of the audio scan.
 */
module Variants {
  import opened Wrappers
  import opened Names
  import opened Signals
  import opened Findings
  import Console
  import Gui

  /** The GUI classifies every name as the console does, except that a pdf is unknown to it. */
  lemma ClassifiersAgreeExceptPdf(name: string)
    ensures Gui.DetectAssetType(name) ==
              if Console.DetectAssetType(name) == Pdf then Unknown else Console.DetectAssetType(name)
  {
  }

  /**
    For a name both front ends classify alike, they route it to the same analysis:
    the GUI's dispatch on its kind and the console's on the stored kind agree.
   */
  lemma DispatchAgrees(name: string, file: MediaFile)
    ensures Console.DetectAssetType(name) != Pdf ==>
              Gui.Dispatch(Gui.DetectAssetType(name), file) == Console.Dispatch(Some(Console.DetectAssetType(name)), file)
  {
  }

  /** A pdf is handed to the metadata tool by the console and is unsupported in the GUI. */
  lemma PdfRoutedDifferently(name: string, file: MediaFile)
    requires Console.DetectAssetType(name) == Pdf
    ensures Console.Dispatch(Some(Console.DetectAssetType(name)), file) == PdfMetadata
    ensures Gui.Dispatch(Gui.DetectAssetType(name), file) == Unsupported
  {
  }

  lemma LowerExample(s: string, t: string)
    requires |s| == |t|
    requires forall i :: 0 <= i < |s| ==> LowerChar(s[i]) == t[i]
    ensures Lower(s) == t
  {
  }

  /** An upper-case image extension is recognised. */
  lemma PhotoIsImage()
    ensures Console.DetectAssetType("photo.PNG") == Image
  {
    LowerExample("photo.PNG", "photo.png");
    assert EndsWith("photo.png", ".png");
  }

  /** An upper-case video extension is recognised. */
  lemma ClipIsVideo()
    ensures Console.DetectAssetType("clip.AVI") == Video
  {
    LowerExample("clip.AVI", "clip.avi");
    assert EndsWith("clip.avi", ".avi");
  }

  /** The console knows pdf files; the GUI does not. */
  lemma NotesIsPdfOnlyInConsole()
    ensures Console.DetectAssetType("notes.pdf") == Pdf
    ensures Gui.DetectAssetType("notes.pdf") == Unknown
  {
    LowerExample("notes.pdf", "notes.pdf");
    assert EndsWith("notes.pdf", ".pdf");
  }

  /** An unknown extension is a valid answer, not an error. */
  lemma DataIsUnknown()
    ensures Console.DetectAssetType("data.bin") == Unknown
  {
    LowerExample("data.bin", "data.bin");
    var n := "data.bin";
    assert n[|n| - 4..] == ".bin";
    forall t | t in AllSuffixes ensures !EndsWith(n, t) {
      SuffixShape(t);
    }
  }

  /** Audio samples 0, 1, 2, 3, -3, -4 stored as 16-bit little-endian bytes: the odd ones are at 1, 3 and 4. */
  lemma AudioScanExample()
    ensures Console.DetectAudioSteganography(EncodeInt16([0, 1, 2, 3, -3, -4])) == Some([1, 3, 4])
    ensures Gui.SteganographyDetect.DetectAudioSteganography(EncodeInt16([0, 1, 2, 3, -3, -4])) == Some([1, 3, 4])
  {
    var samples := [0, 1, 2, 3, -3, -4];
    var bytes := EncodeInt16(samples);
    DecodeEncode(samples);
    OddIndicesExample();
    var c := Console.DetectAudioSteganography(bytes);
    OddIndicesUnique(samples, c.value) by {
      forall i ensures i in c.value <==> 0 <= i < |samples| && samples[i] % 2 != 0 {
        if 0 <= i < |samples| {
          DecodeParity(bytes, i);
        }
      }
    }
  }
}
