/**
  File names and the media kinds they are classified into.

  Both front ends classify an asset by a case-insensitive suffix test on its
  name. The suffixes below are the ones both classifiers use; no one of them
  is a suffix of another, so at most one rule can ever match a name and the
  order in which the rules are tried does not change the answer.
 */
module Names {

  /** The logical kind of an asset. The console produces all five; the GUI never produces `Pdf`. */
  datatype Kind = Image | Audio | Video | Pdf | Unknown

  const ImageSuffixes: seq<string> := [".png", ".jpg", ".jpeg"]
  const AudioSuffixes: seq<string> := [".wav", ".mp3"]
  const VideoSuffixes: seq<string> := [".mp4", ".avi"]
  const PdfSuffix: string := ".pdf"

  /** Every suffix either classifier tests, in the order the console tests them. */
  const AllSuffixes: seq<string> := ImageSuffixes + AudioSuffixes + VideoSuffixes + [PdfSuffix]

  /** `str.lower()` restricted to ASCII: upper-case letters map to lower case, everything else is kept. */
  function LowerChar(c: char): char
  {
    if 'A' <= c <= 'Z' then (c as int + 32) as char else c
  }

  /**
    `s.lower()` over ASCII: the same length, no upper-case letter left, each
    upper-case letter replaced by the letter at the same place in a..z, and
    every other character kept.
   */
  function Lower(s: string): (r: string)
    ensures |r| == |s|
    ensures forall i :: 0 <= i < |r| ==> !IsUpper(r[i])
    ensures forall i :: 0 <= i < |s| && !IsUpper(s[i]) ==> r[i] == s[i]
    ensures forall i :: 0 <= i < |s| && IsUpper(s[i]) ==> r[i] as int - 'a' as int == s[i] as int - 'A' as int
  {
    seq(|s|, i requires 0 <= i < |s| => LowerChar(s[i]))
  }

  predicate IsUpper(c: char)
  {
    'A' <= c <= 'Z'
  }

  /** `s.endswith(suffix)`: the last |suffix| characters of `s` are those of `suffix`, in order. */
  predicate EndsWith(s: string, suffix: string): (b: bool)
    ensures b <==> |suffix| <= |s| && s[..|s| - |suffix|] + suffix == s
  {
    |suffix| <= |s| && s[|s| - |suffix|..] == suffix
  }

  /** `s.endswith(tuple)`: true when any of the suffixes matches; never for the empty tuple. */
  predicate EndsWithAny(s: string, suffixes: seq<string>): (b: bool)
    ensures b <==> exists k :: 0 <= k < |suffixes| && EndsWith(s, suffixes[k])
    ensures suffixes == [] ==> !b
  {
    exists t :: t in suffixes && EndsWith(s, t)
  }

  /** Lower-casing twice is lower-casing once. */
  lemma LowerIdempotent(s: string)
    ensures Lower(Lower(s)) == Lower(s)
  {
    assert forall i :: 0 <= i < |s| ==> Lower(Lower(s))[i] == Lower(s)[i];
  }

  /** Two suffixes of the same string: the shorter one is a suffix of the longer one. */
  lemma {:induction false} SuffixOfSuffix(s: string, t: string, u: string)
    requires EndsWith(s, t) && EndsWith(s, u) && |t| <= |u|
    ensures EndsWith(u, t)
  {
    var d := |s| - |u|;
    forall i | 0 <= i < |t|
      ensures u[|u| - |t| + i] == t[i]
    {
      assert u[|u| - |t| + i] == s[d + |u| - |t| + i];
      assert t[i] == s[|s| - |t| + i];
    }
    assert u[|u| - |t|..] == t;
  }

  /** Every suffix of the table is four characters starting with a dot, except ".jpeg". */
  lemma SuffixShape(x: string)
    requires x in AllSuffixes
    ensures (|x| == 4 && x[0] == '.') || x == ".jpeg"
  {
  }

  /** No name ends with two different suffixes of the rule table. */
  lemma {:induction false} SuffixesExclusive(s: string, t: string, u: string)
    requires t in AllSuffixes && u in AllSuffixes
    requires EndsWith(s, t) && EndsWith(s, u)
    ensures t == u
  {
    SuffixShape(t);
    SuffixShape(u);
    if |t| < |u| {
      SuffixOfSuffix(s, t, u);
    } else if |u| < |t| {
      SuffixOfSuffix(s, u, t);
    }
  }

  /** Two different rules of the table never both accept the same name. */
  lemma RulesExclusive(s: string, a: seq<string>, b: seq<string>)
    requires forall x :: x in a ==> x in AllSuffixes
    requires forall x :: x in b ==> x in AllSuffixes
    requires forall x :: x in a ==> x !in b
    requires EndsWithAny(s, a)
    ensures !EndsWithAny(s, b)
  {
    var t :| t in a && EndsWith(s, t);
    if u :| u in b && EndsWith(s, u) {
      SuffixesExclusive(s, t, u);
      assert false;
    }
  }

  /** The four rules of the console's table (image, audio, video, pdf) never overlap. */
  lemma RuleTableExclusive(s: string)
    ensures EndsWithAny(s, ImageSuffixes) ==>
              !EndsWithAny(s, AudioSuffixes) && !EndsWithAny(s, VideoSuffixes) && !EndsWith(s, PdfSuffix)
    ensures EndsWithAny(s, AudioSuffixes) ==> !EndsWithAny(s, VideoSuffixes) && !EndsWith(s, PdfSuffix)
    ensures EndsWithAny(s, VideoSuffixes) ==> !EndsWith(s, PdfSuffix)
  {
    if EndsWith(s, PdfSuffix) {
      assert PdfSuffix in [PdfSuffix];
    }
    if EndsWithAny(s, ImageSuffixes) {
      RulesExclusive(s, ImageSuffixes, AudioSuffixes);
      RulesExclusive(s, ImageSuffixes, VideoSuffixes);
      RulesExclusive(s, ImageSuffixes, [PdfSuffix]);
    }
    if EndsWithAny(s, AudioSuffixes) {
      RulesExclusive(s, AudioSuffixes, VideoSuffixes);
      RulesExclusive(s, AudioSuffixes, [PdfSuffix]);
    }
    if EndsWithAny(s, VideoSuffixes) {
      RulesExclusive(s, VideoSuffixes, [PdfSuffix]);
    }
  }
}
