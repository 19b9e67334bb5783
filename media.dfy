/**
 * Which events are media files, and which audio languages a file carries.
 * The container parser is not modelled: its list of tracks is an input.
 */
module Media {
  import opened Wrappers
  import opened Text

  const MediaExtensions: seq<string> := [".mp4", ".mkv", ".avi", ".mov"]

  /** `is_media_file`: the lower-cased path ends with one of the extensions. */
  predicate IsMediaFile(path: string)
  {
    exists ext | ext in MediaExtensions :: EndsWith(Lower(path), ext)
  }

  /** An extension is accepted whatever the case of its letters. */
  lemma MediaExtensionAnyCase(stem: string, ext: string, written: string)
    requires ext in MediaExtensions
    requires |written| == |ext|
    requires forall i :: 0 <= i < |ext| ==> FoldChar(written[i]) == ext[i]
    ensures IsMediaFile(stem + written)
  {
    var p := stem + written;
    assert Lower(p)[|p| - |ext|..] == ext by {
      forall i | 0 <= i < |ext|
        ensures Lower(p)[|p| - |ext|..][i] == ext[i]
      {
        assert p[|stem| + i] == written[i];
      }
    }
  }

  /** A path is a media file exactly when its last four characters, lower-cased, are an extension. */
  lemma MediaFileByLastFour(path: string)
    ensures IsMediaFile(path) <==> |path| >= 4 && Lower(path[|path| - 4..]) in MediaExtensions
  {
    if |path| >= 4 {
      assert Lower(path)[|path| - 4..] == Lower(path[|path| - 4..]);
    }
  }

  lemma TextFileRejected(stem: string)
    ensures !IsMediaFile(stem + ".txt")
  {
    MediaFileByLastFour(stem + ".txt");
    var last := (stem + ".txt")[|stem| + 4 - 4..];
    assert last == ".txt";
    assert Lower(last)[3] == 't';
  }

  /** One track as the container parser reports it: its type and optional language tag. */
  datatype Track = Track(trackType: string, language: Option<string>)

  /** The track is an audio track whose language tag is present and non-empty (truthy). */
  predicate TaggedAudio(t: Track)
  {
    t.trackType == "Audio" && t.language.Some? && t.language.value != ""
  }

  /** The languages `extract_audio_languages` collects. */
  function AudioLanguages(tracks: seq<Track>): set<string>
  {
    set t | t in tracks && TaggedAudio(t) :: t.language.value
  }

  lemma AudioLanguagesSnoc(tracks: seq<Track>, t: Track)
    ensures AudioLanguages(tracks + [t])
         == AudioLanguages(tracks) + (if TaggedAudio(t) then {t.language.value} else {})
  {
    var a, b := AudioLanguages(tracks + [t]), AudioLanguages(tracks) + (if TaggedAudio(t) then {t.language.value} else {});
    forall l | l in a ensures l in b {
      var u :| u in tracks + [t] && TaggedAudio(u) && u.language.value == l;
      if u != t { assert u in tracks; }
    }
    forall l | l in b ensures l in a {
      if l in AudioLanguages(tracks) {
        var u :| u in tracks && TaggedAudio(u) && u.language.value == l;
        assert u in tracks + [t];
      } else {
        assert t in tracks + [t];
      }
    }
  }

  predicate NoDuplicates(s: seq<string>)
  {
    forall i, j :: 0 <= i < j < |s| ==> s[i] != s[j]
  }

  /**
   * `extract_audio_languages`: collects the languages into a set, then returns
   * that set as a list, in whatever order the set yields them.
   */
  method ExtractAudioLanguages(tracks: seq<Track>) returns (langs: seq<string>)
    ensures NoDuplicates(langs)
    ensures forall l :: l in langs <==> l in AudioLanguages(tracks)
    ensures forall l :: l in langs ==> l != ""
  {
    var languages: set<string> := {};
    for i := 0 to |tracks|
      invariant languages == AudioLanguages(tracks[..i])
    {
      AudioLanguagesSnoc(tracks[..i], tracks[i]);
      assert tracks[..i + 1] == tracks[..i] + [tracks[i]];
      if tracks[i].trackType == "Audio" && tracks[i].language.Some? && tracks[i].language.value != "" {
        languages := languages + {tracks[i].language.value};
      }
    }
    assert tracks[..|tracks|] == tracks;
    langs := [];
    var rest := languages;
    while rest != {}
      invariant rest <= languages
      invariant forall l :: l in langs <==> l in languages - rest
      invariant NoDuplicates(langs)
      decreases rest
    {
      var l :| l in rest;
      assert l !in langs;
      langs := langs + [l];
      rest := rest - {l};
    }
  }
}
