/** The now-playing parser: an Icecast stream title such as
    "Artist - Track - Remix" is split at its first " - " into a trimmed artist
    and a trimmed track; the track keeps every later separator. */
module NowPlaying {
  import opened Options
  import opened JsString

  const Separator: string := " - "

  datatype NowPlaying = NowPlaying(artist: string, track: string)

  /** `parseNowPlaying` on a string title. An empty title gives an empty
      artist and track; a title without " - " is all track; otherwise the text
      before the first separator is the artist and everything after it, later
      separators included, is the track. */
  function Parse(title: string): (r: NowPlaying)
    ensures IndexOf(title, Separator).None? ==> r == NowPlaying("", Trim(title))
    ensures IndexOf(title, Separator).Some? ==>
              var j := IndexOf(title, Separator).value;
              && r.artist == Trim(title[..j])
              && r.track == Trim(title[j + |Separator|..])
  {
    if title == "" then
      assert Trim(title) == "" by { TrimTrimmed(title); }
      NowPlaying("", "")
    else if !Includes(title, Separator) then
      NowPlaying("", Trim(title))
    else
      var parts := Split(title, Separator);
      var j := IndexOf(title, Separator).value;
      assert parts == [title[..j]] + SplitFrom(title, Separator, j + |Separator|);
      JoinSplitFrom(title, Separator, j + |Separator|);
      NowPlaying(Trim(parts[0]), Trim(Join(parts[1..], Separator)))
  }

  /** A trimmed title without a hyphen is all track, with no artist. */
  lemma ParseWithoutHyphen(title: string)
    requires IsTrimmed(title)
    requires forall i :: 0 <= i < |title| ==> title[i] != '-'
    ensures Parse(title) == NowPlaying("", title)
  {
    forall j | 0 <= j && j + |Separator| <= |title|
      ensures !OccursAt(title, Separator, j)
    {
      assert title[j..j + |Separator|][1] == title[j + 1] != '-';
    }
    assert IndexOf(title, Separator).None?;
    TrimTrimmed(title);
  }

  /** The artist of a parsed title never contains the separator. */
  lemma ArtistHasNoSeparator(title: string)
    ensures !Includes(Parse(title).artist, Separator)
  {
    var r := IndexOf(title, Separator);
    if r.None? {
      assert Parse(title).artist == "";
    } else {
      var j := r.value;
      NoOccurrenceInSuffix(title, Separator, 0, j);
      TrimKeepsFree(title[0..j]);
    }
  }

  /** Trimming a text without the separator leaves none in it. */
  lemma TrimKeepsFree(s: string)
    requires !Includes(s, Separator)
    ensures !Includes(Trim(s), Separator)
  {
    var t := Trim(s);
    var i :| PaddedAt(s, t, i);
    assert 0 <= i <= |s| - |t| && s[i..i + |t|] == t;
    SubstringKeepsFree(s, t, i);
  }

  /** A substring of a text without the separator has no separator either. */
  lemma SubstringKeepsFree(s: string, sub: string, i: int)
    requires 0 <= i <= |s| - |sub| && s[i..i + |sub|] == sub
    requires !Includes(s, Separator)
    ensures !Includes(sub, Separator)
  {
    if Includes(sub, Separator) {
      var k :| OccursAt(sub, Separator, k);
      forall m | 0 <= m < |Separator|
        ensures s[i + k + m] == Separator[m]
      {
        assert sub[k..k + |Separator|][m] == sub[k + m] == s[i..i + |sub|][k + m];
      }
      assert s[i + k..i + k + |Separator|] == Separator;
      assert OccursAt(s, Separator, i + k);
      assert false;
    }
  }

  /** The title an Icecast source announces for an artist and a track:
      "Artist - Track". */
  function Announce(artist: string, track: string): string {
    artist + Separator + track
  }

  /** Parsing an announced title gives back the artist and the track, provided
      both are trimmed and the separator cannot be found inside or at the end
      of the artist (an artist ending in " -" would move the first match). */
  lemma ParseAnnounce(artist: string, track: string)
    requires IsTrimmed(artist) && IsTrimmed(track)
    requires !Includes(artist, Separator)
    requires !(|artist| >= 2 && artist[|artist| - 2] == ' ' && artist[|artist| - 1] == '-')
    ensures Parse(Announce(artist, track)) == NowPlaying(artist, track)
  {
    var title := Announce(artist, track);
    var n := |artist|;
    AnnouncedSeparator(artist, track);
    assert title[..n] == artist;
    assert title[n + 3..] == track;
    TrimTrimmed(artist);
    TrimTrimmed(track);
  }

  /** The first separator of an announced title is the one after the artist. */
  lemma AnnouncedSeparator(artist: string, track: string)
    requires !Includes(artist, Separator)
    requires !(|artist| >= 2 && artist[|artist| - 2] == ' ' && artist[|artist| - 1] == '-')
    ensures IndexOf(Announce(artist, track), Separator) == Some(|artist|)
  {
    var title := Announce(artist, track);
    var n := |artist|;
    assert title[n..n + 3] == Separator;
    assert OccursAt(title, Separator, n);
    forall p | 0 <= p < n
      ensures !OccursAt(title, Separator, p)
    {
      if p + 3 <= n {
        assert title[p..p + 3] == artist[p..p + 3];
        assert !OccursAt(artist, Separator, p);
      } else if p == n - 2 {
        assert title[p..p + 3][0] == artist[n - 2];
        assert title[p..p + 3][1] == artist[n - 1];
      } else {
        assert title[p..p + 3][1] == title[n] == ' ';
      }
    }
  }
}
