/** The pure part of one poll of the Icecast status document: the `source`
    field is normalised to a list, the first source whose `listenurl`
    contains the selected mount is picked, and from it come the now-playing
    text, the uptime text and one push onto the track history. The fetch, the
    JSON decoding, the ISO 8601 date parsing and the DOM writes are outside
    the model: a poll receives the decoded `source` field and the clock. */
module Icecast {
  import opened Options
  import opened JsString
  import NowPlaying
  import Durations
  import opened TrackHistory

  /** One entry of `icestats.source`; absent or empty fields are None or "".
      `streamStart` is the stream start in milliseconds, None when the
      `stream_start_iso8601` field is missing or does not parse as a date. */
  datatype Source = Source(listenurl: Option<string>, title: Option<string>, streamStart: Option<int>)

  /** `icestats.source` as Icecast sends it: a list when several mounts are
      live, a single object when one is, nothing when none is. */
  datatype SourceField =
    | Sources(items: seq<Source>)
    | OneSource(item: Source)
    | NoSource

  /** What the lookup finds. `Failed` is the TypeError thrown when the
      callback reads `listenurl` of the undefined element that
      `[undefined]` holds; the caller's catch swallows it. */
  datatype Lookup = Found(source: Source) | NotFound | Failed

  /** The callback of `source.find`: a non-empty `listenurl`, a selected
      mount, and the mount occurring in the url. */
  predicate Serves(src: Source, mount: Option<string>) {
    && src.listenurl.Some? && src.listenurl.value != ""
    && MountSelected(mount)
    && Includes(src.listenurl.value, mount.value)
  }

  /** The index of the first source from `from` on that serves `mount`. */
  function FirstServing(items: seq<Source>, mount: Option<string>, from: nat): (r: Option<nat>)
    requires from <= |items|
    ensures r.Some? ==> from <= r.value < |items| && Serves(items[r.value], mount)
    ensures r.Some? ==> forall j :: from <= j < r.value ==> !Serves(items[j], mount)
    ensures r.None? ==> forall j :: from <= j < |items| ==> !Serves(items[j], mount)
    decreases |items| - from
  {
    if from == |items| then None
    else if Serves(items[from], mount) then Some(from)
    else FirstServing(items, mount, from + 1)
  }

  /** `Array.isArray(source) ? source : [source]`, with the missing source
      as the one element that is not a record. */
  function Normalise(field: SourceField): (r: Option<seq<Source>>)
    ensures field.NoSource? <==> r.None?
    ensures field.OneSource? ==> r == Some([field.item])
    ensures field.Sources? ==> r == Some(field.items)
  {
    match field
    case Sources(items) => Some(items)
    case OneSource(item) => Some([item])
    case NoSource => None
  }

  /** The mount lookup of a poll: the first source serving the selected
      mount, NotFound when none does, Failed when there is no source. */
  function FindMount(field: SourceField, mount: Option<string>): (r: Lookup)
    ensures r.Failed? <==> field.NoSource?
    ensures r.Found? ==>
              var items := Normalise(field).value;
              exists i :: 0 <= i < |items| && items[i] == r.source
                          && Serves(items[i], mount)
                          && forall j :: 0 <= j < i ==> !Serves(items[j], mount)
    ensures r.NotFound? ==>
              forall src :: src in Normalise(field).value ==> !Serves(src, mount)
  {
    match Normalise(field)
    case None => Failed
    case Some(items) =>
      match FirstServing(items, mount, 0)
      case None => NotFound
      case Some(i) => Found(items[i])
  }

  /** `mount.title || "Unknown Track"`. */
  function RawSong(src: Source): (s: string)
    ensures s != ""
    ensures src.title.Some? && src.title.value != "" ==> s == src.title.value
    ensures !(src.title.Some? && src.title.value != "") ==> s == "Unknown Track"
  {
    if src.title.Some? && src.title.value != "" then src.title.value else "Unknown Track"
  }

  /** The fallback song has no separator, so it is shown as the track and
      the artist falls back too. */
  lemma UnknownTrackParse()
    ensures NowPlaying.Parse("Unknown Track") == NowPlaying.NowPlaying("", "Unknown Track")
  {
    NowPlaying.ParseWithoutHyphen("Unknown Track");
  }

  /** The texts a successful poll writes: now-playing title and artist, and
      the uptime when the start time is known (None leaves it unchanged). */
  datatype Panel = Panel(title: string, artist: string, uptime: Option<string>)

  datatype Display = Unchanged | Shows(panel: Panel)

  /** What a poll that found `src` shows: the parsed track, else the raw
      song; the parsed artist, else "Unknown Artist"; and the uptime label
      when the stream start is known. */
  function PanelFor(src: Source, now: int): (p: Panel)
    ensures p.title != "" && p.artist != ""
    ensures var np := NowPlaying.Parse(RawSong(src));
            && (np.track != "" ==> p.title == np.track)
            && (np.track == "" ==> p.title == RawSong(src))
            && (np.artist != "" ==> p.artist == np.artist)
            && (np.artist == "" ==> p.artist == "Unknown Artist")
    ensures p.uptime.Some? <==> src.streamStart.Some?
    ensures p.uptime.Some? ==>
              Durations.ReadUptime(p.uptime.value) == Some(Durations.UptimeOf(src.streamStart.value, now))
    ensures !(src.title.Some? && src.title.value != "") ==>
              p.title == "Unknown Track" && p.artist == "Unknown Artist"
  {
    var raw := RawSong(src);
    var np := NowPlaying.Parse(raw);
    UnknownTrackParse();
    Panel(
      if np.track != "" then np.track else raw,
      if np.artist != "" then np.artist else "Unknown Artist",
      if src.streamStart.Some? then Some(Durations.UptimeLabel(src.streamStart.value, now)) else None)
  }

  /** One `fetchIcecast` on an already decoded `source` field. Unless a
      source serves the selected mount, nothing changes. Otherwise the panel
      shows that source's song and the song is pushed onto the mount's
      history, where it is then the head. */
  function Poll(h: Histories, mount: Option<string>, field: SourceField, now: int): (r: (Histories, Display))
    ensures !FindMount(field, mount).Found? ==> r == (h, Unchanged)
    ensures FindMount(field, mount).Found? ==>
              var src := FindMount(field, mount).source;
              && r.1 == Shows(PanelFor(src, now))
              && r.0 == Push(h, mount, RawSong(src), now)
              && mount.value in r.0 && |r.0[mount.value]| > 0
              && r.0[mount.value][0].title == Trim(RawSong(src))
  {
    match FindMount(field, mount)
    case Found(src) =>
      var r := Push(h, mount, RawSong(src), now);
      assert MountSelected(mount);
      (r, Shows(PanelFor(src, now)))
    case _ => (h, Unchanged)
  }

  /** What drives the state: a click on a station row selects its mount; a
      status document arrives on the polling timer. */
  datatype Event =
    | SelectStation(mount: string)
    | StatusArrived(field: SourceField, now: int)

  /** Runs a sequence of events from the given state. Histories stay well
      formed (one to five entries, trimmed titles, no title twice in a row),
      and no mount's history is ever removed. */
  method Run(h0: Histories, mount0: Option<string>, events: seq<Event>)
    returns (h: Histories, mount: Option<string>)
    requires WellFormed(h0)
    ensures WellFormed(h)
    ensures h0.Keys <= h.Keys
    ensures forall k :: k in h ==>
              || k in h0
              || (mount0.Some? && k == mount0.value)
              || exists i :: 0 <= i < |events| && events[i] == SelectStation(k)
  {
    h, mount := h0, mount0;
    var i := 0;
    while i < |events|
      invariant 0 <= i <= |events|
      invariant WellFormed(h)
      invariant h0.Keys <= h.Keys
      invariant mount.Some? ==>
                  || mount == mount0
                  || exists j :: 0 <= j < i && events[j] == SelectStation(mount.value)
      invariant forall k :: k in h ==>
                  || k in h0
                  || (mount0.Some? && k == mount0.value)
                  || exists j :: 0 <= j < i && events[j] == SelectStation(k)
    {
      match events[i] {
        case SelectStation(m) =>
          mount := Some(m);
        case StatusArrived(field, now) =>
          var found := FindMount(field, mount);
          if found.Found? {
            PushWellFormed(h, mount, RawSong(found.source), now);
          }
          var r := Poll(h, mount, field, now);
          h := r.0;
      }
      i := i + 1;
    }
  }
}
