/** The per-mount track history: for each mount point, the most recent
    titles played, newest first, at most five of them, with a repeated poll of
    the same song recorded once. The histories and the selected mount are
    explicit state; the clock is the `now` parameter. */
module TrackHistory {
  import opened Options
  import opened JsString

  const MaxEntries := 5

  datatype Entry = Entry(title: string, timestamp: int)

  /** `trackHistories`: mount point to entries, newest first. */
  type Histories = map<string, seq<Entry>>

  /** JavaScript truthiness of `currentMount`: neither null nor "". */
  predicate MountSelected(mount: Option<string>) {
    mount.Some? && mount.value != ""
  }

  /** The history of `mount`, or the empty list a first push creates. */
  function HistoryOf(h: Histories, mount: string): seq<Entry> {
    if mount in h then h[mount] else []
  }

  /** True when `title` is already at the head of `list`: the push that would
      repeat it is skipped. */
  predicate RepeatsHead(list: seq<Entry>, title: string) {
    |list| > 0 && list[0].title == title
  }

  /** `unshift` of the new entry, then one `pop` if the list grew past five:
      the new entry is first, the previous ones follow in order, and the
      oldest is dropped when there is no room. */
  function Prepend(list: seq<Entry>, e: Entry): (r: seq<Entry>)
    ensures |list| < MaxEntries ==> |r| == |list| + 1
    ensures |list| >= MaxEntries ==> |r| == |list|
    ensures 1 <= |r| <= |list| + 1 && r[0] == e
    ensures r[1..] == list[..|r| - 1]
  {
    var grown := [e] + list;
    if |grown| > MaxEntries then grown[..|grown| - 1] else grown
  }

  /** One step on a single mount's list, with the song already trimmed. */
  function Record(list: seq<Entry>, e: Entry): (r: seq<Entry>) {
    if RepeatsHead(list, e.title) then list else Prepend(list, e)
  }

  /** The cases in which `pushTrackHistory` returns without a change: an
      empty song, no selected mount, or the trimmed song already at the head
      of the mount's history. */
  predicate Skips(h: Histories, mount: Option<string>, rawSong: string) {
    || rawSong == ""
    || !MountSelected(mount)
    || RepeatsHead(HistoryOf(h, mount.value), Trim(rawSong))
  }

  /** `pushTrackHistory(rawSong)` with the clock reading `now`. When it does
      not skip, the trimmed song becomes the head of the selected mount's
      history, the previous entries follow in order (the oldest dropped when
      five were there), and no other mount's history changes. */
  function Push(h: Histories, mount: Option<string>, rawSong: string, now: int): (r: Histories)
    ensures Skips(h, mount, rawSong) ==> r == h
    ensures !Skips(h, mount, rawSong) ==>
              var m := mount.value;
              var before := HistoryOf(h, m);
              && r.Keys == h.Keys + {m}
              && |r[m]| == (if |before| < MaxEntries then |before| + 1 else |before|)
              && r[m][0] == Entry(Trim(rawSong), now)
              && r[m][1..] == before[..|r[m]| - 1]
    ensures forall k :: k in h && !(MountSelected(mount) && k == mount.value) ==> k in r && r[k] == h[k]
  {
    if Skips(h, mount, rawSong) then h
    else
      var m := mount.value;
      var l := Prepend(HistoryOf(h, m), Entry(Trim(rawSong), now));
      UpdateOnly(h, m, l);
      h[m := l]
  }

  /** Updating one key adds it and keeps every other entry. */
  lemma UpdateOnly(h: Histories, m: string, l: seq<Entry>)
    ensures h[m := l].Keys == h.Keys + {m} && h[m := l][m] == l
    ensures forall k :: k in h && k != m ==> k in h[m := l] && h[m := l][k] == h[k]
  {
  }

  /** A push that does not skip always changes the histories, so the skip
      cases are exactly the pushes that leave everything as it was. */
  lemma PushChangesUnlessSkipped(h: Histories, mount: Option<string>, rawSong: string, now: int)
    ensures Push(h, mount, rawSong, now) == h <==> Skips(h, mount, rawSong)
  {
    var r := Push(h, mount, rawSong, now);
    if !Skips(h, mount, rawSong) {
      var m: string := mount.value;
      if m in h {
        var before: seq<Entry> := h[m];
        var after: seq<Entry> := r[m];
        assert |before| == 0 || after[0].title != before[0].title;
        assert after != before;
      }
    }
  }

  /** Polling the same song twice records it once: the second push changes
      nothing, whatever the clock reads. */
  lemma PushTwice(h: Histories, mount: Option<string>, rawSong: string, t1: int, t2: int)
    ensures Push(Push(h, mount, rawSong, t1), mount, rawSong, t2) == Push(h, mount, rawSong, t1)
  {
    var h1 := Push(h, mount, rawSong, t1);
    if rawSong != "" && MountSelected(mount) {
      assert RepeatsHead(HistoryOf(h1, mount.value), Trim(rawSong));
    }
  }

  /** A well-formed history list: between one and five entries, every title
      trimmed, and no title equal to the one right after it. */
  predicate GoodList(list: seq<Entry>) {
    && 1 <= |list| <= MaxEntries
    && (forall i :: 0 <= i < |list| ==> IsTrimmed(list[i].title))
    && (forall i :: 0 <= i < |list| - 1 ==> list[i].title != list[i + 1].title)
  }

  predicate WellFormed(h: Histories) {
    forall k :: k in h ==> GoodList(h[k])
  }

  /** Pushing keeps every history well formed: no list outgrows five entries,
      and no two neighbours share a title. */
  lemma PushWellFormed(h: Histories, mount: Option<string>, rawSong: string, now: int)
    requires WellFormed(h)
    ensures WellFormed(Push(h, mount, rawSong, now))
  {
    var r := Push(h, mount, rawSong, now);
    if !Skips(h, mount, rawSong) {
      var m := mount.value;
      var e := Entry(Trim(rawSong), now);
      PrependGood(HistoryOf(h, m), e);
      assert r[m] == Prepend(HistoryOf(h, m), e);
      forall k | k in r
        ensures GoodList(r[k])
      {
        if k != m {
          assert r[k] == h[k];
        }
      }
    }
  }

  /** Prepending a trimmed title other than the head keeps a list good. */
  lemma PrependGood(list: seq<Entry>, e: Entry)
    requires |list| == 0 || GoodList(list)
    requires IsTrimmed(e.title) && !RepeatsHead(list, e.title)
    ensures GoodList(Prepend(list, e))
  {
    var l := Prepend(list, e);
    assert forall i :: 1 <= i < |l| ==> l[i] == list[i - 1];
    assert |list| > 0 && |l| > 1 ==> l[1] == list[0];
  }

  /** Timestamps never increase along a list: newest first. */
  predicate NewestFirst(list: seq<Entry>) {
    forall i :: 0 <= i < |list| - 1 ==> list[i].timestamp >= list[i + 1].timestamp
  }

  /** With a clock that has not gone back since the last push, every
      history stays ordered newest first. */
  lemma PushNewestFirst(h: Histories, mount: Option<string>, rawSong: string, now: int)
    requires forall k :: k in h ==> NewestFirst(h[k])
    requires forall k :: k in h ==> |h[k]| == 0 || h[k][0].timestamp <= now
    ensures forall k :: k in Push(h, mount, rawSong, now) ==> NewestFirst(Push(h, mount, rawSong, now)[k])
  {
    var r := Push(h, mount, rawSong, now);
    if !Skips(h, mount, rawSong) {
      var m := mount.value;
      var e := Entry(Trim(rawSong), now);
      PrependNewestFirst(HistoryOf(h, m), e);
      assert r[m] == Prepend(HistoryOf(h, m), e);
      forall k | k in r
        ensures NewestFirst(r[k])
      {
        if k != m {
          assert r[k] == h[k];
        }
      }
    }
  }

  /** Prepending an entry no older than the head keeps a list newest first. */
  lemma PrependNewestFirst(list: seq<Entry>, e: Entry)
    requires NewestFirst(list)
    requires |list| == 0 || list[0].timestamp <= e.timestamp
    ensures NewestFirst(Prepend(list, e))
  {
    var l := Prepend(list, e);
    assert forall i :: 1 <= i < |l| ==> l[i] == list[i - 1];
    assert |list| > 0 && |l| > 1 ==> l[1] == list[0];
  }

  /** A push of a trimmed song that is not the current head prepends it. */
  lemma PushPrepends(h: Histories, m: string, song: string, now: int)
    requires m != "" && song != "" && IsTrimmed(song)
    requires !RepeatsHead(HistoryOf(h, m), song)
    ensures HistoryOf(Push(h, Some(m), song, now), m) == Prepend(HistoryOf(h, m), Entry(song, now))
  {
    TrimTrimmed(song);
  }

  /** On the selected mount, a push of a trimmed song is one `Record` step. */
  lemma PushRecords(h: Histories, m: string, song: string, now: int)
    requires m != "" && song != "" && IsTrimmed(song)
    ensures HistoryOf(Push(h, Some(m), song, now), m) == Record(HistoryOf(h, m), Entry(song, now))
  {
    TrimTrimmed(song);
  }

  /** Only a repeat of the current head is suppressed: on one mount, a song
      that comes back after another one is recorded again. */
  lemma ReturningSongRecordedAgain(list: seq<Entry>, a: string, b: string)
    requires a != b
    requires !RepeatsHead(list, a)
    ensures Record(Record(Record(list, Entry(a, 1)), Entry(b, 2)), Entry(a, 3))[..3]
              == [Entry(a, 3), Entry(b, 2), Entry(a, 1)]
  {
    var l1 := Record(list, Entry(a, 1));
    assert l1[0] == Entry(a, 1);
    var l2 := Record(l1, Entry(b, 2));
    assert l2[..2] == [Entry(b, 2), Entry(a, 1)] by {
      assert l2[1..] == l1[..|l2| - 1];
    }
    var l3 := Record(l2, Entry(a, 3));
    assert l3[1..] == l2[..|l3| - 1];
  }

  /** The songs a sequence of polls records, oldest first: each entry whose
      title differs from the last one kept. */
  function Distinct(es: seq<Entry>): seq<Entry> {
    if |es| == 0 then []
    else
      var kept := Distinct(es[..|es| - 1]);
      var e := es[|es| - 1];
      if |kept| > 0 && kept[|kept| - 1].title == e.title then kept else kept + [e]
  }

  function Reverse(s: seq<Entry>): (r: seq<Entry>)
    ensures |r| == |s|
    ensures forall i :: 0 <= i < |s| ==> r[i] == s[|s| - 1 - i]
  {
    if |s| == 0 then [] else [s[|s| - 1]] + Reverse(s[..|s| - 1])
  }

  /** At most the first `MaxEntries` elements. */
  function Newest(s: seq<Entry>): seq<Entry> {
    if |s| <= MaxEntries then s else s[..MaxEntries]
  }

  /** Recording a sequence of (trimmed) songs on one mount, oldest first. */
  function RecordAll(list: seq<Entry>, es: seq<Entry>): seq<Entry> {
    if |es| == 0 then list
    else Record(RecordAll(list, es[..|es| - 1]), es[|es| - 1])
  }

  /** The newest distinct song heads the reference list. */
  lemma NewestHead(kept: seq<Entry>)
    requires |kept| > 0
    ensures |Newest(Reverse(kept))| > 0 && Newest(Reverse(kept))[0] == kept[|kept| - 1]
  {
  }

  /** Prepending to the newest five is the newest five of the longer list. */
  lemma PrependNewest(s: seq<Entry>, e: Entry)
    ensures Prepend(Newest(s), e) == Newest([e] + s)
  {
    if |s| >= MaxEntries {
      assert Prepend(Newest(s), e) == [e] + s[..MaxEntries - 1];
      assert ([e] + s)[..MaxEntries] == [e] + s[..MaxEntries - 1];
    }
  }

  lemma ReverseSnoc(s: seq<Entry>, e: Entry)
    ensures Reverse(s + [e]) == [e] + Reverse(s)
  {
    var l := Reverse(s + [e]);
    var r := [e] + Reverse(s);
    assert forall i :: 1 <= i < |l| ==> l[i] == (s + [e])[|s| - i] == s[|s| - i] == r[i];
  }

  /** A reference description of a mount's history: after any sequence of
      polls from an empty history, it holds the last five distinct songs,
      newest first, each with the time it was first seen. */
  lemma {:induction false} RecordAllIsNewestDistinct(es: seq<Entry>)
    ensures RecordAll([], es) == Newest(Reverse(Distinct(es)))
  {
    if |es| > 0 {
      var prefix := es[..|es| - 1];
      var e := es[|es| - 1];
      RecordAllIsNewestDistinct(prefix);
      var kept := Distinct(prefix);
      var list := RecordAll([], prefix);
      assert RecordAll([], es) == Record(list, e);
      if |kept| > 0 {
        NewestHead(kept);
      }
      if |kept| > 0 && kept[|kept| - 1].title == e.title {
        assert RepeatsHead(list, e.title);
      } else {
        assert !RepeatsHead(list, e.title);
        assert Distinct(es) == kept + [e];
        ReverseSnoc(kept, e);
        PrependNewest(Reverse(kept), e);
      }
    }
  }
}
