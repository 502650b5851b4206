/** The cassette player: it loads a mixtape, resolves its links, and sequences
    playback through the insert/eject toggle, the Prev/Play/Next buttons and
    the end-of-track events of the embedded video widget. */
module Playback {
  import opened Wrappers
  import opened Resolver
  import TrackLists

  /** A mixtape document as kept in the store: an `id` field of its own (None
      when absent, as in every document the forms create), and a name and
      track list that may be missing or, for the name, not a string. */
  datatype StoredDoc = StoredDoc(id: Option<string>, recipientName: Option<string>, tracks: Option<seq<RawTrack>>)

  /** The record the store service hands back: the document's data under an id. */
  datatype StoredMixtape = StoredMixtape(id: string, recipientName: Option<string>, tracks: Option<seq<RawTrack>>)

  /** The id of the house mixtape served in place of a missing one. */
  const DefaultId := "awesome-mix"

  /** No stored document has an `id` field naming another key. */
  predicate SelfKeyed(store: map<string, StoredDoc>) {
    forall k :: k in store && store[k].id.Some? ==> store[k].id.value == k
  }

  /** `getMixtapeById`: the document stored under `id`, or else the house
      mixtape. The record's id is the key of the document read, unless the
      document's own `id` field, spread after it, replaces it. In a store
      where no document names another key, the record carries the requested
      id exactly when that id is stored. */
  function GetMixtapeById(store: map<string, StoredDoc>, id: string): (m: StoredMixtape)
    requires DefaultId in store
    ensures id in store ==> m.recipientName == store[id].recipientName && m.tracks == store[id].tracks
    ensures id !in store ==> (m.recipientName == store[DefaultId].recipientName
                              && m.tracks == store[DefaultId].tracks)
    ensures var d := store[if id in store then id else DefaultId];
      d.id.Some? ==> m.id == d.id.value
    ensures var key := if id in store then id else DefaultId;
      store[key].id.None? ==> m.id == key
    ensures SelfKeyed(store) ==> (m.id == id <==> id in store)
    ensures SelfKeyed(store) ==> m.id in store
  {
    var docId := if id in store then id else DefaultId;
    var d := store[docId];
    StoredMixtape(if d.id.Some? then d.id.value else docId, d.recipientName, d.tracks)
  }

  /** The name shown on the tape: the fetched name when it is a non-empty
      string, 'FOR YOU' otherwise (no record at all included). */
  function RecipientLabel(fetched: Option<StoredMixtape>): (name: string)
    ensures name != ""
    ensures fetched.Some? && fetched.value.recipientName.Some? && fetched.value.recipientName.value != ""
            ==> name == fetched.value.recipientName.value
    ensures fetched.None? || fetched.value.recipientName.None? || fetched.value.recipientName.value == ""
            ==> name == TrackLists.DefaultRecipient
  {
    var n := if fetched.Some? then Truthy(fetched.value.recipientName) else None;
    if n.Some? then n.value else TrackLists.DefaultRecipient
  }

  /** The states the video widget reports; only `Ended` moves the sequencer. */
  datatype WidgetState = Unstarted | Ended | Playing | Paused | Buffering | Cued

  class CassettePlayer {
    /** Whether the browser's URL parser accepts a string; the resolver drops
        watch links it rejects. */
    const urlParses: string -> bool
    var recipientName: string
    /** The raw tracks of the loaded mixtape. */
    var urls: seq<RawTrack>
    var isPlaying: bool
    /** Whether the deck shows a tape; it follows the inserted flag after a
        settle delay. */
    var hasTape: bool
    /** Set once a substituted mixtape has been served. */
    var awesomeMix: bool
    var isCassetteInserted: bool
    /** The 1-based position of the current track. */
    var currentTrack: int
    /** Values of `hasTape` scheduled by insert and eject, in firing order
        (every delay is the same, so timers fire in the order they were set). */
    var pendingSettle: seq<bool>

    /** The playable tracks: the effect on `urls` recomputes them whenever the
        raw tracks change, so they are always the resolution of the raw tracks. */
    function Tracks(): (r: seq<Track>)
      reads this
      ensures |r| <= |urls|
      ensures forall k :: 0 <= k < |r| ==> r[k].videoID != "" && r[k].url == CanonicalUrl(r[k].videoID)
    {
      ExtractYoutubeIds(urls, urlParses)
    }

    /** The cursor never drops below 1; playback needs an inserted tape; and
        once every scheduled settle has fired, `hasTape` agrees with the
        inserted flag. */
    ghost predicate Valid()
      reads this
    {
      && currentTrack >= 1
      && (isPlaying ==> isCassetteInserted)
      && (if pendingSettle == [] then hasTape == isCassetteInserted
          else pendingSettle[|pendingSettle| - 1] == isCassetteInserted)
    }

    /** The state once mounted: a single blank raw track, which resolves to
        no playable track, the cursor at 1, no tape. */
    constructor (urlParses: string -> bool)
      ensures Valid()
      ensures this.urlParses == urlParses
      ensures urls == [RawTrack(1, Some(""))] && |Tracks()| == 0
      ensures recipientName == "" && currentTrack == 1
      ensures !isPlaying && !hasTape && !awesomeMix && !isCassetteInserted && pendingSettle == []
    {
      this.urlParses := urlParses;
      recipientName := "";
      urls := [RawTrack(1, Some(""))];
      ExtractCons(RawTrack(1, Some("")), [], urlParses);
      isPlaying := false;
      hasTape := false;
      awesomeMix := false;
      isCassetteInserted := false;
      currentTrack := 1;
      pendingSettle := [];
    }

    /** The load effect for route id `requestedId` (nothing happens without
        one), given what the store service returned (None for its null).
        A record with another id marks a substitution; a record without a
        track list raises before the raw tracks are replaced. */
    method LoadMixtape(requestedId: string, fetched: Option<StoredMixtape>)
      requires Valid()
      modifies this
      ensures Valid()
      ensures requestedId == "" ==> && awesomeMix == old(awesomeMix)
                                    && recipientName == old(recipientName) && urls == old(urls)
      ensures requestedId != "" ==>
        && awesomeMix == (old(awesomeMix) || fetched.None? || fetched.value.id != requestedId)
        && recipientName == RecipientLabel(fetched)
        && urls == (if fetched.None? then []
                    else if fetched.value.tracks.None? then old(urls)
                    else fetched.value.tracks.value)
      ensures && isPlaying == old(isPlaying) && hasTape == old(hasTape)
              && isCassetteInserted == old(isCassetteInserted)
              && currentTrack == old(currentTrack) && pendingSettle == old(pendingSettle)
    {
      if requestedId != "" {
        var raw := if fetched.None? then []
                   else if fetched.value.tracks.None? then urls
                   else fetched.value.tracks.value;
        if fetched.None? || fetched.value.id != requestedId {
          awesomeMix := true;
        }
        recipientName := RecipientLabel(fetched);
        urls := raw;
      }
    }

    /** Loading from the store: the load effect on the record the service
        returns. In a store where no document names another key, a requested
        id that is not stored brings the house mixtape, which marks the
        substitution and disables remixing, and a stored one leaves the flag
        as it was. */
    method LoadFromStore(store: map<string, StoredDoc>, requestedId: string)
      requires Valid() && DefaultId in store
      modifies this
      ensures Valid()
      ensures requestedId == "" ==> && awesomeMix == old(awesomeMix)
                                    && recipientName == old(recipientName) && urls == old(urls)
      ensures requestedId != "" ==>
        var m := GetMixtapeById(store, requestedId);
        && awesomeMix == (old(awesomeMix) || m.id != requestedId)
        && recipientName == RecipientLabel(Some(m))
        && urls == (if m.tracks.None? then old(urls) else m.tracks.value)
      ensures SelfKeyed(store) && requestedId != "" && requestedId !in store ==> awesomeMix && !RemixEnabled()
      ensures SelfKeyed(store) && requestedId in store ==> && awesomeMix == old(awesomeMix)
                                                           && RemixEnabled() == old(RemixEnabled())
      ensures && isPlaying == old(isPlaying) && hasTape == old(hasTape)
              && isCassetteInserted == old(isCassetteInserted)
              && currentTrack == old(currentTrack) && pendingSettle == old(pendingSettle)
    {
      if requestedId == "" {
        return;
      }
      var m := GetMixtapeById(store, requestedId);
      LoadMixtape(requestedId, Some(m));
    }

    /** `handleInsert`: the tape goes in now; the deck shows it once the
        scheduled settle fires. */
    method Insert()
      requires Valid()
      modifies this
      ensures Valid()
      ensures isCassetteInserted && pendingSettle == old(pendingSettle) + [true]
      ensures && hasTape == old(hasTape) && isPlaying == old(isPlaying)
              && currentTrack == old(currentTrack) && awesomeMix == old(awesomeMix)
              && urls == old(urls) && recipientName == old(recipientName)
    {
      isCassetteInserted := true;
      pendingSettle := pendingSettle + [true];
    }

    /** `handleEject`: the tape comes out and playback stops now; the deck
        empties once the scheduled settle fires. */
    method Eject()
      requires Valid()
      modifies this
      ensures Valid()
      ensures !isCassetteInserted && !isPlaying && pendingSettle == old(pendingSettle) + [false]
      ensures && hasTape == old(hasTape)
              && currentTrack == old(currentTrack) && awesomeMix == old(awesomeMix)
              && urls == old(urls) && recipientName == old(recipientName)
    {
      isCassetteInserted := false;
      if isPlaying {
        isPlaying := false;
      }
      pendingSettle := pendingSettle + [false];
    }

    /** The insert/eject button: it ejects when a tape is in, inserts otherwise,
        so it always flips the inserted flag. */
    method PressInsertEject()
      requires Valid()
      modifies this
      ensures Valid()
      ensures isCassetteInserted == !old(isCassetteInserted)
      ensures pendingSettle == old(pendingSettle) + [isCassetteInserted]
      ensures !isCassetteInserted ==> !isPlaying
      ensures isCassetteInserted ==> isPlaying == old(isPlaying)
      ensures && hasTape == old(hasTape) && currentTrack == old(currentTrack)
              && awesomeMix == old(awesomeMix) && urls == old(urls)
              && recipientName == old(recipientName)
    {
      if isCassetteInserted {
        Eject();
      } else {
        Insert();
      }
    }

    /** The oldest pending settle timer fires and sets `hasTape`. */
    method SettleTimerFires()
      requires Valid() && pendingSettle != []
      modifies this
      ensures Valid()
      ensures hasTape == old(pendingSettle[0]) && pendingSettle == old(pendingSettle[1..])
      ensures pendingSettle == [] ==> hasTape == isCassetteInserted
      ensures && isCassetteInserted == old(isCassetteInserted) && isPlaying == old(isPlaying)
              && currentTrack == old(currentTrack) && awesomeMix == old(awesomeMix)
              && urls == old(urls) && recipientName == old(recipientName)
    {
      hasTape := pendingSettle[0];
      pendingSettle := pendingSettle[1..];
    }

    /** The Prev button is disabled without a tape or on the first track, so
        in a valid state a press on it never takes the cursor below 1. */
    predicate PrevEnabled()
      reads this
      ensures !isCassetteInserted ==> !PrevEnabled()
      ensures Valid() && PrevEnabled() ==> currentTrack - 1 >= 1
    {
      isCassetteInserted && currentTrack != 1
    }

    /** The Next button is disabled without a tape or when the cursor equals
        the number of tracks; being an equality comparison, it leaves the button
        enabled past the end, and on an empty list. */
    predicate NextEnabled()
      reads this
      ensures !isCassetteInserted || currentTrack == |Tracks()| ==> !NextEnabled()
      ensures isCassetteInserted && 1 <= currentTrack < |Tracks()| ==> NextEnabled()
      ensures Valid() && isCassetteInserted && (|Tracks()| == 0 || currentTrack > |Tracks()|) ==> NextEnabled()
    {
      isCassetteInserted && currentTrack != |Tracks()|
    }

    /** The remix button is disabled without a tape or for a substituted
        mixtape, so a substituted mixtape can never be remixed. */
    predicate RemixEnabled()
      reads this
      ensures awesomeMix ==> !RemixEnabled()
      ensures RemixEnabled() ==> isCassetteInserted
    {
      isCassetteInserted && !awesomeMix
    }

    /** The Prev button: a press on the enabled button steps back one track
        and stays in range; a press on the disabled button does nothing. */
    method PressPrev()
      requires Valid()
      modifies this
      ensures Valid()
      ensures old(PrevEnabled()) ==> currentTrack == old(currentTrack) - 1
      ensures !old(PrevEnabled()) ==> currentTrack == old(currentTrack)
      ensures old(currentTrack) <= |Tracks()| ==> 1 <= currentTrack <= |Tracks()|
      ensures && isPlaying == old(isPlaying) && isCassetteInserted == old(isCassetteInserted)
              && hasTape == old(hasTape) && pendingSettle == old(pendingSettle)
              && urls == old(urls) && awesomeMix == old(awesomeMix)
              && recipientName == old(recipientName)
    {
      if PrevEnabled() {
        currentTrack := currentTrack - 1;
      }
    }

    /** The Play button: with a tape in it toggles playback; without one it is
        disabled. */
    method PressPlay()
      requires Valid()
      modifies this
      ensures Valid()
      ensures old(isCassetteInserted) ==> isPlaying == !old(isPlaying)
      ensures !old(isCassetteInserted) ==> !isPlaying
      ensures && currentTrack == old(currentTrack) && isCassetteInserted == old(isCassetteInserted)
              && hasTape == old(hasTape) && pendingSettle == old(pendingSettle)
              && urls == old(urls) && awesomeMix == old(awesomeMix)
              && recipientName == old(recipientName)
    {
      if isCassetteInserted {
        isPlaying := !isPlaying;
      }
    }

    /** The Next button: a press on the enabled button steps forward one
        track. From a cursor in range it stays in range; on an empty list the
        button is still enabled and the cursor leaves the list. */
    method PressNext()
      requires Valid()
      modifies this
      ensures Valid()
      ensures old(NextEnabled()) ==> currentTrack == old(currentTrack) + 1
      ensures !old(NextEnabled()) ==> currentTrack == old(currentTrack)
      ensures old(currentTrack) <= |Tracks()| ==> 1 <= currentTrack <= |Tracks()|
      ensures old(isCassetteInserted) && |Tracks()| == 0 ==> currentTrack == old(currentTrack) + 1
      ensures && isPlaying == old(isPlaying) && isCassetteInserted == old(isCassetteInserted)
              && hasTape == old(hasTape) && pendingSettle == old(pendingSettle)
              && urls == old(urls) && awesomeMix == old(awesomeMix)
              && recipientName == old(recipientName)
    {
      if NextEnabled() {
        currentTrack := currentTrack + 1;
      }
    }

    /** `onPlayerStateChange`: at the natural end of a track the cursor moves
        to the next one, or, on the last, playback stops where it is; other
        widget states change nothing. */
    method OnPlayerStateChange(state: WidgetState)
      requires Valid()
      modifies this
      ensures Valid()
      ensures state == Ended && old(currentTrack) < |Tracks()| ==>
                currentTrack == old(currentTrack) + 1 && isPlaying == old(isPlaying)
      ensures state == Ended && old(currentTrack) >= |Tracks()| ==>
                currentTrack == old(currentTrack) && !isPlaying
      ensures state != Ended ==> currentTrack == old(currentTrack) && isPlaying == old(isPlaying)
      ensures 1 <= old(currentTrack) <= |Tracks()| ==> 1 <= currentTrack <= |Tracks()|
      ensures && isCassetteInserted == old(isCassetteInserted) && hasTape == old(hasTape)
              && pendingSettle == old(pendingSettle) && urls == old(urls)
              && awesomeMix == old(awesomeMix) && recipientName == old(recipientName)
    {
      if state == Ended {
        if currentTrack < |Tracks()| {
          currentTrack := currentTrack + 1;
        } else {
          isPlaying := false;
        }
      }
    }

    /** The video the widget is told to load: the current track's identifier,
        or "" when the cursor is outside the list. Since resolved tracks
        never have an empty identifier, it is empty exactly when the cursor is
        out of range. */
    function CommandedVideo(): (v: string)
      reads this
      ensures v != "" <==> 1 <= currentTrack <= |Tracks()|
      ensures v != "" ==> v == Tracks()[currentTrack - 1].videoID
    {
      var playable := Tracks();
      if 1 <= currentTrack <= |playable| then playable[currentTrack - 1].videoID else ""
    }
  }
}
