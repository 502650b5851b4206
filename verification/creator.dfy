/** The creation form: a list of one to five tracks whose ids are their
    1-based positions, and a recipient name. */
module Creation {
  import opened TrackLists

  class MixtapeCreator {
    var recipientName: string
    var tracks: seq<Track>

    /** Ids are positions counted from 1, and the list holds one to five tracks:
        tracks are only ever appended (with the next id) or have their url
        replaced. */
    ghost predicate Valid()
      reads this
    {
      && 1 <= |tracks| <= MaxTracks
      && forall i :: 0 <= i < |tracks| ==> tracks[i].id == i + 1
    }

    constructor ()
      ensures Valid()
      ensures tracks == [Track(1, "")] && recipientName == ""
    {
      recipientName := "";
      tracks := [Track(1, "")];
    }

    /** `addTrack`: append a blank track numbered after the last one, unless
        five are already there. */
    method AddTrack()
      requires Valid()
      modifies this
      ensures Valid()
      ensures tracks == AppendBlank(old(tracks), |old(tracks)| + 1)
      ensures |old(tracks)| < MaxTracks ==> |tracks| == |old(tracks)| + 1
      ensures |old(tracks)| == MaxTracks ==> tracks == old(tracks)
      ensures recipientName == old(recipientName)
    {
      tracks := AppendBlank(tracks, |tracks| + 1);
    }

    /** `updateTrackUrl(id, url)`: since ids are positions, only the track at
        position `id` changes, and only its url. */
    method UpdateTrackUrl(id: int, url: string)
      requires Valid()
      modifies this
      ensures Valid()
      ensures tracks == UpdateUrl(old(tracks), id, url)
      ensures 1 <= id <= |tracks| ==> tracks == old(tracks)[id - 1 := Track(id, url)]
      ensures !(1 <= id <= |tracks|) ==> tracks == old(tracks)
      ensures recipientName == old(recipientName)
    {
      tracks := UpdateUrl(tracks, id, url);
    }

    /** The name input's `onChange`. */
    method SetRecipientName(name: string)
      modifies this
      ensures recipientName == name && tracks == old(tracks)
    {
      recipientName := name;
    }

    /** The record `handleCreateMixtape` submits: the name, or 'FOR YOU' when
        it is empty, and the tracks as they are, blank urls included. */
    method CreateRequest() returns (m: Mixtape)
      ensures recipientName != "" ==> m.recipientName == recipientName
      ensures recipientName == "" ==> m.recipientName == DefaultRecipient
      ensures m.tracks == tracks
    {
      m := Mixtape(Label(recipientName), tracks);
    }
  }
}
