/** The remix form: it holds the mixtape being edited and replaces its track
    list on every move, removal, addition and url edit. */
module Editing {
  import opened Wrappers
  import opened Text
  import opened TrackLists

  /** Why a save does not reach the store. */
  datatype SaveError =
    | BlankUrl      // some track has a blank url; the form alerts the user
    | NoMixtapeId   // the route carries no mixtape id; the handler just returns

  /** The update the form sends: the mixtape id and the edited mixtape. */
  datatype SaveRequest = SaveRequest(mixtapeId: string, mixtape: Mixtape)

  class MixtapeEditor {
    /** The `:id` route parameter ("" when absent). */
    const routeId: string
    /** The tracks of the `mixtape` state. */
    var tracks: seq<Track>
    /** The recipient-name input. */
    var recipientName: string

    constructor (current: Mixtape, routeId: string)
      ensures this.routeId == routeId
      ensures tracks == current.tracks && recipientName == current.recipientName
    {
      this.routeId := routeId;
      tracks := current.tracks;
      recipientName := current.recipientName;
    }

    /** `moveRow(dragIndex, hoverIndex)`. */
    method MoveRow(dragIndex: nat, hoverIndex: nat)
      requires dragIndex < |tracks| && hoverIndex < |tracks|
      modifies this
      ensures tracks == Move(old(tracks), dragIndex, hoverIndex)
      ensures |tracks| == |old(tracks)| && multiset(tracks) == multiset(old(tracks))
      ensures tracks[hoverIndex] == old(tracks)[dragIndex]
      ensures recipientName == old(recipientName)
    {
      tracks := Move(tracks, dragIndex, hoverIndex);
    }

    /** `removeTrack(index)`. */
    method RemoveTrack(index: nat)
      requires index < |tracks|
      modifies this
      ensures tracks == RemoveAt(old(tracks), index)
      ensures |tracks| == |old(tracks)| - 1
      ensures recipientName == old(recipientName)
    {
      tracks := RemoveAt(tracks, index);
    }

    /** `addTrack`, with the `Date.now()` id passed in as `freshId`. */
    method AddTrack(freshId: int)
      modifies this
      ensures tracks == AppendBlank(old(tracks), freshId)
      ensures |old(tracks)| <= MaxTracks ==> |tracks| <= MaxTracks
      ensures recipientName == old(recipientName)
    {
      tracks := AppendBlank(tracks, freshId);
    }

    /** `updateTrackUrl(id, url)`. */
    method UpdateTrackUrl(id: int, url: string)
      modifies this
      ensures tracks == UpdateUrl(old(tracks), id, url)
      ensures recipientName == old(recipientName)
    {
      tracks := UpdateUrl(tracks, id, url);
    }

    /** The name input's `onChange`. */
    method SetRecipientName(name: string)
      modifies this
      ensures recipientName == name && tracks == old(tracks)
    {
      recipientName := name;
    }

    /** The name on the cassette label. */
    function LabelText(): (r: string)
      reads this
      ensures r != ""
      ensures recipientName != "" ==> r == recipientName
    {
      Label(recipientName)
    }

    /** `handleSave`: rejected before any update call exactly when some url is
      blank; otherwise, when the route has an id, the update carries the
      edited name and the tracks as they are. */
    method HandleSave() returns (r: Result<SaveRequest, SaveError>)
      ensures r == Err(BlankUrl) <==> HasBlankUrl(tracks)
      ensures r == Err(NoMixtapeId) <==> !HasBlankUrl(tracks) && routeId == ""
      ensures r.Ok? ==> && r.value == SaveRequest(routeId, Mixtape(recipientName, tracks))
                        && forall k :: 0 <= k < |tracks| ==> !IsBlank(tracks[k].url)
    {
      if HasBlankUrl(tracks) {
        return Err(BlankUrl);
      }
      if routeId == "" {
        return Err(NoMixtapeId);
      }
      return Ok(SaveRequest(routeId, Mixtape(recipientName, tracks)));
    }
  }

  /** One user edit of the track list, as the form's handlers receive it. */
  datatype Edit =
    | MoveEdit(dragIndex: nat, hoverIndex: nat)
    | RemoveEdit(index: nat)
    | AddEdit(freshId: int)
    | UrlEdit(id: int, url: string)

  /** The indices an edit names are rows of the list (the form only offers those). */
  predicate Applicable(s: seq<Track>, e: Edit) {
    match e
    case MoveEdit(d, h) => d < |s| && h < |s|
    case RemoveEdit(i) => i < |s|
    case _ => true
  }

  /** The list an edit leaves behind. */
  function Apply(s: seq<Track>, e: Edit): seq<Track>
    requires Applicable(s, e)
  {
    match e
    case MoveEdit(d, h) => Move(s, d, h)
    case RemoveEdit(i) => RemoveAt(s, i)
    case AddEdit(freshId) => AppendBlank(s, freshId)
    case UrlEdit(id, url) => UpdateUrl(s, id, url)
  }

  /** The list a sequence of edits leaves behind; None if some edit names a
      row the list does not have at that point. */
  function ApplyAll(s: seq<Track>, edits: seq<Edit>): Option<seq<Track>>
    decreases |edits|
  {
    if edits == [] then Some(s)
    else if !Applicable(s, edits[0]) then None
    else ApplyAll(Apply(s, edits[0]), edits[1..])
  }

  /** No sequence of moves, removals, additions and url edits takes a list of
      at most five tracks above five. */
  lemma {:induction false} CapIsKept(s: seq<Track>, edits: seq<Edit>)
    requires |s| <= MaxTracks
    ensures ApplyAll(s, edits).Some? ==> |ApplyAll(s, edits).value| <= MaxTracks
    decreases |edits|
  {
    if edits != [] && Applicable(s, edits[0]) {
      CapIsKept(Apply(s, edits[0]), edits[1..]);
    }
  }
}
