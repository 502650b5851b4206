/** The editable track list shared by the creation and remix forms, and the
    pure list operations their handlers apply to it. */
module TrackLists {
  import opened Text

  /** A track as the forms edit it: a list-local id and the url as typed. */
  datatype Track = Track(id: int, url: string)

  /** A mixtape as the forms submit it. */
  datatype Mixtape = Mixtape(recipientName: string, tracks: seq<Track>)

  /** The forms offer "add" only below this many tracks. */
  const MaxTracks := 5

  const DefaultRecipient := "FOR YOU"

  /** `name || 'FOR YOU'`: the label shown (and, on creation, the name saved). */
  function Label(name: string): (r: string)
    ensures r != ""
    ensures name != "" ==> r == name
    ensures name == "" ==> r == DefaultRecipient
  {
    if name == "" then DefaultRecipient else name
  }

  /** Copy the list and `splice(i, 1)` it: the track at `i` is taken out. */
  function RemoveAt(s: seq<Track>, i: nat): (r: seq<Track>)
    requires i < |s|
    ensures |r| == |s| - 1
    ensures forall k :: 0 <= k < i ==> r[k] == s[k]
    ensures forall k :: i <= k < |r| ==> r[k] == s[k + 1]
    ensures multiset(r) + multiset{s[i]} == multiset(s)
  {
    assert s == s[..i] + [s[i]] + s[i + 1..];
    s[..i] + s[i + 1..]
  }

  /** `splice(i, 0, t)`: `t` is put in at index `i`. */
  function InsertAt(s: seq<Track>, i: nat, t: Track): (r: seq<Track>)
    requires i <= |s|
    ensures |r| == |s| + 1 && r[i] == t
    ensures forall k :: 0 <= k < i ==> r[k] == s[k]
    ensures forall k :: i < k < |r| ==> r[k] == s[k - 1]
    ensures multiset(r) == multiset(s) + multiset{t}
  {
    assert s == s[..i] + s[i..];
    s[..i] + [t] + s[i..]
  }

  /** Taking out what was just put in gives the list back. */
  lemma RemoveInserted(s: seq<Track>, i: nat, t: Track)
    requires i <= |s|
    ensures RemoveAt(InsertAt(s, i, t), i) == s
  {
  }

  /** `moveRow(from, to)`: `$splice` of `[from, 1]` and then `[to, 0, s[from]]`.
      A true move: the list is a permutation of the old one, the moved track
      sits at `to`, and with it taken out both lists agree, so every other
      track keeps its relative order. */
  function Move(s: seq<Track>, from: nat, to: nat): (r: seq<Track>)
    requires from < |s| && to < |s|
    ensures |r| == |s|
    ensures multiset(r) == multiset(s)
    ensures r[to] == s[from]
    ensures RemoveAt(r, to) == RemoveAt(s, from)
  {
    var rest := RemoveAt(s, from);
    RemoveInserted(rest, to, s[from]);
    InsertAt(rest, to, s[from])
  }

  /** Moving a track onto its own index changes nothing. */
  lemma MoveToSelf(s: seq<Track>, i: nat)
    requires i < |s|
    ensures Move(s, i, i) == s
  {
    var r := Move(s, i, i);
    forall k | 0 <= k < |s| ensures r[k] == s[k] {
      if k < i {
        assert r[k] == RemoveAt(r, i)[k] == RemoveAt(s, i)[k];
      } else if k > i {
        assert r[k] == RemoveAt(r, i)[k - 1] == RemoveAt(s, i)[k - 1];
      }
    }
  }

  /** Where each track ends up after a move: tracks outside the span between
      the two indices stay put, and those inside shift by one towards `from`. */
  lemma MovePositions(s: seq<Track>, from: nat, to: nat, k: nat)
    requires from < |s| && to < |s| && k < |s|
    ensures var r := Move(s, from, to);
      && (k == to ==> r[k] == s[from])
      && ((k < from && k < to) || (k > from && k > to) ==> r[k] == s[k])
      && (from < to && from <= k < to ==> r[k] == s[k + 1])
      && (to < from && to < k <= from ==> r[k] == s[k - 1])
  {
    var r := Move(s, from, to);
    if k < to {
      assert r[k] == RemoveAt(r, to)[k] == RemoveAt(s, from)[k];
    } else if k > to {
      assert r[k] == RemoveAt(r, to)[k - 1] == RemoveAt(s, from)[k - 1];
    }
  }

  /** The capped `addTrack`: a blank track with the given id is appended while
      the list is below the cap; at or above it the list is unchanged. */
  function AppendBlank(s: seq<Track>, freshId: int): (r: seq<Track>)
    ensures |s| < MaxTracks ==> r == s + [Track(freshId, "")]
    ensures |s| >= MaxTracks ==> r == s
    ensures |s| <= MaxTracks ==> |r| <= MaxTracks
  {
    if |s| < MaxTracks then s + [Track(freshId, "")] else s
  }

  /** `updateTrackUrl(id, url)`: every track with that id gets the new url;
      ids, order, length and the other tracks are unchanged. */
  function UpdateUrl(s: seq<Track>, id: int, url: string): (r: seq<Track>)
    ensures |r| == |s|
    ensures forall k :: 0 <= k < |s| ==> r[k].id == s[k].id
    ensures forall k :: 0 <= k < |s| && s[k].id == id ==> r[k].url == url
    ensures forall k :: 0 <= k < |s| && s[k].id != id ==> r[k] == s[k]
  {
    seq(|s|, k requires 0 <= k < |s| => if s[k].id == id then Track(id, url) else s[k])
  }

  /** `tracks.some(t => !t.url.trim())`. */
  predicate HasBlankUrl(s: seq<Track>) {
    exists k :: 0 <= k < |s| && IsBlank(s[k].url)
  }

  /** Some track has a blank url exactly when some track's url is empty or
      made of whitespace only. */
  lemma BlankUrlIsWhitespaceOnly(s: seq<Track>)
    ensures HasBlankUrl(s) <==> exists k :: 0 <= k < |s| && WhitespaceOnly(s[k].url)
  {
    forall k | 0 <= k < |s|
      ensures IsBlank(s[k].url) <==> WhitespaceOnly(s[k].url)
    {
      BlankIffAllWhitespace(s[k].url);
    }
  }
}
