# Mixtape, modelled in Dafny

Mixtape is a small web app for sending someone a "mixtape" of up to five
YouTube links. The sender fills in a creation form (a recipient name and the
track links). The recipient opens the mixtape in a cassette-player page, which
resolves each stored link to a playable video and plays the tracks in order.
The mixtape can later be reordered and edited in a remix form with
drag-and-drop rows.

This project models the logic at the core of those pages and proves what it
promises:

- `text.dfy` (module `Text`): the JavaScript string operations the resolver
  relies on. These are `indexOf`/`includes`, the first two pieces of `split`,
  and `trim` with the ECMAScript whitespace set.
- `resolver.dfy` (module `Resolver`): the player's link resolver
  `extractYoutubeIds`. It covers the three link shapes in their fixed order
  (watch page, `youtu.be/` short link, `youtube.com/shorts/`), the dropping of
  anything that does not yield an identifier, and the canonical watch url of
  every resolved track.
- `tracklist.dfy` (module `TrackLists`): the track-list edits shared by the
  forms. These are removal, the splice-out/splice-in move, the capped append,
  the url update and the 'FOR YOU' label default.
- `editor.dfy` (module `Editing`): the remix form. It is a class holding the
  edited track list, whose handlers replace that list. It also covers save
  validation and the five-track cap over any sequence of edits.
- `creator.dfy` (module `Creation`): the creation form. It is a class whose
  invariant is that ids are 1-based positions and that the list holds one to
  five tracks.
- `draggable.dfy` (module `Dragging`): the hover rule
  that decides when a dragged row crosses the middle of the row under it. It
  also includes the hover handler that moves the row and records the new
  position on the drag item.
- `player.dfy` (module `Playback`): the playback sequencer. It is a class with
  the insert/eject toggle, the settle timers, the Prev/Play/Next buttons and
  their enabling rules, and the end-of-track event. It also covers the load
  effect, with the store's fallback to the house mixtape and the resulting
  "substituted" flag.

The browser's URL parser plays two roles in the watch branch. It throws on a
malformed link, and the resolver then drops that link; which strings it
accepts is a parameter `urlParses: string -> bool` of the resolver and of the
player. It also supplies the query whose `v` parameter is read; `QueryOf`
(the text between the first `?` and the first `#`) and `SearchParam` (the
first `&`-piece with the wanted name) stand in for that part. Fresh ids from
the clock (`Date.now()`) are a method parameter. The delayed `hasTape` updates
are a queue of pending settle events.

## Model

| member | source | states |
|---|---|---|
| Text.BeforeFirst | src/components/CassettePlayer.tsx:87 | `split(sep)[0]` is the longest prefix without `sep`: `sep` does not occur before its end, and it ends at the string's end or at an occurrence of `sep` |
| Text.SecondPiece | src/components/CassettePlayer.tsx:87 | `split(sep)[1]` is the text between the first and the second occurrence of `sep` (or the end) |
| Text.AfterFirst | src/components/CassettePlayer.tsx:83-84 | the query after the first `?`: the string is the part before the separator, the separator and the result; empty when there is no separator |
| Text.IndexFrom | src/components/CassettePlayer.tsx:82-93 | the substring search behind `includes` and `split`: it finds the first occurrence at or after the start, and none exists when it finds nothing |
| Text.IndexOf | src/components/CassettePlayer.tsx:82-93 | the substring search behind `includes` and `split`: it finds an occurrence with none before it, and finds nothing only when there is no occurrence at all |
| Text.Contains | src/components/CassettePlayer.tsx:82-89 | `includes` holds exactly when the pattern occurs at some index |
| Text.TrimStart | src/components/CassettePlayer.tsx:78 | the leading trim keeps a suffix that does not start with whitespace and drops only whitespace |
| Text.TrimEnd | src/components/CassettePlayer.tsx:78 | the trailing trim keeps a prefix that does not end with whitespace and drops only whitespace |
| Text.TrimDropsPadding | src/components/CassettePlayer.tsx:78 | `trim()` leaves an infix of the string and everything it drops on either side is whitespace |
| Text.TrimmedEnds | src/components/CassettePlayer.tsx:78 | what `trim()` leaves neither starts nor ends with whitespace |
| Text.BlankIffAllWhitespace | src/components/CassettePlayer.tsx:78 | `!url.trim()` holds exactly when every character is JavaScript whitespace (the empty string included) |
| Resolver.Truthy | src/components/CassettePlayer.tsx:86-88 | the falsy-to-null fallback keeps a string exactly when it is non-empty, and turns a missing or empty one into none |
| Resolver.QueryOfShape | src/components/CassettePlayer.tsx:83-84 | the query read from a url holds no `#`, and is empty when no `?` comes before the first `#` |
| Resolver.QueryAfterFirstMark | src/components/CassettePlayer.tsx:83-84 | the query of `base?q` followed by nothing or a `#`-fragment is exactly `q` (for `base` without `?` or `#`, `q` without `#`) |
| Resolver.QueryPieces | src/components/CassettePlayer.tsx:84 | splitting a query on `&` gives at least one piece, none holding `&` |
| Resolver.JoinQueryPieces | src/components/CassettePlayer.tsx:84 | joining the pieces with `&` gives the query back |
| Resolver.SearchParamFirstNamed | src/components/CassettePlayer.tsx:84 | `searchParams.get(name)` is the value (text after the first `=`) of the first non-empty `&`-piece named `name`, no earlier piece being so named; it is null exactly when no piece is named `name` (simplified reader, see Left out) |
| Resolver.LeadingParam | src/components/CassettePlayer.tsx:84 | a query starting with `v=<id>` followed by nothing or more `&`-parameters has `<id>` as its `v` |
| Resolver.CanonicalUrlShape | src/components/CassettePlayer.tsx:102 | the canonical url is `https://www.youtube.com/watch?v=` followed by the identifier, so distinct identifiers get distinct urls |
| Resolver.IdAfter | src/components/CassettePlayer.tsx:86-93 | the text after the first marker, cut at the first `?` or the next marker: a prefix of the rest with neither inside, ended by one of them or by the end |
| Resolver.ExtractVideoId | src/components/CassettePlayer.tsx:79-97 | a yielded identifier is never empty, and a url holding none of the three markers yields none |
| Resolver.ResolveTrack | src/components/CassettePlayer.tsx:77-105 | a raw track resolves iff its url is a string, is not blank and yields an identifier; the result keeps the id, has a non-empty identifier and the canonical url of it |
| Resolver.ExtractYoutubeIds | src/components/CassettePlayer.tsx:75-108 | the resolved list is never longer than the input, and every entry has a non-empty identifier and url `https://www.youtube.com/watch?v=` + identifier |
| Resolver.TrueIndicesFrom | src/components/CassettePlayer.tsx:107 | the kept positions of a filter, strictly increasing, exactly those where the mask holds |
| Resolver.SelectionFrom | src/components/CassettePlayer.tsx:76-107 | the resolved list from any position on is the resolution of exactly the resolvable positions from there on, in order |
| Resolver.ResolvedListIsOrderedSelection | src/components/CassettePlayer.tsx:76-107 | the resolved list is an order-preserving selection of the input: one entry per resolvable raw track, in input order, with that track's id, and no entry for any other |
| Resolver.UnresolvableIsDropped | src/components/CassettePlayer.tsx:78 | a raw track whose url is not a string, is blank, or yields no identifier has no entry in the resolved list |
| Resolver.ResolveNonBlank | src/components/CassettePlayer.tsx:78 | a url starting with a non-whitespace character is never blank, so it resolves exactly when it yields an identifier |
| Resolver.WatchUrlYieldsV | src/components/CassettePlayer.tsx:82-84 | a parseable watch-page url whose query starts with `v=<id>`, with or without further `&`-parameters and a `#`-fragment, yields `<id>`, whatever other marker it holds |
| Resolver.CanonicalPage | src/components/CassettePlayer.tsx:102 | the page of the canonical url holds the watch marker and no `?` or `#` |
| Resolver.CanonicalUrlRoundTrip | src/components/CassettePlayer.tsx:82-102 | resolving a canonical url again gives back its identifier (for identifiers without `&` or `#`), so resolution is stable on its own output |
| Resolver.IdAfterReads | src/components/CassettePlayer.tsx:86-93 | for a marker without `?`: when the text after the marker's first occurrence is an id that has no `?` and does not hold the marker, followed by a `?`-tail or nothing, the id is read exactly, whatever the tail holds (a second marker after the `?` included) |
| Resolver.IdAfterMarker | src/components/CassettePlayer.tsx:86-93 | in `head + marker + id + tail`, for a marker without `?`, where `head` lacks the marker's first character and `id` has no `?` and does not hold the marker, the marker first occurs after `head` and the text read after it is exactly `id` |
| Resolver.NoWatchMarker | src/components/CassettePlayer.tsx:82 | a url none of whose parts holds a 'w' does not take the watch branch |
| Resolver.ShortLinkYieldsId | src/components/CassettePlayer.tsx:85-88 | a url without the watch marker, `<head>youtu.be/<id>` with no 'y' in `<head>`, followed by nothing or any `?`-query, yields exactly `<id>` when `<id>` has no `?` and does not hold `youtu.be/`, none when it is empty |
| Resolver.ShortsYieldsId | src/components/CassettePlayer.tsx:89-93 | a url with neither earlier marker, `<head>youtube.com/shorts/<id>` with no 'y' in `<head>`, followed by nothing or any `?`-query, yields exactly `<id>` when `<id>` has no `?` and does not hold the shorts marker, none when it is empty |
| Resolver.WwwShortsYieldsId | src/components/CassettePlayer.tsx:89-93 | `https://www.youtube.com/shorts/<id>` followed by nothing or a `?`-query yields exactly `<id>` |
| Resolver.WatchBeatsShortLink | src/components/CassettePlayer.tsx:82-88 | the watch branch comes first: a watch url whose query starts with `v=<id>` and whose later parameters hold `youtu.be/` yields `<id>`, with or without a `#`-fragment |
| Resolver.ShortLinkBeatsShorts | src/components/CassettePlayer.tsx:85-93 | the short-link branch comes before the shorts branch: a short link `<head>youtu.be/<id>?…` with no 'y' in `<head>`, whose query holds `youtube.com/shorts/`, yields `<id>` |
| Resolver.WatchLinkScenario | src/components/CassettePlayer.tsx:75-108 | `https://www.youtube.com/watch?v=abc123` resolves to identifier `abc123` under its canonical url |
| Resolver.NotALinkIsDropped | src/components/CassettePlayer.tsx:82-94 | example: the text `not a url`, which holds none of the markers, resolves to nothing |
| Resolver.ShortLinkResolves | src/components/CassettePlayer.tsx:85-104 | `https://youtu.be/xyz789?t=5` resolves to `xyz789` under `https://www.youtube.com/watch?v=xyz789` |
| Resolver.ShortLinkScenario | src/components/CassettePlayer.tsx:75-108 | in a list of a non-link and a short link, only the short link survives, resolved |
| TrackLists.Label | src/components/MixtapeEditor.tsx:130 | the shown name is never empty: the name itself when non-empty, else 'FOR YOU' |
| TrackLists.RemoveAt | src/components/MixtapeEditor.tsx:54-58 | `splice(i, 1)` shortens the list by one, keeps the tracks before `i`, shifts the ones after it down by one, and removes exactly one copy of `old[i]` |
| TrackLists.InsertAt | src/components/MixtapeEditor.tsx:40-43 | `splice(i, 0, t)` puts `t` at `i`, keeps the tracks before it and shifts the rest up by one |
| TrackLists.RemoveInserted | src/components/MixtapeEditor.tsx:40-43 | removing a just-inserted track gives back the original list |
| TrackLists.Move | src/components/MixtapeEditor.tsx:35-46 | a move keeps the length and the multiset of tracks, puts the dragged track at the hover index, and leaves the other tracks in their relative order |
| TrackLists.MoveToSelf | src/components/MixtapeEditor.tsx:37-45 | moving a track onto its own index leaves the list unchanged |
| TrackLists.MovePositions | src/components/MixtapeEditor.tsx:37-45 | where every track ends up: outside the span between the indices nothing moves, inside it tracks shift by one towards the vacated index |
| TrackLists.AppendBlank | src/components/MixtapeEditor.tsx:66-73 | below five tracks a blank track with the given id is appended; at five or more the list is unchanged; a list within the cap stays within it |
| TrackLists.BlankUrlIsWhitespaceOnly | src/components/MixtapeEditor.tsx:98 | `tracks.some(t => !t.url.trim())` holds exactly when some track's url is empty or whitespace only |
| TrackLists.UpdateUrl | src/components/MixtapeEditor.tsx:81-88 | tracks with the id get the new url; ids, order, length and all other tracks are unchanged |
| Editing.MixtapeEditor.constructor | src/components/MixtapeEditor.tsx:26-30 | the form starts from the given mixtape, its name and the route id |
| Editing.MixtapeEditor.MoveRow | src/components/MixtapeEditor.tsx:35-52 | the list becomes the move of the old list, a permutation with `new[hover] == old[drag]`; the name is unchanged |
| Editing.MixtapeEditor.RemoveTrack | src/components/MixtapeEditor.tsx:54-64 | the list loses exactly the track at the index; the name is unchanged |
| Editing.MixtapeEditor.AddTrack | src/components/MixtapeEditor.tsx:66-79 | the capped append with the fresh id; a list within the cap stays within it |
| Editing.MixtapeEditor.UpdateTrackUrl | src/components/MixtapeEditor.tsx:81-94 | the list becomes the url update of the old list; the name is unchanged |
| Editing.MixtapeEditor.SetRecipientName | src/components/MixtapeEditor.tsx:143 | the name input replaces the name only |
| Editing.MixtapeEditor.LabelText | src/components/MixtapeEditor.tsx:130 | the label is never empty and shows the edited name when there is one |
| Editing.MixtapeEditor.HandleSave | src/components/MixtapeEditor.tsx:96-116 | the save is refused before any update exactly when some url is blank; without a route id nothing is sent; otherwise the update carries the route id, the edited name and the tracks, all with non-blank urls |
| Editing.CapIsKept | src/components/MixtapeEditor.tsx:35-88 | from at most five tracks, no sequence of moves, removals, additions and url edits leads above five |
| Creation.MixtapeCreator.constructor | src/components/MixtapeCreator.tsx:12-13 | the form starts with exactly `[{id: 1, url: ''}]` and an empty name, satisfying the invariant |
| Creation.MixtapeCreator.AddTrack | src/components/MixtapeCreator.tsx:16-20 | below five tracks a blank track with id `length + 1` is appended, else nothing changes; ids stay positions and the length stays in 1..5 |
| Creation.MixtapeCreator.UpdateTrackUrl | src/components/MixtapeCreator.tsx:22-26 | only the track at position `id` changes, and only its url; the invariant is kept |
| Creation.MixtapeCreator.SetRecipientName | src/components/MixtapeCreator.tsx:59 | the name input replaces the name only |
| Creation.MixtapeCreator.CreateRequest | src/components/MixtapeCreator.tsx:28-34 | the created record has the name, or 'FOR YOU' when it is empty, and the tracks as they are, without a blank-url check |
| Dragging.DragItem.constructor | src/components/draggable.tsx:67 | the drag item records the track id and the row it starts from |
| Dragging.ShouldMove | src/components/draggable.tsx:40-54 | no move without an element, without a pointer offset, or onto the same row; a downward drag moves once the pointer is at or below the hovered row's middle, an upward one once it is at or above it |
| Dragging.Hover | src/components/draggable.tsx:40-58 | when the rule fires the editor's list is moved and the item's index becomes the hover index, otherwise nothing changes; either way the dragged track sits at the item's index and the list is a permutation of the old one |
| Playback.GetMixtapeById | src/services/mixtapeService.tsx:56-73 | the record has the name and tracks of the requested document if stored, else of the house mixtape; a document's own `id` field replaces the key as the record's id, and a document without one takes the key; in a store where no document names another key, the record carries the requested id exactly when that id is stored |
| Playback.RecipientLabel | src/components/CassettePlayer.tsx:57 | the tape's name is never empty: the fetched name when it is a non-empty string, else 'FOR YOU' |
| Playback.CassettePlayer.constructor | src/components/CassettePlayer.tsx:24-35 | once mounted: one blank raw track, hence no playable track, cursor 1, no tape, not playing |
| Playback.CassettePlayer.LoadMixtape | src/components/CassettePlayer.tsx:43-72 | without a route id nothing changes; otherwise a record with another id (or none) sets the substituted flag, the name becomes the label, and the raw tracks are replaced (emptied for no record, kept when the record has no list) |
| Playback.CassettePlayer.LoadFromStore | src/components/CassettePlayer.tsx:43-72 | without a route id nothing changes; otherwise the flag, name and raw tracks follow the record the service returns, as in the load effect, and nothing else changes; in a store where no document names another key, an unknown id sets the substituted flag and disables remixing, and a stored id leaves both as they were |
| Playback.CassettePlayer.Insert | src/components/CassettePlayer.tsx:187-198 | the tape is inserted now; `hasTape` is unchanged and a settle to true is queued |
| Playback.CassettePlayer.Eject | src/components/CassettePlayer.tsx:200-214 | the tape is out and playback stops now; `hasTape` is unchanged and a settle to false is queued |
| Playback.CassettePlayer.PressInsertEject | src/components/CassettePlayer.tsx:329-331 | the toggle flips the inserted flag, queues the matching settle, and stops playback when ejecting; the tracks, cursor and name are unchanged |
| Playback.CassettePlayer.SettleTimerFires | src/components/CassettePlayer.tsx:195-197 | the oldest pending settle sets `hasTape`; once none is pending, `hasTape` agrees with the inserted flag; nothing else changes |
| Playback.CassettePlayer.Tracks | src/components/CassettePlayer.tsx:110-111 | the playable tracks are never more than the raw ones, and each has a non-empty identifier and its canonical url |
| Playback.CassettePlayer.PrevEnabled | src/components/CassettePlayer.tsx:361 | Prev is disabled without a tape, and in a valid state an enabled Prev never takes the cursor below 1 |
| Playback.CassettePlayer.NextEnabled | src/components/CassettePlayer.tsx:426-429 | Next is disabled without a tape or on the last track, enabled before it, and, being an equality comparison, still enabled past the end and on an empty list |
| Playback.CassettePlayer.RemixEnabled | src/components/CassettePlayer.tsx:464 | a substituted mixtape can never be remixed, and remixing needs a tape |
| Playback.CassettePlayer.PressPrev | src/components/CassettePlayer.tsx:358-365 | enabled only with a tape and off track 1, it steps back one; from a cursor in range it stays in range; a disabled press changes nothing; playback, tape, tracks and name are unchanged |
| Playback.CassettePlayer.PressPlay | src/components/CassettePlayer.tsx:382-389 | with a tape in, it toggles playback; without one, it is disabled and nothing plays; cursor, tape, tracks and name are unchanged |
| Playback.CassettePlayer.PressNext | src/components/CassettePlayer.tsx:423-433 | enabled only with a tape and off the last track, it steps forward one; from a cursor in range it stays in range (at least 1, at most the track count); on an empty list it stays enabled and the cursor leaves the list; playback, tape, tracks and name are unchanged |
| Playback.CassettePlayer.OnPlayerStateChange | src/components/CassettePlayer.tsx:160-168 | at a track's end the cursor moves up by exactly one with playback untouched, or on the last track playback stops with the cursor unchanged; other widget states change nothing; tape, tracks and name are never touched |
| Playback.CassettePlayer.CommandedVideo | src/components/CassettePlayer.tsx:177-179 | the video the widget loads is empty exactly when the cursor is outside the list, and is the current track's identifier otherwise |

## Left out

- Percent-decoding, `+` handling and the rest of the URL grammar in `new URL(...).searchParams.get('v')`. The query reader takes the text between the first `?` and the first `#`, splits it on `&`, and returns the raw value of the first piece whose name matches.
- `Resolver.ShortLinkYieldsId`: the condition that the part before `youtu.be/` holds no 'y' is a sufficient one for the marker's first occurrence to be right after it; urls whose earlier text holds a 'y' are not covered by this statement.
- `Resolver.ShortsYieldsId`: the same sufficient condition, no 'y' before `youtube.com/shorts/`.
- `Resolver.WwwShortsYieldsId`: stated for identifiers and queries without a 'y'; other ones are covered by `Resolver.ShortsYieldsId`.
- `Resolver.ShortLinkBeatsShorts`: stated, like `Resolver.ShortLinkYieldsId`, for urls with no 'y' before `youtu.be/`; urls whose earlier text holds a 'y' are not covered by this statement.
- `Resolver.WatchBeatsShortLink`: stated for watch urls whose query starts with the `v` parameter; a query where `v` comes after other parameters is not covered by this statement (how the `v` parameter is found in any query is stated by `Resolver.SearchParamFirstNamed`).
- Which strings the browser's URL parser accepts. `urlParses` is an uninterpreted parameter. The parser's stripping of surrounding whitespace before the query is read is therefore not modelled.
- `Resolver.CanonicalUrlRoundTrip`: stated only for identifiers without `&` or `#`. An identifier read from a short link keeps any `#fragment` (its text is cut only at `?`), and such an identifier does not survive the watch-page round trip.
- `TrackLists.Label`: the default applies when the name is empty, as the source relies on truthiness. A name of spaces is shown as is, not as 'FOR YOU'.
- `Editing.MixtapeEditor.MoveRow` and `Editing.MixtapeEditor.RemoveTrack` require row indices in range. Their only callers, the rows' hover handlers and remove buttons, pass their own indices. JavaScript's `splice` clamping of out-of-range indices is not modelled.
- `Playback.GetMixtapeById`: a stored `id` field is modelled as a string or absent; a non-string one, and the loose `!=` the player compares it with, are not modelled. The forms never write such a field.
- `Playback.GetMixtapeById` requires the house mixtape to be in the store. Without it the service keeps requesting it and never returns, which the model does not represent. Errors raised by the store are modelled as the service's `null` result (`None` in `LoadMixtape`).
- React scheduling: state updates are immediate and effects run in the same step. The model does not capture the stale `currentTrack`/`tracks` captured by the widget callback, which is registered once on mount. Playable tracks are a function of the raw tracks (`Tracks()`), the value the resolving effect keeps them at.
- The YouTube iframe API (script injection, player construction, `loadVideoById`/`playVideo`/`pauseVideo`). Only the commanded video is modelled, as `CommandedVideo`. The commanded play state is `isPlaying` itself.
- Timers as wall-clock time. The 1000 ms settles are a FIFO queue of events. The editor's 2000 ms `isEditing` reset, and the `isEditing` flag itself, are omitted.
- Audio cues, toasts, `alert`, navigation after save or create, the open-on-YouTube button, styling and keyframe injection, and the input's `maxLength` of 15.
- Writing to the store (`createMixtape`, `updateMixtape`). The forms' requests are returned as values instead.
- Geometry: rectangles and pointer offsets are `real` coordinates rather than IEEE doubles.
- `src/components/CassetteTape.tsx`, the page components and routing are presentation and are not part of this model.
