/** The link resolver of the player: raw track links become playable tracks
    with a bare video identifier and a canonical watch url; links it cannot
    resolve are dropped. */
module Resolver {
  import opened Wrappers
  import opened Text

  /** A track as stored with a mixtape: its list-local id and the saved url
      (None when the stored value is not a string). */
  datatype RawTrack = RawTrack(id: int, url: Option<string>)

  /** A playable track: the canonical url and the identifier it is built from. */
  datatype Track = Track(id: int, url: string, videoID: string)

  const WatchMarker := "youtube.com/watch"
  const ShortLinkMarker := "youtu.be/"
  const ShortsMarker := "youtube.com/shorts/"
  const CanonicalPrefix := "https://www.youtube.com/watch?v="

  /** The url a resolved track is played under: the canonical prefix followed
      by the identifier itself. */
  function CanonicalUrl(videoID: string): string {
    CanonicalPrefix + videoID
  }

  /** The canonical url starts with the canonical prefix and ends with the
      identifier, so distinct identifiers get distinct urls. */
  lemma CanonicalUrlShape(videoID: string, other: string)
    ensures |CanonicalUrl(videoID)| == |CanonicalPrefix| + |videoID|
    ensures CanonicalUrl(videoID)[..|CanonicalPrefix|] == CanonicalPrefix
    ensures CanonicalUrl(videoID)[|CanonicalPrefix|..] == videoID
    ensures CanonicalUrl(videoID) == CanonicalUrl(other) <==> videoID == other
  {
    if CanonicalUrl(videoID) == CanonicalUrl(other) {
      assert videoID == CanonicalUrl(videoID)[|CanonicalPrefix|..] == other;
    }
  }

  /** JavaScript truthiness of a string-or-null: "" and null are both falsy. */
  function Truthy(v: Option<string>): (r: Option<string>)
    ensures r.Some? <==> v.Some? && v.value != ""
    ensures r.Some? ==> r == v
  {
    if v.Some? && v.value != "" then v else None
  }

  /** The query of a url without its '?': the text after the first '?' of the
      part that precedes the first '#'. */
  function QueryOf(url: string): string {
    AfterFirst(BeforeFirst(url, "#"), "?")
  }

  /** The query holds no '#', and it is empty when no '?' comes before the
      first '#'. */
  lemma QueryOfShape(url: string)
    ensures '#' !in QueryOf(url)
    ensures '?' !in BeforeFirst(url, "#") ==> QueryOf(url) == ""
  {
    var page := BeforeFirst(url, "#");
    CharOccurrences(url, '#');
    assert '#' !in page by {
      forall j | 0 <= j < |page| ensures page[j] != '#' {
        assert !OccursAt(url, "#", j) && page[j] == url[j];
      }
    }
    if Contains(page, "?") {
      assert page == BeforeFirst(page, "?") + "?" + QueryOf(url);
    } else {
      assert QueryOf(url) == "";
    }
  }

  /** `query.split('&')`: the '&'-separated pieces of a query, in order. */
  function QueryPieces(query: string): (ps: seq<string>)
    ensures |ps| >= 1
    ensures forall k :: 0 <= k < |ps| ==> '&' !in ps[k]
    decreases |query|
  {
    var piece := BeforeFirst(query, "&");
    CharOccurrences(query, '&');
    assert forall j :: 0 <= j < |piece| ==> piece[j] == query[j] && !OccursAt(query, "&", j);
    if |piece| == |query| then [query] else [piece] + QueryPieces(query[|piece| + 1..])
  }

  /** `pieces.join('&')`. */
  function JoinPieces(ps: seq<string>): string
    requires |ps| >= 1
  {
    if |ps| == 1 then ps[0] else ps[0] + "&" + JoinPieces(ps[1..])
  }

  /** Joining the pieces of a query with '&' gives the query back. */
  lemma {:induction false} JoinQueryPieces(query: string)
    ensures JoinPieces(QueryPieces(query)) == query
    decreases |query|
  {
    var piece := BeforeFirst(query, "&");
    if |piece| < |query| {
      var rest := query[|piece| + 1..];
      JoinQueryPieces(rest);
      assert QueryPieces(query)[1..] == QueryPieces(rest);
      assert query == piece + "&" + rest;
    }
  }

  /** A non-empty query piece named `name`: its text before the first '=' is `name`. */
  predicate Names(piece: string, name: string) {
    piece != "" && BeforeFirst(piece, "=") == name
  }

  /** No piece of `ps` is named `name`. */
  predicate NoneNamed(ps: seq<string>, name: string) {
    forall k :: 0 <= k < |ps| ==> !Names(ps[k], name)
  }

  /** Piece `k` of `ps` is the first one named `name`, and its value is `v`. */
  predicate FirstNamedAt(ps: seq<string>, name: string, k: nat, v: string) {
    && k < |ps| && Names(ps[k], name) && v == AfterFirst(ps[k], "=")
    && forall j :: 0 <= j < k ==> !Names(ps[j], name)
  }

  /** A piece in front of others: it is either the first named piece or shifts the first named one by one. */
  lemma NamedInFront(piece: string, tail: seq<string>, name: string)
    ensures NoneNamed([piece] + tail, name) <==> !Names(piece, name) && NoneNamed(tail, name)
    ensures Names(piece, name) ==> FirstNamedAt([piece] + tail, name, 0, AfterFirst(piece, "="))
    ensures forall k: nat, v :: !Names(piece, name) && FirstNamedAt(tail, name, k, v)
                            ==> FirstNamedAt([piece] + tail, name, k + 1, v)
  {
    var ps := [piece] + tail;
    assert ps[0] == piece;
    assert forall k :: 0 <= k < |tail| ==> ps[k + 1] == tail[k];
    assert forall k :: 1 <= k < |ps| ==> ps[k] == tail[k - 1];
    if !NoneNamed(tail, name) {
      var k :| 0 <= k < |tail| && Names(tail[k], name);
      assert Names(ps[k + 1], name);
    }
  }

  /** `new URLSearchParams(query).get(name)`: the value of the first non-empty
      '&'-separated piece whose name (the text before its first '=') is `name`;
      the value is the text after that '=', or "" when the piece has none.
      Percent-decoding and '+' are not modelled. */
  function SearchParam(query: string, name: string): Option<string>
    decreases |query|
  {
    var piece := BeforeFirst(query, "&");
    if Names(piece, name) then Some(AfterFirst(piece, "="))
    else if |piece| == |query| then None
    else SearchParam(query[|piece| + 1..], name)
  }

  /** The parameter is the value of the first piece of the query named `name`,
      and there is none exactly when no piece is named `name`. */
  lemma {:induction false} SearchParamFirstNamed(query: string, name: string)
    ensures SearchParam(query, name).None? <==> NoneNamed(QueryPieces(query), name)
    ensures SearchParam(query, name).Some? ==>
              exists k: nat :: FirstNamedAt(QueryPieces(query), name, k, SearchParam(query, name).value)
    decreases |query|
  {
    var piece := BeforeFirst(query, "&");
    if |piece| == |query| {
      assert QueryPieces(query) == [query] + [];
      NamedInFront(query, [], name);
    } else {
      var rest := query[|piece| + 1..];
      assert QueryPieces(query) == [piece] + QueryPieces(rest);
      NamedInFront(piece, QueryPieces(rest), name);
      SearchParamFirstNamed(rest, name);
    }
  }

  /** `url.split(marker)[1]?.split('?')[0]` for a url that contains `marker`:
      the text after the first occurrence of `marker`, up to the next
      occurrence of `marker` or the first '?', whichever comes first. */
  function IdAfter(url: string, marker: string): (r: string)
    requires |marker| > 0 && Contains(url, marker)
    ensures var rest := url[IndexOf(url, marker).value + |marker|..];
      && |r| <= |rest| && r == rest[..|r|]
      && (forall j: nat :: j < |r| ==> rest[j] != '?' && !OccursAt(rest, marker, j))
      && (|r| == |rest| || rest[|r|] == '?' || OccursAt(rest, marker, |r|))
  {
    var piece := SecondPiece(url, marker);
    CharOccurrences(piece, '?');
    BeforeFirst(piece, "?")
  }

  /** The identifier a url yields: the markers are tried in a fixed order and
      an empty identifier counts as none. In the watch branch a url the URL
      parser rejects (`urlParses` false) yields none. */
  function ExtractVideoId(url: string, urlParses: string -> bool): (r: Option<string>)
    ensures r.Some? ==> r.value != ""
    ensures r.Some? ==> Contains(url, WatchMarker) || Contains(url, ShortLinkMarker) || Contains(url, ShortsMarker)
  {
    if Contains(url, WatchMarker) then
      if urlParses(url) then Truthy(SearchParam(QueryOf(url), "v")) else None
    else if Contains(url, ShortLinkMarker) then Truthy(Some(IdAfter(url, ShortLinkMarker)))
    else if Contains(url, ShortsMarker) then Truthy(Some(IdAfter(url, ShortsMarker)))
    else None
  }

  /** One step of the map in `extractYoutubeIds`: a raw track becomes a playable
      track, or nothing. */
  function ResolveTrack(t: RawTrack, urlParses: string -> bool): (r: Option<Track>)
    ensures r.Some? <==> t.url.Some? && !IsBlank(t.url.value) && ExtractVideoId(t.url.value, urlParses).Some?
    ensures r.Some? ==> && r.value.id == t.id
                        && r.value.videoID == ExtractVideoId(t.url.value, urlParses).value
                        && r.value.videoID != ""
                        && r.value.url == CanonicalUrl(r.value.videoID)
  {
    match t.url
    case None => None
    case Some(u) =>
      if IsBlank(u) then None
      else match ExtractVideoId(u, urlParses)
        case None => None
        case Some(v) => Some(Track(t.id, CanonicalUrl(v), v))
  }

  /** `extractYoutubeIds`: resolve every raw track and keep those that resolve. */
  function ExtractYoutubeIds(raw: seq<RawTrack>, urlParses: string -> bool): (r: seq<Track>)
    ensures |r| <= |raw|
    ensures forall k :: 0 <= k < |r| ==> r[k].videoID != "" && r[k].url == CanonicalUrl(r[k].videoID)
  {
    if raw == [] then []
    else
      var rest := ExtractYoutubeIds(raw[1..], urlParses);
      var head := ResolveTrack(raw[0], urlParses);
      if head.Some? then [head.value] + rest else rest
  }

  /** Which raw tracks resolve, position by position. */
  function ResolvableMask(raw: seq<RawTrack>, urlParses: string -> bool): (mask: seq<bool>)
    ensures |mask| == |raw|
  {
    seq(|raw|, i requires 0 <= i < |raw| => ResolveTrack(raw[i], urlParses).Some?)
  }

  /** The indices, at or after `from`, at which `mask` holds, in increasing order. */
  function TrueIndicesFrom(mask: seq<bool>, from: nat): (idx: seq<nat>)
    requires from <= |mask|
    ensures forall k :: 0 <= k < |idx| ==> from <= idx[k] < |mask| && mask[idx[k]]
    ensures forall k1, k2 :: 0 <= k1 < k2 < |idx| ==> idx[k1] < idx[k2]
    ensures forall i :: from <= i < |mask| ==> (i in idx <==> mask[i])
    decreases |mask| - from
  {
    if from == |mask| then []
    else
      var rest := TrueIndicesFrom(mask, from + 1);
      if mask[from] then [from] + rest else rest
  }

  /** The indices of the raw tracks that resolve. */
  function ResolvableIndices(raw: seq<RawTrack>, urlParses: string -> bool): seq<nat> {
    TrueIndicesFrom(ResolvableMask(raw, urlParses), 0)
  }

  /** One raw track's contribution to the resolved suffix. */
  lemma ExtractStep(raw: seq<RawTrack>, urlParses: string -> bool, from: nat)
    requires from < |raw|
    ensures var head := ResolveTrack(raw[from], urlParses);
      ExtractYoutubeIds(raw[from..], urlParses)
        == (if head.Some? then [head.value] else []) + ExtractYoutubeIds(raw[from + 1..], urlParses)
  {
    assert raw[from..] == [raw[from]] + raw[from + 1..];
    ExtractCons(raw[from], raw[from + 1..], urlParses);
  }

  /** One position's contribution to the index list. */
  lemma IndicesStep(mask: seq<bool>, from: nat)
    requires from < |mask|
    ensures TrueIndicesFrom(mask, from)
         == (if mask[from] then [from] else []) + TrueIndicesFrom(mask, from + 1)
  {
  }

  lemma {:induction false} SelectionFrom(raw: seq<RawTrack>, urlParses: string -> bool, from: nat)
    requires from <= |raw|
    ensures var r := ExtractYoutubeIds(raw[from..], urlParses);
      var idx := TrueIndicesFrom(ResolvableMask(raw, urlParses), from);
      && |idx| == |r|
      && (forall k :: 0 <= k < |idx| ==> ResolveTrack(raw[idx[k]], urlParses) == Some(r[k]))
    decreases |raw| - from
  {
    if from < |raw| {
      SelectionFrom(raw, urlParses, from + 1);
      var mask := ResolvableMask(raw, urlParses);
      var head := ResolveTrack(raw[from], urlParses);
      var r := ExtractYoutubeIds(raw[from..], urlParses);
      var tail := ExtractYoutubeIds(raw[from + 1..], urlParses);
      var idx := TrueIndicesFrom(mask, from);
      var rest := TrueIndicesFrom(mask, from + 1);
      ExtractStep(raw, urlParses, from);
      IndicesStep(mask, from);
      assert mask[from] == head.Some?;
      if head.Some? {
        assert r == [head.value] + tail && idx == [from] + rest;
        forall k | 0 <= k < |idx| ensures ResolveTrack(raw[idx[k]], urlParses) == Some(r[k]) {
          if k > 0 {
            assert idx[k] == rest[k - 1] && r[k] == tail[k - 1];
          }
        }
      } else {
        assert r == tail && idx == rest;
      }
    }
  }

  /** The resolved list is exactly the resolvable raw tracks, in their original
      order: an order-preserving subsequence, one entry per resolvable raw track,
      none for a track that does not resolve. */
  lemma ResolvedListIsOrderedSelection(raw: seq<RawTrack>, urlParses: string -> bool)
    ensures var r := ExtractYoutubeIds(raw, urlParses);
      var idx := ResolvableIndices(raw, urlParses);
      && |idx| == |r| <= |raw|
      && (forall k :: 0 <= k < |idx| ==> idx[k] < |raw| && ResolveTrack(raw[idx[k]], urlParses) == Some(r[k]))
      && (forall k :: 0 <= k < |idx| ==> r[k].id == raw[idx[k]].id)
      && (forall k1, k2 :: 0 <= k1 < k2 < |idx| ==> idx[k1] < idx[k2])
      && (forall i :: 0 <= i < |raw| ==> (i in idx <==> ResolveTrack(raw[i], urlParses).Some?))
  {
    SelectionFrom(raw, urlParses, 0);
    assert raw[0..] == raw;
  }

  /** A raw track whose url is not a string, is blank, or yields no identifier
      has no entry in the resolved list. */
  lemma UnresolvableIsDropped(raw: seq<RawTrack>, urlParses: string -> bool, i: nat)
    requires i < |raw|
    requires raw[i].url.None? || IsBlank(raw[i].url.value) || ExtractVideoId(raw[i].url.value, urlParses).None?
    ensures i !in ResolvableIndices(raw, urlParses)
  {
    ResolvedListIsOrderedSelection(raw, urlParses);
  }

  /** The query of `base ? q` followed by nothing or a `#`-fragment is `q`
      when neither `base` nor `q` holds a '#' and `base` holds no '?'. */
  lemma QueryAfterFirstMark(base: string, q: string, frag: string)
    requires '?' !in base && '#' !in base && '#' !in q
    requires frag == "" || frag[0] == '#'
    ensures QueryOf(base + "?" + q + frag) == q
  {
    var page := base + "?" + q;
    assert '#' !in page;
    if frag == "" {
      assert page + frag == page;
      SplitWithoutChar(page, '#');
    } else {
      assert page + frag == page + ['#'] + frag[1..];
      SplitOnChar(page, '#', frag[1..]);
    }
    assert page == base + ['?'] + q;
    SplitOnChar(base, '?', q);
  }

  /** A query that starts with `v=<id>`, followed by nothing or by further
      `&`-parameters, has `<id>` as its `v` parameter. */
  lemma LeadingParam(id: string, tail: string)
    requires '&' !in id && (tail == "" || tail[0] == '&')
    ensures SearchParam("v=" + id + tail, "v") == Some(id)
  {
    var q := "v=" + id + tail;
    var piece := "v=" + id;
    assert '&' !in piece;
    if tail == "" {
      assert q == piece;
      SplitWithoutChar(piece, '&');
    } else {
      assert q == piece + ['&'] + tail[1..];
      SplitOnChar(piece, '&', tail[1..]);
    }
    assert piece == "v" + ['='] + id;
    SplitOnChar("v", '=', id);
  }

  /** Watch branch: a url made of a part holding the watch marker, then
      `?v=<id>`, then nothing or further `&`-parameters, then nothing or a
      `#`-fragment, yields exactly `<id>` (when the URL parser accepts it),
      whatever other marker it also holds. */
  lemma WatchUrlYieldsV(base: string, id: string, tail: string, frag: string, urlParses: string -> bool)
    requires Contains(base, WatchMarker) && '?' !in base && '#' !in base
    requires id != "" && '&' !in id && '#' !in id
    requires (tail == "" || tail[0] == '&') && '#' !in tail
    requires frag == "" || frag[0] == '#'
    requires urlParses(base + "?v=" + id + tail + frag)
    ensures ExtractVideoId(base + "?v=" + id + tail + frag, urlParses) == Some(id)
  {
    var q := "v=" + id + tail;
    var url := base + "?" + q + frag;
    assert url == base + "?v=" + id + tail + frag;
    var at := IndexOf(base, WatchMarker).value;
    OccursInPrefix(base, "?" + q + frag, WatchMarker, at);
    assert base + ("?" + q + frag) == url;
    ContainsAt(url, WatchMarker, at);
    QueryAfterFirstMark(base, q, frag);
    LeadingParam(id, tail);
    WatchBranch(url, urlParses);
  }

  /** The watch page of the canonical url contains the watch marker and has
      no query or fragment. */
  lemma CanonicalPage(page: string)
    requires page == "https://www." + WatchMarker
    ensures Contains(page, WatchMarker) && '?' !in page && '#' !in page
  {
    OccursAfter("https://www.", WatchMarker);
    ContainsAt(page, WatchMarker, |"https://www."|);
    NoQueryMarks("https://www.", WatchMarker);
  }

  /** Two texts without '?' or '#' make a text without them. */
  lemma NoQueryMarks(a: string, b: string)
    requires a == "https://www." && b == WatchMarker
    ensures '?' !in a + b && '#' !in a + b
  {
    assert '?' !in a && '?' !in b;
    assert '#' !in a && '#' !in b;
  }

  /** The canonical prefix is that watch page followed by the `v` parameter. */
  lemma CanonicalSpelling(page: string)
    requires page == "https://www." + WatchMarker
    ensures CanonicalPrefix == page + "?v="
  {
  }

  /** The canonical url of an identifier without '&' or '#' resolves back to
      that identifier, so a resolved track stays resolved when its canonical
      url is resolved again. */
  lemma CanonicalUrlRoundTrip(videoID: string, urlParses: string -> bool)
    requires videoID != "" && '&' !in videoID && '#' !in videoID
    requires urlParses(CanonicalUrl(videoID))
    ensures ExtractVideoId(CanonicalUrl(videoID), urlParses) == Some(videoID)
  {
    var page := "https://www." + WatchMarker;
    CanonicalPage(page);
    CanonicalSpelling(page);
    assert CanonicalUrl(videoID) == page + "?v=" + videoID + "" + "";
    WatchUrlYieldsV(page, videoID, "", "", urlParses);
  }

  /** A marker without '?' that does not occur in `id` starts nowhere in `id`
      of `id + tail` when `tail` is empty or begins with '?', whatever `tail`
      holds after that. */
  lemma MarkerStopsAtQuery(id: string, tail: string, marker: string)
    requires '?' !in marker && !Contains(id, marker)
    requires tail == "" || tail[0] == '?'
    ensures forall j: nat :: j < |id| ==> !OccursAt(id + tail, marker, j)
  {
    var rest := id + tail;
    forall j: nat | j < |id| && j + |marker| <= |rest|
      ensures !OccursAt(rest, marker, j)
    {
      if j + |marker| <= |id| {
        assert rest[j..j + |marker|] == id[j..j + |marker|];
        assert !OccursAt(id, marker, j);
      } else {
        var k := |id| - j;
        assert rest[j..j + |marker|][k] == rest[|id|] == '?';
        assert marker[k] in marker;
      }
    }
  }

  /** `IdAfter` reads the identifier that directly follows the marker when it
      is ended by '?' or by the end of the url, even when the marker occurs
      again after that '?'. */
  lemma IdAfterReads(url: string, marker: string, id: string, tail: string)
    requires |marker| > 0 && '?' !in marker && Contains(url, marker)
    requires url[IndexOf(url, marker).value + |marker|..] == id + tail
    requires '?' !in id && (tail == "" || tail[0] == '?')
    requires !Contains(id, marker)
    ensures IdAfter(url, marker) == id
  {
    var rest := id + tail;
    var r := IdAfter(url, marker);
    MarkerStopsAtQuery(id, tail, marker);
    assert tail != "" ==> rest[|id|] == '?';
    assert |r| == |id|;
    assert r == rest[..|id|] == id;
  }

  /** A url `head + marker + id + tail` whose `head` lacks the marker's first
      character (so the marker first occurs right after `head`), whose `id`
      has no '?' and does not hold the marker, and is ended by '?' or the
      end, has `id` after the marker. */
  lemma IdAfterMarker(head: string, marker: string, id: string, tail: string)
    requires |marker| > 0 && '?' !in marker && marker[0] !in head
    requires '?' !in id && (tail == "" || tail[0] == '?')
    requires !Contains(id, marker)
    ensures Contains(head + marker + id + tail, marker)
    ensures IdAfter(head + marker + id + tail, marker) == id
  {
    var url := head + marker + id + tail;
    assert url[|head|..|head| + |marker|] == marker;
    assert url[..|head|] == head;
    FirstOccurrence(url, marker, |head|);
    assert url[|head| + |marker|..] == id + tail;
    IdAfterReads(url, marker, id, tail);
  }

  /** A url holding the watch marker takes the watch branch, whatever other
      marker it also holds: its identifier is the `v` parameter, and a url
      the URL parser rejects yields none. */
  lemma WatchBranch(url: string, urlParses: string -> bool)
    requires Contains(url, WatchMarker)
    ensures !urlParses(url) ==> ExtractVideoId(url, urlParses) == None
    ensures urlParses(url) ==> ExtractVideoId(url, urlParses) == Truthy(SearchParam(QueryOf(url), "v"))
  {
  }

  /** The branch a url without the watch marker but with the short-link marker takes. */
  lemma ShortLinkBranch(url: string, urlParses: string -> bool)
    requires !Contains(url, WatchMarker) && Contains(url, ShortLinkMarker)
    ensures ExtractVideoId(url, urlParses) == Truthy(Some(IdAfter(url, ShortLinkMarker)))
  {
  }

  /** The branch a url with only the shorts marker takes. */
  lemma ShortsBranch(url: string, urlParses: string -> bool)
    requires !Contains(url, WatchMarker) && !Contains(url, ShortLinkMarker) && Contains(url, ShortsMarker)
    ensures ExtractVideoId(url, urlParses) == Truthy(Some(IdAfter(url, ShortsMarker)))
  {
  }

  /** A url whose parts all lack a 'w' does not hold the watch marker. */
  lemma NoWatchMarker(head: string, marker: string, id: string, tail: string)
    requires 'w' !in head && 'w' !in marker && 'w' !in id + tail
    ensures !Contains(head + marker + id + tail, WatchMarker)
  {
    var url := head + marker + id + tail;
    assert url == head + (marker + (id + tail));
    assert WatchMarker[12] == 'w';
    AbsentWithoutChar(url, WatchMarker, 12);
  }

  /** Short-link branch: a url without the watch marker, made of a `head`
      without a 'y', then `youtu.be/<id>`, then nothing or a `?`-query,
      yields exactly `<id>` (none when `<id>` is empty) when `<id>` does not
      hold `youtu.be/`, whether or not the url also holds the shorts marker. */
  lemma ShortLinkYieldsId(head: string, id: string, tail: string, urlParses: string -> bool)
    requires 'y' !in head
    requires '?' !in id && (tail == "" || tail[0] == '?')
    requires !Contains(id, ShortLinkMarker)
    requires !Contains(head + ShortLinkMarker + id + tail, WatchMarker)
    ensures ExtractVideoId(head + ShortLinkMarker + id + tail, urlParses) == Truthy(Some(id))
  {
    var url := head + ShortLinkMarker + id + tail;
    assert ShortLinkMarker[0] == 'y';
    IdAfterMarker(head, ShortLinkMarker, id, tail);
    ShortLinkBranch(url, urlParses);
  }

  /** Shorts branch: a url holding neither the watch marker nor `youtu.be/`,
      made of a `head` without a 'y', then `youtube.com/shorts/<id>`, then
      nothing or a `?`-query, yields exactly `<id>` (none when `<id>` is
      empty) when `<id>` does not hold the shorts marker. */
  lemma ShortsYieldsId(head: string, id: string, tail: string, urlParses: string -> bool)
    requires 'y' !in head
    requires '?' !in id && (tail == "" || tail[0] == '?')
    requires !Contains(id, ShortsMarker)
    requires !Contains(head + ShortsMarker + id + tail, WatchMarker)
    requires !Contains(head + ShortsMarker + id + tail, ShortLinkMarker)
    ensures ExtractVideoId(head + ShortsMarker + id + tail, urlParses) == Truthy(Some(id))
  {
    var url := head + ShortsMarker + id + tail;
    assert ShortsMarker[0] == 'y';
    IdAfterMarker(head, ShortsMarker, id, tail);
    ShortsBranch(url, urlParses);
  }

  /** A shorts link on the `www.` host, `https://www.youtube.com/shorts/<id>`
      followed by nothing or a `?`-query, yields exactly `<id>` when neither
      `<id>` nor the query holds a 'y'. */
  lemma WwwShortsYieldsId(id: string, tail: string, urlParses: string -> bool)
    requires 'y' !in id + tail
    requires '?' !in id && (tail == "" || tail[0] == '?')
    ensures ExtractVideoId("https://www." + ShortsMarker + id + tail, urlParses) == Truthy(Some(id))
  {
    var url := "https://www." + ShortsMarker + id + tail;
    WwwShortsLetters(id, tail);
    assert url[12..12 + |WatchMarker|][12] == url[24];
    AbsentUnlessAt(url, WatchMarker, 12);
    assert url[12..12 + |ShortLinkMarker|][5] == url[17];
    AbsentUnlessAt(url, ShortLinkMarker, 12);
    AbsentWithoutChar(id, ShortsMarker, 0);
    ShortsYieldsId("https://www.", id, tail, urlParses);
  }

  /** In such a link the only 'y' starts the shorts marker, which differs from
      the watch marker at its 13th character and from the short-link marker
      at its 6th. */
  lemma WwwShortsLetters(id: string, tail: string)
    requires 'y' !in id + tail
    ensures var url := "https://www." + ShortsMarker + id + tail;
      && |url| >= 31 && url[24] == 's' && url[17] == 'b'
      && forall j :: 0 <= j < |url| && j != 12 ==> url[j] != 'y'
  {
    var head := "https://www.";
    var url := head + ShortsMarker + id + tail;
    assert |head| == 12 && |ShortsMarker| == 19;
    assert 'y' !in head && 'y' !in ShortsMarker[1..];
    assert url[24] == ShortsMarker[12] && url[17] == ShortsMarker[5];
    forall j | 0 <= j < |url| && j != 12
      ensures url[j] != 'y'
    {
      if j < 12 {
        assert url[j] == head[j];
      } else if j < 31 {
        assert url[j] == ShortsMarker[j - 12] == ShortsMarker[1..][j - 13];
      } else {
        assert url[j] == (id + tail)[j - 31];
      }
    }
  }

  /** Priority of the watch branch: a watch url whose query starts with
      `v=<id>` and whose later parameters hold `youtu.be/` still yields
      `<id>`, with or without a fragment. */
  lemma WatchBeatsShortLink(base: string, id: string, tail: string, frag: string, urlParses: string -> bool)
    requires Contains(base, WatchMarker) && '?' !in base && '#' !in base
    requires id != "" && '&' !in id && '#' !in id
    requires tail != "" && tail[0] == '&' && '#' !in tail && Contains(tail, ShortLinkMarker)
    requires frag == "" || frag[0] == '#'
    requires urlParses(base + "?v=" + id + tail + frag)
    ensures Contains(base + "?v=" + id + tail + frag, ShortLinkMarker)
    ensures ExtractVideoId(base + "?v=" + id + tail + frag, urlParses) == Some(id)
  {
    var url := base + "?v=" + id + tail + frag;
    var at := IndexOf(tail, ShortLinkMarker).value;
    assert url == (base + "?v=" + id) + (tail + frag);
    OccursInPrefix(tail, frag, ShortLinkMarker, at);
    OccursInSuffix(base + "?v=" + id, tail + frag, ShortLinkMarker, at);
    WatchUrlYieldsV(base, id, tail, frag, urlParses);
  }

  /** Priority of the short-link branch: a short link with no 'y' before
      `youtu.be/` whose query also holds the shorts marker yields the
      identifier after `youtu.be/`. */
  lemma ShortLinkBeatsShorts(head: string, id: string, tail: string, urlParses: string -> bool)
    requires 'y' !in head
    requires '?' !in id && tail != "" && tail[0] == '?' && Contains(tail, ShortsMarker)
    requires !Contains(id, ShortLinkMarker)
    requires !Contains(head + ShortLinkMarker + id + tail, WatchMarker)
    ensures Contains(head + ShortLinkMarker + id + tail, ShortsMarker)
    ensures ExtractVideoId(head + ShortLinkMarker + id + tail, urlParses) == Truthy(Some(id))
  {
    var url := head + ShortLinkMarker + id + tail;
    assert url == (head + ShortLinkMarker + id) + tail;
    OccursInSuffix(head + ShortLinkMarker + id, tail, ShortsMarker, IndexOf(tail, ShortsMarker).value);
    ShortLinkYieldsId(head, id, tail, urlParses);
  }

  /** Resolving a list one track at a time. */
  lemma ExtractCons(t: RawTrack, rest: seq<RawTrack>, urlParses: string -> bool)
    ensures ExtractYoutubeIds([t] + rest, urlParses)
         == (match ResolveTrack(t, urlParses)
             case None => [] case Some(r) => [r]) + ExtractYoutubeIds(rest, urlParses)
  {
    assert ([t] + rest)[1..] == rest;
  }

  /** A url whose first character is not whitespace is not blank, so it
      resolves exactly when an identifier can be extracted from it. */
  lemma ResolveNonBlank(id: int, u: string, urlParses: string -> bool)
    requires u != "" && !IsWhitespace(u[0])
    ensures ResolveTrack(RawTrack(id, Some(u)), urlParses)
         == (match ExtractVideoId(u, urlParses)
             case None => None case Some(v) => Some(Track(id, CanonicalUrl(v), v)))
  {
    BlankIffAllWhitespace(u);
  }

  /** The example watch link is the canonical url of its identifier. */
  lemma WatchLinkSpelling()
    ensures CanonicalUrl("abc123") == "https://www.youtube.com/watch?v=abc123"
  {
  }

  /** Scenario: a single watch link resolves to its `v` parameter, with the
      canonical url. */
  lemma WatchLinkScenario(urlParses: string -> bool)
    requires urlParses("https://www.youtube.com/watch?v=abc123")
    ensures ExtractYoutubeIds([RawTrack(1, Some("https://www.youtube.com/watch?v=abc123"))], urlParses)
         == [Track(1, "https://www.youtube.com/watch?v=abc123", "abc123")]
  {
    var u := CanonicalUrl("abc123");
    WatchLinkSpelling();
    CanonicalUrlRoundTrip("abc123", urlParses);
    ResolveNonBlank(1, u, urlParses);
    ExtractCons(RawTrack(1, Some(u)), [], urlParses);
    assert [RawTrack(1, Some(u))] + [] == [RawTrack(1, Some(u))];
  }

  /** Example: the text "not a url" holds none of the markers, so it yields
      no track. */
  lemma NotALinkIsDropped(id: int, urlParses: string -> bool)
    ensures ResolveTrack(RawTrack(id, Some("not a url")), urlParses) == None
  {
    var u := "not a url";
    ResolveNonBlank(id, u, urlParses);
    AbsentWithoutChar(u, WatchMarker, 0);
    AbsentWithoutChar(u, ShortLinkMarker, 0);
    AbsentWithoutChar(u, ShortsMarker, 0);
  }

  /** A short link with a trailing query resolves to the identifier before
      the '?', under the canonical url. */
  lemma ShortLinkResolves(id: int, urlParses: string -> bool)
    ensures ResolveTrack(RawTrack(id, Some("https://youtu.be/xyz789?t=5")), urlParses)
         == Some(Track(id, "https://www.youtube.com/watch?v=xyz789", "xyz789"))
  {
    var u := "https://youtu.be/xyz789?t=5";
    ShortLinkSpelling();
    assert ShortLinkMarker[6] == 'b';
    AbsentWithoutChar("xyz789", ShortLinkMarker, 6);
    NoWatchMarker("https://", ShortLinkMarker, "xyz789", "?t=5");
    ShortLinkYieldsId("https://", "xyz789", "?t=5", urlParses);
    ResolveNonBlank(id, u, urlParses);
  }

  /** The example short link and the canonical url it resolves to, spelled out. */
  lemma ShortLinkSpelling()
    ensures "https://" + ShortLinkMarker + "xyz789" + "?t=5" == "https://youtu.be/xyz789?t=5"
    ensures CanonicalUrl("xyz789") == "https://www.youtube.com/watch?v=xyz789"
  {
  }

  /** Scenario: text that is not a link is dropped and a short link with a
      trailing query resolves to the identifier before the '?'. */
  lemma ShortLinkScenario(urlParses: string -> bool)
    ensures ExtractYoutubeIds([RawTrack(1, Some("not a url")), RawTrack(2, Some("https://youtu.be/xyz789?t=5"))], urlParses)
         == [Track(2, "https://www.youtube.com/watch?v=xyz789", "xyz789")]
  {
    var t1, t2 := RawTrack(1, Some("not a url")), RawTrack(2, Some("https://youtu.be/xyz789?t=5"));
    NotALinkIsDropped(1, urlParses);
    ShortLinkResolves(2, urlParses);
    ExtractCons(t1, [t2], urlParses);
    ExtractCons(t2, [], urlParses);
    assert [t2] + [] == [t2];
    assert [t1] + [t2] == [t1, t2];
  }
}
