/**
 The logic of the add/update/delete dialog: the search-driven track and
 artist selectors with their pagers, prefilling the fields from a selected
 row, and the validation that confirming performs before it calls the
 music service. A confirmation is modelled as the service call it would
 make, or the message it would raise instead.
 */
module EditDialog {
  import opened Base
  import opened Entities
  import opened Text
  import opened Duration
  import opened Paging

  // ---- Search-driven selectors ----

  /**
   The service's filtered page query (`GetTracksPageAsync`,
   `GetArtistsPageAsync`): the search filter, the rows to skip and the rows
   to take, to a page. Its implementation is not part of this model.
   */
  type SearchQuery<T> = (Option<string>, nat, nat) -> seq<T>

  /** A selector: its pager, the text in its search box, and the filter its pages are fetched with. */
  datatype Selector<T> = Selector(cursor: Cursor<T>, typing: string, filter: Option<string>)

  /** The page query under a fixed filter. */
  function Pages<T>(query: SearchQuery<T>, filter: Option<string>): Fetch<T>
  {
    (skip: nat, take: nat) => query(filter, skip, take)
  }

  /**
   The filter a search box yields: none for blank text, otherwise the text
   without its surrounding white space, which is then neither empty nor
   starts or ends with white space.
   */
  function NormalizeSearch(text: string): (r: Option<string>)
    ensures IsNullOrWhiteSpace(Some(text)) <==> r.None?
    ensures r.Some? ==> r.value != [] && !IsWhiteSpace(r.value[0]) && !IsWhiteSpace(r.value[|r.value| - 1])
    ensures r.Some? ==> exists i, j | 0 <= i <= j <= |text| ::
      r.value == text[i..j] && AllSatisfy(text[..i], IsWhiteSpace) && AllSatisfy(text[j..], IsWhiteSpace)
  {
    if IsNullOrWhiteSpace(Some(text)) then None else Some(Trim(text))
  }

  /** Searching again for the filter just applied applies the same filter. */
  lemma NormalizeSearchIdempotent(text: string)
    requires NormalizeSearch(text).Some?
    ensures NormalizeSearch(NormalizeSearch(text).value) == NormalizeSearch(text)
  {
    TrimWithUnchanged(Trim(text), IsWhiteSpace);
  }

  /**
   Start the selector over under its current filter and load the first page.
   While a load is still running the new load is skipped and the list stays
   empty.
   */
  function ResetAndLoadFirstPage<T>(sel: Selector<T>, query: SearchQuery<T>): (r: Selector<T>)
    ensures r.typing == sel.typing && r.filter == sel.filter
    ensures sel.cursor.isLoading ==> r.cursor == Reset(sel.cursor)
    ensures !sel.cursor.isLoading ==>
      && r.cursor.items == query(sel.filter, 0, PageSize)
      && r.cursor.loaded == |r.cursor.items|
      && (r.cursor.hasMore <==> |r.cursor.items| >= PageSize)
      && !r.cursor.isLoading
  {
    sel.(cursor := LoadNextPage(Reset(sel.cursor), Pages(query, sel.filter)))
  }

  /** Load the selector's next page (on scroll); the search box and the filter stay as they are. */
  function LoadNext<T>(sel: Selector<T>, query: SearchQuery<T>): (r: Selector<T>)
    ensures r.typing == sel.typing && r.filter == sel.filter
    ensures sel.cursor.isLoading || !sel.cursor.hasMore ==> r == sel
    ensures !sel.cursor.isLoading && sel.cursor.hasMore ==>
      r.cursor.items == sel.cursor.items + query(sel.filter, sel.cursor.loaded, PageSize)
  {
    sel.(cursor := LoadNextPage(sel.cursor, Pages(query, sel.filter)))
  }

  /** The search button: the filter becomes the normalised search text and the selector starts over. */
  function ApplySearch<T>(sel: Selector<T>, query: SearchQuery<T>): (r: Selector<T>)
    ensures r.typing == sel.typing
    ensures r.filter == NormalizeSearch(sel.typing)
    ensures !sel.cursor.isLoading ==> r.cursor.items == query(NormalizeSearch(sel.typing), 0, PageSize)
  {
    ResetAndLoadFirstPage(sel.(filter := NormalizeSearch(sel.typing)), query)
  }

  /** The clear button: the search box empties, the filter goes and the selector starts over. */
  function ClearSearch<T>(sel: Selector<T>, query: SearchQuery<T>): (r: Selector<T>)
    ensures r.typing == "" && r.filter == None
    ensures !sel.cursor.isLoading ==> r.cursor.items == query(None, 0, PageSize)
  {
    ResetAndLoadFirstPage(sel.(typing := "", filter := None), query)
  }

  /** `n` further loads of the selector. */
  function Scroll<T>(sel: Selector<T>, query: SearchQuery<T>, n: nat): Selector<T>
    decreases n
  {
    if n == 0 then sel else Scroll(LoadNext(sel, query), query, n - 1)
  }

  /** Scrolling a selector is driving its pager with the page query under its filter. */
  lemma {:induction false} ScrollDrives<T>(sel: Selector<T>, query: SearchQuery<T>, n: nat)
    ensures Scroll(sel, query, n).filter == sel.filter
    ensures Scroll(sel, query, n).cursor == Drive(sel.cursor, Pages(query, sel.filter), n)
    decreases n
  {
    if n > 0 {
      ScrollDrives(LoadNext(sel, query), query, n - 1);
    }
  }

  /**
   When the rows matching a search are fixed, applying the search and
   scrolling far enough lists exactly those rows, in order, each once; at
   every point before that the list is a prefix of them.
   */
  lemma SearchListsAllMatches<T>(sel: Selector<T>, query: SearchQuery<T>, matches: seq<T>, n: nat)
    requires !sel.cursor.isLoading
    requires SlicesOf(Pages(query, NormalizeSearch(sel.typing)), matches)
    ensures Scroll(ApplySearch(sel, query), query, n).cursor.items <= matches
    ensures n >= |matches| / PageSize + 1 ==> Scroll(ApplySearch(sel, query), query, n).cursor.items == matches
  {
    var applied := ApplySearch(sel, query);
    var fetch := Pages(query, NormalizeSearch(sel.typing));
    LoadKeepsFollows(Reset(sel.cursor), fetch, matches);
    ScrollDrives(applied, query, n);
    DriveKeepsFollows(applied.cursor, fetch, matches, n);
    if n >= |matches| / PageSize + 1 {
      assert PagesLeft(applied.cursor.loaded, |matches|) <= |matches| / PageSize + 1;
      DriveCompletes(applied.cursor, fetch, matches, n);
    }
  }

  // ---- Confirming the dialog ----

  /** The selector's current item: nothing, or a row of one of the four kinds. */
  datatype Selection =
    | NoSelection
    | PlaylistItem(playlist: Playlist)
    | ArtistItem(artist: Artist)
    | AlbumItem(album: Album)
    | TrackItem(track: Track)

  /** The fields of the dialog that confirming reads. */
  datatype Dialog = Dialog(
    mode: CrudMode,
    entity: EntityType,
    name: string,
    lengthText: string,
    selected: Selection,
    artistForAlbum: Option<Artist>,
    album: Option<Album>,
    defaultMediaTypeId: Option<int>)

  /** The music service call a confirmation makes, with its arguments. */
  datatype ServiceCall =
    | CreatePlaylistCall(name: string)
    | UpdatePlaylistNameCall(targetId: int, name: string)
    | CreateArtistCall(name: string)
    | UpdateArtistCall(targetId: int, name: string)
    | CreateAlbumCall(name: string, artistId: int)
    | UpdateAlbumCall(targetId: int, name: string, artistId: int)
    | CreateTrackCall(name: string, milliseconds: Int32, mediaTypeId: int, albumId: Option<int>,
                      genreId: Option<int>, composer: Option<string>)
    | UpdateTrackCall(targetId: int, name: string, milliseconds: Int32, mediaTypeId: int, albumId: Option<int>,
                      genreId: Option<int>, composer: Option<string>)
  {
    predicate IsCreate()
    {
      CreatePlaylistCall? || CreateArtistCall? || CreateAlbumCall? || CreateTrackCall?
    }

    /** The kind of row the call writes. */
    function Entity(): EntityType
    {
      match this
      case CreatePlaylistCall(_) | UpdatePlaylistNameCall(_, _) => PlaylistEntity
      case CreateArtistCall(_) | UpdateArtistCall(_, _) => ArtistEntity
      case CreateAlbumCall(_, _) | UpdateAlbumCall(_, _, _) => AlbumEntity
      case _ => TrackEntity
    }
  }

  /** What a confirmation raises instead of calling the service. */
  datatype ConfirmError =
    | NameRequired(entity: EntityType)
    | SelectionRequired(entity: EntityType)
    | BadLength
    | NoMediaType

  /** Is the selected item a row of the dialog's kind? */
  predicate SelectionFits(entity: EntityType, item: Selection)
  {
    match entity
    case PlaylistEntity => item.PlaylistItem?
    case ArtistEntity => item.ArtistItem?
    case AlbumEntity => item.AlbumItem?
    case TrackEntity => item.TrackItem?
  }

  /** The id of the selected row. */
  function SelectedId(item: Selection): int
    requires !item.NoSelection?
  {
    match item
    case PlaylistItem(p) => p.id
    case ArtistItem(a) => a.id
    case AlbumItem(al) => al.id
    case TrackItem(t) => t.id
  }

  function AddOrUpdatePlaylist(d: Dialog): (r: Result<ServiceCall, ConfirmError>)
    ensures IsNullOrWhiteSpace(Some(d.name)) ==> r == Err(NameRequired(PlaylistEntity))
    ensures r.Ok? <==> !IsNullOrWhiteSpace(Some(d.name)) && (d.mode == Add || d.selected.PlaylistItem?)
    ensures r.Ok? ==> r.value.Entity() == PlaylistEntity && (r.value.IsCreate() <==> d.mode == Add)
    ensures r.Ok? ==> r.value.name == Trim(d.name) && !IsNullOrWhiteSpace(Some(d.name))
  {
    if IsNullOrWhiteSpace(Some(d.name)) then Err(NameRequired(PlaylistEntity))
    else if d.mode == Add then Ok(CreatePlaylistCall(Trim(d.name)))
    else
      match d.selected
      case PlaylistItem(p) => Ok(UpdatePlaylistNameCall(p.id, Trim(d.name)))
      case _ => Err(SelectionRequired(PlaylistEntity))
  }

  function AddOrUpdateArtist(d: Dialog): (r: Result<ServiceCall, ConfirmError>)
    ensures IsNullOrWhiteSpace(Some(d.name)) ==> r == Err(NameRequired(ArtistEntity))
    ensures r.Ok? <==> !IsNullOrWhiteSpace(Some(d.name)) && (d.mode == Add || d.selected.ArtistItem?)
    ensures r.Ok? ==> r.value.Entity() == ArtistEntity && (r.value.IsCreate() <==> d.mode == Add)
    ensures r.Ok? ==> r.value.name == Trim(d.name) && !IsNullOrWhiteSpace(Some(d.name))
  {
    if IsNullOrWhiteSpace(Some(d.name)) then Err(NameRequired(ArtistEntity))
    else if d.mode == Add then Ok(CreateArtistCall(Trim(d.name)))
    else
      match d.selected
      case ArtistItem(a) => Ok(UpdateArtistCall(a.id, Trim(d.name)))
      case _ => Err(SelectionRequired(ArtistEntity))
  }

  function AddOrUpdateAlbum(d: Dialog): (r: Result<ServiceCall, ConfirmError>)
    ensures IsNullOrWhiteSpace(Some(d.name)) ==> r == Err(NameRequired(AlbumEntity))
    ensures r.Ok? <==>
      (!IsNullOrWhiteSpace(Some(d.name)) && if d.mode == Add then d.artistForAlbum.Some? else d.selected.AlbumItem?)
    ensures r.Ok? ==> r.value.Entity() == AlbumEntity && (r.value.IsCreate() <==> d.mode == Add)
    ensures r.Ok? ==> r.value.name == Trim(d.name) && !IsNullOrWhiteSpace(Some(d.name))
  {
    if IsNullOrWhiteSpace(Some(d.name)) then Err(NameRequired(AlbumEntity))
    else if d.mode == Add then
      match d.artistForAlbum
      case None => Err(SelectionRequired(ArtistEntity))
      case Some(artist) => Ok(CreateAlbumCall(Trim(d.name), artist.id))
    else
      match d.selected
      case AlbumItem(al) => Ok(UpdateAlbumCall(al.id, Trim(d.name), al.artistId))
      case _ => Err(SelectionRequired(AlbumEntity))
  }

  /**
   `fetchedMediaTypeId` is the first media type the service lists when the
   dialog has no default one; the query itself is not part of this model.
   */
  function AddOrUpdateTrack(d: Dialog, fetchedMediaTypeId: Option<int>): (r: Result<ServiceCall, ConfirmError>)
    ensures IsNullOrWhiteSpace(Some(d.name)) ==> r == Err(NameRequired(TrackEntity))
    ensures r.Ok? ==> r.value.Entity() == TrackEntity && (r.value.IsCreate() <==> d.mode == Add)
    ensures r.Ok? ==> r.value.name == Trim(d.name) && !IsNullOrWhiteSpace(Some(d.name))
    ensures r.Ok? ==> TryParseMmSsToMs(Some(d.lengthText)) == Parsed(true, r.value.milliseconds)
    ensures r.Ok? <==>
      (!IsNullOrWhiteSpace(Some(d.name)) && TryParseMmSsToMs(Some(d.lengthText)).ok && TrackCallable(d, fetchedMediaTypeId))
  {
    if IsNullOrWhiteSpace(Some(d.name)) then Err(NameRequired(TrackEntity))
    else
      var length := TryParseMmSsToMs(Some(d.lengthText));
      if !length.ok then Err(BadLength)
      else TrackCall(d, length.milliseconds, fetchedMediaTypeId)
  }

  /** A track is added with a media type known, and updated with a track selected. */
  predicate TrackCallable(d: Dialog, fetchedMediaTypeId: Option<int>)
  {
    if d.mode == Add then d.defaultMediaTypeId.Some? || fetchedMediaTypeId.Some? else d.selected.TrackItem?
  }

  /** The track call once the name is present and the length has parsed to `milliseconds`. */
  function TrackCall(d: Dialog, milliseconds: Int32, fetchedMediaTypeId: Option<int>): (r: Result<ServiceCall, ConfirmError>)
    ensures r.Ok? ==> r.value.Entity() == TrackEntity && (r.value.IsCreate() <==> d.mode == Add)
    ensures r.Ok? ==> r.value.milliseconds == milliseconds && r.value.name == Trim(d.name)
    ensures r.Ok? <==> TrackCallable(d, fetchedMediaTypeId)
  {
    if d.mode == Add then
      var mediaType := if d.defaultMediaTypeId.Some? then d.defaultMediaTypeId else fetchedMediaTypeId;
      match mediaType
      case None => Err(NoMediaType)
      case Some(mediaTypeId) =>
        var albumId := if d.album.Some? then Some(d.album.value.id) else None;
        Ok(CreateTrackCall(Trim(d.name), milliseconds, mediaTypeId, albumId, None, None))
    else
      match d.selected
      case TrackItem(t) =>
        Ok(UpdateTrackCall(t.id, Trim(d.name), milliseconds, t.mediaTypeId, t.albumId, t.genreId, t.composer))
      case _ => Err(SelectionRequired(TrackEntity))
  }

  /**
   The dialogs the service call is made for: a non-blank name, and a row of
   the dialog's kind selected unless adding. Adding an album needs a chosen
   artist; a track needs a length the parser accepts and, when added, a media
   type.
   */
  predicate Confirmable(d: Dialog, fetchedMediaTypeId: Option<int>)
  {
    && !IsNullOrWhiteSpace(Some(d.name))
    && match d.entity
       case PlaylistEntity => d.mode == Add || SelectionFits(d.entity, d.selected)
       case ArtistEntity => d.mode == Add || SelectionFits(d.entity, d.selected)
       case AlbumEntity =>
         if d.mode == Add then d.artistForAlbum.Some? else SelectionFits(d.entity, d.selected)
       case TrackEntity =>
         && TryParseMmSsToMs(Some(d.lengthText)).ok
         && TrackCallable(d, fetchedMediaTypeId)
  }

  /**
   Confirming the dialog. A blank name is refused before anything else;
   otherwise the call writes a row of the dialog's kind, and adding creates
   while every other mode, deletion included, updates.
   */
  function Confirm(d: Dialog, fetchedMediaTypeId: Option<int>): (r: Result<ServiceCall, ConfirmError>)
    ensures IsNullOrWhiteSpace(Some(d.name)) ==> r == Err(NameRequired(d.entity))
    ensures r.Ok? ==> r.value.Entity() == d.entity
    ensures r.Ok? ==> (r.value.IsCreate() <==> d.mode == Add)
    ensures r.Ok? <==> Confirmable(d, fetchedMediaTypeId)
  {
    match d.entity
    case PlaylistEntity => AddOrUpdatePlaylist(d)
    case ArtistEntity => AddOrUpdateArtist(d)
    case AlbumEntity => AddOrUpdateAlbum(d)
    case TrackEntity => AddOrUpdateTrack(d, fetchedMediaTypeId)
  }

  /** The name handed to the service is the dialog's name with its surrounding white space removed, never empty. */
  lemma ConfirmTrimsName(d: Dialog, fetchedMediaTypeId: Option<int>)
    ensures Confirm(d, fetchedMediaTypeId).Ok? ==> TrimmedFrom(Confirm(d, fetchedMediaTypeId).value.name, d.name)
  {
    var r := Confirm(d, fetchedMediaTypeId);
    if r.Ok? {
      assert r.value.name == Trim(d.name) && !IsNullOrWhiteSpace(Some(d.name));
      TrimNonBlank(d.name);
    }
  }

  /**
   Outside add mode the call targets the selected row, which must be of the
   dialog's kind; with any other selection a non-blank confirmation is
   refused (for a track, after its length has been checked).
   */
  lemma ConfirmNeedsSelection(d: Dialog, fetchedMediaTypeId: Option<int>)
    requires d.mode != Add
    ensures Confirm(d, fetchedMediaTypeId).Ok? ==>
      SelectionFits(d.entity, d.selected) && Confirm(d, fetchedMediaTypeId).value.targetId == SelectedId(d.selected)
    ensures !IsNullOrWhiteSpace(Some(d.name)) && !SelectionFits(d.entity, d.selected) ==>
      Confirm(d, fetchedMediaTypeId).Err? &&
      (d.entity != TrackEntity ==> Confirm(d, fetchedMediaTypeId) == Err(SelectionRequired(d.entity)))
  {
  }

  /** An album is added only for a chosen artist. */
  lemma ConfirmAlbumNeedsArtist(d: Dialog, fetchedMediaTypeId: Option<int>)
    requires d.entity == AlbumEntity && d.mode == Add
    ensures !IsNullOrWhiteSpace(Some(d.name)) && d.artistForAlbum.None? ==>
      Confirm(d, fetchedMediaTypeId) == Err(SelectionRequired(ArtistEntity))
    ensures Confirm(d, fetchedMediaTypeId).Ok? ==>
      d.artistForAlbum.Some? && Confirm(d, fetchedMediaTypeId).value.artistId == d.artistForAlbum.value.id
  {
  }

  /** A track is written only with a length the parser accepts, and with exactly that length. */
  lemma ConfirmTrackLength(d: Dialog, fetchedMediaTypeId: Option<int>)
    requires d.entity == TrackEntity
    ensures !IsNullOrWhiteSpace(Some(d.name)) && !TryParseMmSsToMs(Some(d.lengthText)).ok ==>
      Confirm(d, fetchedMediaTypeId) == Err(BadLength)
    ensures Confirm(d, fetchedMediaTypeId).Ok? ==>
      TryParseMmSsToMs(Some(d.lengthText)) == Parsed(true, Confirm(d, fetchedMediaTypeId).value.milliseconds)
  {
    assert Confirm(d, fetchedMediaTypeId) == AddOrUpdateTrack(d, fetchedMediaTypeId);
  }

  /**
   A new track takes the dialog's default media type, else the first one the
   service lists, and is refused without either.
   */
  lemma ConfirmTrackMediaType(d: Dialog, fetchedMediaTypeId: Option<int>)
    requires d.entity == TrackEntity && d.mode == Add
    requires !IsNullOrWhiteSpace(Some(d.name)) && TryParseMmSsToMs(Some(d.lengthText)).ok
    ensures Confirm(d, fetchedMediaTypeId).Ok? ==>
      && Confirm(d, fetchedMediaTypeId).value.CreateTrackCall?
      && (d.defaultMediaTypeId.Some? ==> Confirm(d, fetchedMediaTypeId).value.mediaTypeId == d.defaultMediaTypeId.value)
      && (d.defaultMediaTypeId.None? ==>
            fetchedMediaTypeId == Some(Confirm(d, fetchedMediaTypeId).value.mediaTypeId))
    ensures d.defaultMediaTypeId.None? && fetchedMediaTypeId.None? ==> Confirm(d, fetchedMediaTypeId) == Err(NoMediaType)
  {
    var length := TryParseMmSsToMs(Some(d.lengthText));
    assert Confirm(d, fetchedMediaTypeId) == TrackCall(d, length.milliseconds, fetchedMediaTypeId);
    AddedTrackMediaType(d, length.milliseconds, fetchedMediaTypeId);
  }

  /** The media type of a new track's call: the dialog's default, else the fetched one, else a refusal. */
  lemma AddedTrackMediaType(d: Dialog, milliseconds: Int32, fetchedMediaTypeId: Option<int>)
    requires d.mode == Add
    ensures TrackCall(d, milliseconds, fetchedMediaTypeId).Ok? ==>
      && TrackCall(d, milliseconds, fetchedMediaTypeId).value.CreateTrackCall?
      && (d.defaultMediaTypeId.Some? ==>
            TrackCall(d, milliseconds, fetchedMediaTypeId).value.mediaTypeId == d.defaultMediaTypeId.value)
      && (d.defaultMediaTypeId.None? ==>
            fetchedMediaTypeId == Some(TrackCall(d, milliseconds, fetchedMediaTypeId).value.mediaTypeId))
    ensures d.defaultMediaTypeId.None? && fetchedMediaTypeId.None? ==>
      TrackCall(d, milliseconds, fetchedMediaTypeId) == Err(NoMediaType)
  {
  }

  /**
   Choosing a row in the selector fills the name field from it (and, for a
   track, the length field with its printed length); picking a playlist
   fills nothing.
   */
  function PrefillFromSelected(d: Dialog, item: Selection): (r: Dialog)
    ensures r.selected == item
    ensures r.mode == d.mode && r.entity == d.entity && r.artistForAlbum == d.artistForAlbum
    ensures r.album == d.album && r.defaultMediaTypeId == d.defaultMediaTypeId
    ensures d.entity == TrackEntity && item.TrackItem? ==>
      r.name == item.track.name && r.lengthText == FormatMsToMmSs(item.track.milliseconds)
    ensures d.entity == ArtistEntity && item.ArtistItem? ==>
      r.name == (if item.artist.name.Some? then item.artist.name.value else "")
    ensures d.entity == AlbumEntity && item.AlbumItem? ==> r.name == item.album.title
    ensures !(d.entity == TrackEntity && item.TrackItem?) ==> r.lengthText == d.lengthText
    ensures !SelectionFits(d.entity, item) || d.entity == PlaylistEntity ==> r.name == d.name
  {
    var d := d.(selected := item);
    match item
    case ArtistItem(a) =>
      if d.entity == ArtistEntity then d.(name := if a.name.Some? then a.name.value else "") else d
    case AlbumItem(al) =>
      if d.entity == AlbumEntity then d.(name := al.title) else d
    case TrackItem(t) =>
      if d.entity == TrackEntity then d.(name := t.name, lengthText := FormatMsToMmSs(t.milliseconds)) else d
    case _ => d
  }

  /**
   Updating a track after choosing it, with its name and length left as
   prefilled, writes the length back rounded down to a whole second.
   */
  lemma ResaveTrackRoundsLength(d: Dialog, t: Track, fetchedMediaTypeId: Option<int>)
    requires d.entity == TrackEntity && d.mode != Add
    requires !IsNullOrWhiteSpace(Some(t.name)) && t.milliseconds >= 0
    ensures Confirm(PrefillFromSelected(d, TrackItem(t)), fetchedMediaTypeId)
         == Ok(UpdateTrackCall(t.id, Trim(t.name), FloorToSecond(t.milliseconds),
                               t.mediaTypeId, t.albumId, t.genreId, t.composer))
  {
    var filled := PrefillFromSelected(d, TrackItem(t));
    var whole := FloorToSecond(t.milliseconds);
    assert TryParseMmSsToMs(Some(filled.lengthText)) == Parsed(true, whole) by {
      FormatThenParse(t.milliseconds);
    }
    assert filled.name == t.name && filled.mode != Add && filled.selected == TrackItem(t);
    ConfirmParsedTrack(filled, fetchedMediaTypeId);
    assert Confirm(filled, fetchedMediaTypeId) == TrackCall(filled, whole, fetchedMediaTypeId);
    UpdateTrackCallOf(filled, t, whole, fetchedMediaTypeId);
  }

  /** Outside add mode the track call updates the selected track, keeping its other columns. */
  lemma UpdateTrackCallOf(d: Dialog, t: Track, milliseconds: Int32, fetchedMediaTypeId: Option<int>)
    requires d.mode != Add && d.selected == TrackItem(t)
    ensures TrackCall(d, milliseconds, fetchedMediaTypeId)
         == Ok(UpdateTrackCall(t.id, Trim(d.name), milliseconds, t.mediaTypeId, t.albumId, t.genreId, t.composer))
  {
  }

  /** Once the name is present and the length parses, confirming a track makes the track call for that length. */
  lemma ConfirmParsedTrack(d: Dialog, fetchedMediaTypeId: Option<int>)
    requires d.entity == TrackEntity
    requires !IsNullOrWhiteSpace(Some(d.name)) && TryParseMmSsToMs(Some(d.lengthText)).ok
    ensures Confirm(d, fetchedMediaTypeId) == TrackCall(d, TryParseMmSsToMs(Some(d.lengthText)).milliseconds, fetchedMediaTypeId)
  {
  }

  /** A track stored with a negative length prefills an empty length field, which cannot be confirmed. */
  lemma NegativeLengthCannotBeResaved(d: Dialog, t: Track, fetchedMediaTypeId: Option<int>)
    requires d.entity == TrackEntity && d.mode != Add
    requires !IsNullOrWhiteSpace(Some(t.name)) && t.milliseconds < 0
    ensures Confirm(PrefillFromSelected(d, TrackItem(t)), fetchedMediaTypeId) == Err(BadLength)
  {
    assert IsNullOrWhiteSpace(Some(FormatMsToMmSs(t.milliseconds)));
  }
}
