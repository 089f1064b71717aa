/**
 The data-access rules of the music service: each service call is a pure
 function from a database state to a new state or to a query result. Every
 call runs as one atomic step against the store.
 */
module MusicService {
  import opened Base
  import opened Entities
  import Ids

  /** What a service call can throw. */
  datatype ServiceError =
    | ArtistHasAlbums   // deleting an artist that still owns albums
    | EmptyTable        // `MaxAsync` over a table with no rows
    | DuplicateKey      // the database refusing an insert under a key in use
    | ForeignKeyViolation // the database refusing a row that points at a missing one

  /**
   The primary key a create call assigns: the largest key in use plus one, in
   unchecked 32-bit arithmetic. Below `int.MaxValue` that is a fresh key above
   every other; at `int.MaxValue` the sum wraps to `int.MinValue`.
   */
  function NextId(ids: set<int>): (r: Result<int, ServiceError>)
    requires Int32Keys(ids)
    ensures ids == {} <==> r.Err?
    ensures r.Err? ==> r.error == EmptyTable
    ensures r.Ok? ==> IntMin <= r.value <= IntMax
    ensures r.Ok? && IntMax !in ids ==> r.value !in ids && r.value - 1 in ids
    ensures r.Ok? && IntMax !in ids ==> forall id | id in ids :: id < r.value
    ensures IntMax in ids ==> r == Ok(IntMin)
  {
    if ids == {} then Err(EmptyTable)
    else
      var top := Ids.MaxId(ids);
      if top == IntMax then Ok(IntMin) else Ok(top + 1)
  }

  // ---- Artists ----

  /**
   Inserts an artist under the next key; the name is stored exactly as given.
   An empty table fails, and so does a wrapped key that is already in use.
   */
  function CreateArtist(s: Store, name: string): (r: Result<(Store, Artist), ServiceError>)
    ensures s.artists == map[] ==> r == Err(EmptyTable)
    ensures IntMax in s.artists && IntMin in s.artists ==> r == Err(DuplicateKey)
    ensures r.Err? ==> s.artists == map[] || (IntMax in s.artists && IntMin in s.artists)
    ensures r.Ok? ==>
      && r.value.1.name == Some(name)
      && r.value.1.id !in s.artists
      && r.value.0.artists == s.artists[r.value.1.id := r.value.1]
      && |r.value.0.artists| == |s.artists| + 1
      && r.value.0 == s.(artists := r.value.0.artists)
    ensures r.Ok? && IntMax !in s.artists ==>
      r.value.1.id - 1 in s.artists && forall id | id in s.artists :: id < r.value.1.id
    ensures r.Ok? && IntMax in s.artists ==> r.value.1.id == IntMin
  {
    match NextId(s.artists.Keys)
    case Err(e) => Err(e)
    case Ok(id) =>
      if id in s.artists then Err(DuplicateKey)
      else
        var a := Artist(id, Some(name));
        Ok((s.(artists := s.artists[id := a]), a))
  }

  /** Renames an artist; a missing id is silently ignored. */
  function UpdateArtist(s: Store, artistId: int, newName: string): (r: Store)
    ensures artistId !in s.artists ==> r == s
    ensures artistId in s.artists ==>
      && r.artists.Keys == s.artists.Keys
      && r.artists[artistId] == Artist(artistId, Some(newName))
      && (forall id | id in s.artists && id != artistId :: r.artists[id] == s.artists[id])
      && r == s.(artists := r.artists)
  {
    if artistId !in s.artists then s
    else s.(artists := s.artists[artistId := s.artists[artistId].(name := Some(newName))])
  }

  /** Does some album name this artist as its owner? */
  predicate OwnsAlbum(s: Store, artistId: int)
  {
    exists albumId | albumId in s.albums :: s.albums[albumId].artistId == artistId
  }

  /**
   Deletes an artist: a missing id is a no-op, an artist that owns an album is
   refused, any other artist is removed and nothing else changes.
   */
  function DeleteArtist(s: Store, artistId: int): (r: Result<Store, ServiceError>)
    ensures artistId !in s.artists ==> r == Ok(s)
    ensures artistId in s.artists && OwnsAlbum(s, artistId) ==> r == Err(ArtistHasAlbums)
    ensures artistId in s.artists && !OwnsAlbum(s, artistId) ==>
      && r.Ok?
      && r.value.artists.Keys == s.artists.Keys - {artistId}
      && (forall id | id in r.value.artists :: r.value.artists[id] == s.artists[id])
      && r.value == s.(artists := r.value.artists)
  {
    if artistId !in s.artists then Ok(s)
    else if OwnsAlbum(s, artistId) then Err(ArtistHasAlbums)
    else Ok(s.(artists := s.artists - {artistId}))
  }

  // ---- Playlists ----

  /**
   Every playlist row. The query orders them by name under the database's
   collation, which is not modelled; the result is the set of rows.
   */
  function GetPlaylists(s: Store): (r: set<Playlist>)
    ensures forall p :: p in r <==> p.id in s.playlists && s.playlists[p.id] == p
  {
    set id | id in s.playlists :: s.playlists[id]
  }

  /**
   Inserts a playlist under the next key; the name is stored exactly as given.
   An empty table fails, and so does a wrapped key that is already in use.
   */
  function CreatePlaylist(s: Store, name: string): (r: Result<(Store, Playlist), ServiceError>)
    ensures s.playlists == map[] ==> r == Err(EmptyTable)
    ensures IntMax in s.playlists && IntMin in s.playlists ==> r == Err(DuplicateKey)
    ensures r.Err? ==> s.playlists == map[] || (IntMax in s.playlists && IntMin in s.playlists)
    ensures r.Ok? ==>
      && r.value.1.name == Some(name)
      && r.value.1.id !in s.playlists
      && r.value.0.playlists == s.playlists[r.value.1.id := r.value.1]
      && |r.value.0.playlists| == |s.playlists| + 1
      && r.value.0 == s.(playlists := r.value.0.playlists)
    ensures r.Ok? && IntMax !in s.playlists ==>
      r.value.1.id - 1 in s.playlists && forall id | id in s.playlists :: id < r.value.1.id
    ensures r.Ok? && IntMax in s.playlists ==> r.value.1.id == IntMin
  {
    match NextId(s.playlists.Keys)
    case Err(e) => Err(e)
    case Ok(id) =>
      if id in s.playlists then Err(DuplicateKey)
      else
        var p := Playlist(id, Some(name));
        Ok((s.(playlists := s.playlists[id := p]), p))
  }

  /** Renames a playlist; a missing id is silently ignored. */
  function UpdatePlaylistName(s: Store, playlistId: int, newName: string): (r: Store)
    ensures playlistId !in s.playlists ==> r == s
    ensures playlistId in s.playlists ==>
      && r.playlists.Keys == s.playlists.Keys
      && r.playlists[playlistId] == Playlist(playlistId, Some(newName))
      && (forall id | id in s.playlists && id != playlistId :: r.playlists[id] == s.playlists[id])
      && r == s.(playlists := r.playlists)
  {
    if playlistId !in s.playlists then s
    else s.(playlists := s.playlists[playlistId := s.playlists[playlistId].(name := Some(newName))])
  }

  /**
   Deletes every association row of the playlist, then the playlist row if it
   exists. The association rows go even when the playlist row is missing.
   */
  function DeletePlaylist(s: Store, playlistId: int): (r: Store)
    ensures forall pt | pt in r.playlistTracks :: pt.playlistId != playlistId
    ensures forall pt: PlaylistTrack | pt.playlistId != playlistId :: pt in r.playlistTracks <==> pt in s.playlistTracks
    ensures r.playlists.Keys == s.playlists.Keys - {playlistId}
    ensures forall id | id in r.playlists :: r.playlists[id] == s.playlists[id]
    ensures r == s.(playlists := r.playlists, playlistTracks := r.playlistTracks)
  {
    var unlinked := s.(playlistTracks := set pt | pt in s.playlistTracks && pt.playlistId != playlistId);
    if playlistId in unlinked.playlists then unlinked.(playlists := unlinked.playlists - {playlistId})
    else unlinked
  }

  // ---- Playlist membership ----

  /**
   Adds the pair unless it is already there. The insert is raw SQL, so it is
   the association table's foreign keys that refuse a pair whose playlist or
   track row is missing.
   */
  function AddTrackToPlaylist(s: Store, playlistId: int, trackId: int): (r: Result<Store, ServiceError>)
    ensures PlaylistTrack(playlistId, trackId) in s.playlistTracks ==> r == Ok(s)
    ensures r.Err? <==>
      PlaylistTrack(playlistId, trackId) !in s.playlistTracks && (playlistId !in s.playlists || trackId !in s.tracks)
    ensures r.Err? ==> r.error == ForeignKeyViolation
    ensures r.Ok? ==> PlaylistTrack(playlistId, trackId) in r.value.playlistTracks
    ensures r.Ok? ==>
      forall pt | pt != PlaylistTrack(playlistId, trackId) :: pt in r.value.playlistTracks <==> pt in s.playlistTracks
    ensures r.Ok? ==> r.value == s.(playlistTracks := r.value.playlistTracks)
  {
    var pair := PlaylistTrack(playlistId, trackId);
    if pair in s.playlistTracks then Ok(s)
    else if playlistId !in s.playlists || trackId !in s.tracks then Err(ForeignKeyViolation)
    else Ok(s.(playlistTracks := s.playlistTracks + {pair}))
  }

  /** Deletes the pair if present; every other pair stays. */
  function RemoveTrackFromPlaylist(s: Store, playlistId: int, trackId: int): (r: Store)
    ensures PlaylistTrack(playlistId, trackId) !in r.playlistTracks
    ensures PlaylistTrack(playlistId, trackId) !in s.playlistTracks ==> r == s
    ensures forall pt | pt != PlaylistTrack(playlistId, trackId) :: pt in r.playlistTracks <==> pt in s.playlistTracks
    ensures r == s.(playlistTracks := r.playlistTracks)
  {
    s.(playlistTracks := s.playlistTracks - {PlaylistTrack(playlistId, trackId)})
  }

  /** Ids of the existing tracks associated with the playlist (the join with the track table). */
  function PlaylistTrackIds(s: Store, playlistId: int): (ids: set<int>)
    ensures forall id :: id in ids <==> id in s.tracks && PlaylistTrack(playlistId, id) in s.playlistTracks
  {
    set pt | pt in s.playlistTracks && pt.playlistId == playlistId && pt.trackId in s.tracks :: pt.trackId
  }

  /** Is this track row one of the playlist's tracks? */
  ghost predicate InPlaylist(s: Store, playlistId: int, t: Track)
  {
    t.id in s.tracks && s.tracks[t.id] == t && PlaylistTrack(playlistId, t.id) in s.playlistTracks
  }

  /** The tracks of a playlist, with no order promised. */
  function GetTracksForPlaylist(s: Store, playlistId: int): (r: set<Track>)
    ensures forall t :: t in r <==> InPlaylist(s, playlistId, t)
  {
    set id | id in PlaylistTrackIds(s, playlistId) :: s.tracks[id]
  }

  /** Track ids strictly increase along the sequence. */
  predicate IdsAscending(ts: seq<Track>)
  {
    forall i, j | 0 <= i < j < |ts| :: ts[i].id < ts[j].id
  }

  /** The tracks of a playlist in ascending track-id order: the listing the paged query cuts pages from. */
  function PlaylistOrder(s: Store, playlistId: int): (r: seq<Track>)
    ensures IdsAscending(r)
    ensures forall t :: t in r <==> InPlaylist(s, playlistId, t)
    ensures |r| == |PlaylistTrackIds(s, playlistId)|
  {
    var ids := Ids.SortedIds(PlaylistTrackIds(s, playlistId));
    assert forall i | 0 <= i < |ids| :: ids[i] in PlaylistTrackIds(s, playlistId);
    var r := seq(|ids|, i requires 0 <= i < |ids| => s.tracks[ids[i]]);
    RowsOfIds(s, playlistId, ids, r);
    r
  }

  /** Looking up ascending playlist track ids gives the playlist's rows in ascending id order. */
  lemma RowsOfIds(s: Store, playlistId: int, ids: seq<int>, r: seq<Track>)
    requires Ids.Ascending(ids)
    requires forall x :: x in ids <==> x in PlaylistTrackIds(s, playlistId)
    requires |r| == |ids|
    requires forall i | 0 <= i < |ids| :: ids[i] in s.tracks && r[i] == s.tracks[ids[i]]
    ensures IdsAscending(r)
    ensures forall t :: t in r <==> InPlaylist(s, playlistId, t)
  {
    assert forall i | 0 <= i < |r| :: r[i].id == ids[i];
    forall t
      ensures t in r <==> InPlaylist(s, playlistId, t)
    {
      if t in r {
        var k :| 0 <= k < |r| && r[k] == t;
        assert ids[k] in ids;
      }
      if InPlaylist(s, playlistId, t) {
        assert t.id in PlaylistTrackIds(s, playlistId);
        var k :| 0 <= k < |ids| && ids[k] == t.id;
        assert r[k] == t;
      }
    }
  }

  /**
   One page of a playlist's tracks: the slice `[skip, skip + take)` of the
   playlist's tracks ordered by ascending track id.
   */
  function GetTracksForPlaylistPaged(s: Store, playlistId: int, skip: nat, take: nat): (r: seq<Track>)
    ensures |r| <= take
    ensures skip < |PlaylistOrder(s, playlistId)| ==> |r| == Min(take, |PlaylistOrder(s, playlistId)| - skip)
    ensures skip >= |PlaylistOrder(s, playlistId)| ==> r == []
    ensures forall i | 0 <= i < |r| :: r[i] == PlaylistOrder(s, playlistId)[skip + i]
    ensures forall t | t in r :: InPlaylist(s, playlistId, t)
    ensures IdsAscending(r)
  {
    var order := PlaylistOrder(s, playlistId);
    var r := Slice(order, skip, take);
    SliceOfOrder(order, skip, take);
    r
  }

  /** A slice of rows in ascending id order holds rows of the whole, still in ascending id order. */
  lemma SliceOfOrder(order: seq<Track>, skip: nat, take: nat)
    requires IdsAscending(order)
    ensures forall t | t in Slice(order, skip, take) :: t in order
    ensures IdsAscending(Slice(order, skip, take))
  {
    var r := Slice(order, skip, take);
    assert forall i | 0 <= i < |r| :: r[i] == order[skip + i];
  }

  // ---- Referential integrity ----

  /**
   The foreign keys of the schema: an album names an existing artist, a track
   an existing album when it names one, and an association an existing
   playlist and an existing track.
   */
  predicate Linked(s: Store)
  {
    && (forall id | id in s.albums :: s.albums[id].artistId in s.artists)
    && (forall id | id in s.tracks && s.tracks[id].albumId.Some? :: s.tracks[id].albumId.value in s.albums)
    && (forall pt | pt in s.playlistTracks :: pt.playlistId in s.playlists && pt.trackId in s.tracks)
  }

  /**
   A store that keeps the albums and tracks, keeps every artist and playlist
   key, and gains no association stays linked.
   */
  lemma LinkedWhenReferencesKept(s: Store, t: Store)
    requires Linked(s)
    requires t.albums == s.albums && t.tracks == s.tracks && t.playlistTracks <= s.playlistTracks
    requires s.artists.Keys <= t.artists.Keys && s.playlists.Keys <= t.playlists.Keys
    ensures Linked(t)
  {
  }

  /** Adding and removing associations keep every foreign key satisfied. */
  lemma MembershipKeepsLinked(s: Store, playlistId: int, trackId: int)
    requires Linked(s)
    ensures AddTrackToPlaylist(s, playlistId, trackId).Ok? ==> Linked(AddTrackToPlaylist(s, playlistId, trackId).value)
    ensures Linked(RemoveTrackFromPlaylist(s, playlistId, trackId))
  {
    LinkedWhenReferencesKept(s, RemoveTrackFromPlaylist(s, playlistId, trackId));
  }

  /**
   The playlist writes keep every foreign key satisfied; deleting a playlist
   can because its associations go first.
   */
  lemma PlaylistWritesKeepLinked(s: Store, playlistId: int, name: string)
    requires Linked(s)
    ensures CreatePlaylist(s, name).Ok? ==> Linked(CreatePlaylist(s, name).value.0)
    ensures Linked(UpdatePlaylistName(s, playlistId, name))
    ensures Linked(DeletePlaylist(s, playlistId))
  {
    if CreatePlaylist(s, name).Ok? {
      var created := CreatePlaylist(s, name).value.0;
      assert s.playlists.Keys <= created.playlists.Keys;
      LinkedWhenReferencesKept(s, created);
    }
    LinkedWhenReferencesKept(s, UpdatePlaylistName(s, playlistId, name));
  }

  /**
   The artist writes keep every foreign key satisfied; deleting an artist can
   because an artist that owns an album is refused.
   */
  lemma ArtistWritesKeepLinked(s: Store, artistId: int, name: string)
    requires Linked(s)
    ensures CreateArtist(s, name).Ok? ==> Linked(CreateArtist(s, name).value.0)
    ensures Linked(UpdateArtist(s, artistId, name))
    ensures DeleteArtist(s, artistId).Ok? ==> Linked(DeleteArtist(s, artistId).value)
  {
    if CreateArtist(s, name).Ok? {
      var created := CreateArtist(s, name).value.0;
      assert s.artists.Keys <= created.artists.Keys;
      LinkedWhenReferencesKept(s, created);
    }
    LinkedWhenReferencesKept(s, UpdateArtist(s, artistId, name));
    var deleted := DeleteArtist(s, artistId);
    if deleted.Ok? && artistId in s.artists {
      forall id | id in s.albums
        ensures s.albums[id].artistId in deleted.value.artists
      {
        assert s.albums[id].artistId != artistId;
      }
    }
  }

  // ---- Laws relating the operations ----

  /** Adding a pair that is already there changes nothing, so a second add is a no-op. */
  lemma AddTrackIdempotent(s: Store, playlistId: int, trackId: int)
    ensures AddTrackToPlaylist(s, playlistId, trackId).Ok? ==>
      AddTrackToPlaylist(AddTrackToPlaylist(s, playlistId, trackId).value, playlistId, trackId)
        == AddTrackToPlaylist(s, playlistId, trackId)
  {
  }

  /**
   Removing a freshly added pair restores the store, and re-adding a removed
   pair restores it too as long as its playlist and track rows exist (which
   the foreign keys guarantee for a pair in the table).
   */
  lemma AddRemoveInverse(s: Store, playlistId: int, trackId: int)
    ensures PlaylistTrack(playlistId, trackId) !in s.playlistTracks && AddTrackToPlaylist(s, playlistId, trackId).Ok? ==>
      RemoveTrackFromPlaylist(AddTrackToPlaylist(s, playlistId, trackId).value, playlistId, trackId) == s
    ensures PlaylistTrack(playlistId, trackId) in s.playlistTracks && playlistId in s.playlists && trackId in s.tracks ==>
      AddTrackToPlaylist(RemoveTrackFromPlaylist(s, playlistId, trackId), playlistId, trackId) == Ok(s)
  {
    var pair := PlaylistTrack(playlistId, trackId);
    if pair !in s.playlistTracks {
      assert s.playlistTracks + {pair} - {pair} == s.playlistTracks;
    } else {
      assert s.playlistTracks - {pair} + {pair} == s.playlistTracks;
    }
  }

  /** After a playlist is deleted it has no tracks and no longer appears among the playlists. */
  lemma DeletedPlaylistIsGone(s: Store, playlistId: int)
    ensures GetTracksForPlaylist(DeletePlaylist(s, playlistId), playlistId) == {}
    ensures forall p | p in GetPlaylists(DeletePlaylist(s, playlistId)) :: p.id != playlistId
    ensures PlaylistOrder(DeletePlaylist(s, playlistId), playlistId) == []
  {
    var r := DeletePlaylist(s, playlistId);
    forall t
      ensures !InPlaylist(r, playlistId, t)
    {
      assert PlaylistTrack(playlistId, t.id) !in r.playlistTracks;
    }
    forall id
      ensures id !in PlaylistTrackIds(r, playlistId)
    {
      assert PlaylistTrack(playlistId, id) !in r.playlistTracks;
    }
    assert PlaylistTrackIds(r, playlistId) == {};
  }

  /**
   With every album pointing at an existing artist, deleting the artist just
   created gives back the store it was created in.
   */
  lemma CreateThenDeleteArtist(s: Store, name: string)
    requires forall id | id in s.albums :: s.albums[id].artistId in s.artists
    ensures CreateArtist(s, name).Ok? ==>
      DeleteArtist(CreateArtist(s, name).value.0, CreateArtist(s, name).value.1.id) == Ok(s)
  {
    if CreateArtist(s, name).Err? {
      return;
    }
    var created := CreateArtist(s, name).value;
    var s' := created.0;
    var id := created.1.id;
    assert !OwnsAlbum(s', id) by {
      forall albumId | albumId in s'.albums
        ensures s'.albums[albumId].artistId != id
      {
        assert s'.albums[albumId].artistId in s.artists;
      }
    }
    assert s'.artists - {id} == s.artists;
  }

  /**
   With every association pointing at an existing playlist, deleting the
   playlist just created gives back the store it was created in.
   */
  lemma CreateThenDeletePlaylist(s: Store, name: string)
    requires forall pt | pt in s.playlistTracks :: pt.playlistId in s.playlists
    ensures CreatePlaylist(s, name).Ok? ==>
      DeletePlaylist(CreatePlaylist(s, name).value.0, CreatePlaylist(s, name).value.1.id) == s
  {
    if CreatePlaylist(s, name).Err? {
      return;
    }
    var created := CreatePlaylist(s, name).value;
    var s' := created.0;
    var id := created.1.id;
    var r := DeletePlaylist(s', id);
    assert r.playlistTracks == s.playlistTracks by {
      forall pt | pt in s.playlistTracks
        ensures pt.playlistId != id
      {
        assert pt.playlistId in s.playlists;
      }
    }
    assert r.playlists == s.playlists;
  }

  /** Renaming an artist twice is the same as renaming it once, to the second name. */
  lemma RenameArtistTwice(s: Store, artistId: int, first: string, second: string)
    ensures UpdateArtist(UpdateArtist(s, artistId, first), artistId, second) == UpdateArtist(s, artistId, second)
  {
  }

  /** Renaming a playlist twice is the same as renaming it once, to the second name. */
  lemma RenamePlaylistTwice(s: Store, playlistId: int, first: string, second: string)
    ensures UpdatePlaylistName(UpdatePlaylistName(s, playlistId, first), playlistId, second)
         == UpdatePlaylistName(s, playlistId, second)
  {
  }

  /** Once an artist delete succeeds, deleting the same id again changes nothing. */
  lemma DeleteArtistIdempotent(s: Store, artistId: int)
    requires DeleteArtist(s, artistId).Ok?
    ensures DeleteArtist(DeleteArtist(s, artistId).value, artistId) == DeleteArtist(s, artistId)
  {
  }
}
