/**
 The rows of the music database and the store that holds them. Foreign keys
 are kept as ids and resolved on demand; the navigation properties that
 Entity Framework loads (`Album.Artist`, `Track.Album`, ...) are not part of
 this model.
 */
module Entities {
  import opened Base

  /** What an edit dialog is opened to do. */
  datatype CrudMode = Add | Update | Delete

  /**
   Which kind of row an edit dialog works on. The code uses an `Album` member
   that the declared enumeration lacks; it is included here.
   */
  datatype EntityType = PlaylistEntity | ArtistEntity | AlbumEntity | TrackEntity

  datatype Artist = Artist(id: int, name: Option<string>)

  datatype Album = Album(id: int, title: string, artistId: int)

  datatype Track = Track(
    id: int,
    name: string,
    albumId: Option<int>,
    mediaTypeId: int,
    genreId: Option<int>,
    composer: Option<string>,
    milliseconds: Int32)

  datatype Playlist = Playlist(id: int, name: Option<string>)

  /** One row of the playlist/track join table. */
  datatype PlaylistTrack = PlaylistTrack(playlistId: int, trackId: int)

  /** The tables, each keyed by the primary key of its rows. */
  datatype Tables = Tables(
    artists: map<int, Artist>,
    albums: map<int, Album>,
    tracks: map<int, Track>,
    playlists: map<int, Playlist>,
    playlistTracks: set<PlaylistTrack>)

  /** Every row is filed under its own primary key, and every key is an `int`. */
  ghost predicate Keyed(t: Tables)
  {
    && Int32Keys(t.artists.Keys) && Int32Keys(t.albums.Keys)
    && Int32Keys(t.tracks.Keys) && Int32Keys(t.playlists.Keys)
    && (forall id | id in t.artists :: t.artists[id].id == id)
    && (forall id | id in t.albums :: t.albums[id].id == id)
    && (forall id | id in t.tracks :: t.tracks[id].id == id)
    && (forall id | id in t.playlists :: t.playlists[id].id == id)
  }

  /** A database state. */
  type Store = t: Tables | Keyed(t) witness Tables(map[], map[], map[], map[], {})
}
