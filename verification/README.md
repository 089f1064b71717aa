# MusicLibrary core in Dafny

MusicLibrary is a WPF desktop application over a music database. The
database holds artists, albums, tracks and playlists, and a join table links
playlists to tracks. This project models the logic that sits under the GUI
and proves properties of it:

- **The music service** (`music_service.dfy`). Each call of the service
  class becomes a pure function over an immutable store of keyed tables:
  - artist create, rename and guarded delete;
  - playlist listing, create, rename and delete;
  - the idempotent association insert and the unconditional association delete;
  - the playlist's tracks, unordered and as id-ordered pages.
- **The `m:ss` length codec** (`duration.dfy`, `converter.dfy`). This is the
  edit dialog's printer and parser, plus the grid converter that prints the
  same way. Printing then parsing gives the length rounded down to a whole
  second. The .NET string primitives the codec needs (`Trim`, `Split`,
  `int.TryParse`, the `D2` format) are in `text.dfy`.
- **The paging cursors** (`paging.dfy`, `edit_dialog.dfy`, `playlist_view.dfy`).
  These are the dialog's track and artist selectors and the main window's
  playlist track list. Each is a cursor:
  - the rows shown so far;
  - the offset of the next page;
  - a "more rows exist" flag and a busy flag.
  
  Against a fixed source the rows shown stay a prefix of the source. Enough
  loads show exactly the source, with no row twice and none missing.
- **The edit dialog's checks** (`edit_dialog.dfy`). A search box becomes a
  filter. Choosing a row prefills the fields. Confirming the dialog becomes
  either the service call it would make or the error it would raise.
- **Shared pieces.** `base.dfy` holds the option, result, 32-bit `int` and
  `Skip/Take` vocabulary. `entities.dfy` holds the rows and the store.
  `ids.dfy` proves the facts about integer keys: the maximum key, and keys in
  ascending order.

The database is a `Store`. It maps each primary key to its row, and every row
is filed under its own key. Foreign keys are plain ids. Every service call is
one atomic step. Service calls that are not part of this model are parameters
or are represented only by the call a confirmation makes. These are the
filtered page queries for the selectors, album and track writes, and media
types.

`CreateArtistAsync` stores the name exactly as given: it neither trims it
nor looks for an existing artist with the same name. The next key is
`MaxAsync(...) + 1` in unchecked 32-bit arithmetic. `MaxAsync` over an empty
table throws, and the model returns `Err(EmptyTable)` in that case. At
`int.MaxValue` the sum wraps to `int.MinValue`; the insert then succeeds
under that key, or the database refuses it when the key is taken, which the
model returns as `Err(DuplicateKey)`. Every key of the store is an `int`.

`AddTrackToPlaylistAsync` inserts the association with raw SQL after checking
only that the pair is not there yet. The association table's foreign keys
make the database refuse a pair whose playlist or track row is missing; the
model returns `Err(ForeignKeyViolation)` for it. `MusicService.Linked` states
the schema's foreign keys, and every write of the model keeps them.

## Model

| member | source | states |
|---|---|---|
| MusicService.NextId | MusicLibrary/Services/MusicService.cs:42 | an empty table is the `MaxAsync` error; the key is an `int`; below `int.MaxValue` it is one more than the largest key, so fresh and above every key; when `int.MaxValue` is in use it wraps to `int.MinValue` |
| MusicService.CreateArtist | MusicLibrary/Services/MusicService.cs:38-54 | an empty table fails, and so does a wrapped key already in use, and nothing else fails; a created artist has a fresh key and the name exactly as given, the table grows by that one row, and every other row and table is unchanged; the key is above all others unless `int.MaxValue` was in use, when it is `int.MinValue` |
| MusicService.UpdateArtist | MusicLibrary/Services/MusicService.cs:56-65 | a missing id changes nothing; otherwise only that artist's name changes, its key and every other row stay |
| MusicService.DeleteArtist | MusicLibrary/Services/MusicService.cs:67-82 | a missing id changes nothing, an artist that owns an album is refused with the store untouched, any other artist is the only row removed |
| MusicService.GetPlaylists | MusicLibrary/Services/MusicService.cs:84-90 | exactly the playlist rows of the store |
| MusicService.CreatePlaylist | MusicLibrary/Services/MusicService.cs:104-120 | an empty table fails, and so does a wrapped key already in use, and nothing else fails; a created playlist has a fresh key and the name as given, one more row, nothing else changed; the key is above all others unless `int.MaxValue` was in use, when it is `int.MinValue` |
| MusicService.UpdatePlaylistName | MusicLibrary/Services/MusicService.cs:151-163 | a missing id changes nothing; otherwise only that playlist's name changes |
| MusicService.DeletePlaylist | MusicLibrary/Services/MusicService.cs:183-200 | every association of the playlist goes, even when its row is missing; all other associations stay; the playlist row goes if present and every other playlist stays |
| MusicService.AddTrackToPlaylist | MusicLibrary/Services/MusicService.cs:122-137 | an existing pair leaves the store as it was; a new pair fails exactly when its playlist or track row is missing, with the foreign-key error; on success the pair is present and every other pair is untouched |
| MusicService.RemoveTrackFromPlaylist | MusicLibrary/Services/MusicService.cs:139-148 | the pair is absent afterwards; a missing pair leaves the store as it was; every other pair is untouched |
| MusicService.GetTracksForPlaylist | MusicLibrary/Services/MusicService.cs:92-102 | exactly the existing tracks linked to the playlist, with no order |
| MusicService.PlaylistOrder | MusicLibrary/Services/MusicService.cs:172-177 | the playlist's tracks in strictly ascending track id, each linked track exactly once |
| MusicService.GetTracksForPlaylistPaged | MusicLibrary/Services/MusicService.cs:165-181 | the page is the slice `[skip, skip+take)` of the id-ordered playlist tracks: at most `take` rows, empty past the end, every row linked to the playlist, ids ascending |
| MusicService.AddTrackIdempotent | MusicLibrary/Services/MusicService.cs:122-137 | after a successful add, adding the same pair again gives the same result |
| MusicService.AddRemoveInverse | MusicLibrary/Services/MusicService.cs:122-148 | removing a freshly added pair restores the store, and re-adding a removed pair whose rows exist restores it too |
| MusicService.LinkedWhenReferencesKept | MusicLibrary/Services/MusicService.cs:38-200 | a write that keeps the albums, tracks and every artist and playlist key, and adds no association, keeps the foreign keys |
| MusicService.MembershipKeepsLinked | MusicLibrary/Services/MusicService.cs:122-148 | adding and removing associations keep every foreign key satisfied |
| MusicService.PlaylistWritesKeepLinked | MusicLibrary/Services/MusicService.cs:104-200 | creating, renaming and deleting a playlist keep every foreign key satisfied; the delete does because it removes the associations first |
| MusicService.ArtistWritesKeepLinked | MusicLibrary/Services/MusicService.cs:38-82 | creating, renaming and deleting an artist keep every foreign key satisfied; the delete does because an artist with albums is refused |
| MusicService.DeletedPlaylistIsGone | MusicLibrary/Services/MusicService.cs:183-200 | after the delete the playlist has no tracks, no pages and is not listed |
| MusicService.CreateThenDeleteArtist | MusicLibrary/Services/MusicService.cs:38-82 | when every album points at an existing artist and the create succeeds, deleting the artist just created succeeds and gives back the original store |
| MusicService.CreateThenDeletePlaylist | MusicLibrary/Services/MusicService.cs:104-200 | when every association points at an existing playlist and the create succeeds, deleting the playlist just created gives back the original store |
| MusicService.RenameArtistTwice | MusicLibrary/Services/MusicService.cs:56-65 | two renames of an artist equal one rename to the second name |
| MusicService.RenamePlaylistTwice | MusicLibrary/Services/MusicService.cs:151-163 | two renames of a playlist equal one rename to the second name |
| MusicService.DeleteArtistIdempotent | MusicLibrary/Services/MusicService.cs:67-82 | after a successful artist delete, deleting the same id again succeeds and changes nothing |
| Ids.MaxId | MusicLibrary/Services/MusicService.cs:42 | the largest key of a non-empty key set is in the set and at least every key |
| Ids.SortedIds | MusicLibrary/Services/MusicService.cs:177 | the keys in strictly ascending order, each exactly once |
| Base.Slice | MusicLibrary/Services/MusicService.cs:178-179 | `Skip(skip).Take(take)`: empty past the end, otherwise `min(take, rest)` elements starting at position `skip` |
| Text.Trim | MusicLibrary/ViewModels/EditDialogViewModel.cs:234 | empty exactly for all-white text; otherwise a contiguous piece of the input flanked only by white space that neither starts nor ends with white space |
| Text.Split | MusicLibrary/ViewModels/EditDialogViewModel.cs:237 | no piece contains the separator and joining the pieces with it gives the input back |
| Text.SplitAroundOne | MusicLibrary/ViewModels/EditDialogViewModel.cs:237-238 | text with exactly one separator splits into the two pieces around it |
| Text.NatToDecimal | MusicLibrary/ViewModels/EditDialogViewModel.cs:224 | the decimal digits of `n` read back as `n` and have no leading zero |
| Text.PadTwo | MusicLibrary/ViewModels/EditDialogViewModel.cs:224 | the `D2` form: at least two digits, exactly two below 100, no leading zero when longer, reading back as `n` |
| Text.ParseDecimal | MusicLibrary/ViewModels/EditDialogViewModel.cs:241-242 | `int.TryParse` reads back what `{n}` printed |
| Text.ParsePadTwo | MusicLibrary/ViewModels/EditDialogViewModel.cs:244-245 | `int.TryParse` reads back what `{n:D2}` printed |
| Duration.FormatMsToMmSs | MusicLibrary/ViewModels/EditDialogViewModel.cs:220-225 | empty exactly for a negative length; otherwise whole minutes without leading zero, a colon and the seconds past the minute as two digits |
| Duration.Fields | MusicLibrary/ViewModels/EditDialogViewModel.cs:231-245 | blank text, or trimmed text that does not split on ':' into exactly two pieces, has no fields; non-blank text whose trimmed form splits into two pieces that both parse as an `int` has fields, and fields found are exactly what the two pieces parse to |
| Duration.TryParseMmSsToMs | MusicLibrary/ViewModels/EditDialogViewModel.cs:227-258 | refusal leaves 0; text without two integer fields is refused; with fields, success exactly when minutes >= 0, 0 <= seconds <= 59 and the total fits an `int`; success yields minutes*60000 + seconds*1000 |
| Duration.AcceptsPaddedMinutes | MusicLibrary/ViewModels/EditDialogViewModel.cs:236-257 | `"03:45"`, minutes with a leading zero, is accepted as 225000 ms |
| Duration.AcceptsBareMinutes | MusicLibrary/ViewModels/EditDialogViewModel.cs:236-257 | `"3:45"` is accepted as 225000 ms |
| Duration.FromFields | MusicLibrary/ViewModels/EditDialogViewModel.cs:247-257 | the range checks on the fields and the total they denote |
| Duration.FormatThenParse | MusicLibrary/ViewModels/EditDialogViewModel.cs:220-258 | parsing the printed form of a non-negative length succeeds with the length rounded down to a whole second |
| Duration.ParseThenFormat | MusicLibrary/ViewModels/EditDialogViewModel.cs:220-258 | a length the parser accepted prints as text that parses back to the same result |
| Duration.ParsedWholeSeconds | MusicLibrary/ViewModels/EditDialogViewModel.cs:250-256 | an accepted length is a whole number of seconds |
| Duration.FormatDropsSubSecond | MusicLibrary/ViewModels/EditDialogViewModel.cs:222-224 | a length and its whole-second floor print alike |
| Converter.Convert | MusicLibrary/Converter/MillisecondsToMmSsConverter.cs:9-14 | a string always; empty for a non-`int` or negative value; otherwise minutes, a colon and the seconds 00-59 as two digits |
| Converter.ConvertBack | MusicLibrary/Converter/MillisecondsToMmSsConverter.cs:16-17 | always `Binding.DoNothing` |
| Converter.ConvertAgreesWithDialog | MusicLibrary/Converter/MillisecondsToMmSsConverter.cs:11-13 | the grid and the dialog print every `int` identically |
| Converter.ConvertDropsSubSecond | MusicLibrary/Converter/MillisecondsToMmSsConverter.cs:12-13 | the grid prints a length and its whole-second floor alike |
| Paging.Reset | MusicLibrary/ViewModels/EditDialogViewModel.cs:587-595 | no rows, offset 0, more rows expected, busy flag untouched |
| Paging.LoadNextPage | MusicLibrary/ViewModels/EditDialogViewModel.cs:597-633 | busy or exhausted: no change; otherwise the page is appended, the offset grows by exactly the rows appended, more rows are expected only after a full page, and the busy flag is clear |
| Paging.LoadNextArtistsPage | MusicLibrary/ViewModels/EditDialogViewModel.cs:663-699 | the artist selector's load, with its empty-page check first, behaves exactly like the track selector's |
| Paging.LoadKeepsFollows | MusicLibrary/ViewModels/EditDialogViewModel.cs:597-633 | against a fixed source a load keeps the rows a prefix of the source with offset = row count, all of it once no more are expected, and advances by a page or to the end |
| Paging.DriveKeepsFollows | MusicLibrary/ViewModels/EditDialogViewModel.cs:597-633 | any number of loads keeps that invariant |
| Paging.DriveCompletes | MusicLibrary/ViewModels/EditDialogViewModel.cs:597-633 | enough loads from an idle cursor show exactly the source, with no row twice and none missing, and stop |
| Paging.DriveNeverShows | MusicLibrary/ViewModels/MusicViewModel.cs:256-283 | a row neither shown nor at or after the offset in a fixed source never appears, however many loads run |
| EditDialog.NormalizeSearch | MusicLibrary/ViewModels/EditDialogViewModel.cs:637-639 | blank text gives no filter; otherwise the filter is the trimmed text: a non-empty piece of the input flanked by white space only |
| EditDialog.NormalizeSearchIdempotent | MusicLibrary/ViewModels/EditDialogViewModel.cs:703-705 | searching for the filter just applied applies the same filter |
| EditDialog.ResetAndLoadFirstPage | MusicLibrary/ViewModels/EditDialogViewModel.cs:587-595 | the selector starts over under its filter and shows the query's first page, offset = rows; while busy it stays reset and empty |
| EditDialog.LoadNext | MusicLibrary/ViewModels/EditDialogViewModel.cs:597-633 | a scroll load appends the next page under the current filter, or changes nothing when busy or exhausted |
| EditDialog.ApplySearch | MusicLibrary/ViewModels/EditDialogViewModel.cs:635-642 | the filter becomes the normalised search text and the list restarts with that filter's first page |
| EditDialog.ClearSearch | MusicLibrary/ViewModels/EditDialogViewModel.cs:644-651 | the search box empties, the filter is gone and the list restarts unfiltered |
| EditDialog.ScrollDrives | MusicLibrary/ViewModels/EditDialogViewModel.cs:597-633 | scrolling a selector drives its pager with the page query under its filter |
| EditDialog.SearchListsAllMatches | MusicLibrary/ViewModels/EditDialogViewModel.cs:635-642 | with fixed matches, applying a search and scrolling always shows a prefix of the matches, and enough scrolling shows all of them |
| EditDialog.AddOrUpdatePlaylist | MusicLibrary/ViewModels/EditDialogViewModel.cs:758-773 | a blank name is refused; a call is made exactly when the name is not blank and the dialog adds or has a playlist selected; it writes a playlist, creates exactly in add mode, and passes the trimmed name |
| EditDialog.AddOrUpdateArtist | MusicLibrary/ViewModels/EditDialogViewModel.cs:719-734 | a blank name is refused; a call is made exactly when the name is not blank and the dialog adds or has an artist selected; it writes an artist, creates exactly in add mode, and passes the trimmed name |
| EditDialog.AddOrUpdateAlbum | MusicLibrary/ViewModels/EditDialogViewModel.cs:736-756 | a blank title is refused; a call is made exactly when the title is not blank and an artist is chosen (add) or an album selected (otherwise); it writes an album, creates exactly in add mode, and passes the trimmed title |
| EditDialog.AddOrUpdateTrack | MusicLibrary/ViewModels/EditDialogViewModel.cs:775-814 | a blank name is refused; a call is made exactly when the name is not blank, the length parses, and a media type is known (add) or a track selected (otherwise); it writes a track, creates exactly in add mode, passes the trimmed name, and carries the length the parser accepted |
| EditDialog.TrackCall | MusicLibrary/ViewModels/EditDialogViewModel.cs:783-813 | the track call is made exactly when a media type is known (add) or a track is selected (otherwise); it writes a track with the parsed length and the trimmed name, and creates exactly in add mode |
| EditDialog.Confirm | MusicLibrary/ViewModels/EditDialogViewModel.cs:521-556 | a blank name is refused before any call; a call is made exactly for the dialogs `Confirmable` describes; it writes a row of the dialog's kind and creates exactly in add mode, so delete mode updates |
| EditDialog.ConfirmTrimsName | MusicLibrary/ViewModels/EditDialogViewModel.cs:719-814 | the name handed to the service is the dialog's name trimmed, never empty |
| EditDialog.ConfirmNeedsSelection | MusicLibrary/ViewModels/EditDialogViewModel.cs:719-814 | outside add mode a call targets the selected row, which is of the dialog's kind; with any other selection a non-blank confirmation is refused |
| EditDialog.ConfirmAlbumNeedsArtist | MusicLibrary/ViewModels/EditDialogViewModel.cs:741-747 | adding an album without a chosen artist is refused; an added album belongs to the chosen artist |
| EditDialog.ConfirmTrackLength | MusicLibrary/ViewModels/EditDialogViewModel.cs:780-781 | a track with a length the parser refuses is rejected; a written track carries exactly the parsed length |
| EditDialog.ConfirmTrackMediaType | MusicLibrary/ViewModels/EditDialogViewModel.cs:785-787 | a new track takes the default media type, else the fetched one, and is refused without either |
| EditDialog.PrefillFromSelected | MusicLibrary/ViewModels/EditDialogViewModel.cs:497-519 | the selection is recorded; a row of the dialog's kind fills the name from its name or title (an artist without a name gives ""), a track also fills its printed length; a playlist or a row of another kind leaves both fields, and every other field stays |
| EditDialog.ResaveTrackRoundsLength | MusicLibrary/ViewModels/EditDialogViewModel.cs:514-518 | choosing a track and confirming an update unchanged writes its length rounded down to a whole second and keeps its other columns |
| EditDialog.NegativeLengthCannotBeResaved | MusicLibrary/ViewModels/EditDialogViewModel.cs:514-518 | a track stored with a negative length prefills an empty length field, and confirming it is refused |
| PlaylistView.PlaylistPagesSlice | MusicLibrary/Services/MusicService.cs:165-181 | the paged query cuts its pages from the playlist's id-ordered tracks with `Skip/Take` semantics |
| PlaylistView.LoadMoreTracks | MusicLibrary/ViewModels/MusicViewModel.cs:256-283 | no change when exhausted, busy or without a playlist; otherwise the next page is appended, the offset grows by exactly the rows appended, a short page ends paging and the busy flag is clear |
| PlaylistView.SelectPlaylist | MusicLibrary/ViewModels/MusicViewModel.cs:107-133 | a playlist restarts the list from offset 0 and loads its first page (stays reset while busy); none empties the list and the selected row and leaves offset, more-rows flag and busy flag |
| PlaylistView.ScrollDrives | MusicLibrary/ViewModels/MusicViewModel.cs:256-283 | scrolling drives the pager with the selected playlist's pages and keeps the selections |
| PlaylistView.SelectAndScrollListsPlaylist | MusicLibrary/ViewModels/MusicViewModel.cs:256-283 | with the store fixed, selecting a playlist and scrolling keeps the list a prefix of its id-ordered tracks, and enough scrolling shows exactly them |
| PlaylistView.RemoveFirst | MusicLibrary/ViewModels/MusicViewModel.cs:294 | `List.Remove`: the first occurrence goes, or nothing changes when there is none |
| PlaylistView.RemoveSelectedTrackAsWritten | MusicLibrary/ViewModels/MusicViewModel.cs:285-296 | no playlist or no row: nothing happens; otherwise the pair is deleted, the row leaves the list, the selection clears, and the offset stays |
| PlaylistView.RemovalSkipsNextRow | MusicLibrary/ViewModels/MusicViewModel.cs:294 | as written, removing a shown row while rows remain makes the next row invisible: it stays in the playlist but no scrolling shows it |
| PlaylistView.RemoveSelectedTrack | MusicLibrary/ViewModels/MusicViewModel.cs:285-296 | as written, except that the offset moves back by the row that left the list, so it keeps equal to the row count |
| PlaylistView.OrderAfterRemoval | MusicLibrary/Services/MusicService.cs:139-148 | deleting the pair of the playlist's `k`-th track takes exactly that track out of its id order |
| PlaylistView.RemoveSelectedTrackKeepsFollows | MusicLibrary/ViewModels/MusicViewModel.cs:285-296 | with the offset moved back, the list stays a prefix of the changed playlist, so scrolling still ends with exactly its remaining tracks |
| PlaylistView.ScrollNeverShows | MusicLibrary/ViewModels/MusicViewModel.cs:256-283 | a row neither shown nor at or after the offset in the playlist's order never appears, however far the list is scrolled |

## Left out

- The WPF windows, dialogs, scroll-threshold triggers, tree views, commands, visibility flags, labels, `DialogTitle`, `IsBusy` and the `ErrorText` messages are presentation. The refusal reasons are a `ConfirmError` value instead of a message.
- `LoadAsync` of the edit dialog is not modelled: the context prefill and the choice of selector source. Its media-type lookup appears only as the `defaultMediaTypeId` field and the fetched id parameter.
- `GetTracksAsync`, `GetAlbumsAsync` and `GetArtistsAsync` of the service are not part of this model, nor are the service calls made from outside the service file (such as `GetArtistsTreeAsync`, which the main window calls at MusicLibrary/ViewModels/MusicViewModel.cs:224 and which MusicLibrary/Services/MusicService.cs does not define). The filtered track and artist page queries are the uninterpreted `SearchQuery` parameter. Album and track create/update and media types appear only as the `ServiceCall` a confirmation makes. Album and track deletes do not appear.
- The edit dialog's playlist-track management (`AddTrackToPlaylistAsync`, `RemoveTrackFromPlaylistAsync` and the reload in the dialog) is left out. So are the main window's `DeleteSelectedPlaylistAsync` and its library loading (`LoadLibraryAsync`, `LoadArtistsTreeAsync`), which read through the unmodelled `GetTracksAsync` and `GetArtistsTreeAsync`. The edit dialog's full artist list, which reads through `GetArtistsAsync` (MusicLibrary/ViewModels/EditDialogViewModel.cs:469), is left out too; the model takes the artist chosen from it as the dialog's `artistForAlbum`.
- The main window's `AddTrackToPlaylistAsync` is left out. It reloads `Tracks` wholesale through `GetTracksForPlaylistAsync` without resetting `_currentOffset` or `_hasMoreTracks`, so the pager invariant proved here (`Paging.Follows`) does not survive that call; the next scroll load can append rows already shown.
- `TrackSearchTextInSelector` restarting the track selector is left out. It is `ResetAndLoadFirstPage` under the active filter.
- MusicService.GetPlaylists: returns the set of playlist rows. The ordering by name depends on the database collation, which is not modelled.
- MusicService.GetTracksForPlaylistPaged: `skip` and `take` are natural numbers. Its callers pass only offsets and the page size, so LINQ's handling of negative arguments is not modelled.
- Duration.TryParseMmSsToMs: `int.TryParse` is simplified (`Text.ParseInt32`). It accepts the white space U+0009–U+000D and U+0020 around the number, an optional ASCII `+` or `-` and ASCII digits in the `int` range, as the default `NumberStyles.Integer` does. It does not model the current culture's sign symbols (such as U+2212 MINUS SIGN) or the trailing U+0000 characters .NET tolerates.
- Duration.TryParseMmSsToMs: the `TimeSpan`/`double` arithmetic is exact integer arithmetic. Integer minutes and seconds make the two agree.
- MusicService.CreateArtist: an empty table gives `Err(EmptyTable)` rather than an exception. The same holds for MusicService.CreatePlaylist.
- MusicService.CreateArtist: a wrapped key already in use gives `Err(DuplicateKey)`, standing for the primary-key violation that `SaveChangesAsync` throws. The same holds for MusicService.CreatePlaylist.
- MusicService.CreateThenDeleteArtist: assumes every album points at an existing artist. This is part of the database's foreign-key constraint, stated as `MusicService.Linked`, which every modelled write keeps. MusicService.CreateThenDeletePlaylist makes the same assumption for associations.
- Concurrency is not modelled. Every call is atomic and sequential, so the race between two `max(id)+1` creators and async interleavings in the view models are out of scope. The busy flags are modelled only as state.
- Converter.Convert: the boxed binding value is a four-case datatype (`int`, string, `DoNothing`, other), not an arbitrary object.
- EditDialog.PrefillFromSelected: album titles and track names are non-null strings in the model, so the `?? ""` fallback matters only for artist names.
- PlaylistView.RemoveFirst: `Tracks.Remove` finds the row by equality, and a `Track` value stands for the row object.
- Entity Framework navigation properties (`Album.Artist`, `Track.Album`, ...) are not modelled; foreign keys are ids.

## Findings

| source | as written | input that shows it | evidently intended | confidence | as-written member | corrected member |
|---|---|---|---|---|---|---|
| MusicLibrary/ViewModels/MusicViewModel.cs:294 | removing the selected row from `Tracks` leaves `_currentOffset` unchanged | a playlist of 16 tracks shows its first page of 15 rows; remove any shown row; the next load asks for rows from offset 15 of the 15 remaining and gets none, so the 16th track is never shown | the offset moves back by the removed row, so the next page starts at the first row not yet shown | high, not executed | PlaylistView.RemovalSkipsNextRow | PlaylistView.RemoveSelectedTrackKeepsFollows |
