/**
 * Song (song.cpp): an id, a play count and the set of ids of the playlists
 * the song belongs to, kept in an AVLTree<int> ordered by std::less<int>.
 */
module Songs {

  import opened AvlTrees
  import AvlHeader

  class Song {
    const id: int
    var plays: int
    const playlists: AvlHeader.AVLTree<int>

    /** The membership tree is a valid tree of ints under their natural order. */
    ghost predicate Valid()
      reads playlists
    {
      playlists.Valid() && playlists.key == IntKey
    }

    /** The ids of the playlists holding this song. */
    ghost function Memberships(): set<int>
      reads playlists
    {
      playlists.Elements()
    }

    /** Song(id, plays): the given id and play count, in no playlist. */
    constructor (id: int, plays: int)
      ensures Valid() && fresh(playlists)
      ensures this.id == id && this.plays == plays && Memberships() == {}
    {
      this.id := id;
      this.plays := plays;
      playlists := new AvlHeader.AVLTree(IntKey);
    }

    function GetId(): int
    {
      id
    }

    function GetPlays(): int
      reads this
    {
      plays
    }

    /** setPlays: the play count becomes `newPlays`; id and memberships stay. */
    method SetPlays(newPlays: int)
      modifies this
      ensures GetPlays() == newPlays
    {
      plays := newPlays;
    }

    /** addToPlaylist: `playlistId` joins the memberships; it is a no-op when already there. */
    method AddToPlaylist(playlistId: int)
      requires Valid()
      modifies playlists
      ensures Valid()
      ensures Memberships() == old(Memberships()) + {playlistId}
    {
      var inserted := playlists.Insert(playlistId);
      if !inserted {
        ghost var z :| z in old(Memberships()) && IntKey(z) == playlistId;
      }
    }

    /** removeFromPlaylist: `playlistId` leaves the memberships; it is a no-op when absent. */
    method RemoveFromPlaylist(playlistId: int)
      requires Valid()
      modifies playlists
      ensures Valid()
      ensures Memberships() == old(Memberships()) - {playlistId}
    {
      var removed := playlists.Remove(playlistId);
    }

    /** isInPlaylist: membership of `playlistId`. */
    function IsInPlaylist(playlistId: int): (b: bool)
      reads playlists
      requires Valid()
      ensures b <==> playlistId in Memberships()
    {
      assert playlistId in Memberships() ==> IntKey(playlistId) == playlistId;
      playlists.Contains(playlistId)
    }

    /** isInAnyPlaylist: the membership set is non-empty. */
    function IsInAnyPlaylist(): (b: bool)
      reads playlists
      requires Valid()
      ensures b <==> Memberships() != {}
    {
      !playlists.IsEmpty()
    }

    /** operator<: songs are ordered by id alone. */
    function Less(other: Song): bool
    {
      id < other.id
    }

    /** operator==: songs are equal exactly when neither is less than the other, that is, by id. */
    function Equal(other: Song): (b: bool)
      ensures b <==> !Less(other) && !other.Less(this)
    {
      id == other.id
    }
  }
}
