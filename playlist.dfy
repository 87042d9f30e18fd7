/**
 * Playlist (PlayList.cpp): an id and two AVL trees over the same songs, one
 * ordered by song id (Song::IdCompare) and one by play count
 * (Song::PlaysCompare).  The trees hold pointers to the catalog's songs;
 * here they hold SongRef values, the id and play count of the song.
 */
module Playlists {

  import opened AvlTrees
  import AvlHeader
  import opened Status

  /** What a playlist's trees know of a song: its id and its play count. */
  datatype SongRef = SongRef(id: int, plays: int)

  /** Song::IdCompare: songs ordered by id. */
  function IdKey(s: SongRef): int { s.id }

  /** The id of the probe song getSongWithClosestPlays searches with. */
  const ProbeId: int := 999999999

  /** The probe song with the given play count. */
  function Probe(plays: int): SongRef { SongRef(ProbeId, plays) }

  /** In a tree ordered by id, taking out one song is taking out every song with its id. */
  lemma DropById(t: Tree<SongRef>, song: SongRef)
    requires Ordered(t, IdKey) && song in Contents(t)
    ensures Contents(t) - {song} == set s | s in Contents(t) && s.id != song.id
  {
    forall s | s in Contents(t) && s.id == song.id
      ensures s == song
    {
      KeysUnique(t, s, song, IdKey);
    }
  }

  class Playlist {
    const id: int
    const songsById: AvlHeader.AVLTree<SongRef>
    const songsByPlays: AvlHeader.AVLTree<SongRef>

    /** Both indexes are valid trees, ordered by id and by plays, holding the same songs. */
    ghost predicate Valid()
      reads songsById, songsByPlays
    {
      songsById != songsByPlays &&
      songsById.Valid() && songsByPlays.Valid() &&
      songsById.key == IdKey &&
      songsById.Elements() == songsByPlays.Elements()
    }

    /** The songs of the playlist. */
    ghost function Songs(): set<SongRef>
      reads songsById
    {
      songsById.Elements()
    }

    /** The order of the plays index. */
    function PlaysKey(): SongRef -> int
    {
      songsByPlays.key
    }

    /** Playlist(id): an empty playlist; `playsKey` stands for Song::PlaysCompare. */
    constructor (id: int, playsKey: SongRef -> int)
      ensures Valid() && fresh(songsById) && fresh(songsByPlays)
      ensures this.id == id && Songs() == {} && PlaysKey() == playsKey
    {
      this.id := id;
      songsById := new AvlHeader.AVLTree(IdKey);
      songsByPlays := new AvlHeader.AVLTree(playsKey);
    }

    function GetId(): int
    {
      id
    }

    /** getSongCount: the size of the id index, which is the number of songs. */
    function GetSongCount(): (n: int)
      reads songsById, songsByPlays
      requires Valid()
      ensures n == |Songs()|
    {
      songsById.GetSize()
    }

    /**
     * addSong: inserts into the id index, then into the plays index; when
     * the second insert finds an equivalent song the first is undone.  So
     * the song is added to both or to neither.
     */
    method AddSong(song: SongRef) returns (st: StatusType)
      requires Valid()
      modifies songsById, songsByPlays
      ensures Valid()
      ensures st == SUCCESS || st == FAILURE
      ensures st == SUCCESS <==>
              !HasKey(old(Songs()), song.id, IdKey) && !HasKey(old(Songs()), PlaysKey()(song), PlaysKey())
      ensures Songs() == if st == SUCCESS then old(Songs()) + {song} else old(Songs())
    {
      var byId := songsById.Insert(song);
      if byId {
        var byPlays := songsByPlays.Insert(song);
        if byPlays {
          st := SUCCESS;
        } else {
          KeysUnique(songsById.root, songsById.Find(song).value, song, IdKey);
          var undone := songsById.Remove(song);
          st := FAILURE;
        }
      } else {
        st := FAILURE;
      }
    }

    /**
     * removeSong: looks the song up by id with a dummy song, then removes
     * what it found from both indexes; an absent id changes nothing.
     */
    method RemoveSong(songId: int) returns (st: StatusType)
      requires Valid()
      modifies songsById, songsByPlays
      ensures Valid()
      ensures st == SUCCESS || st == FAILURE
      ensures st == SUCCESS <==> HasKey(old(Songs()), songId, IdKey)
      ensures Songs() == set s | s in old(Songs()) && s.id != songId
    {
      var dummy := SongRef(songId, 0);
      var found := songsById.Find(dummy);
      if found.Some? {
        var song := found.value;
        KeysUnique(songsById.root, songsById.Find(song).value, song, IdKey);
        KeysUnique(songsByPlays.root, songsByPlays.Find(song).value, song, PlaysKey());
        DropById(songsById.root, song);
        var byId := songsById.Remove(song);
        var byPlays := songsByPlays.Remove(song);
        st := SUCCESS;
      } else {
        st := FAILURE;
      }
    }

    /** containsSong: the id index holds a song with this id. */
    function ContainsSong(songId: int): (b: bool)
      reads songsById, songsByPlays
      requires Valid()
      ensures b <==> HasKey(Songs(), songId, IdKey)
    {
      songsById.Contains(SongRef(songId, 0))
    }

    /**
     * getSongWithClosestPlays: nothing for an empty playlist; otherwise the
     * closest match of the probe song in the plays index: the song with the
     * least plays key at or above the probe's, or nothing when every song is
     * below it.
     */
    function GetSongWithClosestPlays(plays: int): (r: Option<SongRef>)
      reads songsById, songsByPlays
      requires Valid()
      ensures r.None? <==> Below(Songs(), PlaysKey()(Probe(plays)), PlaysKey())
      ensures r.Some? ==> IsCeiling(Songs(), Probe(plays), r.value, PlaysKey())
    {
      if songsByPlays.IsEmpty() then None
      else songsByPlays.FindClosest(Probe(plays))
    }

    /** operator< and Playlist::IdCompare: playlists are ordered by id alone. */
    function Less(other: Playlist): bool
    {
      id < other.id
    }

    /** Two playlists are equivalent under IdCompare exactly when their ids are equal. */
    lemma EquivalentIffSameId(other: Playlist)
      ensures !Less(other) && !other.Less(this) <==> id == other.id
    {
    }
  }
}
