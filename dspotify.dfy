/**
 * The DSpotify catalog (dspotify25b1.cpp): songs and playlists, each kept
 * under its positive id.  Every operation checks its arguments, looks the
 * objects up, and only then changes them, answering with a StatusType.
 *
 * The catalog's two AVL trees of pointers, ordered by id, are modelled as
 * maps from id to object.  The abstract state is a State value: the play
 * count and memberships of every song and the songs of every playlist.
 */
module Catalog {

  import opened AvlTrees
  import opened Status
  import opened Songs
  import opened Playlists

  /** The catalog as values: plays and memberships per song id, songs per playlist id. */
  datatype State = State(plays: map<int, int>, members: map<int, set<int>>, lists: map<int, set<SongRef>>)

  /**
   * The cross-object invariant: every playlist entry is a catalog song with
   * its current play count, and song `sid` is in playlist `pid` exactly when
   * `pid` is among the memberships of `sid`.
   */
  ghost predicate Consistent(c: State)
  {
    c.members.Keys == c.plays.Keys &&
    (forall pid, e :: pid in c.lists && e in c.lists[pid] ==> e.id in c.plays && e.plays == c.plays[e.id]) &&
    (forall sid, pid :: sid in c.members ==>
       (pid in c.members[sid] <==> pid in c.lists && SongRef(sid, c.plays[sid]) in c.lists[pid]))
  }

  /** The entry a playlist holds for catalog song `sid`. */
  function Entry(c: State, sid: int): SongRef
    requires sid in c.plays
  {
    SongRef(sid, c.plays[sid])
  }

  // ---------------------------------------------------------------------
  // The successful transitions, on values
  // ---------------------------------------------------------------------

  function AddPlaylistStep(c: State, pid: int): State
  {
    c.(lists := c.lists[pid := {}])
  }

  function DeletePlaylistStep(c: State, pid: int): State
  {
    c.(lists := c.lists - {pid})
  }

  function AddSongStep(c: State, sid: int, plays: int): State
  {
    c.(plays := c.plays[sid := plays], members := c.members[sid := {}])
  }

  function DeleteSongStep(c: State, sid: int): State
  {
    c.(plays := c.plays - {sid}, members := c.members - {sid})
  }

  function AddToPlaylistStep(c: State, pid: int, sid: int): State
    requires sid in c.plays && sid in c.members && pid in c.lists
  {
    c.(members := c.members[sid := c.members[sid] + {pid}],
       lists := c.lists[pid := c.lists[pid] + {Entry(c, sid)}])
  }

  function RemoveFromPlaylistStep(c: State, pid: int, sid: int): State
    requires sid in c.plays && sid in c.members && pid in c.lists
  {
    c.(members := c.members[sid := c.members[sid] - {pid}],
       lists := c.lists[pid := c.lists[pid] - {Entry(c, sid)}])
  }

  // ---------------------------------------------------------------------
  // The invariant is kept by every transition the checks let through
  // ---------------------------------------------------------------------

  /** In a consistent catalog, playlist `pid` holds a song with id `sid` exactly when `pid` is a membership of `sid`. */
  lemma MembershipIff(c: State, sid: int, pid: int)
    requires Consistent(c) && sid in c.plays && pid in c.lists
    ensures pid in c.members[sid] <==> HasKey(c.lists[pid], sid, IdKey)
    ensures HasKey(c.lists[pid], sid, IdKey) ==> Entry(c, sid) in c.lists[pid]
  {
    if HasKey(c.lists[pid], sid, IdKey) {
      var e :| e in c.lists[pid] && IdKey(e) == sid;
      assert e == Entry(c, sid);
    }
  }

  lemma AddPlaylistKeeps(c: State, pid: int)
    requires Consistent(c) && pid !in c.lists
    ensures Consistent(AddPlaylistStep(c, pid))
  {
  }

  /** Deleting only an empty playlist leaves no membership naming it. */
  lemma DeletePlaylistKeeps(c: State, pid: int)
    requires Consistent(c) && pid in c.lists && c.lists[pid] == {}
    ensures Consistent(DeletePlaylistStep(c, pid))
  {
    var c' := DeletePlaylistStep(c, pid);
    forall sid, q | sid in c'.members
      ensures q in c'.members[sid] <==> q in c'.lists && SongRef(sid, c'.plays[sid]) in c'.lists[q]
    {
      if q == pid {
        assert SongRef(sid, c.plays[sid]) !in c.lists[pid];
      }
    }
  }

  lemma AddSongKeeps(c: State, sid: int, plays: int)
    requires Consistent(c) && sid !in c.plays
    ensures Consistent(AddSongStep(c, sid, plays))
  {
    var c' := AddSongStep(c, sid, plays);
    forall s, q | s in c'.members
      ensures q in c'.members[s] <==> q in c'.lists && SongRef(s, c'.plays[s]) in c'.lists[q]
    {
      if s == sid {
        if q in c.lists && SongRef(s, plays) in c.lists[q] {
          assert false;
        }
      }
    }
  }

  /** Deleting only a song in no playlist leaves no playlist entry naming it. */
  lemma DeleteSongKeeps(c: State, sid: int)
    requires Consistent(c) && sid in c.plays && c.members[sid] == {}
    ensures Consistent(DeleteSongStep(c, sid))
  {
    var c' := DeleteSongStep(c, sid);
    forall pid, e | pid in c'.lists && e in c'.lists[pid]
      ensures e.id in c'.plays && e.plays == c'.plays[e.id]
    {
      if e.id == sid {
        assert false;
      }
    }
  }

  /** Adding a song to a playlist that has no song with its id (see MembershipIff). */
  lemma AddToPlaylistKeeps(c: State, pid: int, sid: int)
    requires Consistent(c) && sid in c.plays && pid in c.lists
    requires !HasKey(c.lists[pid], sid, IdKey)
    ensures Consistent(AddToPlaylistStep(c, pid, sid))
  {
    var c' := AddToPlaylistStep(c, pid, sid);
    forall s, q | s in c'.members
      ensures q in c'.members[s] <==> q in c'.lists && SongRef(s, c'.plays[s]) in c'.lists[q]
    {
      if q == pid && s != sid {
        assert SongRef(s, c.plays[s]) != Entry(c, sid);
      }
    }
  }

  /** Taking a song out of a playlist that holds it. */
  lemma RemoveFromPlaylistKeeps(c: State, pid: int, sid: int)
    requires Consistent(c) && sid in c.plays && pid in c.lists
    ensures Consistent(RemoveFromPlaylistStep(c, pid, sid))
  {
    var c' := RemoveFromPlaylistStep(c, pid, sid);
    forall s, q | s in c'.members
      ensures q in c'.members[s] <==> q in c'.lists && SongRef(s, c'.plays[s]) in c'.lists[q]
    {
      if q == pid && s != sid {
        assert SongRef(s, c.plays[s]) != Entry(c, sid);
      }
    }
  }

  /** In a consistent catalog the only entry with id `sid` is the song's own entry. */
  lemma EntriesById(c: State, pid: int, sid: int)
    requires Consistent(c) && sid in c.plays && pid in c.lists
    ensures (set e | e in c.lists[pid] && e.id != sid) == c.lists[pid] - {Entry(c, sid)}
  {
  }

  // ---------------------------------------------------------------------
  // The catalog object
  // ---------------------------------------------------------------------

  /** The membership trees of the songs. */
  ghost function SongTrees(songs: map<int, Song>): set<object>
  {
    set sid | sid in songs :: songs[sid].playlists
  }

  /** The two index trees of every playlist. */
  ghost function ListTrees(playlists: map<int, Playlist>): set<object>
  {
    (set pid | pid in playlists :: playlists[pid].songsById) +
    (set pid | pid in playlists :: playlists[pid].songsByPlays)
  }

  /** Every song is stored under its own positive id, is valid, and owns its membership tree. */
  ghost predicate SongsOk(songs: map<int, Song>)
    reads SongTrees(songs)
  {
    (forall sid :: sid in songs ==> sid > 0 && songs[sid].id == sid && songs[sid].Valid()) &&
    (forall s1, s2 :: s1 in songs && s2 in songs && s1 != s2 ==> songs[s1].playlists != songs[s2].playlists)
  }

  /** Every playlist is stored under its own positive id, is valid, and owns its trees. */
  ghost predicate ListsOk(playlists: map<int, Playlist>)
    reads ListTrees(playlists)
  {
    (forall pid :: pid in playlists ==> pid > 0 && playlists[pid].id == pid && playlists[pid].Valid()) &&
    (forall p1, p2 :: p1 in playlists && p2 in playlists && p1 != p2 ==>
       playlists[p1].songsById != playlists[p2].songsById &&
       playlists[p1].songsById != playlists[p2].songsByPlays &&
       playlists[p1].songsByPlays != playlists[p2].songsById &&
       playlists[p1].songsByPlays != playlists[p2].songsByPlays)
  }

  /** Every playlist orders its plays index by `playsKey`. */
  ghost predicate SortedBy(playlists: map<int, Playlist>, playsKey: SongRef -> int)
  {
    forall pid :: pid in playlists ==> playlists[pid].PlaysKey() == playsKey
  }

  ghost function PlaysOf(songs: map<int, Song>): map<int, int>
    reads songs.Values
  {
    map sid | sid in songs :: songs[sid].plays
  }

  ghost function MembersOf(songs: map<int, Song>): map<int, set<int>>
    reads SongTrees(songs)
  {
    map sid | sid in songs :: songs[sid].Memberships()
  }

  ghost function ListsOf(playlists: map<int, Playlist>): map<int, set<SongRef>>
    reads ListTrees(playlists)
  {
    map pid | pid in playlists :: playlists[pid].Songs()
  }

  /** The abstract state of a catalog with these songs and playlists. */
  ghost function AbstractOf(songs: map<int, Song>, playlists: map<int, Playlist>): State
    reads songs.Values, SongTrees(songs), ListTrees(playlists)
  {
    State(PlaysOf(songs), MembersOf(songs), ListsOf(playlists))
  }

  /** The catalog invariant on these songs and playlists. */
  ghost predicate CatalogOk(songs: map<int, Song>, playlists: map<int, Playlist>, playsKey: SongRef -> int)
    reads songs.Values, SongTrees(songs), ListTrees(playlists)
  {
    SongsOk(songs) && ListsOk(playlists) && SortedBy(playlists, playsKey) && Consistent(AbstractOf(songs, playlists))
  }

  // Storing and dropping objects, one map at a time

  lemma ListsStore(playlists: map<int, Playlist>, p: Playlist)
    requires ListsOk(playlists)
    requires p.id > 0 && p.id !in playlists && p.Valid()
    requires p.songsById !in ListTrees(playlists) && p.songsByPlays !in ListTrees(playlists)
    ensures ListsOk(playlists[p.id := p])
    ensures ListsOf(playlists[p.id := p]) == ListsOf(playlists)[p.id := p.Songs()]
  {
    var pl := playlists[p.id := p];
    forall p1, p2 | p1 in pl && p2 in pl && p1 != p2
      ensures pl[p1].songsById != pl[p2].songsById && pl[p1].songsById != pl[p2].songsByPlays &&
              pl[p1].songsByPlays != pl[p2].songsById && pl[p1].songsByPlays != pl[p2].songsByPlays
    {
      if p1 != p.id && p2 != p.id {
      } else if p1 != p.id {
        assert pl[p1].songsById in ListTrees(playlists) && pl[p1].songsByPlays in ListTrees(playlists);
      } else {
        assert pl[p2].songsById in ListTrees(playlists) && pl[p2].songsByPlays in ListTrees(playlists);
      }
    }
  }

  lemma ListsDrop(playlists: map<int, Playlist>, pid: int)
    requires ListsOk(playlists)
    ensures ListsOk(playlists - {pid})
    ensures ListsOf(playlists - {pid}) == ListsOf(playlists) - {pid}
  {
  }

  lemma SongsStore(songs: map<int, Song>, s: Song)
    requires SongsOk(songs)
    requires s.id > 0 && s.id !in songs && s.Valid() && s.playlists !in SongTrees(songs)
    ensures SongsOk(songs[s.id := s])
  {
    var sm := songs[s.id := s];
    forall sid | sid in sm
      ensures sid > 0 && sm[sid].id == sid && sm[sid].Valid()
    {
      if sid != s.id {
        assert sm[sid] == songs[sid];
      }
    }
    forall s1, s2 | s1 in sm && s2 in sm && s1 != s2
      ensures sm[s1].playlists != sm[s2].playlists
    {
      if s1 != s.id && s2 != s.id {
        assert sm[s1] == songs[s1] && sm[s2] == songs[s2];
      } else if s1 != s.id {
        assert sm[s1].playlists in SongTrees(songs);
      } else {
        assert sm[s2].playlists in SongTrees(songs);
      }
    }
  }

  lemma SongsStoreMaps(songs: map<int, Song>, s: Song)
    ensures PlaysOf(songs[s.id := s]) == PlaysOf(songs)[s.id := s.plays]
    ensures MembersOf(songs[s.id := s]) == MembersOf(songs)[s.id := s.Memberships()]
  {
  }

  lemma SongsDrop(songs: map<int, Song>, sid: int)
    requires SongsOk(songs)
    ensures SongsOk(songs - {sid})
    ensures PlaysOf(songs - {sid}) == PlaysOf(songs) - {sid}
    ensures MembersOf(songs - {sid}) == MembersOf(songs) - {sid}
  {
  }

  /** What add_to_playlist demands before Playlist::addSong succeeds. */
  ghost predicate CanAdd(c: State, pid: int, sid: int, playsKey: SongRef -> int)
  {
    sid in c.plays && sid in c.members && pid in c.lists &&
    !HasKey(c.lists[pid], sid, IdKey) && !HasKey(c.lists[pid], playsKey(Entry(c, sid)), playsKey)
  }

  /** Giving playlist `pid` the songs it had, plus `e` when `added`, is adding `e` to it or nothing. */
  lemma UpdateList(lists: map<int, set<SongRef>>, pid: int, now: set<SongRef>, added: bool, e: SongRef)
    requires pid in lists && now == if added then lists[pid] + {e} else lists[pid]
    ensures lists[pid := now] == if added then lists[pid := lists[pid] + {e}] else lists
  {
  }

  // Carrying the invariant across a change of the heap

  /** Songs whose objects did not change keep their invariant, plays and memberships. */
  twostate lemma KeepSongs(songs: map<int, Song>)
    requires old(SongsOk(songs))
    requires unchanged(songs.Values) && unchanged(SongTrees(songs))
    ensures SongsOk(songs)
    ensures PlaysOf(songs) == old(PlaysOf(songs)) && MembersOf(songs) == old(MembersOf(songs))
  {
  }

  /** Playlists whose trees did not change keep their invariant and songs. */
  twostate lemma KeepPlaylists(playlists: map<int, Playlist>)
    requires old(ListsOk(playlists))
    requires unchanged(ListTrees(playlists))
    ensures ListsOk(playlists)
    ensures ListsOf(playlists) == old(ListsOf(playlists))
  {
  }

  /**
   * A catalog together with the song and the playlist an operation changes,
   * bundled so that each frame lemma below takes one argument: RetouchSong
   * and RetouchMembers read only `sid`, RetouchPlaylist only `pid`.
   */
  datatype Edit = Edit(catalog: DSpotify, sid: int, pid: int)

  /** When only the membership tree of song `e.sid` changed, and stayed valid, the songs stay valid. */
  twostate lemma RetouchSong(e: Edit)
    requires unchanged(e.catalog)
    requires old(SongsOk(e.catalog.songs)) && e.sid in e.catalog.songs
    requires unchanged(e.catalog.songs.Values)
    requires unchanged(SongTrees(e.catalog.songs) - {e.catalog.songs[e.sid].playlists})
    requires e.catalog.songs[e.sid].Valid()
    ensures SongsOk(e.catalog.songs)
    ensures PlaysOf(e.catalog.songs) == old(PlaysOf(e.catalog.songs))
  {
    var songs := e.catalog.songs;
    forall q | q in songs && q != e.sid
      ensures songs[q].Valid()
    {
      assert songs[q].playlists in SongTrees(songs) - {songs[e.sid].playlists};
      assert old(songs[q].Valid());
    }
  }

  /** ... and only the memberships of `e.sid` change. */
  twostate lemma RetouchMembers(e: Edit)
    requires unchanged(e.catalog)
    requires old(SongsOk(e.catalog.songs)) && e.sid in e.catalog.songs
    requires unchanged(SongTrees(e.catalog.songs) - {e.catalog.songs[e.sid].playlists})
    ensures MembersOf(e.catalog.songs) ==
            old(MembersOf(e.catalog.songs))[e.sid := e.catalog.songs[e.sid].Memberships()]
  {
    var songs := e.catalog.songs;
    ghost var m := MembersOf(songs);
    ghost var m0 := old(MembersOf(songs))[e.sid := songs[e.sid].Memberships()];
    forall q | q in m
      ensures m[q] == m0[q]
    {
      if q != e.sid {
        assert songs[q].playlists in SongTrees(songs) - {songs[e.sid].playlists};
      }
    }
  }

  /** When only the trees of playlist `e.pid` changed, and stayed valid, only its songs change. */
  twostate lemma RetouchPlaylist(e: Edit)
    requires unchanged(e.catalog)
    requires old(ListsOk(e.catalog.playlists)) && e.pid in e.catalog.playlists
    requires unchanged(ListTrees(e.catalog.playlists) -
                       {e.catalog.playlists[e.pid].songsById, e.catalog.playlists[e.pid].songsByPlays})
    requires e.catalog.playlists[e.pid].Valid()
    ensures ListsOk(e.catalog.playlists)
    ensures ListsOf(e.catalog.playlists) ==
            old(ListsOf(e.catalog.playlists))[e.pid := e.catalog.playlists[e.pid].Songs()]
  {
    var playlists := e.catalog.playlists;
    var p := playlists[e.pid];
    forall q | q in playlists && q != e.pid
      ensures playlists[q].Valid() && playlists[q].Songs() == old(playlists[q].Songs())
    {
      assert playlists[q].songsById in ListTrees(playlists) - {p.songsById, p.songsByPlays};
      assert playlists[q].songsByPlays in ListTrees(playlists) - {p.songsById, p.songsByPlays};
      assert old(playlists[q].Valid());
    }
  }

  class DSpotify {
    var songs: map<int, Song>
    var playlists: map<int, Playlist>
    /** Song::PlaysCompare, the order of every playlist's plays index. */
    const playsKey: SongRef -> int

    /** The abstract state of the catalog. */
    ghost function Abstract(): State
      reads this, songs.Values, SongTrees(songs), ListTrees(playlists)
    {
      AbstractOf(songs, playlists)
    }

    ghost predicate Valid()
      reads this, songs.Values, SongTrees(songs), ListTrees(playlists)
    {
      CatalogOk(songs, playlists, playsKey)
    }

    /** DSpotify(): no songs and no playlists. */
    constructor (playsKey: SongRef -> int)
      ensures Valid() && Abstract() == State(map[], map[], map[])
      ensures this.playsKey == playsKey
    {
      songs := map[];
      playlists := map[];
      this.playsKey := playsKey;
    }

    /** findSong: the song stored under `songId`, if any. */
    function FindSong(songId: int): (r: Option<Song>)
      reads this
      ensures r.Some? <==> songId in songs
      ensures r.Some? ==> r.value == songs[songId]
    {
      if songId in songs then Some(songs[songId]) else None
    }

    /** findPlaylist: the playlist stored under `playlistId`, if any. */
    function FindPlaylist(playlistId: int): (r: Option<Playlist>)
      reads this
      ensures r.Some? <==> playlistId in playlists
      ensures r.Some? ==> r.value == playlists[playlistId]
    {
      if playlistId in playlists then Some(playlists[playlistId]) else None
    }

    /** add_playlist: a new empty playlist under a fresh positive id. */
    method AddPlaylist(playlistId: int) returns (st: StatusType)
      requires Valid()
      modifies this
      ensures Valid() && songs == old(songs)
      ensures st == INVALID_INPUT <==> playlistId <= 0
      ensures st == FAILURE <==> playlistId > 0 && playlistId in old(Abstract()).lists
      ensures st == SUCCESS || st == INVALID_INPUT || st == FAILURE
      ensures Abstract() == if st == SUCCESS then AddPlaylistStep(old(Abstract()), playlistId) else old(Abstract())
    {
      if playlistId <= 0 {
        return INVALID_INPUT;
      }
      if FindPlaylist(playlistId).Some? {
        return FAILURE;
      }
      ghost var c := Abstract();
      var p := new Playlist(playlistId, playsKey);
      KeepSongs(songs);
      KeepPlaylists(playlists);
      AddPlaylistKeeps(c, playlistId);
      StorePlaylist(p);
      st := SUCCESS;
    }

    /** Storing a new valid playlist, with trees of its own, under its id. */
    method StorePlaylist(p: Playlist)
      requires SongsOk(songs) && ListsOk(playlists) && SortedBy(playlists, playsKey)
      requires p.id > 0 && p.id !in playlists && p.Valid() && p.PlaysKey() == playsKey
      requires p.songsById !in ListTrees(playlists) && p.songsByPlays !in ListTrees(playlists)
      modifies this`playlists
      ensures playlists == old(playlists)[p.id := p]
      ensures ListsOk(playlists) && SortedBy(playlists, playsKey)
      ensures ListsOf(playlists) == old(ListsOf(playlists))[p.id := p.Songs()]
      ensures SongsOk(songs) && PlaysOf(songs) == old(PlaysOf(songs)) && MembersOf(songs) == old(MembersOf(songs))
    {
      ListsStore(playlists, p);
      playlists := playlists[p.id := p];
      KeepSongs(songs);
      KeepPlaylists(playlists);
    }

    /** delete_playlist: only an existing playlist with no songs is deleted. */
    method DeletePlaylist(playlistId: int) returns (st: StatusType)
      requires Valid()
      modifies this
      ensures Valid() && songs == old(songs)
      ensures st == INVALID_INPUT <==> playlistId <= 0
      ensures st == SUCCESS <==>
              playlistId > 0 && playlistId in old(Abstract()).lists && old(Abstract()).lists[playlistId] == {}
      ensures st == SUCCESS || st == INVALID_INPUT || st == FAILURE
      ensures Abstract() == if st == SUCCESS then DeletePlaylistStep(old(Abstract()), playlistId) else old(Abstract())
    {
      if playlistId <= 0 {
        return INVALID_INPUT;
      }
      var playlist := FindPlaylist(playlistId);
      if playlist.None? {
        return FAILURE;
      }
      if playlist.value.GetSongCount() > 0 {
        return FAILURE;
      }
      ghost var c := Abstract();
      DeletePlaylistKeeps(c, playlistId);
      DropPlaylist(playlistId);
      st := SUCCESS;
    }

    /** Forgetting the playlist stored under `playlistId`. */
    method DropPlaylist(playlistId: int)
      requires SongsOk(songs) && ListsOk(playlists) && SortedBy(playlists, playsKey)
      modifies this`playlists
      ensures playlists == old(playlists) - {playlistId}
      ensures ListsOk(playlists) && SortedBy(playlists, playsKey)
      ensures ListsOf(playlists) == old(ListsOf(playlists)) - {playlistId}
      ensures SongsOk(songs) && PlaysOf(songs) == old(PlaysOf(songs)) && MembersOf(songs) == old(MembersOf(songs))
    {
      ListsDrop(playlists, playlistId);
      playlists := playlists - {playlistId};
      KeepSongs(songs);
      KeepPlaylists(playlists);
    }

    /** add_song: a new song, in no playlist, under a fresh positive id with a non-negative play count. */
    method AddSong(songId: int, plays: int) returns (st: StatusType)
      requires Valid()
      modifies this
      ensures Valid() && playlists == old(playlists)
      ensures st == INVALID_INPUT <==> songId <= 0 || plays < 0
      ensures st == FAILURE <==> songId > 0 && plays >= 0 && songId in old(Abstract()).plays
      ensures st == SUCCESS || st == INVALID_INPUT || st == FAILURE
      ensures Abstract() == if st == SUCCESS then AddSongStep(old(Abstract()), songId, plays) else old(Abstract())
    {
      if songId <= 0 || plays < 0 {
        return INVALID_INPUT;
      }
      if FindSong(songId).Some? {
        return FAILURE;
      }
      ghost var c := Abstract();
      var s := new Song(songId, plays);
      KeepSongs(songs);
      KeepPlaylists(playlists);
      AddSongKeeps(c, songId, plays);
      StoreSong(s);
      st := SUCCESS;
    }

    /** Storing a new valid song, with a membership tree of its own, under its id. */
    method StoreSong(s: Song)
      requires SongsOk(songs) && ListsOk(playlists)
      requires s.id > 0 && s.id !in songs && s.Valid() && s.playlists !in SongTrees(songs)
      modifies this`songs
      ensures songs == old(songs)[s.id := s]
      ensures SongsOk(songs) && ListsOk(playlists) && ListsOf(playlists) == old(ListsOf(playlists))
      ensures PlaysOf(songs) == old(PlaysOf(songs))[s.id := s.plays]
      ensures MembersOf(songs) == old(MembersOf(songs))[s.id := s.Memberships()]
    {
      SongsStore(songs, s);
      SongsStoreMaps(songs, s);
      songs := songs[s.id := s];
      KeepSongs(songs);
      KeepPlaylists(playlists);
    }

    /** delete_song: only an existing song in no playlist is deleted. */
    method DeleteSong(songId: int) returns (st: StatusType)
      requires Valid()
      modifies this
      ensures Valid() && playlists == old(playlists)
      ensures st == INVALID_INPUT <==> songId <= 0
      ensures st == SUCCESS <==>
              songId > 0 && songId in old(Abstract()).plays && old(Abstract()).members[songId] == {}
      ensures st == SUCCESS || st == INVALID_INPUT || st == FAILURE
      ensures Abstract() == if st == SUCCESS then DeleteSongStep(old(Abstract()), songId) else old(Abstract())
    {
      if songId <= 0 {
        return INVALID_INPUT;
      }
      var song := FindSong(songId);
      if song.None? {
        return FAILURE;
      }
      if song.value.IsInAnyPlaylist() {
        return FAILURE;
      }
      ghost var c := Abstract();
      DeleteSongKeeps(c, songId);
      DropSong(songId);
      st := SUCCESS;
    }

    /** Forgetting the song stored under `songId`. */
    method DropSong(songId: int)
      requires SongsOk(songs) && ListsOk(playlists)
      modifies this`songs
      ensures songs == old(songs) - {songId}
      ensures SongsOk(songs) && ListsOk(playlists) && ListsOf(playlists) == old(ListsOf(playlists))
      ensures PlaysOf(songs) == old(PlaysOf(songs)) - {songId}
      ensures MembersOf(songs) == old(MembersOf(songs)) - {songId}
    {
      SongsDrop(songs, songId);
      songs := songs - {songId};
      KeepSongs(songs);
      KeepPlaylists(playlists);
    }

    /**
     * add_to_playlist: a catalog song joins a catalog playlist that does not
     * hold it yet; on success both the playlist and the song's memberships
     * record it.
     */
    method AddToPlaylist(playlistId: int, songId: int) returns (st: StatusType)
      requires Valid()
      modifies SongTrees(songs), ListTrees(playlists)
      ensures Valid()
      ensures st == INVALID_INPUT <==> playlistId <= 0 || songId <= 0
      ensures st == SUCCESS <==> playlistId > 0 && songId > 0 && CanAdd(old(Abstract()), playlistId, songId, playsKey)
      ensures st == SUCCESS || st == INVALID_INPUT || st == FAILURE
      ensures Abstract() ==
              if st == SUCCESS then AddToPlaylistStep(old(Abstract()), playlistId, songId) else old(Abstract())
    {
      if playlistId <= 0 || songId <= 0 {
        return INVALID_INPUT;
      }
      var song := FindSong(songId);
      var playlist := FindPlaylist(playlistId);
      if song.None? || playlist.None? {
        return FAILURE;
      }
      var s := song.value;
      var p := playlist.value;
      if p.ContainsSong(songId) {
        return FAILURE;
      }
      ghost var c := Abstract();
      var entry := SongRef(songId, s.plays);
      assert Entry(c, songId) == entry;
      st := AddEntry(playlistId, entry);
      if st == SUCCESS {
        ghost var lists := ListsOf(playlists);
        assert lists == AddToPlaylistStep(c, playlistId, songId).lists;
        AddMembership(songId, playlistId);
        assert MembersOf(songs) == AddToPlaylistStep(c, playlistId, songId).members;
        assert ListsOf(playlists) == lists;
        AddToPlaylistKeeps(c, playlistId, songId);
        assert Abstract() == AddToPlaylistStep(c, playlistId, songId);
      } else {
        assert ListsOf(playlists) == c.lists;
      }
      assert Abstract() == if st == SUCCESS then AddToPlaylistStep(c, playlistId, songId) else c;
    }

    /**
     * remove_from_playlist: a catalog song leaves a catalog playlist that
     * holds it; both the playlist and the song's memberships forget it.
     */
    method RemoveFromPlaylist(playlistId: int, songId: int) returns (st: StatusType)
      requires Valid()
      modifies SongTrees(songs), ListTrees(playlists)
      ensures Valid()
      ensures st == INVALID_INPUT <==> playlistId <= 0 || songId <= 0
      ensures st == SUCCESS <==>
              playlistId > 0 && songId > 0 && songId in old(Abstract()).plays && playlistId in old(Abstract()).lists &&
              playlistId in old(Abstract()).members[songId]
      ensures st == SUCCESS || st == INVALID_INPUT || st == FAILURE
      ensures Abstract() ==
              if st == SUCCESS then RemoveFromPlaylistStep(old(Abstract()), playlistId, songId) else old(Abstract())
    {
      if playlistId <= 0 || songId <= 0 {
        return INVALID_INPUT;
      }
      var song := FindSong(songId);
      var playlist := FindPlaylist(playlistId);
      if song.None? || playlist.None? {
        return FAILURE;
      }
      var s := song.value;
      var p := playlist.value;
      ghost var c := Abstract();
      MembershipIff(c, songId, playlistId);
      if !p.ContainsSong(songId) {
        return FAILURE;
      }
      EntriesById(c, playlistId, songId);
      st := DropEntry(playlistId, songId);
      DropMembership(songId, playlistId);
      RemoveFromPlaylistKeeps(c, playlistId, songId);
    }

    /** Playlist::addSong on playlist `playlistId`: only that playlist's songs change. */
    method AddEntry(playlistId: int, entry: SongRef) returns (st: StatusType)
      requires SongsOk(songs) && ListsOk(playlists) && SortedBy(playlists, playsKey) && playlistId in playlists
      modifies playlists[playlistId].songsById, playlists[playlistId].songsByPlays
      ensures SongsOk(songs) && PlaysOf(songs) == old(PlaysOf(songs)) && MembersOf(songs) == old(MembersOf(songs))
      ensures ListsOk(playlists)
      ensures st == SUCCESS || st == FAILURE
      ensures st == SUCCESS <==>
              !HasKey(old(ListsOf(playlists))[playlistId], entry.id, IdKey) &&
              !HasKey(old(ListsOf(playlists))[playlistId], playsKey(entry), playsKey)
      ensures ListsOf(playlists) ==
              if st == SUCCESS then old(ListsOf(playlists))[playlistId := old(ListsOf(playlists))[playlistId] + {entry}]
              else old(ListsOf(playlists))
      ensures songs == old(songs) && playlists == old(playlists)
    {
      var p := playlists[playlistId];
      ghost var lists := ListsOf(playlists);
      assert lists[playlistId] == p.Songs() && p.PlaysKey() == playsKey;
      st := p.AddSong(entry);
      KeepSongs(songs);
      // No song changes here, so the song id of the Edit is not read.
      RetouchPlaylist(Edit(this, 0, playlistId));
      assert SongsOk(songs);
      assert PlaysOf(songs) == old(PlaysOf(songs));
      assert MembersOf(songs) == old(MembersOf(songs));
      assert ListsOk(playlists);
      assert songs == old(songs) && playlists == old(playlists);
      assert ListsOf(playlists) == lists[playlistId := p.Songs()];
      UpdateList(lists, playlistId, p.Songs(), st == SUCCESS, entry);
      assert st == SUCCESS || st == FAILURE;
      assert st == SUCCESS <==>
             !HasKey(lists[playlistId], entry.id, IdKey) && !HasKey(lists[playlistId], playsKey(entry), playsKey);
    }

    /** Playlist::removeSong on playlist `playlistId`: only that playlist's songs change. */
    method DropEntry(playlistId: int, songId: int) returns (st: StatusType)
      requires SongsOk(songs) && ListsOk(playlists) && playlistId in playlists
      modifies playlists[playlistId].songsById, playlists[playlistId].songsByPlays
      ensures SongsOk(songs) && PlaysOf(songs) == old(PlaysOf(songs)) && MembersOf(songs) == old(MembersOf(songs))
      ensures ListsOk(playlists)
      ensures st == SUCCESS || st == FAILURE
      ensures st == SUCCESS <==> HasKey(old(ListsOf(playlists))[playlistId], songId, IdKey)
      ensures ListsOf(playlists) ==
              old(ListsOf(playlists))[playlistId := set e | e in old(ListsOf(playlists))[playlistId] && e.id != songId]
      ensures songs == old(songs) && playlists == old(playlists)
    {
      var p := playlists[playlistId];
      st := p.RemoveSong(songId);
      KeepSongs(songs);
      RetouchPlaylist(Edit(this, songId, playlistId));
    }

    /** Song::addToPlaylist on song `songId`: only that song's memberships change. */
    method AddMembership(songId: int, playlistId: int)
      requires SongsOk(songs) && ListsOk(playlists) && songId in songs
      modifies songs[songId].playlists
      ensures ListsOk(playlists) && ListsOf(playlists) == old(ListsOf(playlists))
      ensures SongsOk(songs)
      ensures PlaysOf(songs) == old(PlaysOf(songs))
      ensures MembersOf(songs) == old(MembersOf(songs))[songId := old(MembersOf(songs))[songId] + {playlistId}]
      ensures songs == old(songs) && playlists == old(playlists)
    {
      var s := songs[songId];
      s.AddToPlaylist(playlistId);
      KeepPlaylists(playlists);
      RetouchSong(Edit(this, songId, playlistId));
      RetouchMembers(Edit(this, songId, playlistId));
    }

    /** Song::removeFromPlaylist on song `songId`: only that song's memberships change. */
    method DropMembership(songId: int, playlistId: int)
      requires SongsOk(songs) && ListsOk(playlists) && songId in songs
      modifies songs[songId].playlists
      ensures ListsOk(playlists) && ListsOf(playlists) == old(ListsOf(playlists))
      ensures SongsOk(songs)
      ensures PlaysOf(songs) == old(PlaysOf(songs))
      ensures MembersOf(songs) == old(MembersOf(songs))[songId := old(MembersOf(songs))[songId] - {playlistId}]
      ensures songs == old(songs) && playlists == old(playlists)
    {
      var s := songs[songId];
      s.RemoveFromPlaylist(playlistId);
      KeepPlaylists(playlists);
      RetouchSong(Edit(this, songId, playlistId));
      RetouchMembers(Edit(this, songId, playlistId));
    }

    /** get_plays: the play count of an existing song. */
    function GetPlays(songId: int): (r: Output<int>)
      reads this, songs.Values, SongTrees(songs), ListTrees(playlists)
      requires Valid()
      ensures r.Status() == INVALID_INPUT <==> songId <= 0
      ensures r.Value? <==> songId > 0 && songId in Abstract().plays
      ensures r.Value? ==> r.ans == Abstract().plays[songId]
      ensures r.Status() == FAILURE <==> songId > 0 && songId !in Abstract().plays
      ensures r.Error? ==> r.code == INVALID_INPUT || r.code == FAILURE
    {
      if songId <= 0 then Error(INVALID_INPUT)
      else
        var song := FindSong(songId);
        if song.None? then Error(FAILURE)
        else Value(song.value.GetPlays())
    }

    /** get_num_songs: the number of songs of an existing playlist. */
    function GetNumSongs(playlistId: int): (r: Output<int>)
      reads this, songs.Values, SongTrees(songs), ListTrees(playlists)
      requires Valid()
      ensures r.Status() == INVALID_INPUT <==> playlistId <= 0
      ensures r.Value? <==> playlistId > 0 && playlistId in Abstract().lists
      ensures r.Value? ==> r.ans == |Abstract().lists[playlistId]|
      ensures r.Status() == FAILURE <==> playlistId > 0 && playlistId !in Abstract().lists
      ensures r.Error? ==> r.code == INVALID_INPUT || r.code == FAILURE
    {
      if playlistId <= 0 then Error(INVALID_INPUT)
      else
        var playlist := FindPlaylist(playlistId);
        if playlist.None? then Error(FAILURE)
        else Value(playlist.value.GetSongCount())
    }

    /**
     * get_by_plays: the id of the song of an existing playlist that
     * getSongWithClosestPlays returns, the one with the least plays key at or
     * above that of the probe song; FAILURE when there is none.
     */
    function GetByPlays(playlistId: int, plays: int): (r: Output<int>)
      reads this, songs.Values, SongTrees(songs), ListTrees(playlists)
      requires Valid()
      ensures r.Status() == INVALID_INPUT <==> playlistId <= 0 || plays < 0
      ensures r.Value? <==>
              playlistId > 0 && plays >= 0 && playlistId in Abstract().lists &&
              !Below(Abstract().lists[playlistId], playsKey(Probe(plays)), playsKey)
      ensures r.Value? ==>
              exists e :: IsCeiling(Abstract().lists[playlistId], Probe(plays), e, playsKey) && e.id == r.ans
      ensures r.Status() == FAILURE <==>
              playlistId > 0 && plays >= 0 &&
              (playlistId !in Abstract().lists || Below(Abstract().lists[playlistId], playsKey(Probe(plays)), playsKey))
      ensures r.Error? ==> r.code == INVALID_INPUT || r.code == FAILURE
    {
      if playlistId <= 0 || plays < 0 then Error(INVALID_INPUT)
      else
        var playlist := FindPlaylist(playlistId);
        if playlist.None? then Error(FAILURE)
        else
          var song := playlist.value.GetSongWithClosestPlays(plays);
          if song.None? then Error(FAILURE)
          else Value(song.value.id)
    }

    /**
     * unite_playlists, as far as its checks go: the status it answers with
     * before the merge (whose placeholder always succeeds).
     */
    function UnitePlaylistsStatus(playlistId1: int, playlistId2: int): (st: StatusType)
      reads this
      ensures st == INVALID_INPUT <==> playlistId1 <= 0 || playlistId2 <= 0 || playlistId1 == playlistId2
      ensures st == FAILURE <==>
              playlistId1 > 0 && playlistId2 > 0 && playlistId1 != playlistId2 &&
              (playlistId1 !in playlists || playlistId2 !in playlists)
      ensures st == SUCCESS || st == INVALID_INPUT || st == FAILURE
    {
      if playlistId1 <= 0 || playlistId2 <= 0 || playlistId1 == playlistId2 then INVALID_INPUT
      else if FindPlaylist(playlistId1).None? || FindPlaylist(playlistId2).None? then FAILURE
      else SUCCESS
    }
  }
}
