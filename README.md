# DSpotify: a verified model of the catalog core

This project models the core of DSpotify, an in-memory music catalog written in C++. The model is in Dafny.

The catalog keeps songs and playlists under positive ids. A playlist holds songs in two AVL trees over the same songs: one ordered by song id, one ordered by play count. A song records the ids of the playlists that hold it, also in an AVL tree. Every catalog operation does three things, in this order:

1. It validates its arguments.
2. It looks up the objects it needs.
3. It changes them and answers with a `StatusType`.

The model has six modules:

- `AvlTrees` (avl_trees.dfy): the AVL algorithms common to both copies of the generic template. The tree is an inductive datatype with cached heights. Insertion, removal, the rotations, the two four-case rebalancing steps, find, closest match, in-order traversal and copy are pure recursive functions. The lemmas prove:
  - BST order;
  - correct cached heights;
  - balance factors in {-1, 0, 1};
  - the effect of each operation on the set of stored elements.
- `AvlHeader` (avl_header.dfy): the `AVLTree` class of AvLTree.h.
  - It owns a `root` and a `size` counter.
  - Its methods keep `size == |Contents(root)|`.
  - It also holds the as-written `findClosestHelper`, with a counterexample (see Findings).
- `AvlVariant` (avl_variant.dfy): the fuller `AVLTree` class of AVLTree.cpp.
  - `insertRec`/`removeRec` are recursive methods that bump `size` at the point where a node is created or deleted.
  - `insert`/`remove` compare the counter before and after.
  - It adds `minValueNode`, `findClosest`, `inOrder`, `clear`, copy and assignment.
- `Songs` (song.dfy): the `Song` class: an id, a play count and a membership tree.
- `Playlists` (playlist.dfy): the `Playlist` class with its two index trees.
  - `AddSong` adds to both trees or to neither, undoing the first insert when the second fails.
  - `RemoveSong` removes from both.
  - `Valid` states that both indexes hold the same set of songs.
- `Catalog` (dspotify.dfy): the `DSpotify` class and the abstract `State` it refines.
  - Every operation's contract gives the status it returns for every input.
  - Every contract gives the new abstract state as a transition function of the old one.
  - Lemmas prove that each transition the checks allow keeps the cross-object invariant `Consistent`: a song is in playlist p exactly when p is among the song's memberships, with the song's current play count.

Comparators are modelled as integer keys: `comp(a, b)` is `key(a) < key(b)`. Two elements are equivalent exactly when their keys are equal.

- `std::less<int>` is `IntKey`.
- `Song::IdCompare` is `IdKey`, which is ordering by id. song.h:29-32 declares it without a definition; the model takes the order every lookup by a dummy song with the wanted id relies on.
- `Song::PlaysCompare` is declared in song.h:34-37 but has no definition. It is the parameter `playsKey`: every playlist orders its plays index by it, and nothing else is assumed about it.

The catalog's trees of `Song*` and `Playlist*` ordered by id are modelled as maps from id to object. A playlist's trees hold `SongRef(id, plays)` values in place of pointers to the shared `Song` objects.

## Model

| member | source | states |
|---|---|---|
| AvlTrees.Height | AvLTree.h:82-84 | the height of an empty subtree is 0 and of a node its cached height; HeightsOk, kept by every operation, makes that one more than the larger child height |
| AvlTrees.BalanceFactor | AvLTree.h:87-89 | left height minus right height; Balanced, kept by every operation, bounds it to -1..1, and the rebalance lemmas choose their rotation from it |
| AvlTrees.UpdateHeight | AVLTree.cpp:29-34 | the node's cached height becomes one more than the larger child height (0 for an empty child); an empty subtree is unchanged; a correct node stays the same |
| AvlTrees.MkNode | AvLTree.h:146 | a node with a recomputed height holds its children's elements plus its own, and its heights are correct exactly when its children's are |
| AvlTrees.RotateRight | AvLTree.h:91-103 | the left child becomes the root with recomputed heights (lower node first); the in-order sequence and the element set are unchanged |
| AvlTrees.RotateLeft | AvLTree.h:105-117 | mirror image of RotateRight: the shape changes, the in-order sequence and the element set do not |
| AvlTrees.RotateRightValid | AvLTree.h:91-103 | a right rotation of an ordered node whose subtrees fit the AVL bounds yields a valid AVL tree |
| AvlTrees.RotateLeftValid | AvLTree.h:105-117 | a left rotation of an ordered node whose subtrees fit the AVL bounds yields a valid AVL tree |
| AvlTrees.RebalanceRemove | AvLTree.h:220-244 | the rebalancing chosen by the child's balance factor keeps the element set and the in-order sequence |
| AvlTrees.RebalanceLeftLeft | AvLTree.h:223-225 | a node two levels heavier on the left, with a left child leaning left or level, becomes valid after one right rotation and loses at most one level |
| AvlTrees.RebalanceLeftRight | AvLTree.h:228-231 | a node two levels heavier on the left, with a left child leaning right, has an inner grandchild, becomes valid after the double rotation and loses exactly one level |
| AvlTrees.RebalanceRightRight | AvLTree.h:234-236 | mirror image of RebalanceLeftLeft |
| AvlTrees.RebalanceRightLeft | AvLTree.h:239-242 | mirror image of RebalanceLeftRight |
| AvlTrees.RebalanceValid | AvLTree.h:214-244 | for a node whose children are valid and differ in height by at most two, the rebalancing yields a valid tree; it lowers the height by at most one; it does nothing to a balanced node |
| AvlTrees.RebalanceInsert | AvLTree.h:145-173 | the rebalancing chosen by the position of the inserted element keeps the element set |
| AvlTrees.InsertLeftBalance | AvLTree.h:149-171 | after an insertion on the left, the node leans at most two levels left, and then towards the side the element went to, so insertion picks the same rotation as removal would |
| AvlTrees.InsertRightBalance | AvLTree.h:149-171 | mirror image of InsertLeftBalance |
| AvlTrees.InsertLeftContents | AvLTree.h:135-136 | inserting into the left subtree adds the element to the node exactly when no equivalent element was in the node, and keeps it ordered |
| AvlTrees.InsertRightContents | AvLTree.h:137-138 | mirror image of InsertLeftContents |
| AvlTrees.InsertLeftStep | AvLTree.h:135-173 | one level of insertion going left keeps every invariant, adds the element exactly when it was absent, and grows the height by at most one and only on the side of the insertion |
| AvlTrees.InsertRightStep | AvLTree.h:137-173 | mirror image of InsertLeftStep |
| AvlTrees.InsertLeftUnfold | AvLTree.h:135-136 | one level of insertHelper going left equals rebalancing the node around the recursive result, and the guarded grandchild exists |
| AvlTrees.InsertRightUnfold | AvLTree.h:137-138 | mirror image of InsertLeftUnfold |
| AvlTrees.InsertHelper | AvLTree.h:127-174 | on a valid AVL tree: the result is valid; the flag is true exactly when no equivalent element was stored; the new set is the old one plus the element, or unchanged for a duplicate; a duplicate returns the tree itself; the height grows by at most one |
| AvlTrees.FindHelper | AvLTree.h:260-271 | a found element is stored and equivalent to the argument |
| AvlTrees.FindHelperSpec | AvLTree.h:260-271 | nothing is found exactly when no equivalent element is stored; otherwise the equivalent stored element is found |
| AvlTrees.KeysUnique | AvLTree.h:139-143 | an ordered tree never stores two equivalent elements |
| AvlTrees.Leftmost | AvLTree.h:247-253 | the leftmost element is a stored element |
| AvlTrees.LeftmostIsMin | AvLTree.h:247-253 | the leftmost element of an ordered tree is strictly below every other stored element |
| AvlTrees.RemoveHelper | AvLTree.h:184-245 | removeHelper (also AVLTree.cpp's removeRec); it has no contract of its own: RemoveValid and RemoveHelperSpec state that it keeps every invariant and removes exactly the equivalent element |
| AvlTrees.RemoveStep | AvLTree.h:214-244 | when each child of a node lost at most one level, the rebalanced node is valid, at most one level lower, and untouched when no child changed height |
| AvlTrees.RemoveLeftJoin | AvLTree.h:191-192 | removal from the left subtree, once it meets the removal contract for the subtree, meets it for the node |
| AvlTrees.RemoveLeftCase | AvLTree.h:191-192 | one level of removeHelper going left meets the removal contract |
| AvlTrees.RemoveRightJoin | AvLTree.h:193-194 | mirror image of RemoveLeftJoin |
| AvlTrees.RemoveRightCase | AvLTree.h:193-194 | mirror image of RemoveLeftCase |
| AvlTrees.RemoveOneChildJoin | AvLTree.h:198-206 | replacing a matching node that has at most one child by that child removes exactly the matching element and keeps every invariant |
| AvlTrees.RemoveOneChildCase | AvLTree.h:198-206 | removeHelper on a matching node with at most one child meets the removal contract |
| AvlTrees.RemoveTwoChildJoin | AvLTree.h:207-211 | a matching node with two children takes the least element of its right subtree, that element is removed from the right subtree, and exactly the matching element leaves the tree |
| AvlTrees.RemoveTwoChildCase | AvLTree.h:207-211 | removeHelper on a matching node with two children meets the removal contract |
| AvlTrees.RemoveValid | AvLTree.h:184-245 | on a valid AVL tree removeHelper keeps every invariant; its flag says whether an equivalent element was stored; exactly that element goes; an absent key leaves the tree as it was; the height drops by at most one |
| AvlTrees.RemoveHelperSpec | AvLTree.h:176-212 | after removal the tree is valid, the flag is true exactly when an equivalent element was stored, and the new set is the old one without the elements equivalent to the argument |
| AvlTrees.InsertRemoveInverse | AvLTree.h:119-212 | inserting an absent element and then removing it gives back the original element set |
| AvlTrees.FindClosestRec | AVLTree.cpp:209-227 | findClosestRec; its contract is carried by FindClosestRecSpec |
| AvlTrees.FindClosest | AVLTree.cpp:297-300 | findClosest from the root with no candidate; its contract is carried by FindClosestSpec and FindClosestExact |
| AvlTrees.FindClosestRecSpec | AVLTree.cpp:208-227 | findClosestRec returns the smallest element at or above the target among the subtree and the candidate so far, or nothing exactly when there is neither a candidate nor a stored element at or above the target |
| AvlTrees.FindClosestSpec | AVLTree.cpp:296-300 | findClosest returns the stored element with the smallest key at or above the target, or nothing exactly when every stored element is below it |
| AvlTrees.FindClosestExact | AVLTree.cpp:223-225 | when an equivalent element is stored, findClosest returns exactly that element |
| AvlTrees.InOrder | AVLTree.cpp:252-260 | the traversal visits as many elements as there are nodes |
| AvlTrees.InOrderContents | AVLTree.cpp:252-260 | the traversal visits exactly the stored elements |
| AvlTrees.InOrderSorted | AVLTree.cpp:252-260 | on an ordered tree the traversal is strictly ascending in the comparator, so no element is visited twice |
| AvlTrees.NodeCountIsSize | AvLTree.h:21 | in an ordered tree the number of nodes equals the number of stored elements |
| AvlTrees.CopyRec | AVLTree.cpp:239-250 | copyRec; its contract is carried by CopyRecIsIdentity |
| AvlTrees.CopyRecIsIdentity | AVLTree.cpp:238-250 | copyRec reproduces the elements, shape and cached heights of the tree |
| AvlHeader.AVLTree.constructor | AvLTree.h:52 | a new tree is empty, valid, with size 0 |
| AvlHeader.AVLTree.Insert | AvLTree.h:119-125 | insert succeeds exactly when no equivalent element was stored; the element set gains the element and size grows by one exactly then; a duplicate changes nothing; the AVL invariants and `size == |Contents|` are kept |
| AvlHeader.AVLTree.Remove | AvLTree.h:176-182 | remove succeeds exactly when an equivalent element was stored; that element leaves the set and size drops by one exactly then; an absent key changes nothing; the invariants are kept |
| AvlHeader.AVLTree.FindMin | AvLTree.h:247-253 | the loop walking left from a non-empty subtree ends at its leftmost element, the least element of an ordered subtree |
| AvlHeader.AVLTree.Find | AvLTree.h:255-258 | find returns nothing exactly when no equivalent element is stored, and otherwise a stored equivalent element |
| AvlHeader.AVLTree.Contains | AvLTree.h:312-315 | contains is true exactly when an equivalent element is stored |
| AvlHeader.AVLTree.FindClosest | AvLTree.h:273-277 | with the corrected search: the equivalent element when one is stored, else the least element above the target, else nothing exactly when every element is below it |
| AvlHeader.AVLTree.Begin | AvLTree.h:298-305 | begin yields nothing exactly for an empty tree and otherwise the least stored element |
| AvlHeader.AVLTree.IsEmpty | AvLTree.h:317-320 | the tree is empty exactly when it stores nothing, which is exactly when size is 0 |
| AvlHeader.AVLTree.GetSize | AvLTree.h:322-325 | size equals the number of stored elements and the number of nodes |
| AvlHeader.FindClosestHelper | AvLTree.h:279-296 | the as-written search returns the candidate passed in on an empty subtree and otherwise some element of the subtree |
| AvlHeader.FindClosestHelperMissesCeiling | AvLTree.h:279-296 | on a valid two-element tree the as-written search returns an element below the target, while the corrected search returns the least element above it |
| AvlVariant.AVLTree.constructor | AVLTree.cpp:263 | a new tree is empty, valid, with size 0 |
| AvlVariant.AVLTree.InsertRec | AVLTree.cpp:70-112 | the recursive insertion returns the rebalanced subtree and increments size once exactly when a new node is created |
| AvlVariant.AVLTree.Insert | AVLTree.cpp:272-276 | `size > oldSize` is true exactly when no equivalent element was stored; then the element is added and size grows by one; otherwise nothing changes |
| AvlVariant.AVLTree.MinValueNode | AVLTree.cpp:114-121 | the loop returns the leftmost node of a subtree, which holds its least element; an empty subtree gives an empty result |
| AvlVariant.AVLTree.RemoveRec | AVLTree.cpp:124-191 | the recursive removal returns the rebalanced subtree and decrements size once exactly when a node is deleted; in the two-child case that happens inside the recursive removal of the successor |
| AvlVariant.AVLTree.Remove | AVLTree.cpp:279-283 | `size < oldSize` is true exactly when an equivalent element was stored; then that element goes and size drops by one; otherwise nothing changes |
| AvlVariant.AVLTree.Contains | AVLTree.cpp:286-288 | contains is true exactly when an equivalent element is stored |
| AvlVariant.AVLTree.Find | AVLTree.cpp:291-294 | find returns nothing exactly when no equivalent element is stored, and otherwise a stored equivalent element |
| AvlVariant.AVLTree.FindClosest | AVLTree.cpp:297-300 | the equivalent element when one is stored, else the least element above the target, else nothing exactly when every element is below it |
| AvlVariant.AVLTree.Clear | AVLTree.cpp:303-307 | the tree becomes empty with size 0 and stays valid |
| AvlVariant.AVLTree.GetSize | AVLTree.cpp:310-312 | size equals the number of stored elements and the number of nodes |
| AvlVariant.AVLTree.IsEmpty | AVLTree.cpp:315-317 | `size == 0` is true exactly when the tree stores nothing and the root is empty |
| AvlVariant.AVLTree.InOrderRec | AVLTree.cpp:253-260 | the recursive traversal passes the elements to the callback in the in-order sequence |
| AvlVariant.AVLTree.InOrder | AVLTree.cpp:320-323 | the callback receives `size` elements, each stored, every stored element among them, in strictly ascending order |
| AvlVariant.AVLTree.Copy | AVLTree.cpp:326-329 | the copy has the same elements, shape, heights, size and order as the original |
| AvlVariant.AVLTree.Assign | AVLTree.cpp:332-339 | after assignment the tree equals the other tree; self-assignment leaves it as it was |
| Songs.Song.constructor | song.cpp:3 | a new song has the given id and plays and no memberships |
| Songs.Song.GetId | song.cpp:5-7 | the id, a constant of the object fixed by the constructor |
| Songs.Song.GetPlays | song.cpp:9-11 | the current play count, which the constructor sets and SetPlays replaces |
| Songs.Song.SetPlays | song.cpp:13-15 | getPlays returns the new play count; the id and memberships are constants of the object and stay |
| Songs.Song.AddToPlaylist | song.cpp:17-19 | the memberships become the old ones plus the playlist id, so adding an existing id changes nothing |
| Songs.Song.RemoveFromPlaylist | song.cpp:21-23 | the memberships become the old ones minus the playlist id, so removing an absent id changes nothing |
| Songs.Song.IsInPlaylist | song.cpp:25-27 | true exactly when the playlist id is a membership |
| Songs.Song.IsInAnyPlaylist | song.cpp:29-31 | true exactly when the membership set is non-empty |
| Songs.Song.Less | song.cpp:33-35 | songs are ordered by id alone; Equal states the equivalence it induces |
| Songs.Song.Equal | song.cpp:33-39 | two songs are equal exactly when neither is less than the other, that is, by id alone |
| Playlists.DropById | PlayList.cpp:29-39 | in a tree ordered by id, removing the found song removes every song with that id |
| Playlists.Playlist.constructor | PlayList.cpp:3 | a new playlist has the given id, two empty and distinct index trees, and the given plays order |
| Playlists.Playlist.GetId | PlayList.cpp:5-7 | the id, a constant of the object fixed by the constructor |
| Playlists.Playlist.PlaysKey | PlayList.h:11 | the order of the plays index, which the constructor ties to the catalog's plays order |
| Playlists.Playlist.GetSongCount | PlayList.cpp:9-11 | the size of the id index is the number of songs |
| Playlists.Playlist.AddSong | PlayList.cpp:13-27 | success exactly when no song with the same id and none with an equivalent plays key is present; then the song is in both indexes, otherwise both are as before; both indexes keep holding the same songs |
| Playlists.Playlist.RemoveSong | PlayList.cpp:29-43 | success exactly when a song with the id is present; every song with that id leaves both indexes; an absent id changes nothing; both indexes keep holding the same songs |
| Playlists.Playlist.ContainsSong | PlayList.cpp:45-48 | true exactly when the id index holds a song with that id |
| Playlists.Playlist.GetSongWithClosestPlays | PlayList.cpp:50-66 | nothing exactly when every song's plays key is below the probe's (in particular for an empty playlist); otherwise the song with the least plays key at or above the probe's |
| Playlists.Playlist.Less | PlayList.cpp:82-88 | playlists are ordered by id alone; EquivalentIffSameId states the equivalence it induces |
| Playlists.Playlist.EquivalentIffSameId | PlayList.cpp:82-88 | two playlists are equivalent under the id order exactly when their ids are equal |
| Catalog.MembershipIff | dspotify25b1.cpp:165-168 | in a consistent catalog, the playlist holds a song with the id exactly when the playlist is among the song's memberships, and then it holds the song's own entry |
| Catalog.EntriesById | dspotify25b1.cpp:233-235 | in a consistent catalog, removing every entry with the song's id from a playlist removes exactly the song's entry |
| Catalog.AddPlaylistKeeps | dspotify25b1.cpp:34-41 | adding an empty playlist under a new id keeps the catalog consistent |
| Catalog.DeletePlaylistKeeps | dspotify25b1.cpp:104-114 | deleting only an empty playlist keeps the catalog consistent |
| Catalog.AddSongKeeps | dspotify25b1.cpp:137-144 | adding a song under a new id, in no playlist, keeps the catalog consistent |
| Catalog.DeleteSongKeeps | dspotify25b1.cpp:194-204 | deleting only a song in no playlist keeps the catalog consistent |
| Catalog.AddToPlaylistKeeps | dspotify25b1.cpp:165-176 | adding a song's entry to a playlist without a song of its id, together with the membership, keeps the catalog consistent |
| Catalog.RemoveFromPlaylistKeeps | dspotify25b1.cpp:228-239 | removing a song's entry from a playlist, together with the membership, keeps the catalog consistent |
| Catalog.DSpotify.constructor | dspotify25b1.cpp:3-6 | a new catalog has no songs and no playlists and is valid |
| Catalog.DSpotify.FindSong | dspotify25b1.cpp:332-336 | the song stored under the id, or nothing exactly when there is none |
| Catalog.DSpotify.FindPlaylist | dspotify25b1.cpp:338-342 | the playlist stored under the id, or nothing exactly when there is none |
| Catalog.DSpotify.AddPlaylist | dspotify25b1.cpp:23-45 | INVALID_INPUT exactly for a non-positive id; FAILURE exactly for an existing id; otherwise SUCCESS with a new empty playlist and nothing else changed; the invariant is kept |
| Catalog.DSpotify.StorePlaylist | dspotify25b1.cpp:35-36 | storing a new valid playlist with trees of its own adds exactly its songs under its id |
| Catalog.DSpotify.DeletePlaylist | dspotify25b1.cpp:92-121 | INVALID_INPUT exactly for a non-positive id; SUCCESS exactly when the playlist exists and has no songs, and then it is gone; otherwise nothing changes |
| Catalog.DSpotify.DropPlaylist | dspotify25b1.cpp:111-113 | forgetting a playlist removes exactly its entry from the catalog |
| Catalog.DSpotify.AddSong | dspotify25b1.cpp:123-148 | INVALID_INPUT exactly for a non-positive id or negative plays; FAILURE exactly for an existing id; otherwise SUCCESS with a new song with those plays in no playlist; nothing else changes |
| Catalog.DSpotify.StoreSong | dspotify25b1.cpp:138-139 | storing a new valid song adds exactly its plays and empty memberships under its id |
| Catalog.DSpotify.DeleteSong | dspotify25b1.cpp:182-211 | INVALID_INPUT exactly for a non-positive id; SUCCESS exactly when the song exists and is in no playlist, and then it is gone; otherwise nothing changes |
| Catalog.DSpotify.DropSong | dspotify25b1.cpp:201-203 | forgetting a song removes exactly its plays and memberships |
| Catalog.DSpotify.AddToPlaylist | dspotify25b1.cpp:150-180 | INVALID_INPUT exactly for a non-positive id; SUCCESS exactly when both exist and the playlist accepts the song (no song of its id, none with an equivalent plays key); then the playlist holds the song and the song's memberships include the playlist; otherwise nothing changes |
| Catalog.DSpotify.AddEntry | dspotify25b1.cpp:172 | Playlist::addSong on one stored playlist changes only that playlist's songs, exactly as addSong promises |
| Catalog.DSpotify.AddMembership | dspotify25b1.cpp:173-175 | Song::addToPlaylist on one stored song changes only that song's memberships |
| Catalog.DSpotify.RemoveFromPlaylist | dspotify25b1.cpp:213-243 | INVALID_INPUT exactly for a non-positive id; SUCCESS exactly when both exist and the song is in the playlist; then both sides forget it; otherwise nothing changes |
| Catalog.DSpotify.DropEntry | dspotify25b1.cpp:235 | Playlist::removeSong on one stored playlist removes the entries with the id from that playlist only |
| Catalog.DSpotify.DropMembership | dspotify25b1.cpp:236-238 | Song::removeFromPlaylist on one stored song changes only that song's memberships |
| Catalog.DSpotify.GetPlays | dspotify25b1.cpp:245-261 | INVALID_INPUT exactly for a non-positive id; a value exactly for an existing song, and then its play count; FAILURE exactly for a positive id with no song; no other status |
| Catalog.DSpotify.GetNumSongs | dspotify25b1.cpp:287-301 | INVALID_INPUT exactly for a non-positive id; a value exactly for an existing playlist, and then its number of songs; FAILURE exactly for a positive id with no playlist; no other status |
| Catalog.DSpotify.GetByPlays | dspotify25b1.cpp:263-285 | INVALID_INPUT exactly for a non-positive id or negative plays; a value exactly when the playlist exists and has a song at or above the probe's plays key, and then the id of the song with the least such key; FAILURE exactly for valid arguments when the playlist is missing or every song is below the probe; no other status |
| Catalog.DSpotify.UnitePlaylistsStatus | dspotify25b1.cpp:303-316 | INVALID_INPUT exactly for non-positive or equal ids; FAILURE exactly when either playlist is missing; SUCCESS otherwise (the merge placeholder always succeeds) |

## Left out

- `add_plays` (dspotify25b1.cpp:47-90) is left out. Its re-indexing of the plays trees is commented out, and `currentPlays + additionalPlays` can overflow `int`. Without the re-indexing, the plays index of a playlist would disagree with the song's new play count.
- `Playlist::mergePlaylists` (PlayList.cpp:68-80) is left out. It is a placeholder that returns SUCCESS without merging.
- Catalog.DSpotify.UnitePlaylistsStatus: covers only the status `unite_playlists` returns. It leaves out the removal of the second playlist after the placeholder merge. That removal would leave the songs' memberships naming a deleted playlist.
- The `Iterator` of AvLTree.h is left out. Its `operator++` does nothing. So are the destructors that loop with it, and the `end()` member.
- Memory is left out: `new`/`delete`, `clearRec`, and the `bad_alloc` catch blocks.
  - `ALLOCATION_ERROR` is never produced.
  - Allocation in the model always succeeds.
- Node-level pointer rewiring is modelled on values. The rotations and recursive helpers rewrite `left`/`right`/`height` links in place; here they build new subtree values, which are stored back into `root`. Aliasing between nodes is therefore not modelled. Nor is the `*node = *temp` copy of a child into its parent.
- The catalog's `AVLTree<Song*, Song::IdCompare>` and `AVLTree<Playlist*, Playlist::IdCompare>` are modelled as maps keyed by id, not as instances of the tree class.
- The `Song*` pointers shared between the catalog and the playlists' trees are modelled as `SongRef(id, plays)` values.
- The dummy `Song` and `Playlist` objects that `findSong`, `findPlaylist`, `removeSong` and `containsSong` build for lookups are modelled as the key they carry.
- The lookup `insert`/`remove` calls of `add_song`, `add_playlist`, `delete_song` and `delete_playlist` cannot fail once the preceding checks passed. Their FAILURE branches are therefore not modelled separately.
- `Song::PlaysCompare` is declared in song.h:34-37 but never defined. The model makes it an arbitrary integer key, `playsKey`, with no tie-break by id.
- `int` widths are not modelled; every integer is unbounded. No operation in the model does arithmetic on ids or play counts. The only counters, `size`, never exceed the number of stored elements.
- Playlists.Playlist.GetSongWithClosestPlays and Catalog.DSpotify.GetByPlays: they use the searching behaviour of AVLTree.cpp's `findClosestRec`, not AvLTree.h's `findClosestHelper`, which is the one these classes actually compile against (see Findings).
- AvlHeader.AVLTree.FindClosest: as above, it uses the corrected search.

## Findings

| source | as written | input that shows it | evidently intended | confidence | as-written member | corrected member |
|---|---|---|---|---|---|---|
| AvLTree.h:279-296 | `findClosestHelper` overwrites `closest` with every node on the search path (line 287), so it returns the exact match or else the last node visited, on either side of the target | integers 10 and 20 stored, 20 at the root and 10 as its left child; `findClosest(15)` returns 10 | the least stored element at or above the target (20 here), as AVLTree.cpp's `findClosestRec` computes and as `getSongWithClosestPlays` expects | not executed | AvlHeader.FindClosestHelperMissesCeiling | AvlHeader.AVLTree.FindClosest |
