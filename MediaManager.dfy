/** The view state of the browser page src/pages/MediaManager.tsx: the
    playlists on screen, the selected playlist, the selected media item and
    the text of the "new playlist" field. Each handler is one transition of
    this state. What the server answers is a parameter: `None` when the
    request fails (the handler's catch branch, which only shows a toast). */
module MediaManager {
  import opened Options
  import opened Text
  import opened PlaylistServer
  import opened SortablePlaylist

  /** `currentPlaylist?.items[currentMediaIndex]?.id`. */
  function CurrentItemId(items: seq<MediaItem>, mediaIndex: int): (id: Option<string>)
    ensures id.Some? <==> 0 <= mediaIndex < |items|
    ensures id.Some? ==> id.value == items[mediaIndex].id
  {
    if 0 <= mediaIndex < |items| then Some(items[mediaIndex].id) else None
  }

  /** The selected playlist's index after the playlist at `index` is
      removed (lines 103-108). */
  function IndexAfterDelete(current: int, index: int): (r: int)
    ensures 0 <= index && 0 <= current ==> 0 <= r <= current
    ensures current - 1 <= r
    ensures r < current <==> index < current || 0 < index == current
  {
    if index == current then (if index - 1 > 0 then index - 1 else 0)
    else if index < current then current - 1
    else current
  }

  /** Deleting another playlist keeps the same playlist selected; deleting the
      selected one selects its predecessor (or the first), and the index is
      in range of what is left whenever anything is left. */
  lemma DeleteKeepsSelection(playlists: seq<Playlist>, current: int, index: nat)
    requires index < |playlists| && 0 <= current < |playlists|
    ensures var r, rest := IndexAfterDelete(current, index), RemoveAt(playlists, index);
      && 0 <= r && (r < |rest| || (r == 0 && rest == []))
      && (index != current ==> rest[r] == playlists[current])
      && (index == current && 0 < index ==> rest[r] == playlists[index - 1])
  {
  }

  /** The media index after a reorder to `newItems` (lines 166, 185-188): the
      first position of the previously current item's id, or 0 when that id
      is gone; unchanged when there was no current item (an empty id counts
      as none) or the new list is empty. */
  function MediaIndexAfterSort(items: seq<MediaItem>, mediaIndex: int, newItems: seq<MediaItem>): (r: int)
    ensures !(0 <= mediaIndex < |items| && items[mediaIndex].id != []) || newItems == [] ==> r == mediaIndex
    ensures 0 <= mediaIndex < |items| && items[mediaIndex].id != [] && newItems != [] ==>
      var id := items[mediaIndex].id;
      && (id in Ids(newItems) ==>
            0 <= r < |newItems| && newItems[r].id == id && forall i :: 0 <= i < r ==> newItems[i].id != id)
      && (id !in Ids(newItems) ==> r == 0)
  {
    var id := CurrentItemId(items, mediaIndex);
    if id.Some? && id.value != [] && |newItems| > 0 then
      var k := FindIndex(newItems, id.value);
      if k >= 0 then k else 0
    else mediaIndex
  }

  /** After a reorder that is a permutation, the same item stays selected;
      among equal ids the first is chosen. */
  lemma SortKeepsCurrentItem(items: seq<MediaItem>, mediaIndex: int, newItems: seq<MediaItem>)
    requires 0 <= mediaIndex < |items| && items[mediaIndex].id != []
    requires multiset(newItems) == multiset(items)
    ensures var r := MediaIndexAfterSort(items, mediaIndex, newItems);
      && 0 <= r < |newItems| && newItems[r].id == items[mediaIndex].id
      && forall i :: 0 <= i < r ==> newItems[i].id != items[mediaIndex].id
  {
    var x := items[mediaIndex];
    assert x in multiset(items);
    var j :| 0 <= j < |newItems| && newItems[j] == x;
    assert Ids(newItems)[j] == x.id;
  }

  /** A drag followed by the sort-end handler keeps the dragged-over list's
      current item selected. */
  lemma DragKeepsCurrentItem(items: seq<MediaItem>, mediaIndex: int, activeId: string, overId: string)
    requires activeId in Ids(items) && overId in Ids(items) && activeId != overId
    requires 0 <= mediaIndex < |items| && items[mediaIndex].id != []
    ensures var moved := DragEnd(items, activeId, Some(overId));
      && moved.Some?
      && var r := MediaIndexAfterSort(items, mediaIndex, moved.value);
      0 <= r < |items| && moved.value[r].id == items[mediaIndex].id
  {
    SortKeepsCurrentItem(items, mediaIndex, DragEnd(items, activeId, Some(overId)).value);
  }

  /** `handlePrevious`: one step back, never below 0. */
  function PreviousIndex(mediaIndex: int): (r: int)
    ensures 0 <= mediaIndex ==> 0 <= r <= mediaIndex
    ensures mediaIndex - 1 <= r <= mediaIndex
    ensures r != mediaIndex <==> mediaIndex > 0
  {
    if mediaIndex > 0 then mediaIndex - 1 else mediaIndex
  }

  /** `handleNext`: one step forward, never past the last item. */
  function NextIndex(mediaIndex: int, count: nat): (r: int)
    ensures 0 <= mediaIndex < count ==> 0 <= r < count
    ensures mediaIndex <= r <= mediaIndex + 1
    ensures r != mediaIndex <==> mediaIndex < count - 1
  {
    if mediaIndex < count - 1 then mediaIndex + 1 else mediaIndex
  }

  /** Stepping keeps a media index inside the list; from index 0 an empty
      list never moves it. */
  lemma SteppingStaysInRange(mediaIndex: int, count: nat)
    ensures 0 <= mediaIndex < count ==>
      0 <= PreviousIndex(mediaIndex) < count && 0 <= NextIndex(mediaIndex, count) < count
    ensures 0 <= mediaIndex ==> 0 <= PreviousIndex(mediaIndex) && 0 <= NextIndex(mediaIndex, count)
    ensures count == 0 && mediaIndex == 0 ==> NextIndex(mediaIndex, count) == 0 && PreviousIndex(mediaIndex) == 0
  {
  }

  class Manager {
    var playlists: seq<Playlist>
    var currentPlaylistIndex: int
    var currentMediaIndex: int
    var newPlaylistName: string
    var isCreateDialogOpen: bool
    var isLoading: bool

    /** The selected playlist index is a position of the list, or 0 when the
        list is empty; the media index is never negative. */
    ghost predicate Valid()
      reads this
    {
      && 0 <= currentPlaylistIndex
      && (currentPlaylistIndex < |playlists| || currentPlaylistIndex == 0)
      && 0 <= currentMediaIndex
    }

    /** The media index is a position of the selected playlist's items, or
        0. The handlers keep this as long as the server answers with the
        playlist the request described. */
    ghost predicate MediaInRange()
      reads this
    {
      || currentMediaIndex == 0
      || (0 <= currentPlaylistIndex < |playlists| && currentMediaIndex < |playlists[currentPlaylistIndex].items|)
    }

    /** The state `useState` gives on mount. */
    constructor ()
      ensures playlists == [] && currentPlaylistIndex == 0 && currentMediaIndex == 0
      ensures newPlaylistName == [] && !isCreateDialogOpen && isLoading
      ensures Valid() && MediaInRange()
    {
      playlists := [];
      currentPlaylistIndex := 0;
      currentMediaIndex := 0;
      newPlaylistName := [];
      isCreateDialogOpen := false;
      isLoading := true;
    }

    /** `loadPlaylists` (lines 37-58): `fetched` is what GET /api/playlists
        returned and `created` what creating "Default Playlist" returned. An
        empty fetch puts the default playlist in its place. */
    method LoadPlaylists(fetched: Option<seq<Playlist>>, created: Option<Playlist>)
      requires Valid()
      modifies this
      ensures !isLoading
      ensures fetched.Some? && fetched.value != [] ==> playlists == fetched.value
      ensures fetched == Some([]) && created.Some? ==> playlists == [created.value]
      ensures fetched.None? || (fetched == Some([]) && created.None?) ==> playlists == old(playlists)
      ensures currentPlaylistIndex == old(currentPlaylistIndex) && currentMediaIndex == old(currentMediaIndex)
      ensures newPlaylistName == old(newPlaylistName) && isCreateDialogOpen == old(isCreateDialogOpen)
      ensures old(currentPlaylistIndex) == 0 ==> Valid()
      ensures old(currentMediaIndex) == 0 ==> MediaInRange()
    {
      isLoading := true;
      if fetched.Some? {
        if fetched.value == [] {
          if created.Some? {
            playlists := [created.value];
          }
        } else {
          playlists := fetched.value;
        }
      }
      isLoading := false;
    }

    /** `handleCreatePlaylist` (lines 63-89): nothing is sent unless the
        trimmed name is non-empty; a created playlist is appended at the end,
        the field is cleared and the dialog closed. */
    method CreatePlaylist(created: Option<Playlist>) returns (attempted: bool)
      requires Valid()
      modifies this
      ensures attempted <==> !IsBlank(old(newPlaylistName))
      ensures attempted && created.Some? ==>
        && playlists == old(playlists) + [created.value]
        && newPlaylistName == [] && !isCreateDialogOpen
      ensures !attempted || created.None? ==>
        playlists == old(playlists) && newPlaylistName == old(newPlaylistName)
        && isCreateDialogOpen == old(isCreateDialogOpen)
      ensures currentPlaylistIndex == old(currentPlaylistIndex) && currentMediaIndex == old(currentMediaIndex)
      ensures isLoading == old(isLoading)
      ensures Valid()
      ensures old(MediaInRange()) ==> MediaInRange()
    {
      attempted := !IsBlank(newPlaylistName);
      if attempted && created.Some? {
        playlists := playlists + [created.value];
        newPlaylistName := [];
        isCreateDialogOpen := false;
      }
    }

    /** `deletePlaylist(index)` (lines 91-121) for a row of the carousel;
        `removed` says whether the server deleted it. */
    method DeletePlaylist(index: nat, removed: bool)
      requires Valid() && index < |playlists|
      modifies this
      ensures !removed ==>
        playlists == old(playlists) && currentPlaylistIndex == old(currentPlaylistIndex)
        && currentMediaIndex == old(currentMediaIndex)
      ensures removed ==>
        && playlists == RemoveAt(old(playlists), index)
        && currentPlaylistIndex == IndexAfterDelete(old(currentPlaylistIndex), index)
        && currentMediaIndex == (if index == old(currentPlaylistIndex) then 0 else old(currentMediaIndex))
      ensures removed && index != old(currentPlaylistIndex) && old(currentPlaylistIndex) < old(|playlists|) ==>
        playlists[currentPlaylistIndex] == old(playlists[currentPlaylistIndex])
      ensures newPlaylistName == old(newPlaylistName) && isCreateDialogOpen == old(isCreateDialogOpen)
      ensures isLoading == old(isLoading)
      ensures Valid()
      ensures old(MediaInRange()) ==> MediaInRange()
    {
      if removed {
        var current := currentPlaylistIndex;
        if current < |playlists| {
          DeleteKeepsSelection(playlists, current, index);
        }
        playlists := RemoveAt(playlists, index);
        if index == current {
          currentPlaylistIndex := if index - 1 > 0 then index - 1 else 0;
          currentMediaIndex := 0;
        } else if index < current {
          currentPlaylistIndex := current - 1;
        }
      }
    }

    /** `handleUpload` (lines 123-161): `response` is the playlist that adding
        the uploaded items returned. With no playlist nothing is sent;
        otherwise only the selected slot is replaced. */
    method Upload(response: Option<Playlist>) returns (sent: bool)
      requires Valid()
      modifies this
      ensures sent <==> old(playlists) != []
      ensures sent && response.Some? ==>
        playlists == old(playlists)[old(currentPlaylistIndex) := response.value]
      ensures !sent || response.None? ==> playlists == old(playlists)
      ensures currentPlaylistIndex == old(currentPlaylistIndex) && currentMediaIndex == old(currentMediaIndex)
      ensures newPlaylistName == old(newPlaylistName) && isCreateDialogOpen == old(isCreateDialogOpen)
      ensures isLoading == old(isLoading)
      ensures Valid()
      ensures old(MediaInRange()) && old(currentPlaylistIndex < |playlists|)
        && (response.Some? ==> old(|playlists[currentPlaylistIndex].items|) <= |response.value.items|)
        ==> MediaInRange()
    {
      if playlists == [] {
        return false;
      }
      sent := true;
      if response.Some? {
        playlists := playlists[currentPlaylistIndex := response.value];
      }
    }

    /** `handleSortEnd(newItems)` (lines 163-201), called by the playlist strip,
        which is shown only while a playlist is selected; `response` is what
        the update request returned. */
    method SortEnd(newItems: seq<MediaItem>, response: Option<Playlist>)
      requires Valid() && currentPlaylistIndex < |playlists|
      modifies this
      ensures response.None? ==> playlists == old(playlists) && currentMediaIndex == old(currentMediaIndex)
      ensures response.Some? ==>
        && playlists == old(playlists)[old(currentPlaylistIndex) := response.value]
        && currentMediaIndex == MediaIndexAfterSort(old(playlists[currentPlaylistIndex].items), old(currentMediaIndex), newItems)
      ensures currentPlaylistIndex == old(currentPlaylistIndex)
      ensures newPlaylistName == old(newPlaylistName) && isCreateDialogOpen == old(isCreateDialogOpen)
      ensures isLoading == old(isLoading)
      ensures Valid()
      ensures old(MediaInRange())
        && (response.Some? ==> response.value.items == newItems && |newItems| == old(|playlists[currentPlaylistIndex].items|))
        ==> MediaInRange()
    {
      var currentItemId := CurrentItemId(playlists[currentPlaylistIndex].items, currentMediaIndex);
      if response.None? {
        return;
      }
      playlists := playlists[currentPlaylistIndex := response.value];
      if currentItemId.Some? && currentItemId.value != [] && |newItems| > 0 {
        var newIndex := FindIndex(newItems, currentItemId.value);
        currentMediaIndex := if newIndex >= 0 then newIndex else 0;
      }
    }

    /** `handlePrevious` (lines 203-207). */
    method Previous()
      requires Valid()
      modifies this
      ensures currentMediaIndex == PreviousIndex(old(currentMediaIndex))
      ensures playlists == old(playlists) && currentPlaylistIndex == old(currentPlaylistIndex)
      ensures newPlaylistName == old(newPlaylistName) && isCreateDialogOpen == old(isCreateDialogOpen)
      ensures isLoading == old(isLoading)
      ensures Valid()
      ensures old(MediaInRange()) ==> MediaInRange()
    {
      if currentMediaIndex > 0 {
        currentMediaIndex := currentMediaIndex - 1;
      }
    }

    /** `handleNext` (lines 209-213): no step without a selected playlist. */
    method Next()
      requires Valid()
      modifies this
      ensures old(currentPlaylistIndex) < old(|playlists|) ==>
        currentMediaIndex == NextIndex(old(currentMediaIndex), old(|playlists[currentPlaylistIndex].items|))
      ensures old(currentPlaylistIndex) >= old(|playlists|) ==> currentMediaIndex == old(currentMediaIndex)
      ensures playlists == old(playlists) && currentPlaylistIndex == old(currentPlaylistIndex)
      ensures newPlaylistName == old(newPlaylistName) && isCreateDialogOpen == old(isCreateDialogOpen)
      ensures isLoading == old(isLoading)
      ensures Valid()
      ensures old(MediaInRange()) ==> MediaInRange()
    {
      if currentPlaylistIndex < |playlists| && currentMediaIndex < |playlists[currentPlaylistIndex].items| - 1 {
        currentMediaIndex := currentMediaIndex + 1;
      }
    }

    /** The click on a playlist card (lines 272-275). */
    method SelectPlaylist(index: nat)
      requires Valid() && index < |playlists|
      modifies this
      ensures currentPlaylistIndex == index && currentMediaIndex == 0
      ensures playlists == old(playlists)
      ensures newPlaylistName == old(newPlaylistName) && isCreateDialogOpen == old(isCreateDialogOpen)
      ensures isLoading == old(isLoading)
      ensures Valid()
      ensures old(MediaInRange()) ==> MediaInRange()
    {
      currentPlaylistIndex := index;
      currentMediaIndex := 0;
    }

    /** The click on row `index` of the playlist strip (`onSelect`, line 323). */
    method SelectMedia(index: nat)
      requires Valid() && currentPlaylistIndex < |playlists| && index < |playlists[currentPlaylistIndex].items|
      modifies this
      ensures currentMediaIndex == index
      ensures playlists == old(playlists) && currentPlaylistIndex == old(currentPlaylistIndex)
      ensures newPlaylistName == old(newPlaylistName) && isCreateDialogOpen == old(isCreateDialogOpen)
      ensures isLoading == old(isLoading)
      ensures Valid()
      ensures old(MediaInRange()) ==> MediaInRange()
    {
      currentMediaIndex := index;
    }
  }
}
