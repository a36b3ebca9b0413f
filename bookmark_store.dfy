/** The bookmark list store and its persistence: load_bookmarks appends the
    file's records to the store, save_bookmarks rewrites the whole file from
    the store, and add_bookmark / delete_bookmark change the list and then
    save it. Whether fopen succeeds is a parameter (`canOpen`). */
module BookmarkStore {
  import opened CStrings
  import opened BookmarkFormat

  /** The bookmarks file, tinyweb_bookmarks.txt, as its whole text. */
  class BookmarkFile {
    var contents: string

    constructor (contents: string)
      ensures this.contents == contents
    {
      this.contents := contents;
    }
  }

  /** The record add_bookmark appends for the page at `uri`: the page title
      when the page has one, the uri otherwise. */
  function NewBookmark(uri: string, title: Option<string>): Bookmark {
    Bookmark(if title.Some? then title.value else uri, uri)
  }

  /** The list with the row at `i` removed (gtk_list_store_remove). */
  function Removed(bs: seq<Bookmark>, i: nat): (r: seq<Bookmark>)
    requires i < |bs|
    ensures |r| == |bs| - 1
    ensures forall j :: 0 <= j < i ==> r[j] == bs[j]
    ensures forall j :: i <= j < |r| ==> r[j] == bs[j + 1]
  {
    bs[..i] + bs[i + 1..]
  }

  /** Removing a row takes exactly that row out of the list's multiset. */
  lemma RemovedMultiset(bs: seq<Bookmark>, i: nat)
    requires i < |bs|
    ensures multiset(Removed(bs, i)) + multiset{bs[i]} == multiset(bs)
  {
    assert bs == bs[..i] + [bs[i]] + bs[i + 1..];
  }

  /** Deleting the row that was just added restores the list. */
  lemma RemoveUndoesAdd(bs: seq<Bookmark>, uri: string, title: Option<string>)
    ensures Removed(bs + [NewBookmark(uri, title)], |bs|) == bs
  {
    assert (bs + [NewBookmark(uri, title)])[..|bs|] == bs;
  }

  /** The GtkListStore of bookmarks, in display order. */
  class Store {
    var entries: seq<Bookmark>

    /** Every cell holds a C string. */
    ghost predicate Valid()
      reads this
    {
      forall b <- entries :: IsCString(b.title) && IsCString(b.url)
    }

    /** gtk_list_store_new: an empty store. */
    constructor ()
      ensures Valid() && entries == []
    {
      entries := [];
    }

    /** load_bookmarks: when the file opens, every record of it is appended,
        in file order, after the rows already present; otherwise nothing
        changes. */
    method Load(file: BookmarkFile, canOpen: bool)
      requires Valid()
      modifies this
      ensures Valid()
      ensures entries == old(entries) + (if canOpen then Parse(file.contents) else [])
    {
      if !canOpen {
        return;
      }
      // `unread` is what fgets has not yet consumed from the open file.
      var unread := file.contents;
      while unread != []
        invariant Valid()
        invariant entries + Parse(unread) == old(entries) + Parse(file.contents)
        decreases |unread|
      {
        var n := ChunkLength(unread);
        var record := ParseLine(unread[..n]);
        LoadStep(entries, unread, n, old(entries) + Parse(file.contents));
        if record.Some? {
          assert IsCString(record.value.title) && IsCString(record.value.url) by {
            ParseLineSpec(unread[..n]);
          }
          entries := entries + [record.value];
        }
        unread := unread[n..];
      }
    }

    /** save_bookmarks: when the file opens for writing, its contents become
        one line per row, in row order; otherwise it warns (`saved` is false)
        and the file is left as it was. */
    method Save(file: BookmarkFile, canOpen: bool) returns (saved: bool)
      requires Valid()
      modifies file
      ensures saved == canOpen
      ensures file.contents == if canOpen then Serialize(entries) else old(file.contents)
    {
      if !canOpen {
        return false;
      }
      var out := "";
      var i := 0;
      while i < |entries|
        invariant 0 <= i <= |entries|
        invariant out == Serialize(entries[..i])
      {
        SerializeAppend(entries[..i], entries[i]);
        assert entries[..i + 1] == entries[..i] + [entries[i]];
        out := out + RecordLine(entries[i]);
        i := i + 1;
      }
      assert entries[..i] == entries;
      file.contents := out;
      saved := true;
    }

    /** add_bookmark: with no page uri nothing happens; otherwise one row for
        the page is appended at the end and the list is saved. */
    method AddBookmark(uri: Option<string>, title: Option<string>, file: BookmarkFile, canOpen: bool)
      requires Valid()
      requires uri.Some? ==> IsCString(uri.value)
      requires title.Some? ==> IsCString(title.value)
      modifies this, file
      ensures Valid()
      ensures uri.None? ==> entries == old(entries) && file.contents == old(file.contents)
      ensures uri.Some? ==>
                entries == old(entries) + [Bookmark(if title.Some? then title.value else uri.value, uri.value)]
      ensures uri.Some? ==> file.contents == if canOpen then Serialize(entries) else old(file.contents)
    {
      if uri.Some? {
        entries := entries + [NewBookmark(uri.value, title)];
        var _ := Save(file, canOpen);
      }
    }

    /** delete_bookmark: with a selected row, that row alone is removed and the
        list is saved; with no selection nothing happens. */
    method DeleteBookmark(selected: Option<nat>, file: BookmarkFile, canOpen: bool)
      requires Valid()
      requires selected.Some? ==> selected.value < |entries|
      modifies this, file
      ensures Valid()
      ensures selected.None? ==> entries == old(entries) && file.contents == old(file.contents)
      ensures selected.Some? ==> entries == Removed(old(entries), selected.value)
      ensures selected.Some? ==> file.contents == if canOpen then Serialize(entries) else old(file.contents)
    {
      if selected.Some? {
        entries := Removed(entries, selected.value);
        var _ := Save(file, canOpen);
      }
    }
  }

  /** What the next start of the browser sees: a fresh store loaded from the
      file this store saved holds the same rows, when every row is storable. */
  method ReloadAfterSave(store: Store) returns (reloaded: seq<Bookmark>)
    requires store.Valid()
    requires forall b <- store.entries :: Storable(b)
    ensures reloaded == store.entries
  {
    var file := new BookmarkFile("");
    var _ := store.Save(file, true);
    var next := new Store();
    next.Load(file, true);
    RoundTrip(store.entries);
    reloaded := next.entries;
  }
}
