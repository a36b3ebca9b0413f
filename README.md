# tinyweb: the browser shell's own logic, modelled in Dafny

tinyweb is a small GTK/WebKit browser. Nearly all of `tinyweb.c` builds widgets
and calls WebKit. This project models the sequential logic that belongs to the
program itself:

- **Address normalisation** (`navigate_to_url`). The address-bar text gets
  `http://` in front unless it already contains `://` anywhere
  (module `Address`).
- **The bookmarks file format** (`load_bookmarks`, `save_bookmarks`). Records
  are `title|url` lines. Loading reads the file in `fgets` chunks of at most
  1023 characters, cuts one trailing `'\n'`, skips chunks without a `'|'`, and
  splits the rest at the first `'|'`. Saving writes `title|url\n` per row,
  replacing the file (module `BookmarkFormat`).
- **The bookmark list store** (`add_bookmark`, `delete_bookmark`). A class
  `Store` holds the GtkListStore's rows as a `seq<Bookmark>`. Its methods load,
  save, append one row and remove the selected row, and each change is followed
  by a full save (module `BookmarkStore`).
- **The command-line scan in `main`**. It picks the home URL: `DEFAULT_URL` by
  default, `--home`/`-h` consuming the next argument, any other argument with
  `://`, and the last assignment wins (module `CommandLine`).

The C library calls the code depends on are in module `CStrings`: `strstr`,
`strchr`, and the `strlen` view of a buffer that may hold a NUL. The file is one
string (`BookmarkFile.contents`). Whether `fopen` succeeds is a boolean
parameter (`canOpen`).

`tinyweb.c` validates no URL and sanitises no `|`, CR or LF in titles or urls,
and it sets no length limit of its own. Loading strips only the one trailing
`'\n'`. A line longer than the 1023-byte `fgets` buffer is read as several
chunks, so its tail is dropped when it holds no `'|'` and is read as a record
of its own otherwise. The model does exactly the same.

Behaviour the code has that a plain reading might miss:

- A record line one character longer than the buffer can hold still loads
  correctly. Its newline arrives as a separate chunk, and that chunk is skipped.
  So the round trip only needs `|title| + 1 + |url| <= 1023`
  (`BookmarkFormat.ParseSplitRecord`).
- A title containing `'|'` is split there on reload
  (`BookmarkFormat.TitleWithBarMisparses`).
- A NUL byte in the file ends the line as far as `strlen`/`strchr` see it
  (`CStrings.UpToNulSpec`).

## Model

| member | source | states |
|---|---|---|
| `CStrings.Contains` | tinyweb.c:28 | `strstr(s, "://") != NULL` holds exactly when the pattern occurs somewhere in `s` |
| `CStrings.FirstIndexOf` | tinyweb.c:85 | a found index holds the character searched for |
| `CStrings.FirstIndexOfSpec` | tinyweb.c:85 | `strchr` finds nothing exactly when the character is absent, and otherwise no earlier occurrence exists |
| `CStrings.FirstIndexAt` | tinyweb.c:85 | a character at `k` with none before it is what `strchr` returns |
| `CStrings.UpToNulSpec` | tinyweb.c:81 | the C-string view of a buffer is its longest NUL-free prefix; it stops at a NUL; a NUL-free buffer is unchanged |
| `Address.Normalize` | tinyweb.c:28-31 | the result always contains `://`; it is `"http://" + text` when the text has no `://`, and the text itself otherwise |
| `Address.PrefixedIffNoScheme` | tinyweb.c:28-31 | the prefix is added if and only if the text contains no `://` |
| `Address.NormalizeIdempotent` | tinyweb.c:28-31 | normalising twice is normalising once |
| `BookmarkFormat.ChunkLength` | tinyweb.c:78-79 | one `fgets` into the 1024-byte buffer reads 1 to 1023 characters, stopping at a newline, the end of the file, or a full buffer |
| `BookmarkFormat.ChunkLengthSpec` | tinyweb.c:78-79 | what one `fgets` reads holds a newline at most as its last character |
| `BookmarkFormat.ChunkAtNewline` | tinyweb.c:79 | `fgets` stops right after the first newline unless the buffer fills first |
| `BookmarkFormat.StripNewlineSpec` | tinyweb.c:81-82 | exactly one trailing `'\n'` of the C-string line is removed, and only when present; nothing else (a `'\r'` among it) is touched |
| `BookmarkFormat.ParseLineSpec` | tinyweb.c:85-92 | a line without `'\|'` yields no record; otherwise the title is the `'\|'`-free text before the first `'\|'` (possibly empty), the url is everything after it, and `title + "\|" + url` is the line |
| `BookmarkFormat.ParseLineStorable` | tinyweb.c:78-92 | a record read from one chunk has a `'\|'`-free title, no newline or NUL in either field, and fits in one chunk |
| `BookmarkFormat.ParsedStorable` | tinyweb.c:79-94 | every record a file loads as satisfies the round-trip condition |
| `BookmarkFormat.SerializeAppend` | tinyweb.c:110-119 | the saved text for a list with one more row is the old text followed by that row's `title\|url\n` line |
| `BookmarkFormat.LoadStep` | tinyweb.c:79-93 | one pass of the read loop appends the chunk's record, if any, and leaves the rest of the file to the next pass |
| `BookmarkFormat.ParseRecordLine` | tinyweb.c:79-92 | a saved line of a storable record loads as exactly that record, and loading continues after the line |
| `BookmarkFormat.ParseSplitRecord` | tinyweb.c:78-86 | a record line of 1024 characters is read as the record plus a lone newline chunk, which is skipped |
| `BookmarkFormat.RoundTrip` | tinyweb.c:74-123 | loading the file saved for a list of storable records (no `'\|'` or newline in titles, no newline in urls, no NUL, line fits the buffer) yields the list |
| `BookmarkFormat.ReloadIsStable` | tinyweb.c:74-123 | saving what was loaded and loading it again gives the same list |
| `BookmarkFormat.SkipsLineWithoutBar` | tinyweb.c:81-86 | a line with no `'\|'` that fits in one chunk, the empty line included, is skipped and parsing continues with the next line |
| `BookmarkFormat.CarriageReturnKept` | tinyweb.c:81-82 | `"t\|u\r\n"` loads as title `t`, url `u\r`: the carriage return is not stripped |
| `BookmarkFormat.TitleWithBarMisparses` | tinyweb.c:85-88 | a saved title `a\|b` with url `u` reloads as title `a`, url `b\|u`, so the round trip needs `'\|'`-free titles |
| `BookmarkStore.Removed` | tinyweb.c:151 | removing row `i` shortens the list by one and keeps every other row in its original order |
| `BookmarkStore.RemovedMultiset` | tinyweb.c:151 | removal takes out exactly the selected row and no other |
| `BookmarkStore.RemoveUndoesAdd` | tinyweb.c:131-152 | deleting the row just added restores the previous list |
| `BookmarkStore.Store.constructor` | tinyweb.c:246 | a new list store is empty |
| `BookmarkStore.Store.Load` | tinyweb.c:74-97 | an unopenable file leaves the rows unchanged; otherwise the file's records are appended in file order after the existing rows |
| `BookmarkStore.Store.Save` | tinyweb.c:100-123 | an unopenable file is left as it was (the warning case); otherwise its whole contents become one `title\|url\n` line per row, in row order |
| `BookmarkStore.Store.AddBookmark` | tinyweb.c:126-141 | with no uri nothing changes; otherwise exactly one row is appended after the untouched old rows, its url the page uri and its title the page title when there is one and the uri otherwise, and the list is saved |
| `BookmarkStore.Store.DeleteBookmark` | tinyweb.c:144-154 | with no selection nothing changes; otherwise only the selected row is removed, the others keep their order, and the list is saved |
| `BookmarkStore.ReloadAfterSave` | tinyweb.c:246-247 | a fresh store loaded from the file an earlier store saved holds that store's rows, when they are storable |
| `CommandLine.ScanHome` | tinyweb.c:231-243 | the loop's home URL is the last value the scan assigns, or `DEFAULT_URL` when it assigns none |
| `CommandLine.FlagHasNoScheme` | tinyweb.c:234 | neither `--home` nor `-h` contains `://` |
| `CommandLine.HomeOrigin` | tinyweb.c:231-243 | home is `DEFAULT_URL` or an argument that contains `://` or follows a flag |
| `CommandLine.SchemeArgWins` | tinyweb.c:239-242 | an argument with `://` given last becomes home, whatever precedes it |
| `CommandLine.FlagArgWins` | tinyweb.c:234-238 | `--home`/`-h` followed by an argument sets home to it, with or without `://` |
| `CommandLine.TrailingFlagIgnored` | tinyweb.c:235 | a final `--home`/`-h` with nothing after it changes nothing |
| `CommandLine.OtherArgIgnored` | tinyweb.c:233-243 | an argument that is neither a flag nor contains `://` changes nothing |
| `CommandLine.AssignmentsAppend` | tinyweb.c:233-243 | once the scan of a prefix has ended without a flag waiting for its argument, the later arguments are scanned afresh |

## Left out

- Widget construction, layout and signal wiring in `main` (tinyweb.c:245-345) and the bookmark dialog `show_bookmarks` (tinyweb.c:174-222) are GUI plumbing.
- The WebKit calls are left out because WebKit's behaviour is not visible here. This covers back, forward, reload and home (tinyweb.c:39-62), `webkit_web_view_load_uri` (the model stops at the URL that would be loaded), and page title/URI introspection. The uri and title that `add_bookmark` reads become `Option` parameters.
- `web_view_load_changed` (tinyweb.c:65-71) and `navigate_to_bookmark` (tinyweb.c:157-171) are left out. They only copy a string between WebKit and a widget.
- `gtk_init` may remove GTK's own options from argv before the scan. Its behaviour is library code, so `ScanHome` takes the argv it leaves.
- File I/O is not modelled as I/O. The file is its text, and whether `fopen` succeeds is the `canOpen` parameter. A read error partway through `fgets` (which would end the loop early) is not modelled. Neither is a crash during a rewrite.
- `BookmarkStore.Store.Save` returns `saved` to make the `g_warning` case visible. The C function returns nothing.
- Memory management (`g_strdup`/`g_free`) and `g_object_set_data` handle passing have no behaviour to model.
- Each Dafny character stands for one byte of the file or of a C string, so the 1023 bound in `BookmarkFormat.ChunkLength` and `BookmarkFormat.Storable` is a byte count. Multibyte encodings such as UTF-8 are not modelled: text must be given as its bytes, and `BookmarkFormat.RoundTrip` holds for that byte sequence. Rows of the store are NUL-free C strings (`Store.Valid`), and the uri and title given to `AddBookmark` are required to be C strings as well.
