/** The on-disk format of the bookmarks file: one `title|url` record per line.
    Parsing follows load_bookmarks: the file is read in fgets chunks into a
    1024-byte buffer, one trailing newline is cut off, and the chunk is split
    at its first '|'. Serialising follows save_bookmarks' fprintf("%s|%s\n"). */
module BookmarkFormat {
  import opened CStrings

  /** One row of the bookmark list store: column 0 is the title, column 1 the url. */
  datatype Bookmark = Bookmark(title: string, url: string)

  /** The size of load_bookmarks' line buffer. */
  const LineBufferSize := 1024
  /** fgets stores at most one character less than the buffer size. */
  const MaxChunk := LineBufferSize - 1

  function Min(a: nat, b: nat): nat { if a < b then a else b }

  /** What one fgets call can return: between 1 and MaxChunk characters, with
      a newline at most as the last one. */
  predicate IsChunk(chunk: string) {
    0 < |chunk| <= MaxChunk && forall j :: 0 <= j < |chunk| - 1 ==> chunk[j] != '\n'
  }

  /** The number of characters fgets reads from the non-empty rest `s` of the
      file: through the first newline, but never more than MaxChunk. */
  function ChunkLength(s: string): (n: nat)
    requires s != []
    ensures 0 < n <= |s| && n <= MaxChunk
    ensures n == |s| || n == MaxChunk || s[n - 1] == '\n'
  {
    match FirstIndexOf(s, '\n')
    case None => Min(|s|, MaxChunk)
    case Some(k) => Min(k + 1, MaxChunk)
  }

  /** What fgets returns is a chunk: no newline before its last character. */
  lemma ChunkLengthSpec(s: string)
    requires s != []
    ensures IsChunk(s[..ChunkLength(s)])
  {
    FirstIndexOfSpec(s, '\n');
    var n := ChunkLength(s);
    match FirstIndexOf(s, '\n')
    case None =>
      assert forall j :: 0 <= j < n - 1 ==> s[..n][j] in s;
    case Some(k) =>
      assert forall j :: 0 <= j < n - 1 ==> s[..n][j] in s[..k];
  }

  /** The line left in the buffer after `line[len-1] = '\0'` removed one
      trailing newline (len being strlen of the buffer). */
  function StripNewline(chunk: string): string {
    var text := UpToNul(chunk);
    if |text| > 0 && text[|text| - 1] == '\n' then text[..|text| - 1] else text
  }

  /** Exactly one trailing newline of the C-string line is cut, and only when
      there is one. */
  lemma StripNewlineSpec(chunk: string)
    ensures StripNewline(chunk) == UpToNul(chunk) || StripNewline(chunk) + "\n" == UpToNul(chunk)
    ensures StripNewline(chunk) + "\n" == UpToNul(chunk) <==>
              |UpToNul(chunk)| > 0 && UpToNul(chunk)[|UpToNul(chunk)| - 1] == '\n'
  {
    var text := UpToNul(chunk);
    if |text| > 0 && text[|text| - 1] == '\n' {
      assert text[..|text| - 1] + "\n" == text;
    }
  }

  /** The record a chunk yields, if any: it is split at the first '|' into
      the title before it and the url after it (further '|' stay in the url). */
  function ParseLine(chunk: string): Option<Bookmark> {
    var line := StripNewline(chunk);
    match FirstIndexOf(line, '|')
    case None => None
    case Some(k) => Some(Bookmark(line[..k], line[k + 1..]))
  }

  /** A chunk without '|' yields nothing; otherwise the title is the '|'-free
      text before the first '|' and the url all the rest of the line. */
  lemma ParseLineSpec(chunk: string)
    ensures ParseLine(chunk).None? <==> '|' !in StripNewline(chunk)
    ensures ParseLine(chunk).Some? ==>
              ParseLine(chunk).value.title + "|" + ParseLine(chunk).value.url == StripNewline(chunk)
    ensures ParseLine(chunk).Some? ==> '|' !in ParseLine(chunk).value.title
    ensures ParseLine(chunk).Some? ==>
              IsCString(ParseLine(chunk).value.title) && IsCString(ParseLine(chunk).value.url)
  {
    var line := StripNewline(chunk);
    FirstIndexOfSpec(line, '|');
    match FirstIndexOf(line, '|')
    case None =>
    case Some(k) =>
      assert line[..k] + "|" + line[k + 1..] == line;
      StrippedIsCString(chunk);
      SplitKeepsOut('\0', line[..k], line[k + 1..], line);
  }

  /** The stripped line is the start of the chunk. */
  lemma StrippedPrefix(chunk: string)
    ensures StripNewline(chunk) == chunk[..|StripNewline(chunk)|]
  {
    UpToNulSpec(chunk);
  }

  /** The stripped line is still a C string. */
  lemma StrippedIsCString(chunk: string)
    ensures IsCString(StripNewline(chunk))
  {
    UpToNulSpec(chunk);
    var text := UpToNul(chunk);
    if |text| > 0 && text[|text| - 1] == '\n' {
      assert forall c <- text[..|text| - 1] :: c in text;
    }
  }

  /** A character missing from a line is missing from both sides of a '|'. */
  lemma SplitKeepsOut(x: char, left: string, right: string, line: string)
    requires left + "|" + right == line && x !in line
    ensures x !in left && x !in right
  {
    assert forall j | 0 <= j < |left| :: left[j] == line[j];
    assert forall j | 0 <= j < |right| :: right[j] == line[|left| + 1 + j];
  }

  /** What is left of a chunk after stripping holds no newline and fits in
      the buffer. */
  lemma StrippedChunk(chunk: string)
    requires IsChunk(chunk)
    ensures '\n' !in StripNewline(chunk) && |StripNewline(chunk)| <= MaxChunk
  {
    UpToNulSpec(chunk);
    var text := UpToNul(chunk);
    var line := StripNewline(chunk);
    forall j | 0 <= j < |line| ensures line[j] != '\n' {
      assert line[j] == text[j] == chunk[j];
    }
  }

  function OptionToSeq(r: Option<Bookmark>): seq<Bookmark> {
    match r
    case None => []
    case Some(b) => [b]
  }

  /** A record that survives a save and a reload unchanged: its title has no
      '|', neither field has a newline or a NUL, and its line without the
      newline fits in one fgets chunk. */
  predicate Storable(b: Bookmark) {
    && '|' !in b.title && '\n' !in b.title && '\n' !in b.url
    && IsCString(b.title) && IsCString(b.url)
    && |b.title| + 1 + |b.url| <= MaxChunk
  }

  /** Every record that can be read from a chunk is storable again. */
  lemma ParseLineStorable(chunk: string)
    requires IsChunk(chunk) && ParseLine(chunk).Some?
    ensures Storable(ParseLine(chunk).value)
  {
    var line := StripNewline(chunk);
    StrippedChunk(chunk);
    ParseLineSpec(chunk);
    var b := ParseLine(chunk).value;
    SplitKeepsOut('\n', b.title, b.url, line);
  }

  /** The list a whole file's text loads as, chunk by chunk, in file order;
      chunks without a '|' (blank lines among them) are skipped. */
  function Parse(content: string): seq<Bookmark>
    decreases |content|
  {
    if content == [] then []
    else
      var n := ChunkLength(content);
      var here := ParseLine(content[..n]);
      if here.Some? then [here.value] + Parse(content[n..]) else Parse(content[n..])
  }

  /** Every record a file loads as is storable again. */
  lemma {:induction false} ParsedStorable(content: string)
    ensures forall b <- Parse(content) :: Storable(b)
    decreases |content|
  {
    if content != [] {
      var n := ChunkLength(content);
      if ParseLine(content[..n]).Some? {
        ChunkLengthSpec(content);
        ParseLineStorable(content[..n]);
      }
      ParsedStorable(content[n..]);
    }
  }

  /** The line save_bookmarks writes for one record. */
  function RecordLine(b: Bookmark): string {
    b.title + "|" + b.url + "\n"
  }

  /** The whole file save_bookmarks writes for a list: one line per record,
      in list order. */
  function Serialize(bs: seq<Bookmark>): string {
    if bs == [] then "" else RecordLine(bs[0]) + Serialize(bs[1..])
  }

  /** Appending a record appends its line: the shape of save_bookmarks' loop. */
  lemma {:induction false} SerializeAppend(bs: seq<Bookmark>, b: Bookmark)
    ensures Serialize(bs + [b]) == Serialize(bs) + RecordLine(b)
  {
    if bs == [] {
      assert [] + [b] == [b];
    } else {
      assert (bs + [b])[1..] == bs[1..] + [b];
      SerializeAppend(bs[1..], b);
    }
  }

  /** fgets stops right after the first newline, unless the buffer fills first. */
  lemma ChunkAtNewline(s: string, k: nat)
    requires k < |s| && s[k] == '\n' && '\n' !in s[..k]
    ensures ChunkLength(s) == Min(k + 1, MaxChunk)
  {
    FirstIndexAt(s, '\n', k);
  }

  /** A storable record's line, with or without its newline, parses to it. */
  lemma ParseRecordBody(b: Bookmark)
    requires Storable(b)
    ensures ParseLine(b.title + "|" + b.url) == Some(b)
    ensures ParseLine(RecordLine(b)) == Some(b)
  {
    var body := b.title + "|" + b.url;
    assert body[..|b.title|] == b.title && body[|b.title|] == '|';
    assert body[|b.title| + 1..] == b.url;
    FirstIndexAt(body, '|', |b.title|);
    assert IsCString(body) && '\n' !in body;
    StripLineBody(body);
  }

  /** A NUL- and newline-free line is left as it is, with or without its
      newline. */
  lemma StripLineBody(body: string)
    requires IsCString(body) && '\n' !in body
    ensures StripNewline(body) == body && StripNewline(body + "\n") == body
  {
    UpToNulSpec(body);
    UpToNulSpec(body + "\n");
    assert (body + "\n")[..|body|] == body;
  }

  /** The first step of Parse on non-empty text. */
  lemma ParseStep(s: string, n: nat)
    requires s != [] && n == ChunkLength(s)
    ensures Parse(s) == OptionToSeq(ParseLine(s[..n])) + Parse(s[n..])
  {
  }

  /** One pass of load_bookmarks' loop keeps "rows so far plus what the
      unread text parses to" fixed. */
  lemma LoadStep(done: seq<Bookmark>, unread: string, n: nat, total: seq<Bookmark>)
    requires unread != [] && n == ChunkLength(unread) && done + Parse(unread) == total
    ensures done + OptionToSeq(ParseLine(unread[..n])) + Parse(unread[n..]) == total
  {
    ParseStep(unread, n);
  }

  /** A line written for a storable record parses back to that record, and
      parsing then continues right after the line. */
  lemma ParseRecordLine(b: Bookmark, rest: string)
    requires Storable(b)
    ensures Parse(RecordLine(b) + rest) == [b] + Parse(rest)
  {
    var body := b.title + "|" + b.url;
    var s := RecordLine(b) + rest;
    assert s == body + "\n" + rest;
    assert s[..|body|] == body && s[|body|] == '\n';
    ChunkAtNewline(s, |body|);
    ParseRecordBody(b);
    if |body| < MaxChunk {
      assert s[..|body| + 1] == RecordLine(b) && s[|body| + 1..] == rest;
      ParseStep(s, |body| + 1);
    } else {
      ParseSplitRecord(b, body, s, rest);
    }
  }

  /** A record line one character longer than a chunk is read in two: the
      record without its newline, then a lone newline that yields nothing. */
  lemma ParseSplitRecord(b: Bookmark, body: string, s: string, rest: string)
    requires body == b.title + "|" + b.url && |body| == MaxChunk
    requires s == body + "\n" + rest
    requires ChunkLength(s) == MaxChunk && ParseLine(body) == Some(b)
    ensures Parse(s) == [b] + Parse(rest)
  {
    assert s[..MaxChunk] == body;
    assert s[MaxChunk..] == "" + "\n" + rest;
    ParseStep(s, MaxChunk);
    SkipsLineWithoutBar("", rest);
  }

  /** Round trip: loading the file saved for a list of storable records gives
      the list back. */
  lemma {:induction false} RoundTrip(bs: seq<Bookmark>)
    requires forall b <- bs :: Storable(b)
    ensures Parse(Serialize(bs)) == bs
  {
    if bs != [] {
      ParseRecordLine(bs[0], Serialize(bs[1..]));
      RoundTrip(bs[1..]);
    }
  }

  /** Saving what was loaded and loading it again gives the same list. */
  lemma ReloadIsStable(content: string)
    ensures Parse(Serialize(Parse(content))) == Parse(content)
  {
    ParsedStorable(content);
    RoundTrip(Parse(content));
  }

  /** A line with no '|' (an empty line among them) is skipped, and parsing
      goes on with the next line. */
  lemma SkipsLineWithoutBar(line: string, rest: string)
    requires '|' !in line && '\n' !in line && |line| < MaxChunk
    ensures Parse(line + "\n" + rest) == Parse(rest)
  {
    var s := line + "\n" + rest;
    var chunk := line + "\n";
    assert s[..|line|] == line && s[|line|] == '\n';
    ChunkAtNewline(s, |line|);
    assert s[..|line| + 1] == chunk && s[|line| + 1..] == rest;
    ParseStep(s, |line| + 1);
    ParseLineSpec(chunk);
    StrippedPrefix(chunk);
    var stripped := StripNewline(chunk);
    assert forall j | 0 <= j < |stripped| :: stripped[j] == chunk[j];
  }

  /** Only the newline is cut: a carriage return before it stays in the url. */
  lemma CarriageReturnKept()
    ensures Parse("t|u\r\n") == [Bookmark("t", "u\r")]
  {
    var b := Bookmark("t", "u\r");
    var s := RecordLine(b) + "";
    assert s == "t|u\r\n";
    ParseRecordLine(b, "");
  }

  /** The round trip needs a '|'-free title: a title holding one is split
      there on reload, and the rest of it moves into the url. */
  lemma TitleWithBarMisparses()
    ensures Parse(Serialize([Bookmark("a|b", "u")])) == [Bookmark("a", "b|u")]
  {
    assert Serialize([Bookmark("a|b", "u")]) == RecordLine(Bookmark("a", "b|u")) + "";
    ParseRecordLine(Bookmark("a", "b|u"), "");
  }
}
