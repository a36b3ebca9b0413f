/** The C library string primitives the browser relies on (strstr, strchr and
    the strlen view of a buffer), stated over Dafny strings. */
module CStrings {

  /** A C result that may be NULL. */
  datatype Option<T> = None | Some(value: T)

  /** A string as C sees it: no NUL character inside. */
  predicate IsCString(s: string) {
    '\0' !in s
  }

  /** `pat` sits in `s` starting at index `i`. */
  ghost predicate OccursAt(s: string, pat: string, i: nat) {
    i + |pat| <= |s| && s[i..i + |pat|] == pat
  }

  /** `pat` is a substring of `s`. */
  ghost predicate Occurs(s: string, pat: string) {
    exists i: nat :: OccursAt(s, pat, i)
  }

  /** Dropping a first character that does not start a match keeps every match. */
  lemma OccursShift(s: string, pat: string)
    requires |s| > 0 && !OccursAt(s, pat, 0)
    ensures Occurs(s, pat) <==> Occurs(s[1..], pat)
  {
    if Occurs(s, pat) {
      var i: nat :| OccursAt(s, pat, i);
      assert i > 0;
      assert s[1..][i - 1..i - 1 + |pat|] == s[i..i + |pat|];
      assert OccursAt(s[1..], pat, i - 1);
    }
    if Occurs(s[1..], pat) {
      var i: nat :| OccursAt(s[1..], pat, i);
      assert s[1..][i..i + |pat|] == s[i + 1..i + 1 + |pat|];
      assert OccursAt(s, pat, i + 1);
    }
  }

  /** `strstr(s, pat) != NULL`: whether `pat` occurs in `s`. Its callers pass
      C strings (entry text, argv), which hold no NUL, so searching the whole
      sequence is searching what strstr sees. */
  function Contains(s: string, pat: string): (r: bool)
    ensures r <==> Occurs(s, pat)
    decreases |s|
  {
    if |s| < |pat| then
      assert forall i: nat :: !OccursAt(s, pat, i);
      false
    else if s[..|pat|] == pat then
      assert OccursAt(s, pat, 0);
      true
    else
      OccursShift(s, pat);
      Contains(s[1..], pat)
  }

  /** The index of a `c` in `s`, or None; FirstIndexOfSpec shows it is the
      first one. For `c != '\0'` this is `strchr(s, c)`; with `'\0'` it is a
      scan of the buffer for a NUL (strchr would return the terminator). */
  function FirstIndexOf(s: string, c: char): (r: Option<nat>)
    ensures r.Some? ==> r.value < |s| && s[r.value] == c
  {
    if s == [] then None
    else if s[0] == c then Some(0)
    else
      match FirstIndexOf(s[1..], c)
      case None => None
      case Some(k) => Some(k + 1)
  }

  /** strchr finds no `c` only when there is none, and otherwise the first. */
  lemma {:induction false} FirstIndexOfSpec(s: string, c: char)
    ensures FirstIndexOf(s, c).None? <==> c !in s
    ensures FirstIndexOf(s, c).Some? ==> c !in s[..FirstIndexOf(s, c).value]
  {
    if s != [] && s[0] != c {
      FirstIndexOfSpec(s[1..], c);
      assert s == [s[0]] + s[1..];
      match FirstIndexOf(s[1..], c)
      case None =>
      case Some(k) =>
        assert s[..k + 1] == [s[0]] + s[1..][..k];
    }
  }

  /** A `c` at `k` with none before it is what strchr finds. */
  lemma FirstIndexAt(s: string, c: char, k: nat)
    requires k < |s| && s[k] == c && c !in s[..k]
    ensures FirstIndexOf(s, c) == Some(k)
  {
    FirstIndexOfSpec(s, c);
    assert s[k] in s;
  }

  /** The characters of a buffer that strlen, strchr and printf("%s") see:
      everything before the first NUL (see UpToNulSpec). */
  function UpToNul(s: string): (r: string)
    ensures |r| <= |s|
  {
    match FirstIndexOf(s, '\0')
    case None => s
    case Some(k) => s[..k]
  }

  /** The C-string view is the longest NUL-free prefix of the buffer. */
  lemma UpToNulSpec(s: string)
    ensures IsCString(UpToNul(s))
    ensures UpToNul(s) == s[..|UpToNul(s)|]
    ensures |UpToNul(s)| < |s| ==> s[|UpToNul(s)|] == '\0'
    ensures IsCString(s) ==> UpToNul(s) == s
  {
    FirstIndexOfSpec(s, '\0');
  }
}
