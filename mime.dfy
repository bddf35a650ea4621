/** `getMimeType`: the MIME type of a file from its name's extension, looked
    up case-insensitively in a fixed table of nine extensions. */
module Mime {
  import opened Common

  /** The type of every name whose extension is not in the table. */
  const OctetStream := "application/octet-stream"

  /** The extension table, keyed by lower-case extension with its dot. */
  const MimeTypes: map<string, string> := map[
    ".jpg" := "image/jpeg",
    ".jpeg" := "image/jpeg",
    ".png" := "image/png",
    ".gif" := "image/gif",
    ".mp4" := "video/mp4",
    ".mp3" := "audio/mpeg",
    ".pdf" := "application/pdf",
    ".txt" := "text/plain",
    ".zip" := "application/zip"
  ]

  function LowerChar(c: char): char
  {
    if 'A' <= c <= 'Z' then (c as int + 32) as char else c
  }

  /** `toLowerCase`, on the ASCII letters. */
  function Lower(s: string): (r: string)
    ensures |r| == |s| && forall i :: 0 <= i < |s| ==> r[i] == LowerChar(s[i])
  {
    seq(|s|, i requires 0 <= i < |s| => LowerChar(s[i]))
  }

  /** The index of the last `.` in `s`, if there is one. */
  function LastDot(s: string): (r: Option<nat>)
    ensures r.None? ==> forall i :: 0 <= i < |s| ==> s[i] != '.'
    ensures r.Some? ==> r.value < |s| && s[r.value] == '.'
    ensures r.Some? ==> forall i :: r.value < i < |s| ==> s[i] != '.'
  {
    if s == [] then None
    else if s[|s| - 1] == '.' then Some(|s| - 1)
    else LastDot(s[..|s| - 1])
  }

  /** `path.extname(name)` for a directory-entry name (which never holds a
      separator): from the last dot to the end, or empty when there is no
      dot, when the only dot opens the name, or for the name `..`. */
  function ExtName(name: string): (ext: string)
  {
    match LastDot(name)
    case None => ""
    case Some(d) => if d == 0 || name == ".." then "" else name[d..]
  }

  /** The extension is empty exactly for `..` and for names with no dot
      after their first character; otherwise it is the suffix that starts
      at the last dot, which is not the first character. */
  lemma ExtNameIsExtension(name: string)
    ensures var ext := ExtName(name);
      && (ext == "" <==> name == ".." || forall i :: 0 < i < |name| ==> name[i] != '.')
      && (ext != "" ==>
            && 0 < |ext| < |name| && ext == name[|name| - |ext|..]
            && ext[0] == '.' && forall i :: 0 < i < |ext| ==> ext[i] != '.')
  {
  }

  /** `getMimeType(name)`. */
  function MimeType(name: string): string
  {
    var ext := Lower(ExtName(name));
    if ext in MimeTypes then MimeTypes[ext] else OctetStream
  }

  /** Every name gets one of the table's types or the default. */
  lemma MimeTypeInTable(name: string)
    ensures MimeType(name) == OctetStream || MimeType(name) in MimeTypes.Values
  {
  }

  lemma LowerIdempotent(s: string)
    ensures Lower(Lower(s)) == Lower(s)
  {
  }

  lemma {:induction false} LastDotLower(s: string)
    ensures LastDot(Lower(s)) == LastDot(s)
    decreases |s|
  {
    if s != [] {
      assert Lower(s)[..|s| - 1] == Lower(s[..|s| - 1]);
      LastDotLower(s[..|s| - 1]);
    }
  }

  /** Lower-casing a name lower-cases its extension and nothing else. */
  lemma ExtNameLower(s: string)
    ensures ExtName(Lower(s)) == Lower(ExtName(s))
  {
    LastDotLower(s);
    match LastDot(s)
    case None =>
    case Some(d) =>
      assert Lower(s)[d..] == Lower(s[d..]);
      assert Lower(s) == ".." <==> s == "..";
  }

  /** The lookup ignores case: names equal up to the case of their letters
      get the same type. */
  lemma MimeTypeIgnoresCase(a: string, b: string)
    requires Lower(a) == Lower(b)
    ensures MimeType(a) == MimeType(b)
  {
    ExtNameLower(a);
    ExtNameLower(b);
    LowerIdempotent(ExtName(a));
    LowerIdempotent(ExtName(b));
  }

  lemma {:induction false} LastDotAppend(s: string, t: string, d: nat)
    requires d < |t| && t[d] == '.' && forall i :: d < i < |t| ==> t[i] != '.'
    ensures LastDot(s + t) == Some(|s| + d)
    decreases |t|
  {
    if d < |t| - 1 {
      assert (s + t)[..|s + t| - 1] == s + t[..|t| - 1];
      LastDotAppend(s, t[..|t| - 1], d);
    }
  }

  /** A name made of a non-empty stem and one of the nine extensions, in
      any case, gets that extension's type. */
  lemma KnownExtension(stem: string, ext: string)
    requires |stem| > 0 && Lower(ext) in MimeTypes
    ensures MimeType(stem + ext) == MimeTypes[Lower(ext)]
  {
    var e := Lower(ext);
    assert e[0] == '.' && forall i :: 0 < i < |e| ==> e[i] != '.';
    LastDotAppend(stem, ext, 0);
    assert (stem + ext)[|stem|..] == ext;
  }

  /** A name that ends in none of the nine extensions, in any case, after a
      non-empty stem gets the default type: with `KnownExtension`, the
      table decides the type exactly when the name ends in one of its
      extensions. */
  lemma UnknownExtension(name: string)
    requires forall k :: k in MimeTypes ==>
      !(|name| > |k| && Lower(name[|name| - |k|..]) == k)
    ensures MimeType(name) == OctetStream
  {
    var ext := ExtName(name);
    ExtNameIsExtension(name);
    if ext != "" {
      var k := Lower(ext);
      assert |k| == |ext| && name[|name| - |k|..] == ext;
    }
  }

  /** A name with no dot after its first character (`README`, `.txt`) gets
      the default type. */
  lemma NoExtension(name: string)
    requires forall i :: 0 < i < |name| ==> name[i] != '.'
    ensures MimeType(name) == OctetStream
  {
  }
}
