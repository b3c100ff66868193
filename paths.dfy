/**
 * The file naming shared by zotero/downloader.py and pdf/mass_reader.py:
 * `sanitize_filename`, the chain of `str.replace` calls that makes a DOI
 * usable as a file name, and `os.path.join` on POSIX paths.
 */
module Paths {
  import opened Text

  /** `s.replace(target, replacement)` for one-character arguments: every occurrence is replaced. */
  function Replace(s: string, target: char, replacement: char): (r: string)
    ensures |r| == |s|
    ensures forall i :: 0 <= i < |s| ==> r[i] == (if s[i] == target then replacement else s[i])
  {
    if s == [] then []
    else (if s[0] == target then [replacement] else [s[0]]) + Replace(s[1..], target, replacement)
  }

  /** The characters `sanitize_filename` replaces. */
  predicate Unsafe(c: char) {
    c == '/' || c == '\\' || c == ':'
  }

  /** `s.replace("/", "_").replace("\\", "_").replace(":", "_")` */
  function SanitizeFilename(s: string): string {
    Replace(Replace(Replace(s, '/', '_'), '\\', '_'), ':', '_')
  }

  /**
   * The chain of replaces acts on each character alone: the three unsafe
   * characters become '_', every other character stays, and the length is
   * kept.
   */
  lemma SanitizePointwise(s: string)
    ensures |SanitizeFilename(s)| == |s|
    ensures forall i :: 0 <= i < |s| ==> SanitizeFilename(s)[i] == (if Unsafe(s[i]) then '_' else s[i])
  {
  }

  /** A sanitised name contains none of the three unsafe characters. */
  lemma SanitizeSafe(s: string)
    ensures forall c <- SanitizeFilename(s) :: !Unsafe(c)
  {
    SanitizePointwise(s);
    var r := SanitizeFilename(s);
    forall c <- r ensures !Unsafe(c) {
      var i :| 0 <= i < |r| && r[i] == c;
    }
  }

  /** A name without unsafe characters is left as it is. */
  lemma SanitizeKeepsSafe(s: string)
    requires forall c <- s :: !Unsafe(c)
    ensures SanitizeFilename(s) == s
  {
    SanitizePointwise(s);
    assert forall i :: 0 <= i < |s| ==> !Unsafe(s[i]);
  }

  /** Sanitising twice is sanitising once. */
  lemma SanitizeIdempotent(s: string)
    ensures SanitizeFilename(SanitizeFilename(s)) == SanitizeFilename(s)
  {
    SanitizeSafe(s);
    SanitizeKeepsSafe(SanitizeFilename(s));
  }

  /**
   * `posixpath.join(a, b)`: `b` when it is absolute, otherwise `a` and `b`
   * with one '/' between them unless `a` is empty or already ends in '/'.
   */
  function PathJoin(a: string, b: string): (p: string)
    ensures StartsWith(b, "/") ==> p == b
    ensures !StartsWith(b, "/") ==> StartsWith(p, a) && |b| <= |p| && p[|p| - |b|..] == b
    ensures !StartsWith(b, "/") && a != "" && a[|a| - 1] != '/' ==> p == a + "/" + b
  {
    if StartsWith(b, "/") then b
    else if a == "" || a[|a| - 1] == '/' then a + b
    else a + "/" + b
  }

  /** The directory both scripts keep their PDFs and text files in. */
  const DocsDir: string := "docs"

  /** `os.path.join("docs", f"{safe}{extension}")` for a sanitised name: `docs/{safe}{extension}`. */
  function DocsPath(safe: string, extension: string): (p: string)
    requires forall c <- safe :: !Unsafe(c)
    requires safe == "" ==> !StartsWith(extension, "/")
    ensures p == DocsDir + "/" + safe + extension
  {
    NotAbsolute(safe, extension);
    PathJoin(DocsDir, safe + extension)
  }

  lemma NotAbsolute(safe: string, extension: string)
    requires forall c <- safe :: !Unsafe(c)
    requires safe == "" ==> !StartsWith(extension, "/")
    ensures !StartsWith(safe + extension, "/")
  {
    if safe != "" {
      assert safe[0] in safe;
      assert (safe + extension)[..1] == [safe[0]];
    } else {
      assert safe + extension == extension;
    }
  }

  /** Two names with the same extension give the same docs path only when they are the same name. */
  lemma DocsPathInjective(s: string, t: string, extension: string)
    requires forall c <- s :: !Unsafe(c)
    requires forall c <- t :: !Unsafe(c)
    requires !StartsWith(extension, "/")
    requires DocsPath(s, extension) == DocsPath(t, extension)
    ensures s == t
  {
    var p := DocsPath(s, extension);
    assert |s| == |t|;
    assert s == p[5..5 + |s|];
    assert t == p[5..5 + |t|];
  }
}
