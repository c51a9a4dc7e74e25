/**
 The few C string routines the dependency generator relies on, over the
 characters of a NUL-terminated string (the terminator itself is not part of
 a `string` here).
 */
module CString {
  import opened Options

  /** rpm's `risspace`: the white-space characters of the C locale. */
  predicate IsSpace(c: char) {
    c == ' ' || c == '\t' || c == '\n' || c == '\r' || c == '\U{000B}' || c == '\U{000C}'
  }

  /** Some character of `s` is not white space. */
  predicate NonBlank(s: string) {
    exists i | 0 <= i < |s| :: !IsSpace(s[i])
  }

  /** The scan for a non-space character, stopping at the first one found. */
  function HasNonSpace(s: string): (r: bool)
    ensures r <==> NonBlank(s)
  {
    if |s| == 0 then false
    else if !IsSpace(s[0]) then true
    else
      var r := HasNonSpace(s[1..]);
      assert r ==> NonBlank(s) by {
        if r {
          var i :| 0 <= i < |s| - 1 && !IsSpace(s[1..][i]);
          assert !IsSpace(s[i + 1]);
        }
      }
      r
  }

  /** `pat` occurs in `s` starting at index `k`. */
  predicate OccursAt(s: string, pat: string, k: nat) {
    k + |pat| <= |s| && s[k..k + |pat|] == pat
  }

  /** `strstr(s, pat) != NULL`. */
  function Contains(s: string, pat: string): (r: bool)
    ensures r <==> exists k: nat :: OccursAt(s, pat, k)
    decreases |s|
  {
    if |s| < |pat| then
      assert forall k: nat :: !OccursAt(s, pat, k);
      false
    else if s[..|pat|] == pat then
      assert OccursAt(s, pat, 0);
      true
    else
      var r := Contains(s[1..], pat);
      assert r ==> exists k: nat :: OccursAt(s, pat, k) by {
        if r {
          var k: nat :| OccursAt(s[1..], pat, k);
          assert s[1..][k..k + |pat|] == s[k + 1..k + 1 + |pat|];
          assert OccursAt(s, pat, k + 1);
        }
      }
      assert (exists k: nat :: OccursAt(s, pat, k)) ==> r by {
        if exists k: nat :: OccursAt(s, pat, k) {
          var k: nat :| OccursAt(s, pat, k);
          assert k != 0;
          assert s[1..][k - 1..k - 1 + |pat|] == s[k..k + |pat|];
          assert OccursAt(s[1..], pat, k - 1);
        }
      }
      r
  }

  /** The first `n` characters of `s`, or all of it when it is shorter. */
  function Take(s: string, n: nat): string {
    if n <= |s| then s[..n] else s
  }

  /**
   `strncmp(a, b, n) == 0` (rpm's `rstreqn`): the strings agree on their first
   `n` characters, where reaching the end of one string counts as a
   character that only the end of the other matches.
   */
  function StrnEq(a: string, b: string, n: nat): (r: bool)
    ensures r <==> Take(a, n) == Take(b, n)
    decreases n
  {
    if n == 0 then true
    else if |a| == 0 || |b| == 0 then |a| == 0 && |b| == 0
    else
      assert Take(a, n) == [a[0]] + Take(a[1..], n - 1);
      assert Take(b, n) == [b[0]] + Take(b[1..], n - 1);
      a[0] == b[0] && StrnEq(a[1..], b[1..], n - 1)
  }

  /** `strrchr(s, c)`: the index of the last `c` in `s`, if any. */
  function LastIndexOf(s: string, c: char): (r: Option<nat>)
    ensures r.Some? ==> r.value < |s| && s[r.value] == c
    ensures r.Some? ==> forall j | r.value < j < |s| :: s[j] != c
    ensures r.None? ==> forall j | 0 <= j < |s| :: s[j] != c
  {
    if |s| == 0 then None
    else if s[|s| - 1] == c then Some(|s| - 1)
    else LastIndexOf(s[..|s| - 1], c)
  }

  /**
   The text after the last '/' of a path, or the whole path when it has no
   '/' (the basename used for a synthesized soname).
   */
  function Basename(path: string): (b: string)
    ensures |b| <= |path| && path[|path| - |b|..] == b
    ensures forall j | 0 <= j < |b| :: b[j] != '/'
    ensures |b| == |path| || path[|path| - |b| - 1] == '/'
  {
    match LastIndexOf(path, '/')
    case Some(i) => path[i + 1..]
    case None => path
  }

  /** `first` is the index of the first occurrence of `c` in `s`. */
  predicate IsFirstIndex(s: string, c: char, first: nat) {
    first < |s| && s[first] == c && c !in s[..first]
  }

  /** The index of the first `c` in `s`, if any. */
  function IndexOf(s: string, c: char): (r: Option<nat>)
    ensures r.Some? ==> IsFirstIndex(s, c, r.value)
    ensures r.None? <==> c !in s
  {
    if |s| == 0 then None
    else if s[0] == c then Some(0)
    else
      match IndexOf(s[1..], c)
      case Some(i) =>
        assert s[1..][i] == s[i + 1];
        assert s[..i + 1] == [s[0]] + s[1..][..i];
        Some(i + 1)
      case None =>
        assert forall j | 1 <= j < |s| :: s[1..][j - 1] == s[j];
        None
  }

  /**
   The C string that starts at `off` in a file image: the characters up to,
   not including, the first NUL, or up to the end of the image when no NUL
   follows. This is the bounded reading of `rstrdup(filedata + off)`.
   */
  function CStringAt(image: string, off: nat): (r: string)
    requires off <= |image|
    ensures off + |r| <= |image| && image[off..off + |r|] == r
    ensures forall i | 0 <= i < |r| :: r[i] != '\0'
    ensures off + |r| == |image| || image[off + |r|] == '\0'
    decreases |image| - off
  {
    if off == |image| || image[off] == '\0' then ""
    else
      var rest := CStringAt(image, off + 1);
      assert image[off..off + 1 + |rest|] == [image[off]] + image[off + 1..off + 1 + |rest|];
      [image[off]] + rest
  }

  /** What a `strdup` from a pointer into a buffer copies. */
  datatype Copy = Copied(s: string) | ReadsPastEnd

  /**
   `rstrdup(filedata + off)` exactly as the C library runs it: it copies up
   to the first NUL and does not know where the buffer ends, so when no NUL
   follows `off` inside the image it reads beyond it.
   */
  function StrdupAsWritten(image: string, off: nat): (r: Copy)
    requires off <= |image|
    ensures r.ReadsPastEnd? <==> '\0' !in image[off..]
    ensures r.Copied? ==> r.s == CStringAt(image, off)
    decreases |image| - off
  {
    if off == |image| then ReadsPastEnd
    else if image[off] == '\0' then Copied("")
    else
      assert image[off..] == [image[off]] + image[off + 1..];
      match StrdupAsWritten(image, off + 1)
      case Copied(s) => Copied([image[off]] + s)
      case ReadsPastEnd => ReadsPastEnd
  }

  /**
   The interpreter segment's bounds check (`p_offset < maxsize`) admits an
   image with no NUL after the offset, and the copy then runs past the
   image: "/lib/ld.so" filling the image to its end is such a case.
   */
  lemma BoundsCheckAdmitsOverRead()
    ensures exists image: string, off: nat | off < |image| :: StrdupAsWritten(image, off) == ReadsPastEnd
  {
    var image := "/lib/ld.so";
    assert forall i | 0 <= i < |image| :: image[i] != '\0';
    assert '\0' !in image[0..];
    assert StrdupAsWritten(image, 0) == ReadsPastEnd;
  }
}
