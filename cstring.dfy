/**
 * C strings as the C variant keeps them: a character buffer whose string is
 * the characters before the first NUL. The library routines it relies on,
 * `strncpy` (section 7.24.2.4 of ISO C11) and `strcspn` (section 7.24.5.3),
 * are modelled on the buffer contents.
 */
module CString {
  import opened Text

  const NUL: char := '\0'

  /** MAX_FILENAME_LENGTH: the size, terminator included, of every filename buffer. */
  const MaxFilenameLength: nat := 256

  function Min(a: nat, b: nat): nat { if a <= b then a else b }

  /** `strlen`: the number of characters before the first NUL of the buffer. */
  function StrLen(s: seq<char>): nat { IndexOf(s, NUL) }

  /** The string a buffer holds: its characters before the first NUL. */
  function CStr(s: seq<char>): seq<char> { s[..StrLen(s)] }

  /**
   * `strncpy(dst, src, n)`: copies the characters of `src` up to its first
   * NUL, at most `n` of them, and fills the rest of the `n` places with NUL.
   * The source buffer must be readable as far as the copy reads it: either
   * `n` characters or up to and including its NUL.
   */
  function StrNCpy(src: seq<char>, n: nat): (dst: seq<char>)
    requires n <= |src| || NUL in src
    ensures |dst| == n
    decreases n
  {
    if n == 0 then []
    else if src[0] == NUL then seq(n, _ => NUL)
    else
      assert NUL in src ==> NUL in src[1..] by {
        if NUL in src {
          var k :| 0 <= k < |src| && src[k] == NUL;
          assert src[1..][k - 1] == NUL;
        }
      }
      [src[0]] + StrNCpy(src[1..], n - 1)
  }

  /**
   * What `strncpy` leaves in its `n` places: the characters of the source
   * string, then NUL in every place past it. When `src` holds `n` or more
   * characters before its NUL, no terminator is written.
   */
  lemma {:induction false} StrNCpyAt(src: seq<char>, n: nat)
    requires n <= |src| || NUL in src
    ensures forall i :: 0 <= i < n ==>
      StrNCpy(src, n)[i] == if i < StrLen(src) then src[i] else NUL
    decreases n
  {
    if n > 0 && src[0] != NUL {
      assert NUL in src ==> NUL in src[1..] by {
        if NUL in src {
          var k :| 0 <= k < |src| && src[k] == NUL;
          assert src[1..][k - 1] == NUL;
        }
      }
      var rest := StrNCpy(src[1..], n - 1);
      StrNCpyAt(src[1..], n - 1);
      assert StrLen(src) == 1 + StrLen(src[1..]);
      forall i | 0 < i < n
        ensures StrNCpy(src, n)[i] == if i < StrLen(src) then src[i] else NUL
      {
        assert StrNCpy(src, n)[i] == rest[i - 1];
      }
    }
  }

  /**
   * The copy made at opensw.c lines 27-28 and 110-111: `strncpy` of at most
   * MAX_FILENAME_LENGTH - 1 characters, then a NUL forced into the last
   * place. The buffer is always terminated, holds at most 255 characters,
   * and its string is the source string cut to 255 characters.
   */
  function BoundedCopy(src: seq<char>): (buf: seq<char>)
    requires MaxFilenameLength - 1 <= |src| || NUL in src
    ensures |buf| == MaxFilenameLength && buf[MaxFilenameLength - 1] == NUL
    ensures StrLen(buf) <= MaxFilenameLength - 1
    ensures CStr(buf) == CStr(src)[..Min(StrLen(src), MaxFilenameLength - 1)]
  {
    var copied := StrNCpy(src, MaxFilenameLength - 1);
    var buf := copied + [NUL];
    var m := Min(StrLen(src), MaxFilenameLength - 1);
    StrNCpyAt(src, MaxFilenameLength - 1);
    assert buf[..m] == src[..m];
    IndexOfUnique(buf, NUL, m);
    buf
  }

  /**
   * `strcspn(s, reject)`: the length of the longest prefix of the string in
   * `s` that holds no character of `reject`. `s` must be NUL-terminated.
   */
  function Strcspn(s: seq<char>, reject: set<char>): (n: nat)
    requires NUL in s
    ensures n <= StrLen(s) < |s|
    ensures forall i :: 0 <= i < n ==> s[i] !in reject
    ensures n < StrLen(s) ==> s[n] in reject
  {
    if s[0] == NUL || s[0] in reject then 0
    else
      assert NUL in s[1..] by {
        var k :| 0 <= k < |s| && s[k] == NUL;
        assert s[1..][k - 1] == NUL;
      }
      1 + Strcspn(s[1..], reject)
  }

  /**
   * `buf[strcspn(buf, "\n")] = '\0'` (opensw.c line 117): afterwards the
   * buffer holds the string it held before, cut just before its first
   * newline, and so no newline at all.
   */
  lemma NewlineStrip(s: seq<char>)
    requires NUL in s
    ensures var t := s[Strcspn(s, {'\n'}) := NUL];
      CStr(t) == CStr(s)[..IndexOf(CStr(s), '\n')] && '\n' !in CStr(t)
  {
    var n := Strcspn(s, {'\n'});
    var t := s[n := NUL];
    assert t[..n] == s[..n] == CStr(s)[..n];
    IndexOfUnique(t, NUL, n);
    IndexOfUnique(CStr(s), '\n', n);
  }
}
