/** utils.c: the printable, blank-trimmed, always terminated string copy. */
module SafeCopy {
  import opened CText

  const NUL: char := '\0'

  function Sanitise(c: char): char {
    if IsPrint(c) then c else if IsSpace(c) then ' ' else '.'
  }

  function SanitiseAll(s: string): (r: string)
    ensures |r| == |s| && forall i :: 0 <= i < |s| ==> r[i] == Sanitise(s[i])
  {
    seq(|s|, i requires 0 <= i < |s| => Sanitise(s[i]))
  }

  // strlen of a buffer; the whole buffer when it holds no NUL.
  function CLength(s: seq<char>): (n: nat)
    ensures n <= |s| && NUL !in s[..n] && (n < |s| ==> s[n] == NUL)
  {
    if s == [] || s[0] == NUL then 0
    else
      var n := 1 + CLength(s[1..]);
      assert s[..n] == [s[0]] + s[1..][..n - 1];
      n
  }

  // The length left of s[..n] without its trailing blanks.
  function TrimTo(s: string, n: nat): (m: nat)
    requires n <= |s|
    ensures m <= n && (m > 0 ==> !IsSpace(s[m - 1]))
  {
    if n > 0 && IsSpace(s[n - 1]) then TrimTo(s, n - 1) else n
  }

  function TrimEnd(s: string): string {
    s[..TrimTo(s, |s|)]
  }

  // How many characters are copied before the terminator.
  function CopyLength(len: nat, src: seq<char>, srcLen: nat): (n: nat)
    requires len >= 1
    ensures n <= |src| && n < len
  {
    var n := if srcLen < CLength(src) then srcLen else CLength(src);
    if len - 1 < n then len - 1 else n
  }

  /** The string that ends up in the destination. */
  function Clean(len: nat, src: seq<char>, srcLen: nat): string
    requires len >= 1
  {
    TrimEnd(SanitiseAll(src[..CopyLength(len, src, srcLen)]))
  }

  function Nuls(n: nat): (s: string)
    ensures |s| == n && forall i :: 0 <= i < n ==> s[i] == NUL
  {
    seq(n, _ => NUL)
  }

  // The copying loop: the sanitised prefix and its terminator.
  method CopySanitised(dest: array<char>, len: nat, src: seq<char>, srcLen: nat) returns (dp: nat)
    requires 1 <= len <= dest.Length
    requires srcLen <= |src| || NUL in src
    modifies dest
    ensures dp == CopyLength(len, src, srcLen)
    ensures dest[..] == SanitiseAll(src[..dp]) + [NUL] + old(dest[dp + 1..])
  {
    var left, srcLeft := len, srcLen;
    dp := 0;
    while left > 1 && srcLeft > 0 && src[dp] != NUL
      invariant dp <= CopyLength(len, src, srcLen) && left == len - dp && srcLeft == srcLen - dp
      invariant forall i :: 0 <= i < dp ==> dest[i] == Sanitise(src[i])
      invariant forall i :: dp <= i < dest.Length ==> dest[i] == old(dest[i])
    {
      dest[dp] := if IsPrint(src[dp]) then src[dp] else if IsSpace(src[dp]) then ' ' else '.';
      dp, left, srcLeft := dp + 1, left - 1, srcLeft - 1;
    }
    dest[dp] := NUL;
  }

  // The trimming loop: every trailing blank before the terminator at n becomes a NUL.
  method TrimTrailing(dest: array<char>, n: nat) returns (dp: nat)
    requires n < dest.Length && dest[n] == NUL
    modifies dest
    ensures dp == TrimTo(old(dest[..]), n)
    ensures dest[..] == old(dest[..dp]) + Nuls(n + 1 - dp) + old(dest[n + 1..])
  {
    ghost var full := dest[..];
    dp := n;
    while dp > 0 && IsSpace(dest[dp - 1])
      invariant 0 <= dp <= n
      invariant TrimTo(full, n) == TrimTo(full, dp)
      invariant forall i :: 0 <= i < dp || n < i < dest.Length ==> dest[i] == full[i]
      invariant forall i :: dp <= i <= n ==> dest[i] == NUL
    {
      dp := dp - 1;
      dest[dp] := NUL;
    }
  }

  /** The destination holds the cleaned string, NULs up to and including the place of the
      untrimmed terminator, and its old contents after that. The source is readable up to
      its first NUL or for srcLen characters. */
  method StrncpySafe(dest: array<char>, len: nat, src: seq<char>, srcLen: nat)
    requires 1 <= len <= dest.Length
    requires srcLen <= |src| || NUL in src
    modifies dest
    ensures var c, n := Clean(len, src, srcLen), CopyLength(len, src, srcLen);
            dest[..] == c + Nuls(n + 1 - |c|) + old(dest[n + 1..])
  {
    ghost var before := dest[..];
    var n := CopySanitised(dest, len, src, srcLen);
    ghost var copied, text := dest[..], SanitiseAll(src[..n]);
    var dp := TrimTrailing(dest, n);
    TrimToPrefix(copied, text, n);
    CopyThenTrim(before, copied, text, dest[..], dp);
  }

  lemma CopyThenTrim(before: string, copied: string, text: string, after: string, dp: nat)
    requires dp <= |text| < |before| && copied == text + [NUL] + before[|text| + 1..]
    requires after == copied[..dp] + Nuls(|text| + 1 - dp) + copied[|text| + 1..]
    ensures after == text[..dp] + Nuls(|text| + 1 - dp) + before[|text| + 1..]
  {
    assert copied[..dp] == text[..dp] && copied[|text| + 1..] == before[|text| + 1..];
  }

  lemma {:induction false} TrimToPrefix(s: string, t: string, n: nat)
    requires n <= |s| && n <= |t| && forall i :: 0 <= i < n ==> s[i] == t[i]
    ensures TrimTo(s, n) == TrimTo(t, n)
  {
    if n > 0 { TrimToPrefix(s, t, n - 1); }
  }

  lemma {:induction false} FirstNul(c: string, after: string)
    requires NUL !in c
    ensures CLength(c + [NUL] + after) == |c|
  {
    if c != [] {
      assert (c + [NUL] + after)[1..] == c[1..] + [NUL] + after;
      FirstNul(c[1..], after);
    }
  }

  /** What every caller may rely on: it fits with its terminator, is printable and NUL-free,
      does not end in a blank, and reads back from the destination up to the first NUL. */
  lemma CleanIsPrintable(len: nat, src: seq<char>, srcLen: nat, after: string)
    requires len >= 1
    ensures var c := Clean(len, src, srcLen);
            && |c| < len
            && (forall i :: 0 <= i < |c| ==> IsPrint(c[i]))
            && (c != [] ==> c[|c| - 1] != ' ')
            && CLength(c + [NUL] + after) == |c|
  {
    var c := Clean(len, src, srcLen);
    FirstNul(c, after);
  }

  /** Copying a cleaned string again, with enough room, changes nothing. */
  lemma CleanIsIdempotent(len: nat, src: seq<char>, srcLen: nat, len': nat, srcLen': nat, after: string)
    requires len >= 1
    requires len' > |Clean(len, src, srcLen)| && srcLen' >= |Clean(len, src, srcLen)|
    ensures var c := Clean(len, src, srcLen); Clean(len', c + [NUL] + after, srcLen') == c
  {
    var c := Clean(len, src, srcLen);
    CleanIsPrintable(len, src, srcLen, after);
    assert (c + [NUL] + after)[..|c|] == c;
    assert SanitiseAll(c) == c;
  }

  /** Nothing but blanks and unprintable characters is ever altered. */
  lemma CleanKeepsPrintable(len: nat, src: string, srcLen: nat)
    requires |src| < len && |src| <= srcLen
    requires forall i :: 0 <= i < |src| ==> IsPrint(src[i])
    ensures Clean(len, src, srcLen) == TrimEnd(src)
  {
    assert NUL !in src;
    assert CLength(src) == |src|;
    assert src[..|src|] == src;
    assert SanitiseAll(src) == src;
  }

  /** Character by character: the printable ones are kept, white space becomes a blank and
      anything else a dot. */
  lemma SanitiseByCode(c: char)
    ensures var code := c as int;
            && (32 <= code <= 126 ==> Sanitise(c) == c)
            && (9 <= code <= 13 ==> Sanitise(c) == ' ')
            && (code < 9 || 13 < code < 32 || 126 < code ==> Sanitise(c) == '.')
  {}

  /** The string is the sanitised front of the source, without the blanks at its end: as much
      as fits, is asked for and comes before the first NUL. */
  lemma CleanIs(len: nat, src: seq<char>, srcLen: nat)
    requires len >= 1
    ensures var c, n := Clean(len, src, srcLen), CopyLength(len, src, srcLen);
            && |c| <= n && n <= |src| && NUL !in src[..n]
            && (n == len - 1 || n == srcLen || n == |src| || src[n] == NUL) && n <= len - 1 && n <= srcLen
            && (forall i :: 0 <= i < |c| ==> c[i] == Sanitise(src[i]))
            && (forall i :: |c| <= i < n ==> Sanitise(src[i]) == ' ')
            && (c != [] ==> c[|c| - 1] != ' ')
  {
    var n := CopyLength(len, src, srcLen);
    var t := SanitiseAll(src[..n]);
    assert forall i :: 0 <= i < n ==> t[i] == Sanitise(src[..n][i]);
    TrimmedIsBlank(t, |t|);
  }

  lemma {:induction false} TrimmedIsBlank(s: string, n: nat)
    requires n <= |s|
    ensures forall i :: TrimTo(s, n) <= i < n ==> IsSpace(s[i])
  {
    if n > 0 && IsSpace(s[n - 1]) { TrimmedIsBlank(s, n - 1); }
  }
}
