/**
 * The C string routines the request handling in api.c relies on, stated over Dafny strings:
 * `strchr`, `strrchr`, the in-place cut `*strchr(s, c) = '\0'`, and the reading of a
 * NUL-terminated string out of a character buffer.
 */
module CStrings {
  import opened Wrappers

  /** A C string holds no NUL character; the NUL that ends it is not part of its contents. */
  predicate NoNul(s: string) {
    '\0' !in s
  }

  /** `strchr(s, c)` for a character `c` other than NUL: the first index holding `c`, or None for NULL. */
  function FirstIndex(s: string, c: char): (r: Option<nat>)
    ensures r.Some? ==> r.value < |s| && s[r.value] == c && c !in s[..r.value]
    ensures r.None? <==> c !in s
  {
    if |s| == 0 then None
    else if s[0] == c then Some(0)
    else
      match FirstIndex(s[1..], c)
      case None => None
      case Some(i) =>
        assert s[..i + 1] == [s[0]] + s[1..][..i];
        Some(i + 1)
  }

  /** `strrchr(s, c)`: the last index holding `c`, or None for NULL. */
  function LastIndex(s: string, c: char): (r: Option<nat>)
    ensures r.Some? ==> r.value < |s| && s[r.value] == c && c !in s[r.value + 1..]
    ensures r.None? <==> c !in s
  {
    if |s| == 0 then None
    else if s[|s| - 1] == c then Some(|s| - 1)
    else
      var r := LastIndex(s[..|s| - 1], c);
      assert s == s[..|s| - 1] + [s[|s| - 1]];
      r
  }

  /**
   * The string left after `*strchr(s, c) = '\0'`: everything before the first `c`.
   * The three ensures determine the result (see CutAtUnique).
   */
  function CutAt(s: string, c: char): (r: string)
    ensures |r| <= |s| && r == s[..|r|]
    ensures c !in r
    ensures |r| < |s| ==> s[|r|] == c
  {
    match FirstIndex(s, c)
    case None => s
    case Some(i) => s[..i]
  }

  /** Any prefix free of `c` that stops at a `c` or at the end is the cut. */
  lemma CutAtUnique(s: string, c: char, r: string)
    requires |r| <= |s| && r == s[..|r|] && c !in r
    requires |r| < |s| ==> s[|r|] == c
    ensures CutAt(s, c) == r
  {
  }

  /** The contents of a C string stored at the start of a buffer: everything before the first NUL. */
  function Terminated(buf: seq<char>): (s: string)
    ensures NoNul(s) && |s| <= |buf| && s == buf[..|s|]
    ensures '\0' in buf ==> |s| < |buf| && buf[|s|] == '\0'
  {
    CutAt(buf, '\0')
  }

  /** A pointer `d` characters into a stored C string reads as the rest of that string. */
  lemma TerminatedSuffix(buf: seq<char>, d: nat)
    requires d <= |Terminated(buf)|
    ensures Terminated(buf[d..]) == Terminated(buf)[d..]
  {
    var s := Terminated(buf);
    assert buf[d..][..|s| - d] == s[d..];
    CutAtUnique(buf[d..], '\0', s[d..]);
  }

  /** A C string followed by its NUL reads back as itself. */
  lemma TerminatedString(s: string, rest: seq<char>)
    requires NoNul(s)
    ensures Terminated(s + ['\0'] + rest) == s
  {
    var b := s + ['\0'] + rest;
    assert b[..|s|] == s && b[|s|] == '\0';
    CutAtUnique(b, '\0', s);
  }

  /**
   * Writing NUL over the first `c` of the C string stored at the start of `buf` (the
   * `*strchr(s, c) = '\0'` idiom) leaves the C string cut at `c`.
   */
  lemma CutInPlace(buf: seq<char>, c: char, i: nat)
    requires c != '\0' && '\0' in buf
    requires FirstIndex(Terminated(buf), c) == Some(i)
    ensures i < |buf| && Terminated(buf[i := '\0']) == CutAt(Terminated(buf), c)
  {
    var s := Terminated(buf);
    var b := buf[i := '\0'];
    assert s[..i] == b[..i];
    CutAtUnique(b, '\0', s[..i]);
    CutAtUnique(s, c, s[..i]);
  }

  /**
   * Where a `while (p[0] == '/') p++;` loop that starts at index i of s stops: the first
   * index from i on that does not hold `/`, or the end.
   */
  function SlashesEnd(s: string, i: nat): (e: nat)
    requires i <= |s|
    ensures i <= e <= |s|
    ensures e < |s| ==> s[e] != '/'
    decreases |s| - i
  {
    if i < |s| && s[i] == '/' then SlashesEnd(s, i + 1) else i
  }

  /** Every character the loop steps over is a `/`. */
  lemma {:induction false} SlashesSkipped(s: string, i: nat, k: nat)
    requires i <= |s| && i <= k < SlashesEnd(s, i)
    ensures s[k] == '/'
    decreases k - i
  {
    if k > i {
      SlashesSkipped(s, i + 1, k);
    }
  }

  /** The whole run from i to `SlashesEnd(s, i)` is `/`. */
  lemma SlashesRun(s: string, i: nat)
    requires i <= |s|
    ensures forall k :: i <= k < SlashesEnd(s, i) ==> s[k] == '/'
  {
    forall k | i <= k < SlashesEnd(s, i) ensures s[k] == '/' {
      SlashesSkipped(s, i, k);
    }
  }

  /** The loop stops at e exactly when the characters from i up to e are `/` and the one at e is not. */
  lemma {:induction false} SlashesEndIs(s: string, i: nat, e: nat)
    requires i <= e <= |s| && (e < |s| ==> s[e] != '/')
    requires forall k :: i <= k < e ==> s[k] == '/'
    ensures SlashesEnd(s, i) == e
    decreases e - i
  {
    if i < e {
      SlashesEndIs(s, i + 1, e);
    }
  }
}
