/**
 * String helpers the view relies on: Java's `String.trim`, lower-casing,
 * `String.contains`, the bare form of a JID and the file-name part of a path.
 */
module Text {

  /** `String.trim` removes every character whose code is at most U+0020. */
  predicate IsTrimmed(c: char) {
    c <= ' '
  }

  /** The index of the first character at or after `i` that `String.trim` keeps (`|s|` if none). */
  function FirstKept(s: string, i: nat): (k: nat)
    requires i <= |s|
    ensures i <= k <= |s|
    ensures forall j :: i <= j < k ==> IsTrimmed(s[j])
    ensures k < |s| ==> !IsTrimmed(s[k])
    decreases |s| - i
  {
    if i < |s| && IsTrimmed(s[i]) then FirstKept(s, i + 1) else i
  }

  /** The end of the kept part: the index after the last kept character in `s[lo..hi]` (`lo` if none). */
  function KeptEnd(s: string, lo: nat, hi: nat): (e: nat)
    requires lo <= hi <= |s|
    ensures lo <= e <= hi
    ensures forall j :: e <= j < hi ==> IsTrimmed(s[j])
    ensures e > lo ==> !IsTrimmed(s[e - 1])
    decreases hi
  {
    if hi > lo && IsTrimmed(s[hi - 1]) then KeptEnd(s, lo, hi - 1) else hi
  }

  /** `r` is the slice of `s` at `k`, and everything before and after it is trimmable. */
  predicate TrimmedAround(s: string, r: string, k: int) {
    OccursAt(s, r, k)
    && (forall i :: 0 <= i < k ==> IsTrimmed(s[i]))
    && (forall i :: k + |r| <= i < |s| ==> IsTrimmed(s[i]))
  }

  /**
   * Java's `String.trim`: `s` without its leading and trailing spaces and
   * control characters, the slice in between left as it is.
   */
  function Trim(s: string): (r: string)
    ensures exists k :: TrimmedAround(s, r, k)
    ensures ContainsSlice(s, r)
    ensures r != [] ==> !IsTrimmed(r[0]) && !IsTrimmed(r[|r| - 1])
    ensures (forall i :: 0 <= i < |s| ==> IsTrimmed(s[i])) <==> r == []
  {
    var a := FirstKept(s, 0);
    var e := KeptEnd(s, a, |s|);
    var r := s[a..e];
    assert OccursAt(s, r, a);
    assert TrimmedAround(s, r, a);
    assert r != [] ==> r[0] == s[a] && r[|r| - 1] == s[e - 1];
    r
  }

  /** Trimming an already trimmed string changes nothing. */
  lemma TrimIdempotent(s: string)
    ensures Trim(Trim(s)) == Trim(s)
  {
    var r := Trim(s);
    assert FirstKept(r, 0) == 0;
    assert KeptEnd(r, 0, |r|) == |r|;
    assert r[0..|r|] == r;
  }

  /** ASCII lower-casing of one character. */
  function LowerChar(c: char): (r: char)
    ensures 'A' <= c <= 'Z' ==> 'a' <= r <= 'z' && r as int == c as int + 32
    ensures !('A' <= c <= 'Z') ==> r == c
  {
    if 'A' <= c <= 'Z' then (c as int - 'A' as int + 'a' as int) as char else c
  }

  /** `String.toLowerCase`, restricted to the ASCII letters. */
  function Lower(s: string): (r: string)
    ensures |r| == |s|
    ensures forall i :: 0 <= i < |s| ==> r[i] == LowerChar(s[i])
  {
    seq(|s|, i requires 0 <= i < |s| => LowerChar(s[i]))
  }

  /**
   * The length Java's `String.length` reports: the number of UTF-16 code
   * units, two for a character outside the Basic Multilingual Plane.
   */
  function Utf16Length(s: string): (r: nat)
    ensures |s| <= r <= 2 * |s|
    ensures (forall i :: 0 <= i < |s| ==> s[i] as int < 0x1_0000) ==> r == |s|
  {
    if s == [] then 0 else Utf16Length(s[..|s| - 1]) + Utf16Units(s[|s| - 1])
  }

  /** The UTF-16 code units of one character. */
  function Utf16Units(c: char): (r: nat)
    ensures r == 1 <==> c as int < 0x1_0000
    ensures r == 2 <==> c as int >= 0x1_0000
  {
    if c as int < 0x1_0000 then 1 else 2
  }

  /** Code units add up over concatenation. */
  lemma {:induction false} Utf16LengthAppend(a: string, b: string)
    ensures Utf16Length(a + b) == Utf16Length(a) + Utf16Length(b)
  {
    if b != [] {
      var b' := b[..|b| - 1];
      assert (a + b)[..|a + b| - 1] == a + b';
      Utf16LengthAppend(a, b');
    } else {
      assert a + b == a;
    }
  }

  /** `hay.contains(needle)`: `needle` occurs as a contiguous slice of `hay` (the empty string occurs everywhere). */
  predicate ContainsSlice(hay: string, needle: string) {
    exists i | 0 <= i <= |hay| - |needle| :: OccursAt(hay, needle, i)
  }

  /** `needle` occurs in `hay` starting at index `i`. */
  predicate OccursAt(hay: string, needle: string, i: int) {
    0 <= i <= |hay| - |needle| && hay[i..i + |needle|] == needle
  }

  /**
   * The bare JID of an address: everything before the first '/', that is
   * localpart@domainpart with the resourcepart dropped (section 3 of RFC 7622,
   * section 1.4 of RFC 6120).
   */
  function BareJid(jid: string): (r: string)
    ensures |r| <= |jid| && r == jid[..|r|]
    ensures '/' !in r
    ensures |r| < |jid| ==> jid[|r|] == '/'
  {
    if jid == [] || jid[0] == '/' then [] else [jid[0]] + BareJid(jid[1..])
  }

  /** A bare JID has no resource left to drop. */
  lemma {:induction false} BareJidIdempotent(jid: string)
    ensures BareJid(BareJid(jid)) == BareJid(jid)
  {
    var b := BareJid(jid);
    BareJidOfBare(b);
  }

  /** An address without '/' is already bare. */
  lemma {:induction false} BareJidOfBare(jid: string)
    requires '/' !in jid
    ensures BareJid(jid) == jid
  {
    if jid != [] {
      assert jid[0] in jid;
      assert forall c :: c in jid[1..] ==> c in jid;
      BareJidOfBare(jid[1..]);
    }
  }

  /** `Path.getFileName`: the part of `path` after its last '/'. */
  function FileName(path: string): (r: string)
    ensures |r| <= |path| && r == path[|path| - |r|..]
    ensures '/' !in r
    ensures |r| < |path| ==> path[|path| - |r| - 1] == '/'
  {
    if path == [] || path[|path| - 1] == '/' then [] else FileName(path[..|path| - 1]) + [path[|path| - 1]]
  }
}
